# DNS-over-HTTPS gateway: request-to-answer model

This project is a Dafny model of the request-to-answer core of a
DNS-over-HTTPS gateway (`doh-server` with its `json-dns` helper package). An
HTTP request arrives in one of two forms: a JSON-style query (`name`,
`type`, `cd`, `edns_client_subnet`) or a wire-format query. The gateway
then does the following:

- it settles the request and answer formats;
- it builds a DNS query, with an EDNS Client Subnet (ECS) option that comes
  from the parameter or from the client's own address;
- it forces recursion for root queries;
- it answers from a two-tier fresh/stale cache, or else asks randomly picked
  upstreams over TLS, TCP or UDP, with a TCP retry for truncated UDP answers;
- it writes the answer as JSON with cache headers, or hands it to the
  wire-format formatter.

The modules follow the program:

| file | module | models |
|---|---|---|
| types.dfy | `Types` | machine integer ranges, `Option`, `Result` |
| text.dfy | `Text` | the Go string helpers the core uses (`strings.Split`, `SplitN`, `TrimSpace`, `EqualFold`, `ToLower`/`ToUpper`, `strconv.ParseUint`/`FormatUint`) |
| dns.dfy | `Dns` | DNS messages, records, EDNS options and addresses; the codec and library functions as oracles (`Lib`) |
| globalip.dfy | `GlobalIp` | `json-dns/globalip.go` |
| marshal.dfy | `JsonDns` | `json-dns/marshal.go`, `json-dns/response.go` |
| config.dfy | `Config` | `addressAndType`, `configError` |
| request.dfy | `Request` | the per-request state, `findClientIP`, `patchRootRD` |
| google.dfy | `Google` | `parseRequestGoogle`, `parseSubnet`, the header logic of `generateResponseGoogle` |
| upstream.dfy | `Upstream` | `indexQuestionType`, `performDNSQuery` |
| cache.dfy | `Cache` | `createCacheKey`, `doDNSQuery`, `refreshCache` |
| server.dfy | `Server` | `handlerFunc` |

The model takes these things as inputs:

- Library functions are fields of `Dns.Lib`:
  - `idna.ToASCII`, `dns.Fqdn`, `dns.StringToType`, `net.ParseIP`;
  - `net.SplitHostPort` (whether it succeeds) and `net.ResolveTCPAddr` (the address it yields);
  - IPv6 text formatting;
  - wire `Pack`/`Unpack`;
  - `rr.String()`;
  - `%q` quoting.
- The random upstream picks are a sequence of indices.
- The network is a function from an exchange (attempt, transport, address) to its reply.
- The key-value store is a map, or `None` when none is configured.
- Time is a natural number of seconds, with an HTTP-date formatter as a parameter.
- The wire-format request parser is a parameter.

A background refresh is returned as an event. `Cache.RefreshCache` gives
its effect on the store.

`isTailored` is set exactly when `edns_client_subnet` is empty
(doh-server/google.go:115), so a synthesised subnet gives
`Cache-Control: private` and an explicit one gives `public`
(`Google.ParseRequestGoogle`, `Google.ZeroSubnetParameter`).

## Model

| member | source | states |
|---|---|---|
| Text.Split | doh-server/server.go:300 | `strings.Split` on one separator: at least one piece, none containing the separator; `Text.JoinSplit` shows joining gives the input back |
| Text.JoinSplit | doh-server/server.go:300 | splitting loses nothing: joining the pieces with the separator rebuilds the input |
| Text.SplitN | json-dns/marshal.go:94 | `strings.SplitN`: at most n pieces, all but the last as `Split` gives them, the last holding the unsplit rest |
| Text.JoinSplitN | json-dns/marshal.go:94 | joining `SplitN`'s pieces rebuilds the input |
| Text.BeforeFirst | doh-server/server.go:233 | `SplitN(s, sep, 2)[0]` contains no separator and is either the whole input or a prefix followed by the separator |
| Text.BeforeFirstNoSep | doh-server/server.go:233 | without a separator the whole candidate is kept |
| Text.BeforeFirstSep | doh-server/server.go:233 | with a separator exactly the text before its first occurrence is kept |
| Text.TrimSpace | doh-server/server.go:301 | the result is a slice of the input with only white space cut from both ends, and has no white space at either end |
| Text.ToLower | doh-server/server.go:353 | same length, each character lowered |
| Text.ParseDecimal | doh-server/google.go:40 | `strconv.ParseUint(s, 10, bits)`: a value exactly for non-empty all-digit text whose value is within the bound, and that value is the numeral's decimal value |
| Text.LeadingZeroValue | doh-server/google.go:40 | a leading zero does not change a numeral's decimal value |
| Text.ParseDecimalLeadingZero | doh-server/google.go:40 | leading zeros are accepted and ignored, so `"0053"` parses as 53 |
| Text.ParseDecimalRoundTrip | doh-server/google.go:40 | the decimal text of any value within the bound parses back to that value |
| Dns.To4 | json-dns/marshal.go:67 | `net.IP.To4`: a four-byte form exists exactly for 4-byte and IPv4-mapped 16-byte addresses, and the mapped address is the prefix plus that form |
| GlobalIp.LookupForm | json-dns/globalip.go:105 | the prefix tree looks up an IPv4-mapped address by its IPv4 part, and other addresses as they are |
| GlobalIp.Contains4 | json-dns/globalip.go:16-73 | containment in a four-byte prefix is masked equality, byte by byte |
| GlobalIp.InTableCases | json-dns/globalip.go:11-98 | table membership is membership in one of the 14 listed prefixes |
| GlobalIp.InTableV4 | json-dns/globalip.go:14-73 | for IPv4, masked equality against the table agrees with the ten IPv4 prefixes the table takes from RFC 6890, written as first-last bounds |
| GlobalIp.ContainsUnspecified6 | json-dns/globalip.go:75-80 | ::/127 holds exactly :: and ::1 |
| GlobalIp.ContainsDiscard6 | json-dns/globalip.go:82-86 | 100::/64 holds exactly the addresses starting 0100:0000:0000:0000 |
| GlobalIp.ContainsUniqueLocal | json-dns/globalip.go:88-92 | fc00::/7 holds exactly the addresses whose first byte is fc or fd |
| GlobalIp.ContainsLinkLocal6 | json-dns/globalip.go:94-98 | fe80::/10 holds exactly the addresses starting fe80 to febf |
| GlobalIp.InTableV6 | json-dns/globalip.go:75-98 | for IPv6, masked equality against the table agrees with the four IPv6 prefixes the table takes from RFC 6890, written as ranges |
| GlobalIp.IsGlobalIPRanges | json-dns/globalip.go:101-107 | an address is global exactly when its lookup form lies in none of the special ranges of its family |
| GlobalIp.DocumentationRangesAreGlobal | json-dns/globalip.go:101-107 | ranges the table omits (192.0.2.0/24, 2001:db8::/32) are judged global, and nil never is |
| GlobalIp.MappedJudgedAsV4 | json-dns/globalip.go:105 | an IPv4-mapped IPv6 address is global exactly when its IPv4 part is |
| JsonDns.RecordData | json-dns/marshal.go:94-97 | the data is the fifth tab-separated field of the presentation text and everything after it, so the first four fields, a tab and the data rebuild the text; "" with fewer than five fields |
| JsonDns.MarshalRR | json-dns/marshal.go:86-98 | name, type and TTL copied, expiry is now plus TTL and its JSON `Expires` text is that time in RFC 1123 form, data is the fifth tab-separated field of the presentation text and everything after it, or "" with fewer than five fields |
| JsonDns.MarshalAll | json-dns/marshal.go:32-52 | a section is projected record by record, same length and order |
| JsonDns.NonOpt | json-dns/marshal.go:54-81 | the additional section without OPT records: no OPT left, nothing dropped when there was none |
| JsonDns.NonOptMembers | json-dns/marshal.go:54-81 | a record is kept exactly when it is in the section and is not OPT, so none is dropped or invented |
| JsonDns.NonOptAppend | json-dns/marshal.go:54-81 | dropping OPT records distributes over concatenation, so the three sections can be folded as one list |
| JsonDns.FoldTtl | json-dns/marshal.go:35-39 | the running minimum holds a TTL exactly when some record was seen, is at most every TTL seen, and is attained by a record whose expiry it keeps |
| JsonDns.ExtendStatus | json-dns/marshal.go:60 | the status stays below 4096, keeps the header RCODE's low four bits, takes its top four bits from the OPT TTL's top four bits, and its middle four bits are the OR of the OPT TTL's bits 24-27 with the status's bits 4-7 |
| JsonDns.ExtendedRcode | json-dns/marshal.go:60 | with a four-bit header RCODE the status is the twelve-bit extended RCODE of section 6.1.3 of RFC 6891: the OPT's upper eight bits times 16 plus the RCODE |
| JsonDns.OptStatus | json-dns/marshal.go:55-60 | without OPT records the status is the RCODE; with any it is below 4096 |
| JsonDns.SingleOptStatus | json-dns/marshal.go:60 | with a single OPT record the status is that record's extension of the RCODE |
| JsonDns.EcsTextFacts | json-dns/marshal.go:63-70 | the ECS text reports the scope, never the source prefix length; an absent address reads 0.0.0.0; an IPv4-mapped address reads as its IPv4 part |
| JsonDns.EcsOptions | json-dns/marshal.go:61-72 | the loop over one OPT record's options leaves the text of its last ECS option |
| JsonDns.EcsFoldLastWins | json-dns/marshal.go:55-72 | across all OPT records the last ECS option wins |
| JsonDns.LeastTtlOf | json-dns/marshal.go:32-81 | a TTL is held exactly for a non-empty list; it is the minimum over the records, attained by one of them, and expires at now plus that minimum |
| JsonDns.Marshal | json-dns/marshal.go:12-84 | flags copied; questions copied in order; answer and authority projected; additional projected without OPT; status from the OPT loop; least TTL over answer, authority and non-OPT additional records; ECS text of the last ECS option |
| JsonDns.MarshalStatus | json-dns/marshal.go:16-60 | the status is the header RCODE when there is no OPT record, and then the additional section is passed through whole; with an OPT record it is an extended RCODE below 4096 |
| JsonDns.UnmarshalQuestionList | json-dns/response.go:10-25 | input starting with `[` is decoded as a list into the receiver as it stands; anything else, the empty input included, as one question giving a one-element list, and a failed decode leaves the list unchanged |
| JsonDns.LeadingSpaceIsSingle | json-dns/response.go:16 | white space before `[` sends the input down the single-question path, so at most one question results |
| Config.AddressAndType | doh-server/config.go:25-34 | a tag is returned exactly when `^[a-z-]+(:)` matches; then the tag is the text before the matching colon and the address the text after it; otherwise both are empty |
| Config.MatchIsMaximalRun | doh-server/config.go:25-28 | the pattern's colon can only follow the maximal leading run of tag characters |
| Config.AddressAndTypeRebuilds | doh-server/config.go:33 | on a match, tag, colon and address rebuild the input, further colons staying in the address |
| Config.AddressAndTypeExamples | doh-server/config.go:25-34 | `udp:8.8.8.8:53` splits into `8.8.8.8:53` and `udp`, `tcp-tls:dns.google:853` into `dns.google:853` and `tcp-tls` |
| Config.AddressAndTypeRejects | doh-server/config.go:29-31 | an upper-case or digit first character, a missing colon, an empty tag and the empty input give two empty strings |
| Request.FirstGlobal | doh-server/server.go:298-307 | the first X-Forwarded-For entry naming a global address, or none exactly when no entry does |
| Request.FindClientIP | doh-server/server.go:292-326 | `no_ecs=true` in any case suppresses the address; the first global forwarded address wins whatever the configuration; then X-Real-IP, then the rewritten `RemoteAddr` as the resolver reads it, each taken when non-global addresses are allowed or it is global; without that permission only global addresses come back |
| Request.UnparseableRealIpStops | doh-server/server.go:308-324 | when non-global addresses are allowed, an unparseable X-Real-IP gives no address without asking the resolver; when they are not, the rewritten `RemoteAddr` (X-Real-IP again) is resolved and used exactly when global |
| Request.RewrittenRemoteAddr | doh-server/server.go:184-194 | without X-Real-IP, `RemoteAddr` is kept; with it, `RemoteAddr` becomes X-Real-IP with port 0, or the bare value when that does not split into host and port |
| Request.WithZeroPort | doh-server/server.go:185-189 | the host followed by `:0`, bracketed exactly when it holds a colon, so the host can be read back |
| Request.RealIpHidesPeer | doh-server/server.go:184-194 | once X-Real-IP is set, the client address does not depend on the connection's peer address |
| Request.NonGlobalRealIpGivesNone | doh-server/server.go:308-324 | without permission for non-global addresses, a non-global X-Real-IP literal yields no address when the resolver reads it as `net.ParseIP` does |
| Request.RootPatched | doh-server/server.go:330-334 | after the loop RD is set exactly when it was set before or some question names the root |
| Request.PatchRootRD | doh-server/server.go:329-336 | RD is set exactly when it was set or some question is `.`, and nothing else in the request or its state changes |
| Request.PatchRootRDIdempotent | doh-server/server.go:329-336 | patching twice is patching once |
| Google.ParseType | doh-server/google.go:37-49 | empty means A; a decimal up to 65535 is taken as is; otherwise, including an all-digit value above 65535, the upper-cased mnemonic is looked up; failure is a 400 text quoting the value |
| Google.ParseTypeDecimal | doh-server/google.go:40-41 | the decimal text of any type code reads back as that code, whatever the mnemonic table holds |
| Google.ParseCd | doh-server/google.go:51-61 | true exactly for "1" or any case of "true"; false exactly for "0", any case of "false" or ""; anything else fails, quoting the value |
| Google.ParseCdExamples | doh-server/google.go:53-55 | "TRUE" and "True" set the flag, "falſe" (with U+017F) clears it under Unicode simple folding, "yes" is refused |
| Google.Classify | doh-server/google.go:127-134 | family 1 with the four-byte form exactly for IPv4 (IPv4-mapped included), otherwise family 2 with the address unchanged |
| Google.SubnetParts | doh-server/google.go:120-147 | the value splits at its first slash into an address part without a slash and a prefix-length part, and they rebuild the value |
| Google.ParseSubnet | doh-server/google.go:119-156 | without a slash the address must parse and the mask is 24 or 56 by family; with a slash the address before the first slash must parse and the mask is the decimal after it, up to 255; failures give the quoted-value error |
| Google.ParseSubnetMaskUnchecked | doh-server/google.go:141-152 | any prefix length up to 255 is accepted for either family, /33 on IPv4 and /129 on IPv6 included, with the family and address of the parsed address |
| Google.ParseSubnetRejects | doh-server/google.go:122-151 | an address that does not parse fails with or without a prefix length, and a prefix length above 255 fails |
| Google.Synthesised | doh-server/google.go:81-91 | a subnet is synthesised exactly when there is a client address: /24 with the four-byte form for IPv4, /56 otherwise |
| Google.EcsChoice | doh-server/google.go:63-92 | a given parameter, with "0/0" read as "0.0.0.0/0", is parsed and its failure is the request's failure; otherwise the subnet is synthesised from the client address |
| Google.OptRecord | doh-server/google.go:97-111 | the OPT record is owned by `.`, advertises 4096 bytes, has a TTL of exactly the DO bit (EDNS version 0, extended RCODE 0), and carries one ECS option with scope 0 exactly when there is a subnet |
| Google.BuildQuery | doh-server/google.go:94-111 | one question (the fully qualified name, the type, class IN), recursion desired, CD as given, empty answer and authority, and the OPT record as the only additional record |
| Google.ParseRequestGoogle | doh-server/google.go:20-117 | every failure is a 400; the checks run in the order name, IDNA conversion, type, cd, subnet, and the first failure's text is returned; the request is accepted exactly when name, type, cd and subnet all pass; the query carries the converted name, type, CD and chosen subnet; tailored exactly when no subnet parameter was given |
| Google.ZeroSubnet | doh-server/google.go:68-69 | "0.0.0.0/0" parses to a zero-length IPv4 prefix, whether `net.ParseIP` yields the four-byte or the IPv4-mapped form |
| Google.ZeroSubnetParameter | doh-server/google.go:67-79 | the parameter "0/0" sends a zero-length IPv4 prefix and marks the answer as not tailored, for either form `net.ParseIP` may yield |
| Google.CacheControlReadsBack | doh-server/google.go:172-177 | the header starts with "private, max-age=" exactly when tailored, else "public, max-age=", and its number reads back as the least TTL |
| Google.GoogleReply | doh-server/google.go:158-192 | Content-Type, Date, `Last-Modified` (the current date) and `Vary: Accept` always, and no headers beyond the seven it sets; status 503 exactly for SERVFAIL, else 200; Cache-Control and Expires exactly when the answer has a TTL, with the least TTL and earliest expiry; X-Cache-Status only when the status is not 503, HIT exactly when the answer came from the cache |
| Upstream.IndexQuestionType | doh-server/server.go:339-346 | the position of the first question of the type, or -1 exactly when none has it |
| Upstream.ExchangeFacts | doh-server/server.go:430-447 | every exchange goes to the address of the upstream it was given; `tcp-tls` uses TLS; UDP is used exactly for `udp` without a zone-transfer question; a second exchange, over TCP, happens exactly when the UDP reply is a truncated answer; an unknown tag makes no exchange and is a configuration error |
| Upstream.Run | doh-server/server.go:428-454 | the loop stops at the first attempt that does not fail; every earlier attempt failed; an answer is that attempt's reply; "all failed" exactly when every attempt fails; the current upstream is the last one picked |
| Upstream.Resolve | doh-server/server.go:426-455 | at most `tries` attempts; every attempt before the last failed; an answer comes from the last attempt; a configuration error ends the loop; "all upstream servers failed" exactly when every attempt fails |
| Upstream.CallsGoToPickedUpstreams | doh-server/server.go:429-444 | every exchange made goes to the address of the upstream its attempt picked, and to no attempt beyond the last |
| Upstream.RunStopsAtFirstDecisive | doh-server/server.go:449-451 | the first attempt that does not fail decides the result, the number of attempts and the current upstream |
| Upstream.FirstDecisiveAttempt | doh-server/server.go:428-451 | the same for the resolver: attempt k decides, with its answer or the configuration error |
| Upstream.NoTries | doh-server/server.go:428-454 | with zero tries nothing is asked and the result is "all upstream servers failed" |
| Upstream.AllAttemptsFail | doh-server/server.go:428-454 | when every attempt fails, exactly `tries` attempts are made and the current upstream is the last picked |
| Upstream.TruncationFallback | doh-server/server.go:440-443 | a truncated UDP answer is replaced by the TCP answer from the same address, and an untruncated one is kept |
| Upstream.ZoneTransferUsesTcp | doh-server/server.go:437-438 | a query with a zone-transfer question goes over TCP even to a `udp` upstream |
| Cache.CreateCacheKey | doh-server/server.go:348-354 | the key is empty exactly when there is no question, and is otherwise the first question's key |
| Cache.QuestionKeyEndsInDigit | doh-server/server.go:353 | a question's key ends in a digit |
| Cache.StaleKeyIsNeverFresh | doh-server/server.go:377 | a stale key is never the fresh key of any question, so the two tiers cannot overwrite each other |
| Cache.QuestionKeyInjective | doh-server/server.go:353 | two questions share a key exactly when their names agree after lowering and their types are equal |
| Cache.Put | doh-server/server.go:399-400 | both keys are written with the payload, the fresh one for 300 seconds and the stale one for 600, and every other entry is kept |
| Cache.Answered | doh-server/server.go:389-402 | an upstream error becomes its text and leaves the store alone; an answer is returned with the upstream that gave it and is written under both keys exactly when there is a store, the answer section is non-empty and it packs |
| Cache.DoDNSQuery | doh-server/server.go:356-405 | an answer always carries the query as sent; no question fails with the no-question text before any lookup; a hit answers from the cache with a refresh exactly when it was the stale tier; a miss asks the upstreams |
| Cache.FreshEntryAnswers | doh-server/server.go:365-374 | a decodable fresh entry answers from the cache with no refresh, no upstream and no write |
| Cache.StaleEntryAnswersAndRefreshes | doh-server/server.go:376-386 | failing that, a decodable stale entry answers from the cache and schedules exactly one refresh of the fresh key |
| Cache.MissAsksUpstreams | doh-server/server.go:389-392 | failing both, the upstreams are asked and the answer is not marked as cached |
| Cache.NoStoreAlwaysAsks | doh-server/server.go:365-392 | without a store every question goes to the upstreams, nothing is written or refreshed, and nothing is marked as cached |
| Cache.WriteBackIsHit | doh-server/server.go:394-401 | an upstream answer that is written back is found fresh by the next lookup of the same key, when unpacking inverts packing |
| Cache.Refreshed | doh-server/server.go:410-423 | once the upstreams have answered, the refresh writes both keys whenever the answer packs, and leaves the store alone on an error or a packing failure |
| Cache.RefreshCache | doh-server/server.go:407-424 | the refresh asks the upstreams again from a request with no upstream recorded, and adds either no key or exactly the key and its stale twin |
| Cache.RefreshWritesEmptyAnswers | doh-server/server.go:394-424 | an answer with an empty answer section is written back by the refresh but not by the lookup |
| Server.RequestType | doh-server/server.go:219-230 | `ct` overrides the Content-Type header; only with both empty does `name` mean JSON, else `dns` means wire format; empty exactly when all four are |
| Server.Offered | doh-server/server.go:232-243 | judged on the text before its first `;`, `application/json` names JSON, and `application/dns-message` or `application/dns-udpwireformat` name the wire format; nothing else names a format |
| Server.FirstOffered | doh-server/server.go:231-244 | the format of the first candidate naming one, and none exactly when no candidate does |
| Server.Mirrored | doh-server/server.go:245-254 | the mirror of a request format exists exactly for the three known ones, is JSON exactly for the JSON request format, and `application/dns-message` exactly for the two wire request formats |
| Server.ResponseType | doh-server/server.go:231-254 | the first named format wins; otherwise, for a known request format, its mirror; undefined exactly when neither exists |
| Server.SpacedCandidateIgnored | doh-server/server.go:232-233 | candidates are not trimmed: one starting with a space is not recognised |
| Server.ParametersIgnored | doh-server/server.go:233 | parameters after `;` do not change what a candidate names: JSON for `application/json`, the wire format for either wire name |
| Server.Parse | doh-server/server.go:256-262 | the JSON request format goes to the JSON parser, the two wire formats to the wire-format parser |
| Server.Admit | doh-server/server.go:256-273 | an unknown request format is a 415 quoting it, before any parsing; a parser failure is written as its error, except 444 which writes nothing |
| Server.Respond | doh-server/server.go:283-289 | JSON exactly when JSON was chosen, as the projected answer with its headers; otherwise the state goes to the wire-format formatter |
| Server.Serve | doh-server/server.go:275-289 | the patched request goes to the cache; a failure is a 503 carrying the error text; an answer is written in the chosen format |
| Server.Handle | doh-server/server.go:181-290 | a refused request reaches neither the cache nor the upstreams; an admitted one always has an answer format, so the unknown-format panic is unreachable |
| Server.JsonExactlyWhenAskedFor | doh-server/server.go:231-254 | an answer is JSON exactly when the first Accept candidate naming a format names JSON, or none does and the request was JSON |
| Server.JsonRequestAlwaysAnswered | doh-server/server.go:266-268 | the JSON parser never uses the 444 status, so a JSON request always gets a reply |
| Server.RootQueriesRecurse | doh-server/server.go:275-277 | a query about the root reaches the cache, and so the upstreams, with recursion desired, whether or not the lookup succeeds |

## Left out

- doh-server/main.go is not part of this model: configuration loading, environment overrides, the PID file and the listeners.
- `NewServer` and `Start` are not part of this model: client construction, TLS material, Redis set-up and the listener goroutines are I/O.
- The miekg/dns clients, timeouts and contexts are not modelled. An exchange is the `Upstream.Network` function, which always yields an answer or an error, never neither. The log line at doh-server/server.go:452 would dereference a nil error in that impossible case.
- `rand.Intn` is a sequence of picks. `Upstream.Env.Valid` demands a valid index for every try, which excludes an empty upstream list with a positive try count; the source panics there.
- Redis is not modelled as such. The store is a map and an entry's lifetime is recorded but does not expire. A failed `Get` is an absent key and a failed `Set` is not modelled. The refresh goroutine is an event, and `Cache.RefreshCache` is its effect.
- The wire-format parser and formatter (`parseRequestIETF`, `generateResponseIETF`) are not part of this model. The parser is a parameter. A wire-format answer is the request state handed to the formatter.
- json-dns/error.go (`FormatError`) is not part of this model. An error reply is its status and text.
- The JSON encoding of the response is not modelled, so neither is the 500 reply when that encoding fails (doh-server/google.go:160-165). The body is the `JsonDns.Response` value.
- The CORS, `Server` and `X-Powered-By` headers are not modelled. Neither are the `OPTIONS` short-circuit and the debug-header logging, because they carry no logic.
- `net.SplitHostPort` and `net.ResolveTCPAddr` are oracles in `Dns.Lib`. The rewrite of `RemoteAddr` from X-Real-IP is modelled, but what the resolver makes of a host name is not.
- Time formatting is a parameter: `http.TimeFormat` is the `date` argument of `Google.GoogleReply`, and `time.RFC1123` is `Dns.Lib.rfc1123`. Times are whole seconds.
- The message ID set by `SetQuestion` is not modelled.
- Text.ToLower: lowers ASCII letters only, while Go's `strings.ToLower` also lowers other Unicode letters. DNS names from the codec are ASCII, but the cache key of a non-ASCII name is not modelled.
- Google.ParseType: the mnemonic lookup upper-cases ASCII letters only, where `strings.ToUpper` is Unicode-aware. The mnemonic table is an oracle.
- `%q` quoting is the `Dns.Lib.quote` oracle, and the escaping rules are not modelled.
- The JSON decoders that `JsonDns.UnmarshalQuestionList` dispatches to are parameters.
- Upstream.Exchange: its own contract only says that an error is the configuration error. What each transport does is stated by `Upstream.ExchangeFacts`, which keeps that contract out of the loop's proofs.
