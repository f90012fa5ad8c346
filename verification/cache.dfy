/**
 The answer cache in front of the resolver (doh-server/server.go): a key per
 question, a fresh entry kept five minutes and a stale copy kept ten, a
 background refresh when only the stale copy is left, and write-back of
 upstream answers. The key-value store is a map, absent when no store is
 configured; the background refresh is recorded as an event rather than run.
 */
module Cache {

  import opened Types
  import Text
  import Dns
  import Request
  import Upstream

  /** Seconds a fresh entry lives; the stale copy lives twice as long. */
  const CacheTtl: nat := 300
  const StaleSuffix: string := ":stale"
  const NoQuestion: string := "invalid DNS request: no question"

  datatype Entry = Entry(payload: seq<byte>, ttl: nat)

  type Store = map<string, Entry>

  /** A background refresh of `key` by re-sending `request`. */
  datatype RefreshEvent = RefreshEvent(key: string, request: Dns.Msg)

  /** The key of a question: its name in lower case and its type. */
  function QuestionKey(q: Dns.Question): string
  {
    "dns:" + Text.ToLower(q.name) + ":" + Text.Decimal(q.qtype)
  }

  /** `createCacheKey`: the first question's key, or "" without a question. */
  function CreateCacheKey(msg: Dns.Msg): (key: string)
    ensures key == "" <==> |msg.question| == 0
    ensures |msg.question| > 0 ==> key == QuestionKey(msg.question[0])
  {
    if |msg.question| == 0 then "" else QuestionKey(msg.question[0])
  }

  /** The last character of a non-empty key is a digit. */
  lemma QuestionKeyEndsInDigit(q: Dns.Question)
    ensures var k := QuestionKey(q); |k| > 0 && Text.IsDigit(k[|k| - 1])
  {
    var d := Text.Decimal(q.qtype);
    var k := QuestionKey(q);
    assert k[|k| - 1] == d[|d| - 1];
  }

  /** A stale key is never the fresh key of any question, so the two tiers
      cannot overwrite each other. */
  lemma StaleKeyIsNeverFresh(q: Dns.Question, other: Dns.Question)
    ensures QuestionKey(q) + StaleSuffix != QuestionKey(other)
  {
    QuestionKeyEndsInDigit(other);
    var s := QuestionKey(q) + StaleSuffix;
    assert s[|s| - 1] == 'e';
  }

  /** Where the parts of `p + ":" + d` sit. */
  lemma ColonLayout(p: string, d: string)
    ensures var s := p + ":" + d;
      && |s| == |p| + 1 + |d| && s[|p|] == ':'
      && (forall i :: 0 <= i < |p| ==> s[i] == p[i])
      && (forall i :: |p| < i < |s| ==> s[i] == d[i - |p| - 1])
  {
  }

  /** A string whose tail has no ':' splits uniquely at its last ':'. */
  lemma {:induction false} SplitAtLastColon(p1: string, d1: string, p2: string, d2: string)
    requires ':' !in d1 && ':' !in d2
    requires p1 + ":" + d1 == p2 + ":" + d2
    ensures p1 == p2 && d1 == d2
  {
    var s := p1 + ":" + d1;
    ColonLayout(p1, d1);
    ColonLayout(p2, d2);
    assert |p1| == |p2|;
    assert d1 == s[|p1| + 1..] == d2;
    assert p1 == s[..|p1|] == p2;
  }

  lemma DigitsHaveNoColon(s: string)
    requires Text.AllDigits(s)
    ensures ':' !in s
  {
  }

  /** Two questions share a key exactly when their names agree up to ASCII
      case and their types are equal. */
  lemma QuestionKeyInjective(q1: Dns.Question, q2: Dns.Question)
    ensures QuestionKey(q1) == QuestionKey(q2) <==>
      Text.ToLower(q1.name) == Text.ToLower(q2.name) && q1.qtype == q2.qtype
  {
    if QuestionKey(q1) == QuestionKey(q2) {
      var d1 := Text.Decimal(q1.qtype);
      var d2 := Text.Decimal(q2.qtype);
      DigitsHaveNoColon(d1);
      DigitsHaveNoColon(d2);
      SplitAtLastColon("dns:" + Text.ToLower(q1.name), d1, "dns:" + Text.ToLower(q2.name), d2);
      assert Text.ToLower(q1.name) == ("dns:" + Text.ToLower(q1.name))[4..];
      assert Text.ToLower(q2.name) == ("dns:" + Text.ToLower(q2.name))[4..];
      Text.DecimalValueOfDecimal(q1.qtype);
      Text.DecimalValueOfDecimal(q2.qtype);
    }
  }

  /** The answer a store holds under `key`, if it decodes. */
  function Cached(lib: Dns.Lib, store: Store, key: string): Option<Dns.Msg>
  {
    if key in store then lib.unpack(store[key].payload) else None
  }

  /** The two writes of a cached answer: fresh for 300 seconds, stale for 600. */
  function Put(store: Store, key: string, payload: seq<byte>): (r: Store)
    ensures r.Keys == store.Keys + {key, key + StaleSuffix}
    ensures r[key] == Entry(payload, CacheTtl)
    ensures r[key + StaleSuffix] == Entry(payload, 2 * CacheTtl)
    ensures forall k :: k in store && k != key && k != key + StaleSuffix ==> r[k] == store[k]
  {
    store[key := Entry(payload, CacheTtl)][key + StaleSuffix := Entry(payload, 2 * CacheTtl)]
  }

  /** What a lookup leaves behind: the request with its answer, or the error
      text; the store; the refreshes scheduled; and the resolver run, if the
      upstreams were asked. */
  datatype Lookup = Lookup(
    result: Result<Request.DnsRequest, string>,
    store: Option<Store>,
    refresh: seq<RefreshEvent>,
    resolved: Option<Upstream.Outcome>)

  /** Did the lookup hit the fresh or the stale entry? */
  function Hit(lib: Dns.Lib, store: Option<Store>, key: string): Option<(Dns.Msg, bool)>
  {
    match store
    case None => None
    case Some(s) =>
      match Cached(lib, s, key)
      case Some(m) => Some((m, false))
      case None =>
        match Cached(lib, s, key + StaleSuffix)
        case Some(m) => Some((m, true))
        case None => None
  }

  /** The miss path of `doDNSQuery` once the upstreams have been asked: an
      error becomes its text; an answer is returned with the upstream that
      gave it, and is written back under both keys when a store is present,
      its answer section has records and it packs. */
  function Answered(lib: Dns.Lib, store: Option<Store>, req: Request.DnsRequest, key: string,
                    outcome: Upstream.Outcome): (r: Lookup)
    ensures r.resolved == Some(outcome) && r.refresh == []
    ensures outcome.result.Err? ==> r.result == Err(outcome.result.error.Text()) && r.store == store
    ensures outcome.result.Ok? ==>
      r.result == Ok(req.(response := Some(outcome.result.value), currentUpstream := outcome.currentUpstream))
    ensures (&& store.Some? && outcome.result.Ok? && |outcome.result.value.answer| > 0
             && lib.pack(outcome.result.value).Some?)
      ==> r.store == Some(Put(store.value, key, lib.pack(outcome.result.value).value))
    ensures !(&& store.Some? && outcome.result.Ok? && |outcome.result.value.answer| > 0
              && lib.pack(outcome.result.value).Some?)
      ==> r.store == store
  {
    match outcome.result
    case Err(e) => Lookup(Err(e.Text()), store, [], Some(outcome))
    case Ok(m) =>
      var answered := req.(response := Some(m), currentUpstream := outcome.currentUpstream);
      var written :=
        if store.Some? && |m.answer| > 0 && lib.pack(m).Some? then Some(Put(store.value, key, lib.pack(m).value))
        else store;
      Lookup(Ok(answered), written, [], Some(outcome))
  }

  /** `doDNSQuery`. Without a question nothing is looked up or asked. With a
      store, a decodable fresh entry answers; failing that, a decodable stale
      entry answers and schedules one refresh. Otherwise the upstreams are
      asked, and an answer with records in its answer section is written
      back under both keys when it packs. */
  function DoDNSQuery(lib: Dns.Lib, env: Upstream.Env, store: Option<Store>, req: Request.DnsRequest): (r: Lookup)
    requires env.Valid()
    ensures CreateCacheKey(req.request) == "" ==> r == Lookup(Err(NoQuestion), store, [], None)
    ensures r.result.Ok? ==> r.result.value.request == req.request && r.result.value.response.Some?
    ensures CreateCacheKey(req.request) != "" && Hit(lib, store, CreateCacheKey(req.request)).Some? ==>
      var (m, stale) := Hit(lib, store, CreateCacheKey(req.request)).value;
      && r.result == Ok(req.(response := Some(m), fromCache := true))
      && r.store == store && r.resolved.None?
      && r.refresh == (if stale then [RefreshEvent(CreateCacheKey(req.request), req.request)] else [])
    ensures CreateCacheKey(req.request) != "" && Hit(lib, store, CreateCacheKey(req.request)).None? ==>
      r == Answered(lib, store, req, CreateCacheKey(req.request), Upstream.Resolve(env, req.request, req.currentUpstream))
  {
    var key := CreateCacheKey(req.request);
    if key == "" then Lookup(Err(NoQuestion), store, [], None)
    else match Hit(lib, store, key)
      case Some((m, stale)) =>
        Lookup(Ok(req.(response := Some(m), fromCache := true)), store,
               if stale then [RefreshEvent(key, req.request)] else [], None)
      case None => Answered(lib, store, req, key, Upstream.Resolve(env, req.request, req.currentUpstream))
  }

  /** A decodable fresh entry answers from the cache, with no refresh. */
  lemma FreshEntryAnswers(lib: Dns.Lib, env: Upstream.Env, store: Store, req: Request.DnsRequest)
    requires env.Valid() && CreateCacheKey(req.request) != ""
    requires Cached(lib, store, CreateCacheKey(req.request)).Some?
    ensures var r := DoDNSQuery(lib, env, Some(store), req);
      && r.result == Ok(req.(response := Cached(lib, store, CreateCacheKey(req.request)), fromCache := true))
      && r.refresh == [] && r.resolved.None? && r.store == Some(store)
  {
    var key := CreateCacheKey(req.request);
    assert Hit(lib, Some(store), key) == Some((Cached(lib, store, key).value, false));
  }

  /** Failing that, a decodable stale entry answers from the cache and
      schedules exactly one refresh of the fresh key. */
  lemma StaleEntryAnswersAndRefreshes(lib: Dns.Lib, env: Upstream.Env, store: Store, req: Request.DnsRequest)
    requires env.Valid() && CreateCacheKey(req.request) != ""
    requires Cached(lib, store, CreateCacheKey(req.request)).None?
    requires Cached(lib, store, CreateCacheKey(req.request) + StaleSuffix).Some?
    ensures var r := DoDNSQuery(lib, env, Some(store), req);
      var key := CreateCacheKey(req.request);
      && r.result == Ok(req.(response := Cached(lib, store, key + StaleSuffix), fromCache := true))
      && r.refresh == [RefreshEvent(key, req.request)] && r.resolved.None? && r.store == Some(store)
  {
    var key := CreateCacheKey(req.request);
    assert Hit(lib, Some(store), key) == Some((Cached(lib, store, key + StaleSuffix).value, true));
  }

  /** Failing both, the upstreams are asked, and an answer from them is not
      marked as coming from the cache. */
  lemma MissAsksUpstreams(lib: Dns.Lib, env: Upstream.Env, store: Store, req: Request.DnsRequest)
    requires env.Valid() && CreateCacheKey(req.request) != "" && !req.fromCache
    requires Cached(lib, store, CreateCacheKey(req.request)).None?
    requires Cached(lib, store, CreateCacheKey(req.request) + StaleSuffix).None?
    ensures var r := DoDNSQuery(lib, env, Some(store), req);
      && r.resolved == Some(Upstream.Resolve(env, req.request, req.currentUpstream))
      && r.refresh == []
      && (r.result.Ok? ==> !r.result.value.fromCache)
  {
    assert Hit(lib, Some(store), CreateCacheKey(req.request)).None?;
  }

  /** Without a store every question goes to the upstreams, nothing is
      written and nothing is refreshed. */
  lemma NoStoreAlwaysAsks(lib: Dns.Lib, env: Upstream.Env, req: Request.DnsRequest)
    requires env.Valid() && CreateCacheKey(req.request) != "" && !req.fromCache
    ensures var r := DoDNSQuery(lib, env, None, req);
      && r.resolved == Some(Upstream.Resolve(env, req.request, req.currentUpstream))
      && r.store.None? && r.refresh == []
      && (r.result.Ok? ==> !r.result.value.fromCache)
  {
  }

  /** An upstream answer with records that packs is written back where the
      next lookup of the same question finds it fresh, provided the store's
      codec gives back what it packed. */
  lemma WriteBackIsHit(lib: Dns.Lib, env: Upstream.Env, store: Store, req: Request.DnsRequest,
                       outcome: Upstream.Outcome, next: Request.DnsRequest)
    requires env.Valid() && CreateCacheKey(req.request) != ""
    requires CreateCacheKey(next.request) == CreateCacheKey(req.request)
    requires outcome.result.Ok? && |outcome.result.value.answer| > 0
    requires lib.pack(outcome.result.value).Some?
    requires lib.unpack(lib.pack(outcome.result.value).value) == Some(outcome.result.value)
    ensures var r := Answered(lib, Some(store), req, CreateCacheKey(req.request), outcome);
      && r.store.Some?
      && DoDNSQuery(lib, env, r.store, next).result == Ok(next.(response := Some(outcome.result.value), fromCache := true))
  {
    var key := CreateCacheKey(req.request);
    var m := outcome.result.value;
    var written := Put(store, key, lib.pack(m).value);
    assert Cached(lib, written, key) == Some(m);
    assert Hit(lib, Some(written), key) == Some((m, false));
  }

  /** The refresh of `ev` once the upstreams have answered with `outcome`:
      the answer is written under both keys whenever it packs, even with an
      empty answer section; an error or a packing failure leaves the store
      alone. */
  function Refreshed(lib: Dns.Lib, store: Store, ev: RefreshEvent, outcome: Upstream.Outcome): (r: Store)
    ensures outcome.result.Err? ==> r == store
    ensures outcome.result.Ok? && lib.pack(outcome.result.value).None? ==> r == store
    ensures outcome.result.Ok? && lib.pack(outcome.result.value).Some? ==>
      r == Put(store, ev.key, lib.pack(outcome.result.value).value)
  {
    match outcome.result
    case Err(_) => store
    case Ok(m) =>
      match lib.pack(m)
      case None => store
      case Some(payload) => Put(store, ev.key, payload)
  }

  /** `refreshCache`: the stale request is sent again, from a fresh request
      state with no upstream recorded, and the answer is handled by
      `Refreshed`. */
  function RefreshCache(lib: Dns.Lib, env: Upstream.Env, store: Store, ev: RefreshEvent): (r: Store)
    requires env.Valid()
    ensures r == Refreshed(lib, store, ev, Upstream.Resolve(env, ev.request, ""))
    ensures r.Keys == store.Keys || r.Keys == store.Keys + {ev.key, ev.key + StaleSuffix}
  {
    Refreshed(lib, store, ev, Upstream.Resolve(env, ev.request, ""))
  }

  /** The two write paths differ on answers with an empty answer section:
      the refresh writes them back, the lookup does not. */
  lemma RefreshWritesEmptyAnswers(lib: Dns.Lib, store: Store, req: Request.DnsRequest, key: string,
                                  outcome: Upstream.Outcome)
    requires outcome.result.Ok? && |outcome.result.value.answer| == 0
    requires lib.pack(outcome.result.value).Some?
    ensures Answered(lib, Some(store), req, key, outcome).store == Some(store)
    ensures Refreshed(lib, store, RefreshEvent(key, req.request), outcome)
         == Put(store, key, lib.pack(outcome.result.value).value)
  {
  }
}
