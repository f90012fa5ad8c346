/**
 The resolver loop of doh-server/server.go: up to `tries` attempts, each at an
 upstream picked at random from the configured list, each dispatched by the
 upstream's transport tag to the TLS, TCP or UDP client, with a single TCP
 retry when a UDP answer comes back truncated. The random picks and the
 network exchanges are inputs: a sequence of indices and a function giving
 the reply to each exchange.
 */
module Upstream {

  import opened Types
  import Dns
  import Config

  /** The three DNS clients. */
  datatype Transport = Udp | Tcp | Tls

  /** What an exchange yields: an answer, or an error. The clients never
      return neither. */
  datatype Reply = Answer(msg: Dns.Msg) | Failed(err: string)
  {
    predicate Succeeded()
    {
      Answer?
    }
  }

  /** One exchange: attempt number, client, and upstream address. */
  datatype Call = Call(attempt: nat, transport: Transport, address: string)

  /** The network: the reply to the exchange a call describes. */
  type Network = Call -> Reply

  /** `indexQuestionType`: position of the first question of type `qtype`,
      or -1. */
  function IndexQuestionType(msg: Dns.Msg, qtype: uint16): (r: int)
    ensures -1 <= r < |msg.question|
    ensures r == -1 <==> forall i :: 0 <= i < |msg.question| ==> msg.question[i].qtype != qtype
    ensures r >= 0 ==> msg.question[r].qtype == qtype
                       && forall i :: 0 <= i < r ==> msg.question[i].qtype != qtype
  {
    IndexFrom(msg.question, qtype, 0)
  }

  function IndexFrom(qs: seq<Dns.Question>, qtype: uint16, i: nat): (r: int)
    requires i <= |qs|
    requires forall j :: 0 <= j < i ==> qs[j].qtype != qtype
    ensures -1 <= r < |qs|
    ensures r == -1 <==> forall j :: 0 <= j < |qs| ==> qs[j].qtype != qtype
    ensures r >= 0 ==> qs[r].qtype == qtype && forall j :: 0 <= j < r ==> qs[j].qtype != qtype
    decreases |qs| - i
  {
    if i == |qs| then -1
    else if qs[i].qtype == qtype then i
    else IndexFrom(qs, qtype, i + 1)
  }

  const InvalidType: Config.ConfigError := Config.ConfigError("invalid DNS type")

  /** One attempt: the error that ends the loop, or the reply to its last
      exchange; and the exchanges made. */
  datatype Attempt = Attempt(outcome: Result<Reply, Config.ConfigError>, calls: seq<Call>)

  predicate KnownTag(tag: string)
  {
    tag == "tcp-tls" || tag == "tcp" || tag == "udp"
  }

  /** The transport switch of one attempt at the configured `upstream`. `tcp-tls` uses
      the TLS client; `tcp`, and `udp` for a zone transfer, the TCP client;
      other `udp` queries the UDP client, repeated once over TCP to the same
      address when it answers with the truncation bit set. Any other tag is a
      configuration error and no exchange is made. */
  function Exchange(i: nat, request: Dns.Msg, upstream: string, network: Network): (r: Attempt)
    ensures r.outcome.Err? ==> r.outcome.error == InvalidType
  {
    var (address, tag) := Config.AddressAndType(upstream);
    if tag == "tcp-tls" then
      var c := Call(i, Tls, address);
      Attempt(Ok(network(c)), [c])
    else if tag == "tcp" || tag == "udp" then
      if tag == "tcp" || IndexQuestionType(request, Dns.TypeAXFR) > -1 then
        var c := Call(i, Tcp, address);
        Attempt(Ok(network(c)), [c])
      else
        var c := Call(i, Udp, address);
        var reply := network(c);
        if reply.Answer? && reply.msg.truncated then
          var retry := Call(i, Tcp, address);
          Attempt(Ok(network(retry)), [c, retry])
        else
          Attempt(Ok(reply), [c])
    else
      Attempt(Err(InvalidType), [])
  }

  /** What one attempt does, by transport tag. */
  lemma ExchangeFacts(i: nat, request: Dns.Msg, upstream: string, network: Network)
    ensures var r := Exchange(i, request, upstream, network);
      var (address, tag) := Config.AddressAndType(upstream);
      && |r.calls| <= 2
      && (forall c :: c in r.calls ==> c.attempt == i && c.address == address)
      && (r.outcome.Err? <==> !KnownTag(tag))
      && (r.outcome.Err? ==> r.calls == [])
      && (r.outcome.Ok? ==> |r.calls| > 0 && r.outcome.value == network(r.calls[|r.calls| - 1]))
      && (r.outcome.Ok? ==> (r.calls[0].transport == Tls <==> tag == "tcp-tls"))
      && (r.outcome.Ok? ==> (r.calls[0].transport == Udp <==>
                              tag == "udp" && IndexQuestionType(request, Dns.TypeAXFR) == -1))
      && (|r.calls| == 2 <==> && r.outcome.Ok? && r.calls[0].transport == Udp
                              && network(r.calls[0]).Answer? && network(r.calls[0]).msg.truncated)
      && (|r.calls| == 2 ==> r.calls[1].transport == Tcp)
  {
  }

  /** What the loop is given: the number of tries, the configured upstreams,
      the index `rand.Intn` returns at each attempt, and the network. */
  datatype Env = Env(tries: nat, upstreams: seq<string>, picks: seq<nat>, network: Network)
  {
    /** Every attempt has a pick within the list; with no upstream and at
        least one try `rand.Intn` panics, which no pick sequence can model. */
    predicate Valid()
    {
      |picks| >= tries && forall i :: 0 <= i < tries ==> picks[i] < |upstreams|
    }
  }

  function Picked(env: Env, i: nat): string
    requires env.Valid() && i < env.tries
  {
    env.upstreams[env.picks[i]]
  }

  function AttemptAt(env: Env, request: Dns.Msg, i: nat): Attempt
    requires env.Valid() && i < env.tries
  {
    Exchange(i, request, Picked(env, i), env.network)
  }

  /** An attempt that fails without ending the loop. */
  predicate Fails(a: Attempt)
  {
    a.outcome.Ok? && a.outcome.value.Failed?
  }

  datatype QueryError = Misconfigured(cause: Config.ConfigError) | AllFailed
  {
    function Text(): string
    {
      match this
      case Misconfigured(cause) => cause.err
      case AllFailed => "all upstream servers failed"
    }
  }

  /** The result of an attempt that ends the loop. */
  function Decision(a: Attempt): Result<Dns.Msg, QueryError>
    requires !Fails(a)
  {
    match a.outcome
    case Err(e) => Err(Misconfigured(e))
    case Ok(reply) => Ok(reply.msg)
  }

  /** The loop's result: the answer or error, the attempts made, the last
      upstream picked (`current` if none), and every exchange made. */
  datatype Outcome = Outcome(result: Result<Dns.Msg, QueryError>, attempts: nat, currentUpstream: string, calls: seq<Call>)

  /** The loop from attempt `i` on, over the attempts it would make and the
      upstream each one picks. */
  function Run(attempts: seq<Attempt>, picked: seq<string>, i: nat, current: string): (r: Outcome)
    requires |picked| == |attempts| && i <= |attempts|
    ensures i <= r.attempts <= |attempts|
    ensures forall j :: i <= j < r.attempts - 1 ==> Fails(attempts[j])
    ensures r.result.Ok? ==> r.attempts > i && attempts[r.attempts - 1].outcome == Ok(Answer(r.result.value))
    ensures r.result.Err? && r.result.error.Misconfigured? ==>
      r.attempts > i && attempts[r.attempts - 1].outcome == Err(r.result.error.cause)
    ensures r.result == Err(AllFailed) <==> forall j :: i <= j < |attempts| ==> Fails(attempts[j])
    ensures r.result == Err(AllFailed) ==> r.attempts == |attempts|
    ensures r.currentUpstream == if r.attempts > i then picked[r.attempts - 1] else current
    ensures forall c :: c in r.calls ==> exists j :: i <= j < r.attempts && c in attempts[j].calls
    decreases |attempts| - i
  {
    if i == |attempts| then Outcome(Err(AllFailed), i, current, [])
    else
      var a := attempts[i];
      if Fails(a) then
        var rest := Run(attempts, picked, i + 1, picked[i]);
        rest.(calls := a.calls + rest.calls)
      else
        Outcome(Decision(a), i + 1, picked[i], a.calls)
  }

  /** The attempts the loop would make, one per try. */
  function Attempts(env: Env, request: Dns.Msg): (r: seq<Attempt>)
    requires env.Valid()
    ensures |r| == env.tries && forall j :: 0 <= j < env.tries ==> r[j] == AttemptAt(env, request, j)
  {
    seq(env.tries, j requires 0 <= j < env.tries => AttemptAt(env, request, j))
  }

  /** The upstream picked at each try. */
  function Picks(env: Env): (r: seq<string>)
    requires env.Valid()
    ensures |r| == env.tries && forall j :: 0 <= j < env.tries ==> r[j] == Picked(env, j)
  {
    seq(env.tries, j requires 0 <= j < env.tries => Picked(env, j))
  }

  /** `performDNSQuery`: at most `tries` attempts; the first answer is
      returned, an unknown transport tag ends the loop at once, and when
      every attempt fails the loop reports that all upstreams failed. */
  function Resolve(env: Env, request: Dns.Msg, current: string): (r: Outcome)
    requires env.Valid()
    ensures r.attempts <= env.tries
    ensures forall j :: 0 <= j < r.attempts - 1 ==> Fails(AttemptAt(env, request, j))
    ensures r.result.Ok? ==>
      r.attempts > 0 && AttemptAt(env, request, r.attempts - 1).outcome == Ok(Answer(r.result.value))
    ensures r.result.Err? && r.result.error.Misconfigured? ==>
      && r.attempts > 0 && AttemptAt(env, request, r.attempts - 1).outcome.Err?
      && r.result.error.cause == InvalidType
    ensures r.result == Err(AllFailed) <==> forall j :: 0 <= j < env.tries ==> Fails(AttemptAt(env, request, j))
    ensures r.result == Err(AllFailed) ==> r.attempts == env.tries
    ensures r.currentUpstream == if r.attempts > 0 then Picked(env, r.attempts - 1) else current
  {
    Run(Attempts(env, request), Picks(env), 0, current)
  }

  /** Every exchange made goes to the address of an upstream picked by an
      attempt the loop made. */
  lemma CallsGoToPickedUpstreams(env: Env, request: Dns.Msg, current: string)
    requires env.Valid()
    ensures var r := Resolve(env, request, current);
      forall c :: c in r.calls ==>
        c.attempt < r.attempts && c.address == Config.AddressAndType(Picked(env, c.attempt)).0
  {
    var r := Resolve(env, request, current);
    forall c | c in r.calls
      ensures c.attempt < r.attempts && c.address == Config.AddressAndType(Picked(env, c.attempt)).0
    {
      var j :| 0 <= j < r.attempts && c in Attempts(env, request)[j].calls;
      ExchangeFacts(j, request, Picked(env, j), env.network);
    }
  }

  /** The first attempt that does not fail decides: its answer is returned,
      or its configuration error, and no later attempt is made. */
  lemma {:induction false} RunStopsAtFirstDecisive(attempts: seq<Attempt>, picked: seq<string>, i: nat, current: string, k: nat)
    requires |picked| == |attempts| && i <= k < |attempts|
    requires forall j :: i <= j < k ==> Fails(attempts[j])
    requires !Fails(attempts[k])
    ensures Run(attempts, picked, i, current) == Outcome(Decision(attempts[k]), k + 1, picked[k], Run(attempts, picked, i, current).calls)
    decreases k - i
  {
    if i < k {
      RunStopsAtFirstDecisive(attempts, picked, i + 1, picked[i], k);
    }
  }

  lemma FirstDecisiveAttempt(env: Env, request: Dns.Msg, current: string, k: nat)
    requires env.Valid() && k < env.tries
    requires forall j :: 0 <= j < k ==> Fails(AttemptAt(env, request, j))
    requires !Fails(AttemptAt(env, request, k))
    ensures Resolve(env, request, current).attempts == k + 1
    ensures Resolve(env, request, current).currentUpstream == Picked(env, k)
    ensures AttemptAt(env, request, k).outcome.Ok? ==>
      Resolve(env, request, current).result == Ok(AttemptAt(env, request, k).outcome.value.msg)
    ensures AttemptAt(env, request, k).outcome.Err? ==>
      Resolve(env, request, current).result == Err(Misconfigured(InvalidType))
  {
    RunStopsAtFirstDecisive(Attempts(env, request), Picks(env), 0, current, k);
  }

  /** No tries, no attempt: the loop fails at once. */
  lemma NoTries(env: Env, request: Dns.Msg, current: string)
    requires env.tries == 0
    ensures Resolve(env, request, current) == Outcome(Err(AllFailed), 0, current, [])
  {
  }

  /** When every attempt fails, exactly `tries` attempts are made and the
      last upstream picked is reported. */
  lemma AllAttemptsFail(env: Env, request: Dns.Msg, current: string)
    requires env.Valid() && env.tries > 0
    requires forall j :: 0 <= j < env.tries ==> Fails(AttemptAt(env, request, j))
    ensures Resolve(env, request, current).result == Err(AllFailed)
    ensures Resolve(env, request, current).attempts == env.tries
    ensures Resolve(env, request, current).currentUpstream == Picked(env, env.tries - 1)
  {
  }

  /** A truncated UDP answer is replaced by the TCP answer from the same
      upstream, whatever that is. */
  lemma TruncationFallback(i: nat, request: Dns.Msg, upstream: string, network: Network)
    requires Config.AddressAndType(upstream).1 == "udp"
    requires IndexQuestionType(request, Dns.TypeAXFR) == -1
    requires var c := Call(i, Udp, Config.AddressAndType(upstream).0);
      network(c).Answer? && network(c).msg.truncated
    ensures var address := Config.AddressAndType(upstream).0;
      Exchange(i, request, upstream, network)
        == Attempt(Ok(network(Call(i, Tcp, address))), [Call(i, Udp, address), Call(i, Tcp, address)])
  {
  }

  /** A zone transfer never goes over UDP. */
  lemma ZoneTransferUsesTcp(i: nat, request: Dns.Msg, upstream: string, network: Network)
    requires Config.AddressAndType(upstream).1 == "udp"
    requires exists q :: q in request.question && q.qtype == Dns.TypeAXFR
    ensures Exchange(i, request, upstream, network).calls == [Call(i, Tcp, Config.AddressAndType(upstream).0)]
  {
  }
}
