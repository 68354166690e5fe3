/** The routing decision of `Dispatch.ServeDNS` in dispatch.go.

    The goroutines, `sync.Once` and the channel are replaced by a choice:
    `Race` says which successful attempt reached the delivery gate first,
    or that the caller's context was done before any did. The upstream
    oracle `connect`, the `Down` predicate, the response writer and the
    context's error come in through `Env`. */
module Dispatch {
  import opened Wrappers
  import opened Domain
  import opened Match

  /** A DNS message: its transaction id, its question names and the rest. */
  datatype Msg = Msg(id: int, question: seq<string>, body: string)

  /** `dns.RcodeSuccess` and `dns.RcodeServerFailure`. */
  const RcodeSuccess: int := 0
  const RcodeServerFailure: int := 2

  /** The world `ServeDNS` runs in: whether an upstream is down for a given
      threshold, what an attempt on an upstream returns, what writing a
      reply returns (an error or none), and the context's error. */
  datatype Env = Env(
    down: (Upstream, nat) -> bool,
    connect: (Upstream, Msg) -> Result<Msg, string>,
    write: Msg -> Option<string>,
    ctxErr: string)

  /** How the race ended: the `k`-th successful reply (in upstream order)
      was the first through the gate, or the context was done first. */
  datatype Race = Arrived(k: nat) | ContextDone

  /** What `ServeDNS` did: handed the query to the next plugin, wrote a
      reply (with the writer's error, if any), or gave up on cancellation. */
  datatype Outcome = Fallback | Answered(reply: Msg, writeErr: Option<string>) | Cancelled(cause: string)

  /** The index of the first element of `xs` that satisfies `p`. */
  function FirstWhere<T>(xs: seq<T>, p: T -> bool): (r: Option<nat>)
    ensures r.Some? ==> r.value < |xs| && p(xs[r.value])
    ensures r.Some? ==> forall j :: 0 <= j < r.value ==> !p(xs[j])
    ensures r.None? ==> forall j :: 0 <= j < |xs| ==> !p(xs[j])
    decreases |xs|
  {
    if |xs| == 0 then None
    else if p(xs[0]) then Some(0)
    else
      match FirstWhere(xs[1..], p)
      case None => None
      case Some(i) => Some(i + 1)
  }

  /** The index of the first rule whose snapshot has `name`. */
  function FirstMatch(ms: seq<Matcher>, name: string): (r: Option<nat>)
    ensures r.Some? ==> r.value < |ms| && Has(ms[r.value].dt, name)
    ensures r.Some? ==> forall j :: 0 <= j < r.value ==> !Has(ms[j].dt, name)
    ensures r.None? ==> forall j :: 0 <= j < |ms| ==> !Has(ms[j].dt, name)
  {
    FirstWhere(ms, (m: Matcher) => Has(m.dt, name))
  }

  /** The upstreams an attempt is started on: those not down for the rule's
      threshold, in configured order. */
  function Attempted(us: seq<Upstream>, maxfails: nat, down: (Upstream, nat) -> bool): (r: seq<Upstream>)
    ensures forall u :: u in r <==> u in us && !down(u, maxfails)
    ensures (forall u :: u in us ==> down(u, maxfails)) ==> r == []
    ensures |r| <= |us|
    decreases |us|
  {
    if |us| == 0 then []
    else
      var rest := Attempted(us[1..], maxfails, down);
      assert forall u :: u in us <==> u == us[0] || u in us[1..];
      if down(us[0], maxfails) then rest else [us[0]] + rest
  }

  /** The replies of the attempts that succeed. */
  function Replies(us: seq<Upstream>, req: Msg, connect: (Upstream, Msg) -> Result<Msg, string>): (r: seq<Msg>)
    ensures forall m :: m in r ==> exists u :: u in us && connect(u, req) == Success(m)
    ensures forall u :: u in us && connect(u, req).Success? ==> connect(u, req).value in r
    ensures |r| <= |us|
    decreases |us|
  {
    if |us| == 0 then []
    else
      var rest := Replies(us[1..], req, connect);
      assert forall u :: u in us <==> u == us[0] || u in us[1..];
      match connect(us[0], req)
      case Failure(_) => rest
      case Success(m) => [m] + rest
  }

  /** Upstream `u` of rule `m` was attempted, answered, and its answer under
      the request's id is `reply`. */
  predicate Won(u: Upstream, req: Msg, m: Matcher, env: Env, reply: Msg) {
    && u in m.proxies
    && !env.down(u, m.maxfails)
    && env.connect(u, req).Success?
    && reply == env.connect(u, req).value.(id := req.id)
  }

  /** The race of one matched rule: an attempt per upstream that is not
      down; the reply that wins gets the request's id and is written. When
      no successful reply is chosen (none exists, or the context was done
      first) the call ends with the context's error. */
  function RaceRule(req: Msg, m: Matcher, env: Env, race: Race): (o: Outcome)
    ensures o.Answered? ==> o.reply.id == req.id && o.writeErr == env.write(o.reply)
    ensures o.Answered? ==> exists u :: Won(u, req, m, env, o.reply)
    ensures o.Cancelled? ==> o.cause == env.ctxErr
    ensures !o.Fallback?
  {
    var attempted := Attempted(m.proxies, m.maxfails, env.down);
    var replies := Replies(attempted, req, env.connect);
    match race
    case ContextDone => Cancelled(env.ctxErr)
    case Arrived(k) =>
      if k < |replies| then
        var resp := replies[k].(id := req.id);
        assert exists u :: Won(u, req, m, env, resp) by {
          var u :| u in attempted && env.connect(u, req) == Success(replies[k]);
          assert Won(u, req, m, env, resp);
        }
        Answered(resp, env.write(resp))
      else Cancelled(env.ctxErr)
  }

  /** `ServeDNS`: no question goes to the next plugin; otherwise the first
      rule whose snapshot has the first question's name is raced and no
      other rule is looked at; no matching rule goes to the next plugin. */
  function Serve(req: Msg, ms: seq<Matcher>, env: Env, race: Race): (o: Outcome)
    ensures |req.question| == 0 ==> o == Fallback
    ensures o.Fallback? <==> |req.question| == 0 || FirstMatch(ms, req.question[0]).None?
    ensures !o.Fallback? ==> o == RaceRule(req, ms[FirstMatch(ms, req.question[0]).value], env, race)
  {
    if |req.question| == 0 then Fallback
    else
      match FirstMatch(ms, req.question[0])
      case None => Fallback
      case Some(i) => RaceRule(req, ms[i], env, race)
  }

  /** The status and error `ServeDNS` returns for an outcome it produced
      itself (the next plugin's status is its own). */
  function Returned(o: Outcome): (r: (int, Option<string>))
    requires !o.Fallback?
    ensures r.0 == RcodeSuccess <==> o.Answered? && o.writeErr.None?
    ensures r.0 == RcodeSuccess || r.0 == RcodeServerFailure
    ensures r.1.None? <==> r.0 == RcodeSuccess
    ensures o.Answered? && o.writeErr.Some? ==> r.1 == o.writeErr
    ensures o.Cancelled? ==> r.1 == Some(o.cause)
  {
    match o
    case Answered(_, None) => (RcodeSuccess, None)
    case Answered(_, Some(e)) => (RcodeServerFailure, Some(e))
    case Cancelled(c) => (RcodeServerFailure, Some(c))
  }

  /** The first matching rule is the only one used: rules listed after it
      cannot change the outcome. */
  lemma {:induction false} LaterRulesIgnored(req: Msg, ms: seq<Matcher>, later: seq<Matcher>, env: Env, race: Race)
    requires |req.question| > 0 && FirstMatch(ms, req.question[0]).Some?
    ensures Serve(req, ms + later, env, race) == Serve(req, ms, env, race)
  {
    FirstMatchPrefix(ms, later, req.question[0]);
  }

  /** A match found in a prefix stays the first match in any extension. */
  lemma FirstMatchPrefix(ms: seq<Matcher>, later: seq<Matcher>, name: string)
    requires FirstMatch(ms, name).Some?
    ensures FirstMatch(ms + later, name) == FirstMatch(ms, name)
  {
    FirstWherePrefix(ms, later, (m: Matcher) => Has(m.dt, name));
  }

  /** The first element satisfying `p` in a prefix stays the first one in
      any extension. */
  lemma FirstWherePrefix<T>(xs: seq<T>, later: seq<T>, p: T -> bool)
    requires FirstWhere(xs, p).Some?
    ensures FirstWhere(xs + later, p) == FirstWhere(xs, p)
  {
    var i := FirstWhere(xs, p).value;
    assert (xs + later)[i] == xs[i];
  }

  /** Every upstream that is not down and answers can be the winner: some
      race delivers its reply, with the request's id. */
  lemma AnySuccessCanWin(req: Msg, ms: seq<Matcher>, env: Env, u: Upstream) returns (race: Race)
    requires |req.question| > 0
    requires FirstMatch(ms, req.question[0]).Some?
    requires var m := ms[FirstMatch(ms, req.question[0]).value];
      u in m.proxies && !env.down(u, m.maxfails) && env.connect(u, req).Success?
    ensures var resp := env.connect(u, req).value.(id := req.id);
      Serve(req, ms, env, race) == Answered(resp, env.write(resp))
  {
    var m := ms[FirstMatch(ms, req.question[0]).value];
    var attempted := Attempted(m.proxies, m.maxfails, env.down);
    var replies := Replies(attempted, req, env.connect);
    assert u in attempted;
    var k :| 0 <= k < |replies| && replies[k] == env.connect(u, req).value;
    race := Arrived(k);
  }

  /** A matched rule with no attempt started (an empty pool, or every
      upstream down) never falls through: every race ends in cancellation. */
  lemma NoAttemptOnlyCancels(req: Msg, ms: seq<Matcher>, env: Env, race: Race)
    requires |req.question| > 0
    requires FirstMatch(ms, req.question[0]).Some?
    requires var m := ms[FirstMatch(ms, req.question[0]).value];
      forall u :: u in m.proxies ==> env.down(u, m.maxfails)
    ensures Serve(req, ms, env, race) == Cancelled(env.ctxErr)
  {
  }

  /** With a single successful attempt, any reply written is that
      upstream's reply under the request's id. */
  lemma OnlySuccessWins(req: Msg, ms: seq<Matcher>, env: Env, race: Race, u: Upstream)
    requires |req.question| > 0
    requires FirstMatch(ms, req.question[0]).Some?
    requires var m := ms[FirstMatch(ms, req.question[0]).value];
      forall v :: v in m.proxies && !env.down(v, m.maxfails) && v != u ==> env.connect(v, req).Failure?
    requires env.connect(u, req).Success?
    ensures Serve(req, ms, env, race).Answered? ==>
              Serve(req, ms, env, race).reply == env.connect(u, req).value.(id := req.id)
  {
  }
}
