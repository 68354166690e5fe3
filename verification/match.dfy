/** The rule ("matcher") logic of match.go: rebuilding a rule's domain
    snapshot from its sources, and the validation of a rule's configuration
    block (`to`, `maxfails`, `healthcheck`, `reload`).

    The configuration tokeniser, `parse.HostPortOrFile`, `parse.Transport`,
    `strconv.Atoi` and `time.ParseDuration` are foreign: their results come
    in through `Parsers`. Opening a file or fetching a URL is I/O: its
    outcome comes in through a `Fetch` function. */
module Match {
  import opened Wrappers
  import opened Strings
  import opened Domain

  // ---------------------------------------------------------------------
  // Data

  /** The transports an upstream address can select. */
  datatype Transport = Dns | Tls | Grpc | Https | OtherTransport

  /** Transports that carry a TLS server name. */
  predicate TlsFamily(t: Transport) {
    t == Tls || t == Grpc || t == Https
  }

  /** One upstream (`proxy.Proxy`) as configured: its slot (its position in
      the rule's pool), address, transport and the TLS server name when one
      was attached. Every `to` argument becomes a proxy object of its own,
      with its own failure count, even when two arguments are alike; the
      slot keeps such upstreams apart. */
  datatype Upstream = Upstream(slot: nat, addr: string, trans: Transport, tlsName: Option<string>)

  /** A rule: its domain sources, the current domain snapshot, its upstream
      pool and its policy scalars. `maxfails` holds a uint32 value;
      durations are nanoseconds. */
  datatype Matcher = Matcher(
    froms: seq<string>,
    dt: Tree,
    proxies: seq<Upstream>,
    maxfails: nat,
    healthcheck: int,
    reload: int)

  /** One directive of a rule block: its name and its arguments. */
  datatype Directive = Directive(name: string, args: seq<string>)

  /** One rule block: the sources on its first line, then its directives. */
  datatype RuleBlock = RuleBlock(froms: seq<string>, body: seq<Directive>)

  /** Configuration errors. `ArgErr` is the controller's argument-count
      error, `Foreign` a failure reported by a foreign parser, `NotPositive`
      a duration that is zero or negative. */
  datatype ConfigError = ArgErr(directive: string) | Foreign(cause: string) | NotPositive(directive: string)

  /** Results of the foreign parsers: the first address `HostPortOrFile`
      resolves, the transport and bare address `parse.Transport` reads from
      it, `strconv.Atoi`, and `time.ParseDuration` in nanoseconds. */
  datatype Parsers = Parsers(
    hostPort: string -> Result<string, string>,
    transport: string -> (Transport, string),
    atoi: string -> Result<int, string>,
    duration: string -> Result<int, string>)

  const Second: int := 1_000_000_000

  /** `healthcheck` when the block does not set it. */
  const DefaultHealthcheck: int := 10 * Second

  const Uint32Modulus: int := 0x1_0000_0000

  /** Go's `uint32(x)` conversion of an `int`: wrap-around modulo 2^32. */
  function ToUint32(x: int): (r: nat)
    ensures r < Uint32Modulus
    ensures 0 <= x < Uint32Modulus ==> r == x
    ensures (r - x) % Uint32Modulus == 0
  {
    x % Uint32Modulus
  }

  // ---------------------------------------------------------------------
  // Rebuilding the domain snapshot

  /** Which loader a source goes to. */
  datatype SourceKind = UrlSource | FileSource

  /** An `http://` or `https://` source is a URL; anything else a file. */
  function KindOf(from: string): (k: SourceKind)
    ensures k == UrlSource <==> "http://" <= from || "https://" <= from
  {
    if "http://" <= from || "https://" <= from then UrlSource else FileSource
  }

  /** The outcome of opening (or fetching) a source and draining it: its
      text, or the error that made the source fail. */
  type Fetch = (SourceKind, string) -> Result<string, string>

  /** `NewTreeFromUrl` / `NewTreeFromFile` on a source. */
  function LoadSource(from: string, fetch: Fetch): (r: Result<Tree, string>)
    ensures r.Success? <==> fetch(KindOf(from), from).Success?
    ensures r.Success? ==> r.value == TreeFromText(fetch(KindOf(from), from).value)
  {
    match fetch(KindOf(from), from)
    case Failure(e) => Failure(e)
    case Success(text) => Success(TreeFromText(text))
  }

  /** Source `from` loads and its tree has `n`. */
  predicate SourceHas(from: string, fetch: Fetch, n: string) {
    var r := LoadSource(from, fetch);
    r.Success? && Has(r.value, n)
  }

  /** Some source of `froms` loads and has `n`. */
  predicate AnySourceHas(froms: seq<string>, fetch: Fetch, n: string)
    decreases |froms|
  {
    |froms| > 0 && (AnySourceHas(froms[..|froms| - 1], fetch, n) || SourceHas(froms[|froms| - 1], fetch, n))
  }

  /** The tree `rebuildDt` builds: start from an empty tree and merge in,
      in order, every source that loads; a source that fails is skipped. */
  function Rebuild(froms: seq<string>, fetch: Fetch): Tree
    decreases |froms|
  {
    if |froms| == 0 then Empty
    else
      var global := Rebuild(froms[..|froms| - 1], fetch);
      match LoadSource(froms[|froms| - 1], fetch)
      case Failure(_) => global
      case Success(dt) => Merge(global, Some(dt))
  }

  /** Membership in the rebuilt tree is the OR over the sources that load. */
  lemma {:induction false} RebuildHas(froms: seq<string>, fetch: Fetch, n: string)
    ensures Has(Rebuild(froms, fetch), n) <==> AnySourceHas(froms, fetch, n)
    decreases |froms|
  {
    if |froms| > 0 {
      var init := froms[..|froms| - 1];
      RebuildHas(init, fetch, n);
      var r := LoadSource(froms[|froms| - 1], fetch);
      if r.Success? {
        MergeHas(Rebuild(init, fetch), Some(r.value), n);
      }
    } else {
      EmptyContainsNothing(Parse(n));
    }
  }

  /** Some source in the concatenation has `n` iff some source in either
      part has it. */
  lemma {:induction false} AnySourceHasAppend(a: seq<string>, b: seq<string>, fetch: Fetch, n: string)
    ensures AnySourceHas(a + b, fetch, n) <==> AnySourceHas(a, fetch, n) || AnySourceHas(b, fetch, n)
    decreases |b|
  {
    if |b| == 0 {
      assert a + b == a;
    } else {
      var b' := b[..|b| - 1];
      assert (a + b)[..|a + b| - 1] == a + b';
      assert (a + b)[|a + b| - 1] == b[|b| - 1];
      AnySourceHasAppend(a, b', fetch, n);
    }
  }

  /** A source that fails to load contributes nothing and does not stop
      the sources after it: the rebuilt tree has the same members as if the
      source were not listed. */
  lemma FailedSourceSkipped(before: seq<string>, from: string, after: seq<string>, fetch: Fetch, n: string)
    requires fetch(KindOf(from), from).Failure?
    ensures Has(Rebuild(before + [from] + after, fetch), n) <==> Has(Rebuild(before + after, fetch), n)
  {
    RebuildHas(before + [from] + after, fetch, n);
    RebuildHas(before + after, fetch, n);
    AnySourceHasAppend(before + [from], after, fetch, n);
    AnySourceHasAppend(before, [from], fetch, n);
    AnySourceHasAppend(before, after, fetch, n);
    assert [from][..0] == [];
  }

  /** `rebuildDt`: the visible snapshot is replaced wholesale by the freshly
      rebuilt tree. Its members are exactly the names some loading source
      has, whatever the previous snapshot held; nothing else changes. */
  function RebuildDt(m: Matcher, fetch: Fetch): (r: Matcher)
    ensures r.(dt := m.dt) == m
    ensures forall n :: Has(r.dt, n) <==> AnySourceHas(m.froms, fetch, n)
  {
    var dt := Rebuild(m.froms, fetch);
    assert forall n :: Has(dt, n) <==> AnySourceHas(m.froms, fetch, n) by {
      forall n
        ensures Has(dt, n) <==> AnySourceHas(m.froms, fetch, n)
      {
        RebuildHas(m.froms, fetch, n);
      }
    }
    m.(dt := dt)
  }

  // ---------------------------------------------------------------------
  // The configuration block

  /** One `to` argument in pool slot `slot`: cut at the first `@`, resolve
      the part before it, read its transport; the part after `@` becomes the
      TLS server name only when there was an `@` and the transport is TLS,
      gRPC or HTTPS. */
  function ToUpstream(arg: string, slot: nat, p: Parsers): (r: Result<Upstream, ConfigError>)
    ensures r.Failure? <==> p.hostPort(Cut(arg, '@').0).Failure?
    ensures r.Success? ==> r.value.slot == slot
    ensures r.Success? ==> (r.value.tlsName.Some? <==> '@' in arg && TlsFamily(r.value.trans))
    ensures r.Success? && r.value.tlsName.Some? ==>
              arg == Cut(arg, '@').0 + "@" + r.value.tlsName.value
    ensures r.Success? ==>
              (r.value.trans, r.value.addr) == p.transport(p.hostPort(Cut(arg, '@').0).value)
  {
    var (server, name, found) := Cut(arg, '@');
    match p.hostPort(server)
    case Failure(e) => Failure(Foreign(e))
    case Success(first) =>
      var (trans, addr) := p.transport(first);
      var tlsName := if found && TlsFamily(trans) then Some(name) else None;
      Success(Upstream(slot, addr, trans, tlsName))
  }

  /** The upstreams of a `to` line, in order, in the slots from `first`
      on; the first argument that does not resolve stops the parse with its
      error, and the arguments after it are never resolved. */
  function Upstreams(args: seq<string>, first: nat, p: Parsers): (r: Result<seq<Upstream>, ConfigError>)
    ensures r.Success? ==> |r.value| == |args| && ResolvedFrom(args, first, p, r.value)
    ensures r.Failure? ==> FirstUnresolved(args, first, p, r.error)
    decreases |args|
  {
    if |args| == 0 then Success([])
    else
      match ToUpstream(args[0], first, p)
      case Failure(e) => Failure(e)
      case Success(u) =>
        match Upstreams(args[1..], first + 1, p)
        case Failure(e) =>
          UnresolvedShifts(args, first, p, e);
          Failure(e)
        case Success(us) =>
          ResolvedCons(args, first, p, u, us);
          Success([u] + us)
  }

  /** `us` are the upstreams of `args` in the slots from `first` on. */
  predicate ResolvedFrom(args: seq<string>, first: nat, p: Parsers, us: seq<Upstream>)
    requires |us| == |args|
  {
    forall i :: 0 <= i < |args| ==> ToUpstream(args[i], first + i, p) == Success(us[i])
  }

  /** Resolving the head and then the tail resolves the whole line. */
  lemma ResolvedCons(args: seq<string>, first: nat, p: Parsers, u: Upstream, us: seq<Upstream>)
    requires |args| > 0 && |us| == |args| - 1
    requires ToUpstream(args[0], first, p) == Success(u)
    requires ResolvedFrom(args[1..], first + 1, p, us)
    ensures ResolvedFrom(args, first, p, [u] + us)
  {
    forall i | 0 <= i < |args|
      ensures ToUpstream(args[i], first + i, p) == Success(([u] + us)[i])
    {
      if i > 0 {
        assert args[i] == args[1..][i - 1];
      }
    }
  }

  /** Argument `i` is the first one of `args` (in the slots from `first`
      on) that does not resolve, and its error is `e`. */
  predicate FirstUnresolved(args: seq<string>, first: nat, p: Parsers, e: ConfigError) {
    exists i :: 0 <= i < |args| && ToUpstream(args[i], first + i, p) == Failure(e)
                && forall j :: 0 <= j < i ==> ToUpstream(args[j], first + j, p).Success?
  }

  /** With the head resolved, the first unresolved argument of the tail is
      the first unresolved argument of the whole. */
  lemma UnresolvedShifts(args: seq<string>, first: nat, p: Parsers, e: ConfigError)
    requires |args| > 0 && ToUpstream(args[0], first, p).Success?
    requires FirstUnresolved(args[1..], first + 1, p, e)
    ensures FirstUnresolved(args, first, p, e)
  {
    var k :| 0 <= k < |args[1..]| && ToUpstream(args[1..][k], first + 1 + k, p) == Failure(e)
             && forall j :: 0 <= j < k ==> ToUpstream(args[1..][j], first + 1 + j, p).Success?;
    assert args[k + 1] == args[1..][k];
    forall j | 0 <= j < k + 1
      ensures ToUpstream(args[j], first + j, p).Success?
    {
      if j > 0 {
        assert args[j] == args[1..][j - 1];
      }
    }
  }

  /** `parseTo`: zero arguments is an error; otherwise the upstream list is
      replaced (not extended) by the upstreams of these arguments, one
      distinct upstream per argument. */
  function ParseTo(m: Matcher, args: seq<string>, p: Parsers): (r: Result<Matcher, ConfigError>)
    ensures |args| == 0 ==> r == Failure(ArgErr("to"))
    ensures r.Success? ==> r.value == m.(proxies := r.value.proxies)
    ensures r.Success? ==> |r.value.proxies| == |args|
    ensures r.Success? ==> forall i :: 0 <= i < |args| ==> ToUpstream(args[i], i, p) == Success(r.value.proxies[i])
    ensures r.Success? ==> forall i, j :: 0 <= i < j < |args| ==> r.value.proxies[i] != r.value.proxies[j]
    ensures r.Failure? && |args| > 0 ==> FirstUnresolved(args, 0, p, r.error)
  {
    if |args| == 0 then Failure(ArgErr("to"))
    else
      match Upstreams(args, 0, p)
      case Failure(e) => Failure(e)
      case Success(us) =>
        assert forall i :: 0 <= i < |us| ==> us[i].slot == i by {
          forall i | 0 <= i < |us|
            ensures us[i].slot == i
          {
            assert ToUpstream(args[i], i, p) == Success(us[i]);
          }
        }
        Success(m.(proxies := us))
  }

  /** A second `to` replaces the pool the first one set: the result is the
      same as if only the second had been given. */
  lemma LaterToReplaces(m: Matcher, first: seq<string>, second: seq<string>, p: Parsers)
    requires ParseTo(m, first, p).Success?
    ensures ParseTo(ParseTo(m, first, p).value, second, p) == ParseTo(m, second, p)
  {
  }

  /** `parseMaxfails`: exactly one integer argument, stored as a uint32. */
  function ParseMaxfails(m: Matcher, args: seq<string>, p: Parsers): (r: Result<Matcher, ConfigError>)
    ensures r.Success? <==> |args| == 1 && p.atoi(args[0]).Success?
    ensures |args| != 1 ==> r == Failure(ArgErr("maxfails"))
    ensures r.Success? ==> r.value == m.(maxfails := ToUint32(p.atoi(args[0]).value))
  {
    if |args| != 1 then Failure(ArgErr("maxfails"))
    else
      match p.atoi(args[0])
      case Failure(e) => Failure(Foreign(e))
      case Success(n) => Success(m.(maxfails := ToUint32(n)))
  }

  /** The duration argument of `healthcheck` or `reload`: exactly one
      argument that parses to a strictly positive duration. */
  function PositiveDuration(directive: string, args: seq<string>, p: Parsers): (r: Result<int, ConfigError>)
    ensures r.Success? <==> |args| == 1 && p.duration(args[0]).Success? && p.duration(args[0]).value > 0
    ensures r.Success? ==> r.value == p.duration(args[0]).value
    ensures |args| != 1 ==> r == Failure(ArgErr(directive))
    ensures |args| == 1 && p.duration(args[0]).Success? && p.duration(args[0]).value <= 0 ==>
              r == Failure(NotPositive(directive))
  {
    if |args| != 1 then Failure(ArgErr(directive))
    else
      match p.duration(args[0])
      case Failure(e) => Failure(Foreign(e))
      case Success(d) => if d <= 0 then Failure(NotPositive(directive)) else Success(d)
  }

  /** `parseHealthcheck`: sets the probe interval to the parsed duration,
      which is positive. */
  function ParseHealthcheck(m: Matcher, args: seq<string>, p: Parsers): (r: Result<Matcher, ConfigError>)
    ensures r.Success? ==> r.value == m.(healthcheck := r.value.healthcheck) && r.value.healthcheck > 0
    ensures r.Success? ==> |args| == 1 && p.duration(args[0]).Success? && r.value.healthcheck == p.duration(args[0]).value
    ensures r.Failure? <==> PositiveDuration("healthcheck", args, p).Failure?
  {
    match PositiveDuration("healthcheck", args, p)
    case Failure(e) => Failure(e)
    case Success(d) => Success(m.(healthcheck := d))
  }

  /** `parseReload`: sets the reload interval to the parsed duration, which
      is positive. */
  function ParseReload(m: Matcher, args: seq<string>, p: Parsers): (r: Result<Matcher, ConfigError>)
    ensures r.Success? ==> r.value == m.(reload := r.value.reload) && r.value.reload > 0
    ensures r.Success? ==> |args| == 1 && p.duration(args[0]).Success? && r.value.reload == p.duration(args[0]).value
    ensures r.Failure? <==> PositiveDuration("reload", args, p).Failure?
  {
    match PositiveDuration("reload", args, p)
    case Failure(e) => Failure(e)
    case Success(d) => Success(m.(reload := d))
  }

  /** The directive names a rule block understands. */
  predicate KnownDirective(name: string) {
    name == "to" || name == "maxfails" || name == "healthcheck" || name == "reload"
  }

  /** A rule setting, as a directive stores it. */
  datatype Setting = Pool(proxies: seq<Upstream>) | Threshold(maxfails: nat) | Interval(duration: int) | NoSetting

  /** The setting directive `name` controls in rule `m`; an unknown name
      controls nothing. */
  function SettingOf(m: Matcher, name: string): Setting {
    if name == "to" then Pool(m.proxies)
    else if name == "maxfails" then Threshold(m.maxfails)
    else if name == "healthcheck" then Interval(m.healthcheck)
    else if name == "reload" then Interval(m.reload)
    else NoSetting
  }

  /** What a directive means on its own, whatever rule it is applied to:
      the error it is rejected with, or the setting it stores. */
  function Meaning(d: Directive, p: Parsers): Result<Setting, ConfigError> {
    if d.name == "to" then
      if |d.args| == 0 then Failure(ArgErr("to"))
      else
        match Upstreams(d.args, 0, p)
        case Failure(e) => Failure(e)
        case Success(us) => Success(Pool(us))
    else if d.name == "maxfails" then
      if |d.args| != 1 then Failure(ArgErr("maxfails"))
      else
        match p.atoi(d.args[0])
        case Failure(e) => Failure(Foreign(e))
        case Success(n) => Success(Threshold(ToUint32(n)))
    else if d.name == "healthcheck" || d.name == "reload" then
      match PositiveDuration(d.name, d.args, p)
      case Failure(e) => Failure(e)
      case Success(t) => Success(Interval(t))
    else Success(NoSetting)
  }

  /** `parseBlock`: dispatch on the directive name. An unknown directive is
      never an error and changes nothing (it is only logged). A known one
      goes to its validator: it is rejected exactly when the directive's
      meaning is an error, and otherwise stores that meaning in its own
      setting and changes no other. */
  function ParseBlock(m: Matcher, d: Directive, p: Parsers): (r: Result<Matcher, ConfigError>)
    ensures d.name == "to" ==> r == ParseTo(m, d.args, p)
    ensures d.name == "maxfails" ==> r == ParseMaxfails(m, d.args, p)
    ensures d.name == "healthcheck" ==> r == ParseHealthcheck(m, d.args, p)
    ensures d.name == "reload" ==> r == ParseReload(m, d.args, p)
    ensures !KnownDirective(d.name) ==> r == Success(m)
    ensures r.Success? <==> Meaning(d, p).Success?
    ensures r.Failure? ==> r.error == Meaning(d, p).error
    ensures r.Success? ==> SettingOf(r.value, d.name) == Meaning(d, p).value
    ensures r.Success? ==> r.value.froms == m.froms && r.value.dt == m.dt
    ensures r.Success? && d.name != "to" ==> r.value.proxies == m.proxies
    ensures r.Success? && d.name != "maxfails" ==> r.value.maxfails == m.maxfails
    ensures r.Success? && d.name != "healthcheck" ==> r.value.healthcheck == m.healthcheck
    ensures r.Success? && d.name != "reload" ==> r.value.reload == m.reload
  {
    if d.name == "to" then ParseTo(m, d.args, p)
    else if d.name == "maxfails" then ParseMaxfails(m, d.args, p)
    else if d.name == "healthcheck" then ParseHealthcheck(m, d.args, p)
    else if d.name == "reload" then ParseReload(m, d.args, p)
    else Success(m)
  }

  /** A directive leaves every setting but its own as it was. */
  lemma ParseBlockKeepsOthers(m: Matcher, d: Directive, p: Parsers, name: string)
    requires name != d.name
    ensures ParseBlock(m, d, p).Success? ==> SettingOf(ParseBlock(m, d, p).value, name) == SettingOf(m, name)
  {
  }

  /** The intervals stay valid: probing positive, reload never negative. */
  predicate ValidIntervals(m: Matcher) {
    m.healthcheck > 0 && m.reload >= 0
  }

  /** The `NextBlock` loop: directives in order; the first error aborts.
      The block is accepted iff every directive is. */
  function ApplyBlock(m: Matcher, ds: seq<Directive>, p: Parsers): (r: Result<Matcher, ConfigError>)
    ensures r.Success? <==> forall i :: 0 <= i < |ds| ==> Meaning(ds[i], p).Success?
    ensures ValidIntervals(m) && r.Success? ==> ValidIntervals(r.value)
    ensures r.Success? ==> r.value.froms == m.froms && r.value.dt == m.dt
    ensures (forall i :: 0 <= i < |ds| ==> !KnownDirective(ds[i].name)) ==> r == Success(m)
    decreases |ds|
  {
    if |ds| == 0 then Success(m)
    else
      assert forall i :: 1 <= i < |ds| ==> ds[1..][i - 1] == ds[i];
      match ParseBlock(m, ds[0], p)
      case Failure(e) => Failure(e)
      case Success(m') => ApplyBlock(m', ds[1..], p)
  }

  /** The directives before position `i` are all accepted. */
  predicate AcceptedBefore(ds: seq<Directive>, i: int, p: Parsers)
    requires i <= |ds|
  {
    forall j :: 0 <= j < i ==> Meaning(ds[j], p).Success?
  }

  /** Acceptance up to `k` in the tail, with the head accepted, is
      acceptance up to `k + 1` in the whole. */
  lemma AcceptedShift(ds: seq<Directive>, k: nat, p: Parsers)
    requires k < |ds| - 1
    requires Meaning(ds[0], p).Success? && AcceptedBefore(ds[1..], k, p)
    ensures AcceptedBefore(ds, k + 1, p) && ds[k + 1] == ds[1..][k]
  {
    forall j | 0 <= j < k + 1
      ensures Meaning(ds[j], p).Success?
    {
      if j > 0 {
        assert ds[j] == ds[1..][j - 1];
      }
    }
  }

  /** A rejected block carries the error of its first rejected directive. */
  lemma {:induction false} FirstRejectedError(m: Matcher, ds: seq<Directive>, p: Parsers)
    ensures ApplyBlock(m, ds, p).Failure? ==>
              exists i :: 0 <= i < |ds| && AcceptedBefore(ds, i, p) && Meaning(ds[i], p) == Failure(ApplyBlock(m, ds, p).error)
    decreases |ds|
  {
    var r := ApplyBlock(m, ds, p);
    if r.Failure? {
      var first := ParseBlock(m, ds[0], p);
      if first.Failure? {
        assert AcceptedBefore(ds, 0, p);
      } else {
        var rest := ds[1..];
        assert r == ApplyBlock(first.value, rest, p);
        FirstRejectedError(first.value, rest, p);
        var k :| 0 <= k < |rest| && AcceptedBefore(rest, k, p) && Meaning(rest[k], p) == Failure(r.error);
        AcceptedShift(ds, k, p);
      }
    }
  }

  /** A setting that no directive of the block names keeps its value. */
  lemma {:induction false} UnnamedSettingKept(m: Matcher, ds: seq<Directive>, name: string, p: Parsers)
    requires forall j :: 0 <= j < |ds| ==> ds[j].name != name
    ensures ApplyBlock(m, ds, p).Success? ==> SettingOf(ApplyBlock(m, ds, p).value, name) == SettingOf(m, name)
    decreases |ds|
  {
    if |ds| > 0 {
      var r := ParseBlock(m, ds[0], p);
      if r.Success? {
        ParseBlockKeepsOthers(m, ds[0], p, name);
        assert forall j :: 0 <= j < |ds[1..]| ==> ds[1..][j] == ds[j + 1];
        UnnamedSettingKept(r.value, ds[1..], name, p);
      }
    }
  }

  /** The last directive of a kind decides that setting: whatever came
      before it, the rule ends up holding what that directive means. */
  lemma {:induction false} LastDirectiveDecides(m: Matcher, ds: seq<Directive>, i: nat, p: Parsers)
    requires i < |ds|
    requires forall j :: i < j < |ds| ==> ds[j].name != ds[i].name
    ensures ApplyBlock(m, ds, p).Success? ==>
              SettingOf(ApplyBlock(m, ds, p).value, ds[i].name) == Meaning(ds[i], p).value
    decreases |ds|
  {
    var r := ParseBlock(m, ds[0], p);
    if r.Success? {
      assert forall j :: 0 <= j < |ds[1..]| ==> ds[1..][j] == ds[j + 1];
      if i == 0 {
        UnnamedSettingKept(r.value, ds[1..], ds[0].name, p);
      } else {
        LastDirectiveDecides(r.value, ds[1..], i - 1, p);
      }
    }
  }

  /** A rule before its block is read: probe every 10s, no reload, no
      failure threshold, no upstreams. */
  function Defaults(): Matcher {
    Matcher([], Empty, [], 0, DefaultHealthcheck, 0)
  }

  /** `newMatch`: read the sources (none is an error), build the first
      snapshot from them, then apply the block's directives. With sources,
      the rule is built iff every directive is accepted. */
  function NewMatch(b: RuleBlock, fetch: Fetch, p: Parsers): (r: Result<Matcher, ConfigError>)
    ensures |b.froms| == 0 ==> r == Failure(ArgErr("from"))
    ensures |b.froms| > 0 ==> (r.Success? <==> forall i :: 0 <= i < |b.body| ==> Meaning(b.body[i], p).Success?)
    ensures r.Success? ==> r.value.froms == b.froms && ValidIntervals(r.value)
    ensures r.Success? ==> forall n :: Has(r.value.dt, n) <==> AnySourceHas(b.froms, fetch, n)
    ensures |b.froms| > 0 && (forall i :: 0 <= i < |b.body| ==> !KnownDirective(b.body[i].name)) ==>
              r.Success? && r.value.healthcheck == DefaultHealthcheck && r.value.reload == 0
              && r.value.maxfails == 0 && r.value.proxies == []
  {
    if |b.froms| == 0 then Failure(ArgErr("from"))
    else
      var m := RebuildDt(Defaults().(froms := b.froms), fetch);
      ApplyBlock(m, b.body, p)
  }

  /** A rejected block is rejected for its missing sources, or with the
      error of its first rejected directive. */
  lemma NewMatchFirstError(b: RuleBlock, fetch: Fetch, p: Parsers)
    ensures NewMatch(b, fetch, p).Failure? ==>
              || (|b.froms| == 0 && NewMatch(b, fetch, p).error == ArgErr("from"))
              || exists i :: 0 <= i < |b.body| && AcceptedBefore(b.body, i, p)
                             && Meaning(b.body[i], p) == Failure(NewMatch(b, fetch, p).error)
  {
    if |b.froms| > 0 {
      FirstRejectedError(RebuildDt(Defaults().(froms := b.froms), fetch), b.body, p);
    }
  }

  /** The position of the last directive named `name`, or -1 when there is
      none. */
  function LastNamed(ds: seq<Directive>, name: string): (i: int)
    ensures -1 <= i < |ds|
    ensures i >= 0 ==> ds[i].name == name
    ensures forall j :: i < j < |ds| ==> ds[j].name != name
    decreases |ds|
  {
    if |ds| == 0 then -1
    else if ds[|ds| - 1].name == name then |ds| - 1
    else LastNamed(ds[..|ds| - 1], name)
  }

  /** Each setting of a built rule is what the last directive of its name
      means, or the default when the block has no such directive. */
  lemma NewMatchSetting(b: RuleBlock, fetch: Fetch, p: Parsers, name: string)
    ensures NewMatch(b, fetch, p).Success? ==>
              var i := LastNamed(b.body, name);
              SettingOf(NewMatch(b, fetch, p).value, name)
                == if i < 0 then SettingOf(Defaults(), name) else Meaning(b.body[i], p).value
  {
    if NewMatch(b, fetch, p).Success? {
      var m := RebuildDt(Defaults().(froms := b.froms), fetch);
      var i := LastNamed(b.body, name);
      if i < 0 {
        UnnamedSettingKept(m, b.body, name, p);
      } else {
        LastDirectiveDecides(m, b.body, i, p);
      }
    }
  }

  /** `Matcher.Start` starts the reload loop only for a positive interval. */
  predicate StartsReloadLoop(m: Matcher) {
    m.reload > 0
  }

  /** A built rule starts the reload loop iff its block has a `reload`
      directive. */
  lemma ReloadLoopOnlyWhenConfigured(b: RuleBlock, fetch: Fetch, p: Parsers)
    ensures NewMatch(b, fetch, p).Success? ==>
              (StartsReloadLoop(NewMatch(b, fetch, p).value) <==> exists i :: 0 <= i < |b.body| && b.body[i].name == "reload")
  {
    NewMatchSetting(b, fetch, p, "reload");
    var i := LastNamed(b.body, "reload");
    if i >= 0 {
      assert b.body[i].name == "reload";
    }
  }

  /** The outcome of `NewMatchers` (the plugin setup). */
  datatype Setup = Configured(matchers: seq<Matcher>) | Rejected(err: ConfigError) | Panicked

  /** `ys` are what `f` yields on `xs`, one for one, all successfully. */
  predicate YieldsAll<A, B(==)>(f: A -> Result<B, ConfigError>, xs: seq<A>, ys: seq<B>) {
    |xs| == |ys| && forall i :: 0 <= i < |xs| ==> f(xs[i]) == Success(ys[i])
  }

  /** Yielding the head and then the tail yields the whole sequence. */
  lemma YieldsAllCons<A, B>(f: A -> Result<B, ConfigError>, xs: seq<A>, y: B, ys: seq<B>)
    requires |xs| > 0 && f(xs[0]) == Success(y)
    requires YieldsAll(f, xs[1..], ys)
    ensures YieldsAll(f, xs, [y] + ys)
  {
    forall i | 0 <= i < |xs|
      ensures f(xs[i]) == Success(([y] + ys)[i])
    {
      if i > 0 {
        assert xs[i] == xs[1..][i - 1];
      }
    }
  }

  /** Element `i` is the first of `xs` on which `f` fails, and it fails
      with `e`. */
  predicate FirstFailure<A, B>(f: A -> Result<B, ConfigError>, xs: seq<A>, e: ConfigError) {
    exists i :: 0 <= i < |xs| && f(xs[i]) == Failure(e)
                && forall j :: 0 <= j < i ==> f(xs[j]).Success?
  }

  /** With `f` succeeding on the head, the first failure in the tail is the
      first failure of the whole sequence. */
  lemma FailureInTail<A, B>(f: A -> Result<B, ConfigError>, xs: seq<A>, e: ConfigError)
    requires |xs| > 0 && f(xs[0]).Success?
    requires FirstFailure(f, xs[1..], e)
    ensures FirstFailure(f, xs, e)
  {
    var k :| 0 <= k < |xs[1..]| && f(xs[1..][k]) == Failure(e) && forall j :: 0 <= j < k ==> f(xs[1..][j]).Success?;
    assert xs[k + 1] == xs[1..][k];
    forall j | 0 <= j < k + 1
      ensures f(xs[j]).Success?
    {
      if j > 0 {
        assert xs[j] == xs[1..][j - 1];
      }
    }
  }

  /** Every block in order; the first failing block's error is returned and
      the blocks after it are never parsed. */
  function NewMatchList(bs: seq<RuleBlock>, fetch: Fetch, p: Parsers): (r: Result<seq<Matcher>, ConfigError>)
    ensures r.Success? ==> YieldsAll((b: RuleBlock) => NewMatch(b, fetch, p), bs, r.value)
    ensures r.Failure? ==> FirstFailure((b: RuleBlock) => NewMatch(b, fetch, p), bs, r.error)
    decreases |bs|
  {
    var build := (b: RuleBlock) => NewMatch(b, fetch, p);
    if |bs| == 0 then Success([])
    else
      match build(bs[0])
      case Failure(e) => Failure(e)
      case Success(m) =>
        match NewMatchList(bs[1..], fetch, p)
        case Failure(e) =>
          FailureInTail(build, bs, e);
          Failure(e)
        case Success(ms) =>
          YieldsAllCons(build, bs, m, ms);
          Success([m] + ms)
  }

  /** `NewMatchers`: an error in any block rejects the configuration with
      the error of the first failing block, and a configuration with no rule
      block at all panics. */
  function NewMatchers(bs: seq<RuleBlock>, fetch: Fetch, p: Parsers): (r: Setup)
    ensures r.Panicked? <==> |bs| == 0
    ensures r.Configured? ==> |r.matchers| == |bs| > 0
    ensures r.Configured? ==> forall i :: 0 <= i < |bs| ==> NewMatch(bs[i], fetch, p) == Success(r.matchers[i])
    ensures r.Rejected? ==> exists i :: 0 <= i < |bs| && NewMatch(bs[i], fetch, p) == Failure(r.err)
                                         && forall j :: 0 <= j < i ==> NewMatch(bs[j], fetch, p).Success?
    ensures (exists i :: 0 <= i < |bs| && NewMatch(bs[i], fetch, p).Failure?) ==> r.Rejected?
  {
    if |bs| == 0 then Panicked
    else
      match NewMatchList(bs, fetch, p)
      case Failure(e) => Rejected(e)
      case Success(ms) => Configured(ms)
  }
}
