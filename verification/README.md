# dispatch — a Dafny model of the rule-based DNS dispatcher

`dispatch` is a CoreDNS plugin. It routes a DNS query to an upstream pool
chosen by the query name. An operator writes rules. Each rule names domain
lists (files or URLs), an upstream pool and a few policy settings. For a
query, the first rule whose domain list matches the first question name is
used. Every upstream of that rule that is not marked down is queried at
once, and the first successful answer is written back under the client's
transaction id. A query that no rule matches goes to the next plugin.

The model has five modules:

- `Wrappers` (wrappers.dfy): `Option` and `Result`, which stand for Go's
  `(T, error)` pairs and nil pointers.
- `Strings` (strings.dfy): the parts of Go's `strings` package the plugin
  uses (`LastIndex`, `TrimSpace`, `TrimPrefix`, `TrimSuffix`, `Split`,
  `Cut`), each with Go's documented contract, on strings of characters
  rather than bytes.
- `Domain` (domain.dfy): the domain suffix trie of domain.go. This covers
  line normalisation (`parseDomain`), the `Top`/`Next` label split,
  `Insert`, `Has`, `Merge`, and building a tree from a drained reader. The
  trie is an immutable value here; Go mutates nodes in place.
- `Match` (match.dfy): a rule. This covers rebuilding its domain snapshot
  from its sources, the validation of its block (`to`, `maxfails`,
  `healthcheck`, `reload`), `newMatch` and `NewMatchers`.
- `Dispatch` (dispatch.dfy): `ServeDNS`. Upstream liveness, the upstream
  exchange, the response writer and the context's error are parameters.
  The goroutine race is a choice (`Race`): either the k-th successful
  reply reached the `sync.Once` gate first, or the context finished first.

Where the documented behaviour and the code differ, the model follows the
code:

- A lone `.` line is documented as "match everything", and domain_test.go
  lines 26-28 expect `Has("a")` after `Insert(".")`. In the code,
  `parseDomain(".")` strips the dot to `""`, so `Insert` returns before it
  could set the root mark. `Domain.InsertLoneDot` and
  `Domain.InsertLoneDotExample` state the code's behaviour: the tree is
  unchanged and `"a"` is not a member.
- No case folding is done anywhere, so `"Example.com"` and `"example.com"`
  are different names.
- `Has` normalises the query name with the same `parseDomain` as source
  lines. So a query `"#x"` or `"server=/a"` names nothing, and a query
  with a trailing dot (`"a.b."`) is looked up as `"a.b"`.
- A matched rule with no upstream left to try (an empty pool, or every
  upstream down) does not fall through to the next plugin. It waits for
  the context and fails with the context's error
  (`Dispatch.NoAttemptOnlyCancels`).
- `maxfails` is a Go `int` stored in a `uint32`, so a negative value wraps
  around modulo 2^32 (`Match.ToUint32`).

## Model

| member | source | states |
|---|---|---|
| Domain.TopNextSplit | domain.go:24-37 | `Next(d) + "." + Top(d)` rebuilds a dotted name; a dot-free name is its own top label and has an empty remainder |
| Domain.TopNextExamples | domain_test.go:9-21 | the label walk of "a.b": top "b" and rest "a", then "a" and "", then "" and "" |
| Domain.ParseComment | domain.go:153-156 | a line whose trimmed text starts with `#` names no domain |
| Domain.ParseServerLine | domain.go:158-165 | a dnsmasq `server=/name/rest` line names the text between the first two slashes, with one trailing and one leading dot removed |
| Domain.ParseServerLineMalformed | domain.go:159-163 | a `server=/` line that does not have exactly two slashes names nothing |
| Domain.ParseBareLine | domain.go:152-174 | any other line names its trimmed text, with one trailing and one leading dot removed |
| Domain.ParseLoneDot | domain.go:167-171 | the line "." normalises to the empty name |
| Domain.ParsePlainDomain | domain.go:152-174 | a name without blanks, comment mark, dnsmasq prefix or edge dots is left unchanged by normalisation |
| Domain.ParseIgnoresLineBreak | domain.go:153 | a trailing line break never changes the name a line gives |
| Domain.NoNameNoMember | domain.go:45-52 | a query that normalises to the empty name (blank, comment, malformed dnsmasq line, lone dot) is never a member |
| Domain.Insert | domain.go:68-74 | `Insert` never sets the root's match-all mark; a line that names nothing leaves the tree unchanged |
| Domain.PutContains | domain.go:54-88 | after the unexported `insert` of a name, a name is contained iff it was contained before or lies under the inserted name in label order |
| Domain.CoversSubdomain | domain.go:58-65 | every subdomain `x.d` lies under `d` |
| Domain.SuffixNotCovered | domain.go:58-65 | a proper parent `y` does not lie under `x.y` |
| Domain.InsertHas | domain.go:45-88 | after `Insert(line)`, `Has(n)` holds iff it held before, or the line and the query both name domains and the line's domain covers the query's |
| Domain.InsertThenHas | domain.go:45-88 | an inserted domain is a member afterwards |
| Domain.InsertThenHasSubdomain | domain.go:45-88 | a subdomain of an inserted domain is a member afterwards |
| Domain.InsertSubdomainKeepsParentOut | domain.go:54-88 | inserting a domain `x.y` never makes its parent `y` a member |
| Domain.InsertMonotone | domain.go:68-88 | inserting never removes a member |
| Domain.InsertLoneDot | domain.go:68-72 | inserting "." returns the tree unchanged |
| Domain.InsertBCEmptyName | domain_test.go:30-32 | with "b.c" inserted, the empty name is not a member |
| Domain.InsertBCSuffix | domain_test.go:30-33 | with "b.c" inserted, its parent "c" is not a member |
| Domain.InsertBCMembers | domain_test.go:30-35 | with "b.c" inserted, "b.c" and "a.b.c" are members |
| Domain.InsertLoneDotExample | domain_test.go:24-28 | after inserting "." into an empty tree, "a" is NOT a member, unlike the test's expectation |
| Domain.MergeNodesContains | domain.go:97-107 | the unexported `merge` yields a tree that contains exactly what either input contains |
| Domain.MergeHas | domain.go:90-107 | `Merge` is a union on membership; merging nil changes nothing |
| Domain.MergeIntoEmptyCopies | domain.go:97-107 | merging into a fresh tree rebuilds the other tree node for node |
| Domain.MergeCommutativeIdempotent | domain.go:90-107 | on membership, merging is commutative, and merging a tree with itself adds nothing |
| Domain.InsertBCDNonMembers | domain_test.go:42-48 | with "b.c" then "d" inserted, neither "" nor "c" is a member |
| Domain.InsertBCDKeeps | domain_test.go:42-50 | with "b.c" then "d" inserted, "b.c" and "a.b.c" are still members |
| Domain.InsertBCDSubdomain | domain_test.go:42-51 | with "b.c" then "d" inserted, "a.d" is a member |
| Domain.MergeExample | domain_test.go:38-52 | merging that tree into an empty one keeps exactly those answers |
| Domain.PiecesPartition | domain.go:137-148 | the pieces `ReadBytes('\n')` yields concatenate to the text; every piece but the last is one whole line, and the last has no line break |
| Domain.ReadLine | domain.go:138 | one `ReadBytes('\n')` step takes the first piece off the buffer; at the end of the buffer it yields the final piece and reports EOF |
| Domain.InsertAllHas | domain.go:137-148 | after inserting lines in order, a name is a member iff it was before or some line admits it |
| Domain.TreeFromTextHas | domain.go:129-150 | the tree built from a text has exactly the names that some line of the text admits |
| Domain.NewTreeFromReader | domain.go:129-150 | a read error is returned as is; otherwise the loop inserts every piece, including the final unterminated one, and the tree's members are exactly the names the lines admit |
| Match.ToUint32 | match.go:172 | `uint32(int)` keeps values in range and wraps others modulo 2^32 |
| Match.KindOf | match.go:84 | a source is a URL iff it starts with `http://` or `https://` |
| Match.LoadSource | match.go:84-96 | a source loads iff its fetch succeeds, and then yields the tree built from the fetched text |
| Match.RebuildHas | match.go:76-99 | the rebuilt tree has a name iff some source that loads has it |
| Match.FailedSourceSkipped | match.go:84-96 | a source that fails to load neither adds names nor stops the sources after it |
| Match.RebuildDt | match.go:76-102 | the snapshot is replaced wholesale by the union of the loading sources, whatever it held before; no other setting changes |
| Match.ToUpstream | match.go:139-155 | a `to` argument is cut at the first `@`; its upstream sits in the given pool slot and carries a TLS server name iff an `@` was present and the transport is TLS, gRPC or HTTPS, and that name is the text after the `@` |
| Match.Upstreams | match.go:137-158 | the upstreams follow the arguments one for one and in order, each in its own slot; a failure carries the error of the first argument that does not resolve, every argument before it resolving |
| Match.ParseTo | match.go:131-159 | no arguments is an argument error; otherwise a failure carries the error of the first unresolvable argument, and a success replaces the pool by exactly the arguments' upstreams, one distinct upstream per argument even for repeated addresses, with nothing else changed |
| Match.LaterToReplaces | match.go:137 | a second `to` gives the same rule as if only the second had been given: the earlier pool is discarded, not extended |
| Match.ParseMaxfails | match.go:161-174 | succeeds iff there is exactly one argument and it is an integer; stores it wrapped to uint32; nothing else changes |
| Match.PositiveDuration | match.go:176-210 | a duration argument is accepted iff there is exactly one and it parses to a positive value; zero or less is a distinct error |
| Match.ParseHealthcheck | match.go:176-192 | on success the probe interval becomes the parsed duration, which is positive, and nothing else changes; fails exactly when the argument is not accepted |
| Match.ParseReload | match.go:194-210 | on success the reload interval becomes the parsed duration, which is positive, and nothing else changes; fails exactly when the argument is not accepted |
| Match.ParseBlock | match.go:104-129 | each known directive goes to its own validator; a directive is rejected exactly when its meaning (`Meaning`, independent of the rule) is an error, with that error, and otherwise its setting becomes that meaning; an unknown directive is accepted and changes nothing; no other setting, source or snapshot changes |
| Match.ParseBlockKeepsOthers | match.go:104-129 | a directive leaves every setting other than its own as it was |
| Match.ApplyBlock | match.go:56-60 | the block is accepted iff every directive's meaning is accepted; the directives keep the intervals valid (probe positive, reload not negative); without known directives the rule is unchanged |
| Match.FirstRejectedError | match.go:56-60 | a rejected block carries the error of its first rejected directive, every directive before it being accepted |
| Match.UnnamedSettingKept | match.go:56-60 | a setting that no directive of the block names keeps the value it had |
| Match.LastDirectiveDecides | match.go:56-60 | the last directive of a name decides that setting: the rule ends up holding what it means, whatever came before |
| Match.NewMatch | match.go:46-74 | no sources is an argument error; with sources the rule is built iff every directive is accepted; a built rule keeps its sources, has valid intervals and a snapshot holding exactly what some loading source has; a block without known directives yields the defaults (10s probe, no reload, maxfails 0, no upstreams) |
| Match.NewMatchFirstError | match.go:46-60 | a rejected rule was rejected for missing sources, or with the error of its first rejected directive |
| Match.NewMatchSetting | match.go:46-63 | each setting of a built rule is what the last directive of its name means, or the default when the block has none |
| Match.ReloadLoopOnlyWhenConfigured | match.go:194-218 | a built rule starts the reload loop iff its block has a `reload` directive |
| Match.NewMatchList | match.go:32-38 | every block yields its rule in order; a failure carries the error of the first failing block, every block before it building |
| Match.NewMatchers | match.go:29-44 | no block at all panics; any failing block rejects the configuration with the error of the first failing block; otherwise there is one rule per block, in order |
| Dispatch.FirstMatch | dispatch.go:31-32 | yields the first rule whose snapshot has the name: no earlier rule has it, and none yields no rule at all |
| Dispatch.Attempted | dispatch.go:33-37 | an attempt is started on exactly the upstreams that are not down for the rule's threshold; with every upstream down there is none |
| Dispatch.Replies | dispatch.go:39-54 | the candidate answers are exactly the answers of successful attempts |
| Dispatch.RaceRule | dispatch.go:57-69 | a written reply carries the request's id and is the answer of an attempted upstream that succeeded, and the write error is the writer's; otherwise the call ends with the context's error and never falls through |
| Dispatch.Serve | dispatch.go:20-74 | it falls through to the next plugin iff there is no question or no rule matches the first question; otherwise the outcome is the race of the first matching rule |
| Dispatch.Returned | dispatch.go:57-69 | rcode success with no error iff a reply was written without error; otherwise server failure with the write or context error |
| Dispatch.LaterRulesIgnored | dispatch.go:31-71 | rules after the first matching rule cannot change the outcome |
| Dispatch.FirstMatchPrefix | dispatch.go:31-32 | a match found in a prefix of the rules stays the first match in any extension |
| Dispatch.AnySuccessCanWin | dispatch.go:39-61 | every upstream that is not down and answers can win the race, and its answer is written under the request's id |
| Dispatch.NoAttemptOnlyCancels | dispatch.go:33-69 | a matched rule with no upstream to try never answers or falls through; it ends with the context's error |
| Dispatch.OnlySuccessWins | dispatch.go:39-61 | with a single successful upstream, any written reply is that upstream's answer under the request's id |

## Left out

- Opening files and fetching URLs (`NewTreeFromFile`, `NewTreeFromUrl`) are I/O. Their outcome enters as a `Fetch` function from a source to its full text or an error; the tree built from the text is modelled.
- The error branch of `ReadBytes` other than `io.EOF` (domain.go:139-142) cannot occur for an in-memory `bytes.Buffer`, so the model has no such branch.
- The configuration tokeniser (`caddy.Controller`), `parse.HostPortOrFile`, `parse.Transport`, `strconv.Atoi` and `time.ParseDuration` are foreign code. Their results enter through `Parsers`; a rule block is given already split into sources and directives.
- Match.ToUpstream: uses only the first address `HostPortOrFile` resolves, exactly as the code does with `ss[0]`; the other resolved addresses are not modelled.
- The proxy package (`proxy.Proxy`, `Down`, `Connect`, `Start`, `Stop`, `Healthcheck`, TLS configuration objects) is not part of this model. `Down` and `Connect` are parameters over upstreams, and the TLS server name is recorded on the upstream. Each upstream carries its slot in the pool, so two `to` arguments with the same address stay distinct upstreams, as distinct proxy objects do in Go; the same slot in the pools of two different rules is not told apart, which only matters across rules and a query only ever races one rule.
- Strings are sequences of characters, not Go's byte strings: a domain list holding bytes that are not valid UTF-8 cannot be written down, and `TrimSpace` and `Split` are stated over characters. For UTF-8 text the two agree.
- Goroutines, `sync.Once`, the reply channel and the atomic snapshot pointer are concurrency. The race is a choice among the successful replies or cancellation, and a snapshot swap is a whole-value replacement of `dt`.
- The reload ticker, `Matcher.Start`/`Stop` and `OnStartup`/`OnShutdown` are lifecycle. Only the condition under which `Start` launches the reload loop is modelled (`StartsReloadLoop`). `OnStartup` (dispatch.go:80-88) starts the upstreams but never calls `Matcher.Start`, so the reload loop is not launched by the plugin's own startup.
- The possible late send on the reply channel after `ServeDNS` has returned and closed it (dispatch.go:29, 50-53) is a concurrency hazard outside this model.
- The aliasing guarantees of `merge` (the other tree is not modified; children are copied into fresh nodes) hold by construction, since trees are immutable values. `Domain.MergeIntoEmptyCopies` states the shape of the copy.
- setup.go and init.go (plugin registration, error wrapping) are not part of this model.
- Logging is left out; it never changes a result.
- The DNS message is reduced to an id, the question names and an opaque body. `r.Copy()` is the identity.
- What the next plugin returns after a fall-through is that plugin's business; the model stops at `Fallback`.
