/** The domain suffix trie of domain.go: source-line normalisation, the
    `Top`/`Next` label split, insertion, membership, union by merge, and the
    line-by-line construction of a tree from a domain list.

    The trie is an immutable value. The Go code mutates nodes in place and
    allocates fresh child nodes while merging; here every operation returns
    a new tree, so "the other tree is not modified" and "nothing is aliased"
    hold by construction. */
module Domain {
  import opened Wrappers
  import opened Strings

  // ---------------------------------------------------------------------
  // Labels

  /** The rightmost label: what follows the last dot, or all of `d`. */
  function Top(d: string): (r: string)
    ensures '.' !in r
    ensures |r| <= |d|
  {
    var i := LastIndex(d, '.');
    if i >= 0 then d[i + 1..] else d
  }

  /** Everything left of the last dot, or "" when there is no dot. */
  function Next(d: string): (r: string)
    ensures d != "" ==> |r| < |d|
  {
    var i := LastIndex(d, '.');
    if i >= 0 then d[..i] else ""
  }

  /** `Next` and `Top` cut a dotted name at its last dot and put back
      together give the name; a dot-free name is its own top label and has
      an empty remainder. */
  lemma TopNextSplit(d: string)
    ensures '.' in d ==> Next(d) + "." + Top(d) == d
    ensures '.' !in d ==> Top(d) == d && Next(d) == ""
  {
    var i := LastIndex(d, '.');
    if i >= 0 {
      assert d == d[..i] + [d[i]] + d[i + 1..];
    }
  }

  /** The labels of `x + "." + d`: for a dotted `d` the walk keeps to `d`'s
      top label and carries `x` along; for a dot-free `d` (also "") the top
      label is `d` and the remainder is `x`. */
  lemma TopNextOfSubdomain(x: string, d: string)
    ensures '.' in d ==> Top(x + "." + d) == Top(d) && Next(x + "." + d) == x + "." + Next(d)
    ensures '.' !in d ==> Top(x + "." + d) == d && Next(x + "." + d) == x
  {
    var n := x + "." + d;
    var p := LastDotOfSubdomain(x, d);
    if '.' in d {
      var i := LastIndex(d, '.');
      assert n[p + 1..] == d[i + 1..];
      assert n[..p] == x + "." + d[..i];
    } else {
      assert n[p + 1..] == d;
      assert n[..p] == x;
    }
  }

  /** Where the last dot of `x + "." + d` sits. */
  lemma LastDotOfSubdomain(x: string, d: string) returns (p: int)
    ensures p == LastIndex(x + "." + d, '.')
    ensures '.' in d ==> p == |x| + 1 + LastIndex(d, '.')
    ensures '.' !in d ==> p == |x|
  {
    var n := x + "." + d;
    var i := LastIndex(d, '.');
    p := if i >= 0 then |x| + 1 + i else |x|;
    var tail := if i >= 0 then d[i + 1..] else d;
    assert '.' !in tail;
    assert n[p] == '.';
    assert n[p + 1..] == tail;
    LastIndexAt(n, '.', p);
  }

  // ---------------------------------------------------------------------
  // Normalising a source line or a query name

  /** The dnsmasq rule prefix recognised in domain lists. */
  const ServerPrefix: string := "server=/"

  /** At most one trailing dot, then at most one leading dot, removed. */
  function StripDots(s: string): (r: string)
    ensures |r| <= |s|
  {
    TrimPrefix(TrimSuffix(s, "."), ".")
  }

  /** The part of a trimmed line that names the domain: nothing for a `#`
      comment; for a `server=/` line the second `/`-separated field when
      there are exactly three fields and nothing otherwise; else the line. */
  function Selected(t: string): (b: string)
    ensures |b| <= |t|
  {
    if "#" <= t then ""
    else if ServerPrefix <= t then
      var fields := Split(t, '/');
      if |fields| != 3 then "" else fields[1]
    else t
  }

  /** `parseDomain`: trim white space, select the domain part, and strip one
      trailing and then one leading dot. No case folding is done. */
  function Parse(line: string): string {
    var b := Selected(TrimSpace(line));
    if b == "" then "" else StripDots(b)
  }

  /** A comment line names no domain. */
  lemma ParseComment(line: string)
    requires "#" <= TrimSpace(line)
    ensures Parse(line) == ""
  {
  }

  /** A well-formed dnsmasq line names the domain between its first two
      slashes, with one trailing and one leading dot stripped. */
  lemma ParseServerLine(line: string, name: string, rest: string)
    requires TrimSpace(line) == ServerPrefix + name + "/" + rest
    requires '/' !in name && '/' !in rest
    ensures Parse(line) == StripDots(name)
  {
    var t := TrimSpace(line);
    var fields := ServerFields(name, rest);
    assert t == "server=" + "/" + (name + "/" + rest);
    assert t[0] == 's';
    assert Selected(t) == name;
  }

  /** The fields of a well-formed dnsmasq line. */
  lemma ServerFields(name: string, rest: string) returns (fields: seq<string>)
    requires '/' !in name && '/' !in rest
    ensures fields == Split("server=" + "/" + (name + "/" + rest), '/')
    ensures fields == ["server=", name, rest]
  {
    var u := name + "/" + rest;
    SplitAround("server=", u, '/');
    SplitAround(name, rest, '/');
    SplitNoSeparator(rest, '/');
    fields := ["server=", name, rest];
  }

  /** A dnsmasq line with more or fewer than two slashes names nothing. */
  lemma ParseServerLineMalformed(line: string)
    requires ServerPrefix <= TrimSpace(line)
    requires Count(TrimSpace(line), '/') != 2
    ensures Parse(line) == ""
  {
    var t := TrimSpace(line);
    assert t[0] == 's';
  }

  /** Any other line names its trimmed text with the dots stripped. */
  lemma ParseBareLine(line: string)
    requires !("#" <= TrimSpace(line)) && !(ServerPrefix <= TrimSpace(line))
    ensures Parse(line) == StripDots(TrimSpace(line))
  {
  }

  /** A lone dot (the documented "match everything" line) normalises to "". */
  lemma ParseLoneDot()
    ensures Parse(".") == ""
  {
    TrimSpaceKeeps(".");
    assert TrimSuffix(".", ".") == "";
  }

  /** A domain with no surrounding blanks, comment mark, dnsmasq prefix or
      edge dots is already normalised. */
  lemma ParsePlainDomain(d: string)
    requires |d| > 0 && !IsSpace(d[0]) && !IsSpace(d[|d| - 1])
    requires d[0] != '#' && d[0] != '.' && d[|d| - 1] != '.'
    requires !(ServerPrefix <= d)
    ensures Parse(d) == d
  {
    TrimSpaceKeeps(d);
    assert !HasSuffix(d, ".");
  }

  // ---------------------------------------------------------------------
  // The trie

  /** A trie node: `mark` is the match-all flag, `sub` maps a label to the
      subtree of names that continue with it (rightmost label first). */
  datatype Tree = Node(mark: bool, sub: map<string, Tree>)

  /** `NewDomainTree`: unmarked, no children. */
  const Empty: Tree := Node(false, map[])

  /** The unexported `has`: a marked node matches; a node without children
      does not; otherwise follow the child for the top label. The walk ends
      by tree depth, since `Next("")` is "" again. */
  predicate Contains(t: Tree, d: string)
    decreases t
  {
    if t.mark then true
    else if t.sub == map[] then false
    else if Top(d) in t.sub then Contains(t.sub[Top(d)], Next(d))
    else false
  }

  /** `Has`: the query name is normalised like a source line, and a name
      that normalises to "" is never a member. */
  predicate Has(t: Tree, name: string) {
    var d := Parse(name);
    d != "" && Contains(t, d)
  }

  /** A query that normalises to nothing (blank, a comment, a malformed
      dnsmasq line, a lone dot) is never a member, whatever the tree. */
  lemma NoNameNoMember(t: Tree, name: string)
    requires Parse(name) == ""
    ensures !Has(t, name)
  {
  }

  /** The unexported `insert`: walk or create the child for each label from
      the top inward and mark the node reached when the name runs out. */
  function Put(t: Tree, d: string): Tree
    decreases |d|
  {
    if d == "" then t.(mark := true)
    else
      var k := Top(d);
      var child := if k in t.sub then t.sub[k] else Empty;
      t.(sub := t.sub[k := Put(child, Next(d))])
  }

  /** `Insert`: a line that normalises to "" (a blank line, a comment, a
      malformed dnsmasq line, a lone dot) leaves the tree as it is, so the
      root mark is never set this way. */
  function Insert(t: Tree, line: string): (r: Tree)
    ensures r.mark == t.mark
    ensures Parse(line) == "" ==> r == t
  {
    var d := Parse(line);
    if d == "" then t else Put(t, d)
  }

  /** `Merge`: a nil other tree changes nothing. */
  function Merge(t: Tree, other: Option<Tree>): Tree {
    match other
    case None => t
    case Some(o) => MergeNodes(t, o)
  }

  /** The unexported `merge`: OR the marks, and merge every child of `other`
      into the receiver's child of the same label, or into a fresh empty
      node when the receiver has none. */
  function MergeNodes(t: Tree, other: Tree): Tree
    decreases other
  {
    Node(t.mark || other.mark,
         map k | k in t.sub.Keys + other.sub.Keys ::
           if k in other.sub then MergeNodes(if k in t.sub then t.sub[k] else Empty, other.sub[k])
           else t.sub[k])
  }

  // ---------------------------------------------------------------------
  // What a tree matches

  /** `n` lies under `d` in the trie's label order: walking the labels of
      `d` (rightmost first) meets the same labels in `n`, where an exhausted
      name keeps yielding the empty label because `Top("") == Next("") == ""`. */
  predicate Covers(d: string, n: string)
    decreases |d|
  {
    d == "" || (Top(d) == Top(n) && Covers(Next(d), Next(n)))
  }

  /** Every name covers itself. */
  lemma {:induction false} CoversSelf(d: string)
    ensures Covers(d, d)
    decreases |d|
  {
    if d != "" {
      CoversSelf(Next(d));
    }
  }

  /** Every subdomain `x + "." + d` is covered by `d`. */
  lemma {:induction false} CoversSubdomain(x: string, d: string)
    ensures Covers(d, x + "." + d)
    decreases |d|
  {
    if d != "" {
      TopNextOfSubdomain(x, d);
      if '.' in d {
        CoversSubdomain(x, Next(d));
      } else {
        TopNextSplit(d);
      }
    }
  }

  /** A proper suffix is not covered: `y` does not lie under `x + "." + y`
      when the top label of `x` is not empty. */
  lemma {:induction false} SuffixNotCovered(x: string, y: string)
    requires Top(x) != ""
    ensures !Covers(x + "." + y, y)
    decreases |y|
  {
    TopNextOfSubdomain(x, y);
    if '.' in y {
      SuffixNotCovered(x, Next(y));
    } else {
      TopNextSplit(y);
      assert Top("") == "";
    }
  }

  /** The empty tree matches nothing. */
  lemma EmptyContainsNothing(d: string)
    ensures !Contains(Empty, d)
  {
  }

  /** Inserting a normalised name adds exactly the names it covers:
      afterwards a name is contained iff it was before or lies under the
      inserted one. */
  lemma {:induction false} PutContains(t: Tree, d: string, n: string)
    ensures Contains(Put(t, d), n) <==> Contains(t, n) || Covers(d, n)
    decreases |d|
  {
    if d != "" {
      var k := Top(d);
      var child := if k in t.sub then t.sub[k] else Empty;
      var t' := Put(t, d);
      assert t'.mark == t.mark && t'.sub == t.sub[k := Put(child, Next(d))];
      assert k in t'.sub;
      if !t.mark {
        if Top(n) == k {
          PutContains(child, Next(d), Next(n));
          assert Contains(t', n) == Contains(Put(child, Next(d)), Next(n));
          if k in t.sub {
            assert Contains(t, n) == Contains(child, Next(n));
          } else {
            EmptyContainsNothing(Next(n));
            assert !Contains(t, n);
          }
        } else {
          assert !Covers(d, n);
          if Top(n) in t.sub {
            assert t'.sub[Top(n)] == t.sub[Top(n)];
          } else {
            assert Top(n) !in t'.sub;
          }
        }
      }
    }
  }

  /** Membership after `Insert`: a name is a member iff it was one before,
      or both it and the inserted line normalise to non-empty names and the
      line's name covers the query's. */
  lemma InsertHas(t: Tree, line: string, n: string)
    ensures Has(Insert(t, line), n) <==>
              Has(t, n) || (Parse(line) != "" && Parse(n) != "" && Covers(Parse(line), Parse(n)))
  {
    if Parse(line) != "" {
      PutContains(t, Parse(line), Parse(n));
    }
  }

  /** An inserted line that names a domain is a member afterwards. */
  lemma InsertThenHas(t: Tree, line: string)
    requires Parse(line) != ""
    ensures Has(Insert(t, line), line)
  {
    InsertHas(t, line, line);
    CoversSelf(Parse(line));
  }

  /** A query whose normalised name is a subdomain of the domain `d` an
      inserted line names is a member afterwards. */
  lemma InsertThenHasSubdomain(t: Tree, line: string, d: string, x: string, n: string)
    requires Parse(line) == d && d != ""
    requires Parse(n) == x + "." + d
    ensures Has(Insert(t, line), n)
  {
    InsertHas(t, line, n);
    CoversSubdomain(x, d);
  }

  /** Inserting a domain `x.y` (whose label `Top(x)` is not empty) does
      not make its parent `y` a member. */
  lemma InsertSubdomainKeepsParentOut(t: Tree, line: string, x: string, y: string, n: string)
    requires Parse(line) == x + "." + y && Top(x) != ""
    requires Parse(n) == y
    requires !Has(t, n)
    ensures !Has(Insert(t, line), n)
  {
    InsertHas(t, line, n);
    SuffixNotCovered(x, y);
  }

  /** Inserting never removes a member. */
  lemma InsertMonotone(t: Tree, line: string, n: string)
    requires Has(t, n)
    ensures Has(Insert(t, line), n)
  {
    InsertHas(t, line, n);
  }

  /** `Insert(".")` is a no-op: the lone dot normalises to "". */
  lemma InsertLoneDot(t: Tree)
    ensures Insert(t, ".") == t
  {
    ParseLoneDot();
  }

  /** Membership after a merge of nodes is the union of the memberships. */
  lemma {:induction false} MergeNodesContains(t: Tree, other: Tree, n: string)
    ensures Contains(MergeNodes(t, other), n) <==> Contains(t, n) || Contains(other, n)
    decreases other
  {
    var m := MergeNodes(t, other);
    if !t.mark && !other.mark && |m.sub| != 0 {
      var k := Top(n);
      if k in other.sub {
        var base := if k in t.sub then t.sub[k] else Empty;
        MergeNodesContains(base, other.sub[k], Next(n));
        if k !in t.sub {
          EmptyContainsNothing(Next(n));
        }
      } else if k in t.sub {
        assert m.sub[k] == t.sub[k];
      }
    } else if !t.mark && !other.mark {
      assert t.sub.Keys == {} && other.sub.Keys == {} by {
        assert m.sub.Keys == t.sub.Keys + other.sub.Keys;
      }
    }
  }

  /** `Merge` is a union on membership; merging nil changes nothing. */
  lemma MergeHas(t: Tree, other: Option<Tree>, n: string)
    ensures Has(Merge(t, other), n) <==> Has(t, n) || (other.Some? && Has(other.value, n))
    ensures other.None? ==> Merge(t, other) == t
  {
    if other.Some? {
      MergeNodesContains(t, other.value, Parse(n));
    }
  }

  /** Merging into a fresh tree rebuilds the other tree node for node: the
      copy made by `merge` has the same structure as its origin. */
  lemma {:induction false} MergeIntoEmptyCopies(other: Tree)
    ensures MergeNodes(Empty, other) == other
    decreases other
  {
    var m := MergeNodes(Empty, other);
    forall k | k in other.sub
      ensures m.sub[k] == other.sub[k]
    {
      MergeIntoEmptyCopies(other.sub[k]);
    }
    assert m.sub.Keys == other.sub.Keys;
  }

  /** Merge is commutative and idempotent with respect to membership. */
  lemma MergeCommutativeIdempotent(a: Tree, b: Tree, n: string)
    ensures Has(Merge(a, Some(b)), n) <==> Has(Merge(b, Some(a)), n)
    ensures Has(Merge(a, Some(a)), n) <==> Has(a, n)
  {
    MergeHas(a, Some(b), n);
    MergeHas(b, Some(a), n);
    MergeHas(a, Some(a), n);
  }

  // ---------------------------------------------------------------------
  // Building a tree from text

  /** The pieces `bytes.Buffer.ReadBytes('\n')` hands out one after the
      other: each up to and including a line break, then the final piece
      without one (possibly ""). */
  function Pieces(s: string): (ps: seq<string>)
    ensures |ps| > 0
    decreases |s|
  {
    var (before, after, found) := Cut(s, '\n');
    if found then [before + "\n"] + Pieces(after) else [s]
  }

  /** Concatenation of a list of strings. */
  function Concat(ps: seq<string>): string {
    if |ps| == 0 then "" else ps[0] + Concat(ps[1..])
  }

  /** `p` is a whole line: it ends with a line break, its only one. */
  predicate LineShaped(p: string) {
    |p| > 0 && p[|p| - 1] == '\n' && '\n' !in p[..|p| - 1]
  }

  /** The pieces put together give back the text; every piece but the last
      is a whole line, and the last has no line break. */
  lemma {:induction false} PiecesPartition(s: string)
    ensures Concat(Pieces(s)) == s
    ensures forall i :: 0 <= i < |Pieces(s)| - 1 ==> LineShaped(Pieces(s)[i])
    ensures '\n' !in Pieces(s)[|Pieces(s)| - 1]
    decreases |s|
  {
    var ps := Pieces(s);
    var (before, after, found) := Cut(s, '\n');
    if found {
      PiecesPartition(after);
      var line := before + "\n";
      assert ps == [line] + Pieces(after);
      assert line[..|line| - 1] == before;
      assert LineShaped(line);
      assert Concat(ps) == line + Concat(Pieces(after));
      forall i | 1 <= i < |ps| - 1
        ensures LineShaped(ps[i])
      {
        assert ps[i] == Pieces(after)[i - 1];
      }
    }
  }

  /** Inserting each line in order: the last line is inserted last. */
  function InsertAll(t: Tree, lines: seq<string>): Tree
    decreases |lines|
  {
    if |lines| == 0 then t else Insert(InsertAll(t, lines[..|lines| - 1]), lines[|lines| - 1])
  }

  /** One more line at the end is one more `Insert` at the end. */
  lemma InsertAllSnoc(t: Tree, lines: seq<string>, line: string)
    ensures InsertAll(t, lines + [line]) == Insert(InsertAll(t, lines), line)
  {
    assert (lines + [line])[..|lines|] == lines;
  }

  /** The line `line` admits the query `n`: both name domains and the
      line's domain covers the query's. */
  predicate Admits(line: string, n: string) {
    Parse(line) != "" && Parse(n) != "" && Covers(Parse(line), Parse(n))
  }

  /** Some line of `lines` admits `n`. */
  predicate Listed(lines: seq<string>, n: string)
    decreases |lines|
  {
    |lines| > 0 && (Listed(lines[..|lines| - 1], n) || Admits(lines[|lines| - 1], n))
  }

  /** After inserting lines in order, a name is a member iff it was one
      before or some line admits it. */
  lemma {:induction false} InsertAllHas(t: Tree, lines: seq<string>, n: string)
    ensures Has(InsertAll(t, lines), n) <==> Has(t, n) || Listed(lines, n)
    decreases |lines|
  {
    if |lines| > 0 {
      var init := lines[..|lines| - 1];
      InsertAllHas(t, init, n);
      InsertHas(InsertAll(t, init), lines[|lines| - 1], n);
    }
  }

  /** `bytes.Buffer.ReadBytes('\n')`: the next piece, what is left after it,
      and whether the end of the buffer was reached (`io.EOF`). */
  function ReadLine(buf: string): (r: (string, string, bool))
    ensures r.2 ==> Pieces(buf) == [r.0]
    ensures !r.2 ==> Pieces(buf) == [r.0] + Pieces(r.1) && |r.1| < |buf|
  {
    var (before, after, found) := Cut(buf, '\n');
    if found then (before + "\n", after, false) else (buf, "", true)
  }

  /** The tree `NewTreeFromReader` builds from a fully read text. */
  function TreeFromText(text: string): Tree {
    InsertAll(Empty, Pieces(text))
  }

  /** A name is a member of the tree built from a text iff some line of the
      text admits it. */
  lemma TreeFromTextHas(text: string, n: string)
    ensures Has(TreeFromText(text), n) <==> Listed(Pieces(text), n)
  {
    InsertAllHas(Empty, Pieces(text), n);
  }

  /** One turn of the reading loop: the piece read is the next one to
      insert, and what is left holds the pieces after it. */
  lemma ReadStep(text: string, consumed: seq<string>, rest: string)
    requires consumed + Pieces(rest) == Pieces(text)
    ensures var (line, after, eof) := ReadLine(rest);
      && InsertAll(Empty, consumed + [line]) == Insert(InsertAll(Empty, consumed), line)
      && (eof ==> consumed + [line] == Pieces(text))
      && (!eof ==> (consumed + [line]) + Pieces(after) == Pieces(text) && |after| < |rest|)
  {
    var (line, after, eof) := ReadLine(rest);
    InsertAllSnoc(Empty, consumed, line);
    if !eof {
      ShiftOne(consumed, line, Pieces(after), Pieces(text));
    }
  }

  /** Moving one element across a concatenation. */
  lemma ShiftOne<T>(a: seq<T>, x: T, b: seq<T>, w: seq<T>)
    requires a + ([x] + b) == w
    ensures (a + [x]) + b == w
  {
  }

  /** `TreeFromTextHas` for every name at once. */
  lemma TreeFromTextMembers(text: string)
    ensures forall n :: Has(TreeFromText(text), n) <==> Listed(Pieces(text), n)
  {
    forall n
      ensures Has(TreeFromText(text), n) <==> Listed(Pieces(text), n)
    {
      TreeFromTextHas(text, n);
    }
  }

  /** `NewTreeFromReader`, with the stream already drained into `read`
      (a failed drain is the reader's error). Lines are taken one at a time
      as `ReadBytes('\n')` yields them and inserted in order; the last,
      unterminated piece is inserted too. */
  method NewTreeFromReader(read: Result<string, string>) returns (r: Result<Tree, string>)
    ensures read.Failure? ==> r == Failure(read.error)
    ensures read.Success? ==> r.Success? && r.value == TreeFromText(read.value)
    ensures read.Success? ==> forall n :: Has(r.value, n) <==> Listed(Pieces(read.value), n)
  {
    if read.Failure? {
      return Failure(read.error);
    }
    var rest := read.value;
    var dt := Empty;
    var done := false;
    ghost var consumed: seq<string> := [];
    while !done
      invariant !done ==> consumed + Pieces(rest) == Pieces(read.value)
      invariant done ==> consumed == Pieces(read.value)
      invariant dt == InsertAll(Empty, consumed)
      decreases |rest| + (if done then 0 else 1)
    {
      var (line, after, eof) := ReadLine(rest);
      ReadStep(read.value, consumed, rest);
      dt := Insert(dt, line);
      if eof {
        done := true;
      } else {
        rest := after;
      }
      consumed := consumed + [line];
    }
    TreeFromTextMembers(read.value);
    return Success(dt);
  }

  /** A trailing line break does not change what a line names, so the
      pieces name the same domains as the lines split at line breaks. */
  lemma ParseIgnoresLineBreak(line: string)
    ensures Parse(line + "\n") == Parse(line)
  {
    TrimSpaceDropsLineBreak(line);
  }

  // ---------------------------------------------------------------------
  // The scenarios exercised by domain_test.go

  /** `Top`/`Next` on "a.b", then "a", then "". */
  lemma TopNextExamples()
    ensures Top("a.b") == "b" && Next("a.b") == "a"
    ensures Top("a") == "a" && Next("a") == ""
    ensures Top("") == "" && Next("") == ""
  {
    TopNextSplit("a.b");
    assert "a.b" == "a" + "." + "b";
    TopNextOfSubdomain("a", "b");
  }

  /** The names the scenarios use are already normalised; each fact gets a
      lemma of its own so that a proof sees only the ones it needs. */
  lemma ParsedBC()
    ensures Parse("b.c") == "b.c"
  {
    ParsePlainDomain("b.c");
  }

  lemma ParsedBCSplit()
    ensures Parse("b.c") == "b" + "." + "c"
  {
    ParsePlainDomain("b.c");
    assert "b.c" == "b" + "." + "c";
  }

  lemma ParsedC()
    ensures Parse("c") == "c"
  {
    ParsePlainDomain("c");
  }

  lemma ParsedD()
    ensures Parse("d") == "d"
  {
    ParsePlainDomain("d");
  }

  lemma ParsedABC()
    ensures Parse("a.b.c") == "a" + "." + "b.c"
  {
    ParsePlainDomain("a.b.c");
    assert "a.b.c" == "a" + "." + "b.c";
  }

  lemma ParsedAD()
    ensures Parse("a.d") == "a" + "." + "d"
  {
    ParsePlainDomain("a.d");
    assert "a.d" == "a" + "." + "d";
  }

  /** With only "b.c" inserted, the empty name is not a member. */
  lemma InsertBCEmptyName()
    ensures !Has(Insert(Empty, "b.c"), "")
  {
    assert Parse("") == "";
  }

  /** With only "b.c" inserted, its proper suffix "c" is not a member. */
  lemma InsertBCSuffix()
    ensures !Has(Insert(Empty, "b.c"), "c")
  {
    EmptyContainsNothing("c");
    InsertParentStaysOut(Empty);
  }

  /** Inserting "b.c" never makes its parent "c" a member. */
  lemma InsertParentStaysOut(t: Tree)
    requires !Has(t, "c")
    ensures !Has(Insert(t, "b.c"), "c")
  {
    ParsedBCSplit();
    ParsedC();
    TopNextSplit("b");
    InsertSubdomainKeepsParentOut(t, "b.c", "b", "c", "c");
  }

  /** With only "b.c" inserted, "b.c" and "a.b.c" are members. */
  lemma InsertBCMembers()
    ensures Has(Insert(Empty, "b.c"), "b.c")
    ensures Has(Insert(Empty, "b.c"), "a.b.c")
  {
    ParsedBC();
    InsertThenHas(Empty, "b.c");
    InsertAddsSubdomainABC(Empty);
  }

  /** After inserting "b.c", its subdomain "a.b.c" is a member. */
  lemma InsertAddsSubdomainABC(t: Tree)
    ensures Has(Insert(t, "b.c"), "a.b.c")
  {
    ParsedBC();
    ParsedABC();
    InsertThenHasSubdomain(t, "b.c", "b.c", "a", "a.b.c");
  }

  /** With "b.c" and then "d" inserted, neither "" nor "c" is a member. */
  lemma InsertBCDNonMembers()
    ensures !Has(Insert(Insert(Empty, "b.c"), "d"), "")
    ensures !Has(Insert(Insert(Empty, "b.c"), "d"), "c")
  {
    InsertBCSuffix();
    InsertParentStaysOutOfD(Insert(Empty, "b.c"));
    assert Parse("") == "";
  }

  /** Inserting "d" never makes "c" a member. */
  lemma InsertParentStaysOutOfD(t: Tree)
    requires !Has(t, "c")
    ensures !Has(Insert(t, "d"), "c")
  {
    ParsedD();
    ParsedC();
    TopNextSplit("d");
    TopNextSplit("c");
    InsertHas(t, "d", "c");
  }

  /** With "b.c" and then "d" inserted, "b.c" and "a.b.c" are still
      members. */
  lemma InsertBCDKeeps()
    ensures Has(Insert(Insert(Empty, "b.c"), "d"), "b.c")
    ensures Has(Insert(Insert(Empty, "b.c"), "d"), "a.b.c")
  {
    var bc := Insert(Empty, "b.c");
    InsertBCMembers();
    InsertMonotone(bc, "d", "b.c");
    InsertMonotone(bc, "d", "a.b.c");
  }

  /** With "b.c" and then "d" inserted, the subdomain "a.d" is a member. */
  lemma InsertBCDSubdomain()
    ensures Has(Insert(Insert(Empty, "b.c"), "d"), "a.d")
  {
    InsertAddsSubdomainAD(Insert(Empty, "b.c"));
  }

  /** After inserting "d", its subdomain "a.d" is a member. */
  lemma InsertAddsSubdomainAD(t: Tree)
    ensures Has(Insert(t, "d"), "a.d")
  {
    ParsedD();
    ParsedAD();
    InsertThenHasSubdomain(t, "d", "d", "a", "a.d");
  }

  /** Merging the tree holding "b.c" and "d" into an empty one gives a tree
      with the same members: both domains and their subdomains, and
      neither "" nor "c". */
  lemma MergeExample()
    ensures var dt := Merge(Empty, Some(Insert(Insert(Empty, "b.c"), "d")));
      && !Has(dt, "") && !Has(dt, "c")
      && Has(dt, "b.c") && Has(dt, "a.b.c") && Has(dt, "a.d")
  {
    MergeIntoEmptyCopies(Insert(Insert(Empty, "b.c"), "d"));
    InsertBCDNonMembers();
    InsertBCDKeeps();
    InsertBCDSubdomain();
  }

  /** Inserting "." leaves even "a" outside the tree: the code's `Insert`
      drops the lone dot before it could set the root mark. */
  lemma InsertLoneDotExample()
    ensures !Has(Insert(Empty, "."), "a")
  {
    InsertLoneDot(Empty);
  }
}
