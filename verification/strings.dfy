/** The few functions of Go's `strings` package that the plugin relies on,
    written out over `seq<char>`: `LastIndex`, `TrimSpace`, `TrimPrefix`,
    `TrimSuffix`, `Split` and `Cut`, each with the contract Go documents.
    Go strings are bytes; here a string is a sequence of characters, which
    agrees with Go on valid UTF-8 text and cannot express other bytes. */
module Strings {

  /** Go's `unicode.IsSpace`: the ASCII white space characters, NEL, NBSP and
      the other code points with the Unicode White_Space property. */
  predicate IsSpace(c: char) {
    var n := c as int;
    || n == 0x09 || n == 0x0A || n == 0x0B || n == 0x0C || n == 0x0D || n == 0x20
    || n == 0x85 || n == 0xA0 || n == 0x1680
    || (0x2000 <= n <= 0x200A)
    || n == 0x2028 || n == 0x2029 || n == 0x202F || n == 0x205F || n == 0x3000
  }

  /** Index of the last `c` in `s`, or -1 when there is none. */
  function LastIndex(s: string, c: char): (i: int)
    ensures -1 <= i < |s|
    ensures i >= 0 ==> s[i] == c
    ensures forall k :: i < k < |s| ==> s[k] != c
  {
    if |s| == 0 then -1
    else if s[|s| - 1] == c then |s| - 1
    else LastIndex(s[..|s| - 1], c)
  }

  /** The last `c` in `s` is the one at `p` when no `c` follows it. */
  lemma LastIndexAt(s: string, c: char, p: int)
    requires 0 <= p < |s| && s[p] == c && c !in s[p + 1..]
    ensures LastIndex(s, c) == p
  {
  }

  /** Index of the first `c` in `s`, or -1 when there is none. */
  function FirstIndex(s: string, c: char): (i: int)
    ensures -1 <= i < |s|
    ensures i >= 0 ==> s[i] == c
    ensures forall k :: 0 <= k < |s| && (i < 0 || k < i) ==> s[k] != c
  {
    if |s| == 0 then -1
    else if s[0] == c then 0
    else
      var i := FirstIndex(s[1..], c);
      if i < 0 then -1 else i + 1
  }

  /** Removes the leading white space of `s`. */
  function TrimLeftSpace(s: string): string {
    if |s| > 0 && IsSpace(s[0]) then TrimLeftSpace(s[1..]) else s
  }

  /** Removes the trailing white space of `s`. */
  function TrimRightSpace(s: string): string {
    if |s| > 0 && IsSpace(s[|s| - 1]) then TrimRightSpace(s[..|s| - 1]) else s
  }

  /** Go's `strings.TrimSpace`. */
  function TrimSpace(s: string): string {
    TrimLeftSpace(TrimRightSpace(s))
  }

  /** What `TrimLeftSpace` keeps is a suffix of `s` that is empty or starts
      with a non-space, and everything it drops is white space. */
  lemma {:induction false} TrimLeftSpaceSpec(s: string)
    ensures var r := TrimLeftSpace(s);
      && |r| <= |s| && r == s[|s| - |r|..]
      && (forall k :: 0 <= k < |s| - |r| ==> IsSpace(s[k]))
      && (|r| > 0 ==> !IsSpace(r[0]))
  {
    if |s| > 0 && IsSpace(s[0]) {
      TrimLeftSpaceSpec(s[1..]);
    }
  }

  /** What `TrimRightSpace` keeps is a prefix of `s` that is empty or ends
      with a non-space, and everything it drops is white space. */
  lemma {:induction false} TrimRightSpaceSpec(s: string)
    ensures var r := TrimRightSpace(s);
      && |r| <= |s| && r == s[..|r|]
      && (forall k :: |r| <= k < |s| ==> IsSpace(s[k]))
      && (|r| > 0 ==> !IsSpace(r[|r| - 1]))
  {
    if |s| > 0 && IsSpace(s[|s| - 1]) {
      TrimRightSpaceSpec(s[..|s| - 1]);
    }
  }

  /** `TrimSpace` keeps the piece `s[i..i + |r|]` of `s`, which is empty or
      has no white space at either end, and drops only white space around
      it. */
  lemma TrimSpaceSpec(s: string) returns (i: nat)
    ensures var r := TrimSpace(s);
      && i + |r| <= |s| && r == s[i..i + |r|]
      && (forall k :: 0 <= k < i ==> IsSpace(s[k]))
      && (forall k :: i + |r| <= k < |s| ==> IsSpace(s[k]))
      && (|r| > 0 ==> !IsSpace(r[0]) && !IsSpace(r[|r| - 1]))
  {
    var m := TrimRightSpace(s);
    TrimRightSpaceSpec(s);
    TrimLeftSpaceSpec(m);
    var r := TrimLeftSpace(m);
    i := |m| - |r|;
    assert r == s[i..i + |r|];
    assert forall k :: 0 <= k < i ==> s[k] == m[k];
  }

  /** A string with no white space at either end is its own trim. */
  lemma TrimSpaceKeeps(s: string)
    requires |s| > 0 ==> !IsSpace(s[0]) && !IsSpace(s[|s| - 1])
    ensures TrimSpace(s) == s
  {
  }

  /** A line break at the end of a line never reaches what is trimmed. */
  lemma TrimSpaceDropsLineBreak(s: string)
    ensures TrimSpace(s + "\n") == TrimSpace(s)
  {
    assert (s + "\n")[..|s + "\n"| - 1] == s;
  }

  /** Go's `strings.TrimPrefix`: drops `p` once if `s` starts with it. */
  function TrimPrefix(s: string, p: string): (r: string)
    ensures p <= s ==> p + r == s
    ensures !(p <= s) ==> r == s
  {
    if p <= s then s[|p|..] else s
  }

  /** `p` is a suffix of `s`. */
  predicate HasSuffix(s: string, p: string) {
    |p| <= |s| && s[|s| - |p|..] == p
  }

  /** Go's `strings.TrimSuffix`: drops `p` once if `s` ends with it. */
  function TrimSuffix(s: string, p: string): (r: string)
    ensures HasSuffix(s, p) ==> r + p == s
    ensures !HasSuffix(s, p) ==> r == s
  {
    if HasSuffix(s, p) then s[..|s| - |p|] else s
  }

  /** Number of occurrences of `c` in `s`. */
  function Count(s: string, c: char): nat {
    if |s| == 0 then 0 else (if s[0] == c then 1 else 0) + Count(s[1..], c)
  }

  /** Glues `fields` back together with `c` between consecutive fields. */
  function Join(fields: seq<string>, c: char): string {
    if |fields| == 0 then ""
    else if |fields| == 1 then fields[0]
    else fields[0] + [c] + Join(fields[1..], c)
  }

  /** Go's `strings.Split` with a one-character separator: one more field
      than there are separators, each no longer than `s`. */
  function Split(s: string, c: char): (fields: seq<string>)
    ensures |fields| == Count(s, c) + 1
    ensures forall i :: 0 <= i < |fields| ==> |fields[i]| <= |s|
  {
    if |s| == 0 then [""]
    else
      var rest := Split(s[1..], c);
      if s[0] == c then [""] + rest
      else [[s[0]] + rest[0]] + rest[1..]
  }

  /** No field holds the separator, and joining the fields with it gives
      back `s`. */
  lemma {:induction false} SplitSpec(s: string, c: char)
    ensures forall i :: 0 <= i < |Split(s, c)| ==> c !in Split(s, c)[i]
    ensures Join(Split(s, c), c) == s
    decreases |s|
  {
    if |s| > 0 {
      SplitSpec(s[1..], c);
      var rest := Split(s[1..], c);
      var fields := Split(s, c);
      if s[0] == c {
        assert fields == [""] + rest;
        assert s == [c] + s[1..];
        forall i | 0 <= i < |fields|
          ensures c !in fields[i]
        {
          if i > 0 { assert fields[i] == rest[i - 1]; }
        }
      } else {
        assert fields == [[s[0]] + rest[0]] + rest[1..];
        assert fields[1..] == rest[1..];
        assert Join(fields, c) == [s[0]] + Join(rest, c);
        assert s == [s[0]] + s[1..];
        forall i | 0 <= i < |fields|
          ensures c !in fields[i]
        {
          if i > 0 { assert fields[i] == rest[i]; }
        }
      }
    }
  }

  /** Splitting recovers the fields of any separator-free list of fields. */
  lemma {:induction false} SplitJoin(fields: seq<string>, c: char)
    requires |fields| > 0
    requires forall i :: 0 <= i < |fields| ==> c !in fields[i]
    ensures Split(Join(fields, c), c) == fields
  {
    if |fields| == 1 {
      SplitNoSeparator(fields[0], c);
    } else {
      var tail := fields[1..];
      SplitJoin(tail, c);
      SplitAround(fields[0], Join(tail, c), c);
    }
  }

  /** A separator-free string is a single field. */
  lemma {:induction false} SplitNoSeparator(s: string, c: char)
    requires c !in s
    ensures Split(s, c) == [s]
  {
    if |s| > 0 {
      SplitNoSeparator(s[1..], c);
      assert [s[0]] + s[1..] == s;
    }
  }

  /** Splitting `a + [c] + b` with `a` separator-free yields `a` followed by
      the fields of `b`. */
  lemma {:induction false} SplitAround(a: string, b: string, c: char)
    requires c !in a
    ensures Split(a + [c] + b, c) == [a] + Split(b, c)
  {
    if |a| == 0 {
      assert a + [c] + b == [c] + b;
      assert ([c] + b)[1..] == b;
    } else {
      SplitAround(a[1..], b, c);
      var s := a + [c] + b;
      assert s[0] == a[0] && s[1..] == a[1..] + [c] + b;
      var rest := Split(s[1..], c);
      assert rest == [a[1..]] + Split(b, c);
      assert [a[0]] + a[1..] == a;
      assert Split(s, c) == [[a[0]] + rest[0]] + rest[1..];
    }
  }

  /** Go's `strings.Cut` with a one-character separator: `found` tells
      whether `c` occurs; if so `before` and `after` surround its first
      occurrence, otherwise `before` is the whole string. */
  function Cut(s: string, c: char): (r: (string, string, bool))
    ensures r.2 <==> c in s
    ensures r.2 ==> r.0 + [c] + r.1 == s && c !in r.0
    ensures !r.2 ==> r.0 == s && r.1 == ""
  {
    var i := FirstIndex(s, c);
    if i < 0 then (s, "", false)
    else
      assert s == s[..i] + [c] + s[i + 1..];
      (s[..i], s[i + 1..], true)
  }
}
