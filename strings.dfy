/**
 * The Python string operations the core relies on: `str.find`, `in`,
 * `str.split` with an explicit separator, `sep.join`, `str.strip()`,
 * `str.startswith`, slicing with non-negative bounds and `str.lower()`
 * restricted to ASCII letters.
 */
module Strings {

  /** `p` occurs in `s` starting at index `i`. */
  predicate OccursAt(s: string, p: string, i: int) {
    0 <= i && i + |p| <= |s| && s[i..i + |p|] == p
  }

  /** `i` is the first index at which `p` occurs in `s`. */
  predicate IsFirstOccurrence(s: string, p: string, i: int) {
    OccursAt(s, p, i) && forall j :: 0 <= j < i ==> !OccursAt(s, p, j)
  }

  /** Scans `s` from index `k` on for the first occurrence of `p`. */
  function FindFrom(s: string, p: string, k: nat): (r: int)
    requires forall j :: 0 <= j < k ==> !OccursAt(s, p, j)
    ensures r == -1 || IsFirstOccurrence(s, p, r)
    ensures r == -1 <==> forall j :: !OccursAt(s, p, j)
    decreases |s| - k
  {
    if k + |p| > |s| then -1
    else if s[k..k + |p|] == p then k
    else FindFrom(s, p, k + 1)
  }

  /** Python's `s.find(p)`: the index of the first occurrence of `p`, or -1. */
  function Find(s: string, p: string): (r: int)
    ensures r == -1 || IsFirstOccurrence(s, p, r)
    ensures r == -1 <==> forall j :: !OccursAt(s, p, j)
  {
    FindFrom(s, p, 0)
  }

  /** Python's `p in s`. */
  predicate Contains(s: string, p: string) {
    Find(s, p) != -1
  }

  lemma ContainsIffOccurs(s: string, p: string)
    ensures Contains(s, p) <==> exists j :: OccursAt(s, p, j)
  {
  }

  lemma FirstOccurrenceUnique(s: string, p: string, i: int, j: int)
    requires IsFirstOccurrence(s, p, i) && IsFirstOccurrence(s, p, j)
    ensures i == j
  {
  }

  /** `find` returns the first occurrence, whatever way it is known. */
  lemma FindFirstOccurrence(s: string, p: string, i: int)
    requires IsFirstOccurrence(s, p, i)
    ensures Find(s, p) == i
  {
    FirstOccurrenceUnique(s, p, i, Find(s, p));
  }

  /** Python's `s.startswith(p)`. */
  predicate StartsWith(s: string, p: string) {
    |p| <= |s| && s[..|p|] == p
  }

  /** Python's `s[a:b]` for non-negative `a` and `b`: both bounds are clamped to `|s|`. */
  function Slice(s: string, a: nat, b: nat): (r: string)
    ensures a < b <= |s| ==> r == s[a..b]
    ensures b <= a ==> r == ""
  {
    var lo := if a < |s| then a else |s|;
    var hi := if b < |s| then b else |s|;
    if lo < hi then s[lo..hi] else ""
  }

  // ---------------------------------------------------------------------------
  // split and join
  // ---------------------------------------------------------------------------

  /** Python's `s.split(sep)` for a non-empty separator (Python raises on an empty one). */
  function Split(s: string, sep: string): (parts: seq<string>)
    requires |sep| > 0
    ensures |parts| >= 1
    decreases |s|
  {
    var i := Find(s, sep);
    if i == -1 then [s] else [s[..i]] + Split(s[i + |sep|..], sep)
  }

  /** Python's `sep.join(parts)`. */
  function Join(sep: string, parts: seq<string>): (r: string)
  {
    if |parts| == 0 then ""
    else if |parts| == 1 then parts[0]
    else parts[0] + sep + Join(sep, parts[1..])
  }

  /** Number of non-overlapping occurrences of `sep` in `s`, counted left to right. */
  function Count(s: string, sep: string): nat
    requires |sep| > 0
    decreases |s|
  {
    if |s| < |sep| then 0
    else if s[..|sep|] == sep then 1 + Count(s[|sep|..], sep)
    else Count(s[1..], sep)
  }

  /** Joining the pieces of a split with the same separator gives back the text. */
  lemma {:induction false} JoinSplit(s: string, sep: string)
    requires |sep| > 0
    ensures Join(sep, Split(s, sep)) == s
    decreases |s|
  {
    var i := Find(s, sep);
    if i != -1 {
      var rest := s[i + |sep|..];
      JoinSplit(rest, sep);
      var tail := Split(rest, sep);
      assert Split(s, sep) == [s[..i]] + tail;
      JoinCons(sep, s[..i], tail);
      assert s == s[..i] + sep + rest by {
        assert s[i..i + |sep|] == sep;
      }
    }
  }

  /** Joining a piece in front of at least one more piece puts the separator between them. */
  lemma JoinCons(sep: string, p: string, tail: seq<string>)
    requires |tail| >= 1
    ensures Join(sep, [p] + tail) == p + sep + Join(sep, tail)
  {
    assert ([p] + tail)[1..] == tail;
  }

  /** The text before the first occurrence of `p` does not contain `p`. */
  lemma BeforeFirstIsFree(s: string, p: string, i: int)
    requires |p| > 0 && IsFirstOccurrence(s, p, i)
    ensures !Contains(s[..i], p)
  {
    var head := s[..i];
    forall j | 0 <= j
      ensures !OccursAt(head, p, j)
    {
      if OccursAt(head, p, j) {
        assert s[j..j + |p|] == head[j..j + |p|];
        assert OccursAt(s, p, j);
      }
    }
  }

  /** No piece of a split contains the separator. */
  lemma {:induction false} SplitPiecesFree(s: string, sep: string)
    requires |sep| > 0
    ensures forall k :: 0 <= k < |Split(s, sep)| ==> !Contains(Split(s, sep)[k], sep)
    decreases |s|
  {
    var i := Find(s, sep);
    if i != -1 {
      var rest := s[i + |sep|..];
      SplitPiecesFree(rest, sep);
      BeforeFirstIsFree(s, sep, i);
      var parts, tail := Split(s, sep), Split(rest, sep);
      assert parts == [s[..i]] + tail;
      assert forall k :: 1 <= k < |parts| ==> parts[k] == tail[k - 1];
    }
  }

  /** Skipping a prefix that holds no occurrence leaves the count unchanged. */
  lemma {:induction false} CountSkip(s: string, sep: string, i: nat)
    requires |sep| > 0 && i <= |s|
    requires forall j :: 0 <= j < i ==> !OccursAt(s, sep, j)
    ensures Count(s, sep) == Count(s[i..], sep)
    decreases i
  {
    if i > 0 {
      if |s| >= |sep| {
        assert !OccursAt(s, sep, 0);
        assert s[..|sep|] != sep;
      }
      if |s| < |sep| {
        assert Count(s[i..], sep) == 0;
      } else {
        FreePrefixShifts(s, sep, i);
        CountSkip(s[1..], sep, i - 1);
        assert s[1..][i - 1..] == s[i..];
      }
    }
  }

  /** Dropping the first character keeps a prefix free of occurrences free. */
  lemma FreePrefixShifts(s: string, sep: string, i: nat)
    requires 0 < i <= |s|
    requires forall j :: 0 <= j < i ==> !OccursAt(s, sep, j)
    ensures forall j :: 0 <= j < i - 1 ==> !OccursAt(s[1..], sep, j)
  {
    forall j | 0 <= j < i - 1
      ensures !OccursAt(s[1..], sep, j)
    {
      if OccursAt(s[1..], sep, j) {
        assert s[j + 1..j + 1 + |sep|] == s[1..][j..j + |sep|];
        assert OccursAt(s, sep, j + 1);
      }
    }
  }

  /** A split yields one more piece than there are separators. */
  lemma {:induction false} SplitSize(s: string, sep: string)
    requires |sep| > 0
    ensures |Split(s, sep)| == Count(s, sep) + 1
    decreases |s|
  {
    var i := Find(s, sep);
    if i == -1 {
      CountSkip(s, sep, |s|);
      assert Count(s[|s|..], sep) == 0;
    } else {
      CountSkip(s, sep, i);
      var t := s[i..];
      assert t[..|sep|] == sep;
      assert t[|sep|..] == s[i + |sep|..];
      SplitSize(s[i + |sep|..], sep);
    }
  }

  /** Joining at least two pieces ends with the separator and the last piece. */
  lemma {:induction false} JoinLast(sep: string, parts: seq<string>)
    requires |parts| >= 2
    ensures Join(sep, parts) == Join(sep, parts[..|parts| - 1]) + sep + parts[|parts| - 1]
  {
    if |parts| > 2 {
      JoinLast(sep, parts[1..]);
      assert parts[1..][..|parts| - 2] == parts[..|parts| - 1][1..];
    }
  }

  /**
   * `p` followed by `sep` holds no occurrence of `sep` that starts inside `p`:
   * neither within `p` nor straddling into the separator.
   */
  predicate SeparatesCleanly(p: string, sep: string) {
    forall j :: 0 <= j < |p| ==> !OccursAt(p + sep, sep, j)
  }

  /** A piece that separates cleanly is split off at the separator that follows it. */
  lemma SplitAfterPiece(p: string, sep: string, rest: string)
    requires |sep| > 0 && SeparatesCleanly(p, sep)
    ensures Split(p + sep + rest, sep) == [p] + Split(rest, sep)
  {
    var s := p + sep + rest;
    forall j | 0 <= j < |p|
      ensures !OccursAt(s, sep, j)
    {
      assert !OccursAt(p + sep, sep, j);
      if j + |sep| <= |s| {
        assert s[j..j + |sep|] == (p + sep)[j..j + |sep|];
      }
    }
    assert s[|p|..|p| + |sep|] == sep;
    FindFirstOccurrence(s, sep, |p|);
    assert s[..|p|] == p;
    assert s[|p| + |sep|..] == rest;
  }

  /** Splitting a join gives back the pieces when every piece but the last separates cleanly. */
  lemma {:induction false} SplitJoin(sep: string, parts: seq<string>)
    requires |sep| > 0 && |parts| >= 1
    requires forall k :: 0 <= k < |parts| - 1 ==> SeparatesCleanly(parts[k], sep)
    requires !Contains(parts[|parts| - 1], sep)
    ensures Split(Join(sep, parts), sep) == parts
  {
    if |parts| > 1 {
      SplitJoin(sep, parts[1..]);
      SplitAfterPiece(parts[0], sep, Join(sep, parts[1..]));
    }
  }

  /** A join of at least one piece begins with the first piece. */
  lemma {:induction false} JoinStartsWith(sep: string, parts: seq<string>)
    requires |parts| >= 1
    ensures StartsWith(Join(sep, parts), parts[0])
  {
    if |parts| > 1 {
      assert Join(sep, parts) == parts[0] + (sep + Join(sep, parts[1..]));
    }
  }

  /** The last piece of a split is the text after the final separator, or all of it. */
  lemma SplitLastIsSuffix(s: string, sep: string) returns (front: string)
    requires |sep| > 0
    ensures var parts := Split(s, sep);
      var last := parts[|parts| - 1];
      && !Contains(last, sep)
      && (!Contains(s, sep) ==> last == s)
      && (Contains(s, sep) ==> s == front + sep + last)
  {
    var parts := Split(s, sep);
    var last := parts[|parts| - 1];
    SplitPiecesFree(s, sep);
    assert !Contains(last, sep);
    front := "";
    if Contains(s, sep) {
      JoinSplit(s, sep);
      JoinLast(sep, parts);
      front := Join(sep, parts[..|parts| - 1]);
      assert s == front + sep + last;
    }
  }

  /** A text written as a front, a separator and a last part ends with the last two. */
  lemma EndsWith(s: string, front: string, sep: string, last: string)
    requires s == front + sep + last
    ensures |last| + |sep| <= |s| && s[|s| - |last| - |sep|..] == sep + last
  {
    assert s == front + (sep + last);
  }

  // ---------------------------------------------------------------------------
  // strip
  // ---------------------------------------------------------------------------

  /** The characters Python's `str.strip()` removes (`str.isspace`). */
  predicate IsSpace(c: char) {
    c in {' ', '\t', '\n', '\r', '\U{000B}', '\U{000C}', '\U{001C}', '\U{001D}', '\U{001E}',
          '\U{001F}', '\U{0085}', '\U{00A0}', '\U{1680}', '\U{2028}', '\U{2029}', '\U{202F}',
          '\U{205F}', '\U{3000}'}
    || ('\U{2000}' <= c <= '\U{200A}')
  }

  predicate AllSpace(s: string) {
    forall i :: 0 <= i < |s| ==> IsSpace(s[i])
  }

  /** Neither the first nor the last character is whitespace. */
  predicate IsStripped(s: string) {
    s == [] || (!IsSpace(s[0]) && !IsSpace(s[|s| - 1]))
  }

  /** The end of the whitespace run of `s` that starts at `k`. */
  function SpaceRunFrom(s: string, k: nat): (n: nat)
    requires k <= |s|
    ensures k <= n <= |s|
    ensures forall i :: k <= i < n ==> IsSpace(s[i])
    ensures n == |s| || !IsSpace(s[n])
    decreases |s| - k
  {
    if k < |s| && IsSpace(s[k]) then SpaceRunFrom(s, k + 1) else k
  }

  /** The start of the whitespace run of `s` that ends at `k`. */
  function SpaceRunTo(s: string, k: nat): (n: nat)
    requires k <= |s|
    ensures n <= k
    ensures forall i :: n <= i < k ==> IsSpace(s[i])
    ensures n == 0 || !IsSpace(s[n - 1])
  {
    if k > 0 && IsSpace(s[k - 1]) then SpaceRunTo(s, k - 1) else k
  }

  /** The number of whitespace characters `s` begins with. */
  function LeadingSpace(s: string): (n: nat)
    ensures n <= |s|
    ensures forall i :: 0 <= i < n ==> IsSpace(s[i])
    ensures n == |s| || !IsSpace(s[n])
  {
    SpaceRunFrom(s, 0)
  }

  /** Where the whitespace `s` ends with begins. */
  function TrailingSpace(s: string): (n: nat)
    ensures n <= |s|
    ensures forall i :: n <= i < |s| ==> IsSpace(s[i])
    ensures n == 0 || !IsSpace(s[n - 1])
  {
    SpaceRunTo(s, |s|)
  }

  /** Python's `s.lstrip()`. */
  function LStrip(s: string): (r: string)
    ensures r == [] || !IsSpace(r[0])
  {
    s[LeadingSpace(s)..]
  }

  /** Python's `s.rstrip()`. */
  function RStrip(s: string): (r: string)
    ensures r == [] || !IsSpace(r[|r| - 1])
  {
    s[..TrailingSpace(s)]
  }

  /** Python's `s.strip()`: the result neither begins nor ends with whitespace. */
  function Strip(s: string): (r: string)
    ensures IsStripped(r)
  {
    RStrip(LStrip(s))
  }

  /**
   * What `strip()` removes: `s` is a run of whitespace, then the result, then
   * another run of whitespace.
   */
  lemma StripSpec(s: string)
    ensures var r, a := Strip(s), LeadingSpace(s);
      a + |r| <= |s| && r == s[a..a + |r|] && AllSpace(s[..a]) && AllSpace(s[a + |r|..])
  {
    var a := LeadingSpace(s);
    StripPieces(s, a, TrailingSpace(s[a..]));
  }

  /** Whitespace up to `a` and from `b` on within the rest surrounds the slice between. */
  lemma StripPieces(s: string, a: nat, b: nat)
    requires a <= |s| && b <= |s| - a
    requires forall i :: 0 <= i < a ==> IsSpace(s[i])
    requires forall i :: b <= i < |s| - a ==> IsSpace(s[a..][i])
    ensures s[a..][..b] == s[a..a + b] && AllSpace(s[..a]) && AllSpace(s[a + b..])
  {
    assert forall i :: a + b <= i < |s| ==> s[i] == s[a..][i - a];
  }

  /** Stripping is idempotent. */
  lemma StripStripped(s: string)
    requires IsStripped(s)
    ensures Strip(s) == s
  {
  }

  // ---------------------------------------------------------------------------
  // lower case
  // ---------------------------------------------------------------------------

  function LowerChar(c: char): char {
    if 'A' <= c <= 'Z' then (c as int - 'A' as int + 'a' as int) as char else c
  }

  /** `s.lower()` on ASCII letters; every other character is kept. */
  function LowerAscii(s: string): (r: string)
    ensures |r| == |s|
    ensures forall i :: 0 <= i < |s| ==> r[i] == LowerChar(s[i])
  {
    if s == [] then [] else [LowerChar(s[0])] + LowerAscii(s[1..])
  }

  // ---------------------------------------------------------------------------
  // membership in a list
  // ---------------------------------------------------------------------------

  /** Python's `x in xs[k:]` for a list of strings, scanned from position `k`. */
  predicate MemberFrom(x: string, xs: seq<string>, k: nat)
    decreases |xs| - k
  {
    k < |xs| && (xs[k] == x || MemberFrom(x, xs, k + 1))
  }

  /** The scan finds `x` exactly when some entry from position `k` on is `x`. */
  lemma {:induction false} MemberFromSpec(x: string, xs: seq<string>, k: nat)
    ensures MemberFrom(x, xs, k) <==> exists j :: k <= j < |xs| && xs[j] == x
    decreases |xs| - k
  {
    if k < |xs| {
      MemberFromSpec(x, xs, k + 1);
    }
  }
}
