/** String operations that the command interpreter applies to what it hears:
    Python's `str.lower`, `str.strip`, `in`, `str.startswith` and
    `str.split(sep, 1)`, restricted to the behaviour the interpreter relies on.
    `Lower` folds ASCII letters only; `IsSpace` is the fixed set of code points
    for which Python's `str.isspace` holds. */
module Text {
  import opened Wrappers

  /** The characters that `str.strip()` with no argument removes. */
  predicate IsSpace(c: char) {
    || ('\t' <= c <= '\r')
    || ('\U{1c}' <= c <= '\U{1f}')
    || c == ' '
    || c == '\U{85}'
    || c == '\U{a0}'
    || c == '\U{1680}'
    || ('\U{2000}' <= c <= '\U{200a}')
    || c == '\U{2028}'
    || c == '\U{2029}'
    || c == '\U{202f}'
    || c == '\U{205f}'
    || c == '\U{3000}'
  }

  predicate AllSpace(s: string) {
    forall i :: 0 <= i < |s| ==> IsSpace(s[i])
  }

  predicate IsUpper(c: char) {
    'A' <= c <= 'Z'
  }

  function LowerChar(c: char): (r: char)
    ensures IsUpper(c) ==> r as int == c as int + 32 && 'a' <= r <= 'z'
    ensures !IsUpper(c) ==> r == c
    ensures !IsUpper(r)
  {
    if IsUpper(c) then (c as int + 32) as char else c
  }

  /** `s.lower()` on ASCII letters: every character is folded on its own. */
  function Lower(s: string): (r: string)
    ensures |r| == |s|
    ensures forall i :: 0 <= i < |s| ==> r[i] == LowerChar(s[i])
  {
    if s == [] then [] else [LowerChar(s[0])] + Lower(s[1..])
  }

  lemma LowerConcat(a: string, b: string)
    ensures Lower(a + b) == Lower(a) + Lower(b)
  {
    assert forall i :: 0 <= i < |a + b| ==> Lower(a + b)[i] == (Lower(a) + Lower(b))[i];
  }

  /** Folding twice is folding once. */
  lemma LowerIdempotent(s: string)
    ensures Lower(Lower(s)) == Lower(s)
  {
    assert forall i :: 0 <= i < |s| ==> Lower(Lower(s))[i] == Lower(s)[i];
  }

  /** White space is never folded. */
  lemma LowerOfSpaces(s: string)
    requires AllSpace(s)
    ensures Lower(s) == s
  {
    assert forall i :: 0 <= i < |s| ==> Lower(s)[i] == s[i];
  }

  /** `s.lstrip()`: `s` without its leading white space. */
  function StripStart(s: string): (r: string)
    ensures |r| <= |s| && r == s[|s| - |r|..]
    ensures r == [] || !IsSpace(r[0])
  {
    if s != [] && IsSpace(s[0]) then StripStart(s[1..]) else s
  }

  /** `s.rstrip()`: `s` without its trailing white space. */
  function StripEnd(s: string): (r: string)
    ensures |r| <= |s| && r == s[..|r|]
    ensures r == [] || !IsSpace(r[|r| - 1])
  {
    if s != [] && IsSpace(s[|s| - 1]) then StripEnd(s[..|s| - 1]) else s
  }

  /** `s.strip()`: a piece of `s` that neither starts nor ends with white space. */
  function Strip(s: string): (r: string)
    ensures r == [] || (!IsSpace(r[0]) && !IsSpace(r[|r| - 1]))
    ensures OccursAt(s, r, |s| - |StripStart(s)|)
  {
    var t := StripStart(s);
    var r := StripEnd(t);
    SliceOfSuffix(s, |s| - |t|, |r|);
    r
  }

  lemma SliceOfSuffix(s: string, a: nat, n: nat)
    requires a + n <= |s|
    ensures s[a..][..n] == s[a..a + n]
  {
  }

  /** What StripStart drops is white space. */
  lemma {:induction false} StripStartDropsSpace(s: string)
    ensures AllSpace(s[..|s| - |StripStart(s)|])
  {
    if s != [] && IsSpace(s[0]) {
      StripStartDropsSpace(s[1..]);
      assert s[..|s| - |StripStart(s)|] == [s[0]] + s[1..][..|s| - 1 - |StripStart(s)|];
    }
  }

  /** What StripEnd drops is white space. */
  lemma {:induction false} StripEndDropsSpace(s: string)
    ensures AllSpace(s[|StripEnd(s)|..])
  {
    if s != [] && IsSpace(s[|s| - 1]) {
      StripEndDropsSpace(s[..|s| - 1]);
      assert s[|StripEnd(s)|..] == s[..|s| - 1][|StripEnd(s)|..] + [s[|s| - 1]];
    }
  }

  /** Leading white space is removed up to the first other character. */
  lemma {:induction false} StripStartPadded(p: string, r: string)
    requires AllSpace(p)
    requires r == [] || !IsSpace(r[0])
    ensures StripStart(p + r) == StripStart(r)
  {
    if p != [] {
      assert (p + r)[1..] == p[1..] + r;
      StripStartPadded(p[1..], r);
    } else {
      assert p + r == r;
    }
  }

  /** Trailing white space is removed back to the last other character. */
  lemma {:induction false} StripEndPadded(r: string, q: string)
    requires AllSpace(q)
    ensures StripEnd(r + q) == StripEnd(r)
  {
    if q != [] {
      assert (r + q)[..|r + q| - 1] == r + q[..|q| - 1];
      StripEndPadded(r, q[..|q| - 1]);
    } else {
      assert r + q == r;
    }
  }

  lemma AllSpaceConcat(a: string, b: string)
    requires AllSpace(a) && AllSpace(b)
    ensures AllSpace(a + b)
  {
    assert forall i :: 0 <= i < |a + b| ==> (a + b)[i] == (if i < |a| then a[i] else b[i - |a|]);
  }

  /** Strip is determined by its two properties: whatever is wrapped in white
      space and has no white space at either end is what Strip returns. */
  lemma StripUnique(p: string, r: string, q: string)
    requires AllSpace(p) && AllSpace(q)
    requires r == [] || (!IsSpace(r[0]) && !IsSpace(r[|r| - 1]))
    ensures Strip(p + r + q) == r
  {
    assert p + r + q == p + (r + q);
    if r == [] {
      assert r + q == q;
      StripStartPadded(p + q, []);
      assert p + q + [] == p + q;
      AllSpaceConcat(p, q);
      assert StripStart(p + q) == [];
    } else {
      assert (r + q)[0] == r[0];
      StripStartPadded(p, r + q);
      StripEndPadded(r, q);
    }
  }

  lemma StripIdempotent(s: string)
    ensures Strip(Strip(s)) == Strip(s)
  {
    StripUnique([], Strip(s), []);
    assert [] + Strip(s) + [] == Strip(s);
  }

  /** The white space Strip removes from the front of `s`. */
  function LeadingSpace(s: string): string {
    s[..|s| - |StripStart(s)|]
  }

  /** The white space Strip removes from the back of `s`. */
  function TrailingSpace(s: string): string {
    StripStart(s)[|Strip(s)|..]
  }

  lemma SplitTwo(s: string, i: nat)
    requires i <= |s|
    ensures s == s[..i] + s[i..]
  {
  }

  lemma Regroup(p: string, a: string, b: string, c: string, q: string)
    ensures p + (a + b + c) + q == (p + a) + b + (c + q)
  {
  }

  lemma StripStartSplits(s: string)
    ensures AllSpace(LeadingSpace(s)) && s == LeadingSpace(s) + StripStart(s)
  {
    StripStartDropsSpace(s);
    SplitTwo(s, |s| - |StripStart(s)|);
  }

  lemma StripEndSplits(s: string)
    ensures AllSpace(TrailingSpace(s)) && StripStart(s) == Strip(s) + TrailingSpace(s)
  {
    var t := StripStart(s);
    assert Strip(s) == StripEnd(t);
    StripEndDropsSpace(t);
    SplitTwo(t, |StripEnd(t)|);
  }

  /** `s` is Strip(s) wrapped in white space. */
  lemma StripSplits(s: string)
    ensures AllSpace(LeadingSpace(s)) && AllSpace(TrailingSpace(s))
    ensures s == LeadingSpace(s) + Strip(s) + TrailingSpace(s)
  {
    StripStartSplits(s);
    StripEndSplits(s);
    Regroup(LeadingSpace(s), [], Strip(s), TrailingSpace(s), []);
  }

  /** Leading and trailing white space never changes what Strip returns. */
  lemma StripPadded(p: string, s: string, q: string)
    requires AllSpace(p) && AllSpace(q)
    ensures Strip(p + s + q) == Strip(s)
  {
    StripSplits(s);
    var p', r, q' := LeadingSpace(s), Strip(s), TrailingSpace(s);
    AllSpaceConcat(p, p');
    AllSpaceConcat(q', q);
    Regroup(p, p', r, q', q);
    StripUnique(p + p', r, q' + q);
  }

  /** Strip returns the empty string exactly for all-white-space input. */
  lemma StripEmptyIff(s: string)
    ensures Strip(s) == [] <==> AllSpace(s)
  {
    StripSplits(s);
    if AllSpace(s) {
      StripUnique(s, [], []);
      assert s + [] + [] == s;
    } else {
      AllSpaceConcat(LeadingSpace(s), TrailingSpace(s));
    }
  }

  /** `p` occurs in `s` starting at index `i`. */
  predicate OccursAt(s: string, p: string, i: nat) {
    i + |p| <= |s| && s[i..i + |p|] == p
  }

  /** `s.startswith(p)`. */
  predicate StartsWith(s: string, p: string) {
    OccursAt(s, p, 0)
  }

  /** `p in s`: `p` occurs somewhere in `s` (the empty string occurs in every string). */
  predicate Contains(s: string, p: string) {
    exists i: nat :: i <= |s| && OccursAt(s, p, i)
  }

  /** `p in s` holds wherever `p` is written into `s`. */
  lemma ContainsPiece(a: string, p: string, b: string)
    ensures Contains(a + p + b, p)
  {
    assert (a + p + b)[|a|..|a| + |p|] == p;
    assert OccursAt(a + p + b, p, |a|);
  }

  lemma OccursAtTail(s: string, p: string, j: nat)
    requires s != []
    ensures OccursAt(s, p, j + 1) <==> OccursAt(s[1..], p, j)
  {
    if j + 1 + |p| <= |s| {
      assert s[j + 1..j + 1 + |p|] == s[1..][j..j + |p|];
    }
  }

  /** An occurrence in a suffix of `s` is an occurrence in `s`. */
  lemma OccursInSuffix(s: string, p: string, k: nat, i: nat)
    requires k <= |s| && OccursAt(s[k..], p, i)
    ensures OccursAt(s, p, k + i)
  {
    assert s[k + i..k + i + |p|] == s[k..][i..i + |p|];
  }

  /** `s.find(p)`: the index of the first occurrence of `p` in `s`, if any. */
  function Find(s: string, p: string): (r: Option<nat>)
    ensures r.Some? ==> OccursAt(s, p, r.value)
    ensures r.Some? ==> forall j: nat :: j < r.value ==> !OccursAt(s, p, j)
    ensures r.None? ==> forall j: nat :: !OccursAt(s, p, j)
    ensures r.Some? <==> Contains(s, p)
  {
    if StartsWith(s, p) then Some(0)
    else if s == [] then None
    else
      var rest := Find(s[1..], p);
      assert forall j: nat :: OccursAt(s, p, j + 1) <==> OccursAt(s[1..], p, j) by {
        forall j: nat ensures OccursAt(s, p, j + 1) <==> OccursAt(s[1..], p, j) {
          OccursAtTail(s, p, j);
        }
      }
      assert forall j: nat :: OccursAt(s, p, j) ==> j == 0 || OccursAt(s[1..], p, j - 1);
      match rest
      case None => None
      case Some(i) => Some(i + 1)
  }

  /** `s.startswith(p)` holds exactly when the first occurrence of `p` is at
      the start of `s`. */
  lemma StartsWithFind(s: string, p: string)
    ensures StartsWith(s, p) <==> Find(s, p) == Some(0)
  {
    if StartsWith(s, p) {
      assert Contains(s, p);
    }
  }

  /** `s.split(sep, 1)`: `s` itself when `sep` does not occur, otherwise the
      text before the first occurrence of `sep` and the text after it. */
  function SplitOnce(s: string, sep: string): (parts: seq<string>)
    requires sep != []
    ensures |parts| == 1 || |parts| == 2
    ensures |parts| == 2 <==> Contains(s, sep)
    ensures |parts| == 1 ==> parts[0] == s
    ensures |parts| == 2 ==> forall j: nat :: j < |parts[0]| ==> !OccursAt(s, sep, j)
  {
    match Find(s, sep)
    case None => [s]
    case Some(i) => [s[..i], s[i + |sep|..]]
  }

  /** Joining the parts back with the separator gives the original string. */
  lemma SplitOnceJoin(s: string, sep: string)
    requires sep != []
    ensures var parts := SplitOnce(s, sep);
      |parts| == 2 ==> parts[0] + sep + parts[1] == s
  {
    match Find(s, sep)
    case None =>
    case Some(i) =>
      assert s == s[..i] + s[i..i + |sep|] + s[i + |sep|..];
  }
}
