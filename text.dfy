/** String operations the handlers use: `indexOf`/`includes`, the first-occurrence
    `replace` of a string pattern, and the `split(...).pop()` / `split(...)[0]`
    idioms. */
module Text {
  import opened Common

  /** `pat` occurs in `s` starting at index `i`. */
  predicate OccursAt(s: string, pat: string, i: nat) {
    i + |pat| <= |s| && s[i..i + |pat|] == pat
  }

  /** `i` is the first index at which `pat` occurs in `s`. */
  predicate FirstAt(s: string, pat: string, i: nat) {
    OccursAt(s, pat, i) && forall j: nat :: j < i ==> !OccursAt(s, pat, j)
  }

  lemma OccursShift(s: string, pat: string, k: nat)
    requires |s| > 0
    ensures OccursAt(s[1..], pat, k) <==> OccursAt(s, pat, k + 1)
  {
    if k + 1 + |pat| <= |s| {
      assert s[1..][k..k + |pat|] == s[k + 1..k + 1 + |pat|];
    }
  }

  /** JavaScript `s.indexOf(pat)`: the first index where `pat` occurs, if any. */
  function IndexOf(s: string, pat: string): (r: Option<nat>)
    ensures r.Some? ==> FirstAt(s, pat, r.value)
    ensures r.None? ==> forall j: nat :: !OccursAt(s, pat, j)
    decreases |s|
  {
    if OccursAt(s, pat, 0) then Some(0)
    else if |s| == 0 then None
    else
      var rest := IndexOf(s[1..], pat);
      assert forall k: nat :: OccursAt(s[1..], pat, k) <==> OccursAt(s, pat, k + 1) by {
        forall k: nat ensures OccursAt(s[1..], pat, k) <==> OccursAt(s, pat, k + 1) {
          OccursShift(s, pat, k);
        }
      }
      match rest
      case None =>
        assert forall j: nat :: j > 0 ==> !OccursAt(s, pat, j) by {
          forall j: nat | j > 0 ensures !OccursAt(s, pat, j) {
            assert !OccursAt(s[1..], pat, j - 1);
          }
        }
        None
      case Some(k) =>
        assert forall j: nat :: 0 < j < k + 1 ==> !OccursAt(s, pat, j) by {
          forall j: nat | 0 < j < k + 1 ensures !OccursAt(s, pat, j) {
            assert !OccursAt(s[1..], pat, j - 1);
          }
        }
        Some(k + 1)
  }

  /** JavaScript `s.includes(pat)`. */
  function Contains(s: string, pat: string): (b: bool)
    ensures b <==> exists i: nat :: OccursAt(s, pat, i)
  {
    IndexOf(s, pat).Some?
  }

  /** JavaScript `s.replace(pat, rep)` with a string pattern: only the FIRST
      occurrence of `pat` is replaced; without one, `s` comes back unchanged.
      JavaScript also expands `$&`, `$1`, `$$` in `rep`; this models only a
      replacement without `$`, such as the empty one the middleware uses. */
  function ReplaceFirst(s: string, pat: string, rep: string): (r: string)
    ensures forall i: nat :: FirstAt(s, pat, i) ==> r == s[..i] + rep + s[i + |pat|..]
    ensures (forall i: nat :: !OccursAt(s, pat, i)) ==> r == s
  {
    match IndexOf(s, pat)
    case None => s
    case Some(i) => s[..i] + rep + s[i + |pat|..]
  }

  /** `s.split(c).pop()`: the part of `s` after its last `c` (all of `s` when
      there is none). */
  function AfterLast(s: string, c: char): (r: string)
    ensures c !in r
    ensures |r| <= |s| && r == s[|s| - |r|..]
    ensures |r| < |s| ==> s[|s| - |r| - 1] == c
  {
    if |s| == 0 then ""
    else if s[|s| - 1] == c then ""
    else AfterLast(s[..|s| - 1], c) + [s[|s| - 1]]
  }

  /** `s.split(c)[0]`: the part of `s` before its first `c` (all of `s` when
      there is none). */
  function BeforeFirst(s: string, c: char): (r: string)
    ensures c !in r
    ensures |r| <= |s| && r == s[..|r|]
    ensures |r| < |s| ==> s[|r|] == c
  {
    if |s| == 0 then ""
    else if s[0] == c then ""
    else [s[0]] + BeforeFirst(s[1..], c)
  }

  /** Splitting `p + [c] + rest` at its first `c` gives back `p` when `p` holds no `c`. */
  lemma {:induction false} BeforeFirstOfJoin(p: string, c: char, rest: string)
    requires c !in p
    ensures BeforeFirst(p + [c] + rest, c) == p
  {
    if |p| > 0 {
      assert (p + [c] + rest)[1..] == p[1..] + [c] + rest;
      BeforeFirstOfJoin(p[1..], c, rest);
    }
  }
}
