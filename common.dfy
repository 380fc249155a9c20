/** Small shared vocabulary: an optional value, and JavaScript truthiness of
    an optional request field. */
module Common {

  /** A value that may be absent (an `undefined` field of a request body). */
  datatype Option<T> = None | Some(value: T)

  /** The first element of `s` that satisfies `p`: what `findOne` and
      `findById` return on a collection kept in insertion order. */
  function First<T>(s: seq<T>, p: T -> bool): (r: Option<T>)
    ensures r.Some? ==> r.value in s && p(r.value)
    ensures r.None? <==> forall i :: 0 <= i < |s| ==> !p(s[i])
  {
    if s == [] then None
    else if p(s[0]) then Some(s[0])
    else First(s[1..], p)
  }

  /** When `x` is the only element of `s` that satisfies `p`, it is the one found. */
  lemma {:induction false} FirstOnly<T>(s: seq<T>, p: T -> bool, x: T)
    requires x in s && p(x)
    requires forall y :: y in s && p(y) ==> y == x
    ensures First(s, p) == Some(x)
  {
    if !p(s[0]) {
      FirstOnly(s[1..], p, x);
    }
  }

  /** JavaScript truthiness of a string field that may be missing:
      `undefined` and `""` are falsy, every other string is truthy. */
  predicate Truthy(f: Option<string>) {
    f.Some? && f.value != ""
  }
}
