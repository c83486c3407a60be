/** The few JavaScript value rules the handlers depend on: parseInt results,
    truthiness of query fields, Array.prototype.slice(0, end) and
    String.prototype.includes. */
module JsValues {

  datatype Option<T> = None | Some(value: T)

  /** What `parseInt` returns: an integer, or NaN when the text has no leading digits. */
  datatype JsInt = Int(value: int) | NaN

  /** A request field that the handlers turn into a `Date`.
      Absent: missing or the empty string (falsy in JavaScript).
      Unparseable: a non-empty text for which `Date.parse` is NaN.
      Parsed: a valid instant, in milliseconds of local time. */
  datatype DateParam = Absent | Unparseable | Parsed(instant: int)

  /** The `limit` query field: missing or empty (falsy), or a non-empty text and what `parseInt` made of it. */
  datatype LimitParam = NoLimit | Limit(parsed: JsInt)

  predicate Truthy(p: DateParam) { !p.Absent? }

  function Min(a: int, b: int): int { if a <= b then a else b }
  function Max(a: int, b: int): int { if a <= b then b else a }

  /** The index at which `xs.slice(0, end)` stops on an array of length `len`:
      NaN becomes 0, a negative end counts from the back, and the result is clamped to [0, len]. */
  function SliceEnd(end: JsInt, len: nat): (k: nat)
    ensures k <= len
  {
    match end
    case NaN => 0
    case Int(n) => if n < 0 then Max(len + n, 0) else Min(n, len)
  }

  /** `xs.slice(0, end)`. */
  function SliceFromStart<T>(xs: seq<T>, end: JsInt): (r: seq<T>)
    ensures |r| <= |xs| && r == xs[..|r|]
    ensures end.NaN? ==> r == []
    ensures end.Int? && 0 <= end.value ==> |r| == Min(end.value, |xs|)
    ensures end.Int? && end.value < 0 ==> |r| == Max(|xs| + end.value, 0)
  {
    xs[..SliceEnd(end, |xs|)]
  }

  predicate StartsWith(s: string, prefix: string) {
    |prefix| <= |s| && s[..|prefix|] == prefix
  }

  /** `s.includes(sub)`, scanning start positions from the left. */
  function Includes(s: string, sub: string): bool
    decreases |s|
  {
    if StartsWith(s, sub) then true
    else if s == [] then false
    else Includes(s[1..], sub)
  }

  /** `sub` occurs in `s` at position `i`. */
  ghost predicate OccursAt(s: string, sub: string, i: int) {
    0 <= i && i + |sub| <= |s| && s[i..i + |sub|] == sub
  }

  /** The scan finds `sub` exactly when it occurs at some position. */
  lemma {:induction false} IncludesIff(s: string, sub: string)
    ensures Includes(s, sub) <==> exists i :: OccursAt(s, sub, i)
    decreases |s|
  {
    if StartsWith(s, sub) {
      assert OccursAt(s, sub, 0);
    } else if s != [] {
      IncludesIff(s[1..], sub);
      if exists i :: OccursAt(s[1..], sub, i) {
        var i :| OccursAt(s[1..], sub, i);
        assert s[1..][i..i + |sub|] == s[i + 1..i + 1 + |sub|];
        assert OccursAt(s, sub, i + 1);
      }
      if exists i :: OccursAt(s, sub, i) {
        var i :| OccursAt(s, sub, i);
        assert i != 0;
        assert s[1..][i - 1..i - 1 + |sub|] == s[i..i + |sub|];
        assert OccursAt(s[1..], sub, i - 1);
      }
    }
  }
}
