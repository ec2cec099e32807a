/**
 The few JavaScript value semantics the data-table widget and the toolbox rely on:
 optional values (null/undefined), numbers that may be NaN or missing, truthiness,
 `Array.prototype.indexOf` and `Array.prototype.slice`.
 */
module JsValues {

  /** A value that may be absent (JavaScript `null` or `undefined`). */
  datatype Option<+T> = None | Some(value: T)

  /** `x || fallback` for an `x` that is either absent or a non-falsy value. */
  function OrElse<T>(x: Option<T>, fallback: T): (r: T)
    ensures x.Some? ==> r == x.value
    ensures x.None? ==> r == fallback
  {
    if x.Some? then x.value else fallback
  }

  /** A JavaScript number as the widget meets it: a missing field, NaN, or an integer. */
  datatype JsNum = Undefined | NaN | Int(n: int) {

    /** JavaScript truthiness: 0, NaN and undefined are falsy. */
    predicate Truthy() {
      Int? && n != 0
    }

    /** `x + k`: undefined and NaN both give NaN. */
    function Plus(k: int): JsNum {
      if Int? then Int(n + k) else NaN
    }

    /** `x * k`: undefined and NaN both give NaN. */
    function Times(k: int): JsNum {
      if Int? then Int(n * k) else NaN
    }
  }

  /** JavaScript truthiness of an optional string: absent and "" are falsy. */
  predicate TruthyString(s: Option<string>) {
    s.Some? && s.value != ""
  }

  /**
   `Array.prototype.indexOf`: the first index holding `x`, or -1 when there is none.
   */
  function IndexOf<T(==)>(s: seq<T>, x: T): (r: int)
    ensures -1 <= r < |s|
    ensures r == -1 <==> x !in s
    ensures 0 <= r ==> s[r] == x && x !in s[..r]
  {
    if |s| == 0 then -1
    else if s[0] == x then 0
    else
      var k := IndexOf(s[1..], x);
      if k == -1 then -1 else k + 1
  }

  function Min(a: int, b: int): int {
    if a <= b then a else b
  }

  /**
   How `slice` turns one argument into a position in a sequence of length `len`:
   a negative argument counts back from the end, and the result is clamped to [0, len].
   */
  function RelativeIndex(k: int, len: nat): (i: nat)
    ensures i <= len
    ensures 0 <= k ==> i == Min(k, len)
    ensures k < 0 && 0 <= len + k ==> i == len + k
    ensures len + k < 0 ==> i == 0
  {
    if k < 0 then (if len + k < 0 then 0 else len + k)
    else if k < len then k
    else len
  }

  /** `ToIntegerOrInfinity` on the numbers the widget passes: NaN and undefined become 0. */
  function IntegerOr0(x: JsNum): int {
    if x.Int? then x.n else 0
  }

  /**
   `s.slice(start, end)`. An undefined `end` means "to the end"; a NaN or undefined
   argument otherwise reads as 0. The result is always a contiguous run of `s`.
   */
  function Slice<T>(s: seq<T>, start: JsNum, end: JsNum): (r: seq<T>)
    ensures |r| <= |s|
    ensures exists i :: 0 <= i <= |s| && r <= s[i..]
    // Both bounds non-negative: the window between them, cut at the end of `s`.
    ensures start.Int? && end.Int? && 0 <= start.n <= end.n ==> r == s[Min(start.n, |s|)..Min(end.n, |s|)]
    ensures start.Int? && end.Int? && 0 <= end.n <= start.n ==> r == []
    // A missing or NaN start reads as 0.
    ensures !start.Int? && end.Int? && 0 <= end.n ==> r == s[..Min(end.n, |s|)]
    // No end: everything from the start, a negative start counting back from the end.
    ensures start.Int? && end.Undefined? && 0 <= start.n ==> r == s[Min(start.n, |s|)..]
    ensures start.Int? && end.Undefined? && start.n < 0 && 0 <= |s| + start.n ==> r == s[|s| + start.n..]
    ensures start.Int? && end.Undefined? && |s| + start.n < 0 ==> r == s
    // A negative end counts back from the end.
    ensures start.Int? && end.Int? && 0 <= start.n <= |s| + end.n && end.n < 0 ==> r == s[start.n..|s| + end.n]
    // A NaN end reads as 0, so nothing is selected.
    ensures end.NaN? ==> r == []
  {
    var from := RelativeIndex(IntegerOr0(start), |s|);
    var to := if end.Undefined? then |s| else RelativeIndex(IntegerOr0(end), |s|);
    if from < to then
      assert s[from..to] <= s[from..];
      s[from..to]
    else
      assert [] <= s[0..];
      []
  }

  /** A negative start counts back from the end, whatever the end is. */
  lemma SliceFromEnd<T>(s: seq<T>, k: int, end: JsNum)
    requires k < 0
    ensures Slice(s, Int(k), end) == Slice(s, Int(RelativeIndex(k, |s|)), end)
  {
  }

  /** A negative end counts back from the end, whatever the start is. */
  lemma SliceToFromEnd<T>(s: seq<T>, start: JsNum, k: int)
    requires k < 0
    ensures Slice(s, start, Int(k)) == Slice(s, start, Int(RelativeIndex(k, |s|)))
  {
  }

  /** A missing or NaN start reads as 0, whatever the end is. */
  lemma SliceFromZero<T>(s: seq<T>, start: JsNum, end: JsNum)
    requires !start.Int?
    ensures Slice(s, start, end) == Slice(s, Int(0), end)
  {
  }

  /** Two adjacent slices with non-negative bounds make up the slice spanning both. */
  lemma SliceAdjacent<T>(s: seq<T>, i: nat, j: nat, k: nat)
    requires i <= j <= k
    ensures Slice(s, Int(i), Int(j)) + Slice(s, Int(j), Int(k)) == Slice(s, Int(i), Int(k))
  {
    var a, b, c := Min(i, |s|), Min(j, |s|), Min(k, |s|);
    assert s[a..b] + s[b..c] == s[a..c];
  }
}
