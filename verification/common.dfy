/** Small shared vocabulary: an optional value (JavaScript's `undefined` as `None`)
    and the minimum of two naturals. */
module Common {

  /** A value that may be absent; `None` plays the role of `undefined`. */
  datatype Option<+T> = None | Some(value: T) {

    /** The value if present, otherwise `default` (the `x || default` idiom). */
    function GetOr(default: T): T {
      match this
      case Some(v) => v
      case None => default
    }
  }

  function Min(a: nat, b: nat): nat {
    if a <= b then a else b
  }

  predicate Distinct<T(==)>(s: seq<T>) {
    forall i, j :: 0 <= i < j < |s| ==> s[i] != s[j]
  }

  /** A sequence without repeats has as many distinct elements as entries. */
  lemma {:induction false} DistinctCard<T>(s: seq<T>)
    requires Distinct(s)
    ensures |set x | x in s| == |s|
    decreases |s|
  {
    if |s| > 0 {
      var init := s[..|s| - 1];
      var last := s[|s| - 1];
      DistinctCard(init);
      assert s == init + [last];
      assert (set x | x in s) == (set x | x in init) + {last};
      assert last !in init;
    }
  }

  /** Row-major position `y * width + x` of cell (x, y) in a width x height grid. */
  function CellIndex(width: nat, height: nat, x: nat, y: nat): (k: nat)
    requires x < width && y < height
    ensures k < width * height
  {
    assert y * width + x < (y + 1) * width;
    assert (y + 1) * width <= height * width by {
      MulMonotone(y + 1, height, width);
    }
    y * width + x
  }

  /** Row `y` of a width x height grid ends within the grid. */
  lemma RowEnd(width: nat, height: nat, y: nat)
    requires y < height
    ensures y * width + width <= width * height
  {
    MulMonotone(y + 1, height, width);
  }

  /** The last row ends at the end of the grid. */
  lemma RowsEnd(width: nat, height: nat, y: nat)
    requires y == height
    ensures y * width == width * height
  {
  }

  lemma MulSucc(a: nat, b: nat)
    ensures (a + 1) * b == a * b + b
  {
  }

  lemma MulMonotone(a: nat, b: nat, c: nat)
    requires a <= b
    ensures a * c <= b * c
  {
  }

  /** A pixel channel as stored in a `Uint8ClampedArray`. */
  type Byte = v: int | 0 <= v < 256
}
