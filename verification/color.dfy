/** RGB triples, the nearest-colour search shared by both pipelines and the tools,
    and the `(r << 16) + (g << 8) + b` packing of fill colours. */
module Color {
  import opened Common

  /** An RGB triple. Components are unbounded integers: the older pipeline's
      rounding can produce the channel value 256. */
  datatype Rgb = Rgb(r: int, g: int, b: int)

  predicate IsByteColor(c: Rgb) {
    0 <= c.r < 256 && 0 <= c.g < 256 && 0 <= c.b < 256
  }

  function Square(d: int): nat {
    if d < 0 then (-d) * (-d) else d * d
  }

  /** Squared Euclidean distance. The source compares `Math.sqrt` of this sum
      with a strict `<`; the square root is strictly increasing on non-negative
      numbers, so comparing the squares takes exactly the same decisions. */
  function Dist2(p: Rgb, c: Rgb): nat {
    Square(p.r - c.r) + Square(p.g - c.g) + Square(p.b - c.b)
  }

  /** `k` is a nearest colour of `colors` to `p`, and no earlier entry is as near. */
  ghost predicate IsClosestIn(p: Rgb, colors: seq<Rgb>, k: nat) {
    && k < |colors|
    && (forall j :: 0 <= j < |colors| ==> Dist2(p, colors[k]) <= Dist2(p, colors[j]))
    && (forall j :: 0 <= j < k ==> Dist2(p, colors[k]) < Dist2(p, colors[j]))
  }

  /** The loop of `findClosestColor` from entry `i` on; `best` is the index of the
      current closest colour, `None` while `minDistance` is still `Infinity`. */
  function ClosestFrom(p: Rgb, colors: seq<Rgb>, i: nat, best: Option<nat>): (r: Option<nat>)
    requires i <= |colors|
    requires best.None? <==> i == 0
    requires best.Some? ==> IsClosestIn(p, colors[..i], best.value)
    ensures r.None? <==> |colors| == 0
    ensures r.Some? ==> IsClosestIn(p, colors, r.value)
    decreases |colors| - i
  {
    if i == |colors| then
      assert colors[..i] == colors;
      best
    else if best.None? || Dist2(p, colors[i]) < Dist2(p, colors[best.value]) then
      ClosestFrom(p, colors, i + 1, Some(i))
    else
      ClosestFrom(p, colors, i + 1, best)
  }

  /** Index of the colour `findClosestColor(r, g, b, colors)` returns: the first
      entry of least distance. On an empty list the source returns `colors[0]`,
      that is `undefined`, which is `None` here. */
  function FindClosest(p: Rgb, colors: seq<Rgb>): (r: Option<nat>)
    ensures r.None? <==> |colors| == 0
    ensures r.Some? ==> IsClosestIn(p, colors, r.value)
  {
    ClosestFrom(p, colors, 0, None)
  }

  /** There is only one first-nearest index, so the argmin is determined by its
      specification alone. */
  lemma ClosestIsUnique(p: Rgb, colors: seq<Rgb>, i: nat, j: nat)
    requires IsClosestIn(p, colors, i) && IsClosestIn(p, colors, j)
    ensures i == j
  {
    assert Dist2(p, colors[i]) <= Dist2(p, colors[j]);
    assert Dist2(p, colors[j]) <= Dist2(p, colors[i]);
  }

  /** Index of the first occurrence of `c` in `s`. */
  function FirstIndex(s: seq<Rgb>, c: Rgb): (i: nat)
    requires c in s
    ensures i < |s| && s[i] == c
    ensures forall j :: 0 <= j < i ==> s[j] != c
  {
    if s[0] == c then 0 else 1 + FirstIndex(s[1..], c)
  }

  /** `m` lists colours of `s`, each once, in the order of their first occurrence
      in `s`: the order of a table filled by walking `s` from the front. */
  ghost predicate InFirstOccurrenceOrder(m: seq<Rgb>, s: seq<Rgb>) {
    && (forall j :: 0 <= j < |m| ==> m[j] in s)
    && (forall j, k :: 0 <= j < k < |m| ==> FirstIndex(s, m[j]) < FirstIndex(s, m[k]))
  }

  /** Searching a first-occurrence-ordered selection `m` of `s` finds the same colour
      as searching all of `s`, whenever that colour was kept in `m`. */
  lemma ClosestOfOrderedSelection(p: Rgb, s: seq<Rgb>, m: seq<Rgb>)
    requires |s| > 0
    requires InFirstOccurrenceOrder(m, s)
    requires s[FindClosest(p, s).value] in m
    ensures FindClosest(p, m).Some?
    ensures m[FindClosest(p, m).value] == s[FindClosest(p, s).value]
  {
    var i := FindClosest(p, s).value;
    var v := s[i];
    var d := Dist2(p, v);
    var k := FirstIndex(m, v);
    assert FirstIndex(s, v) == i by {
      var f := FirstIndex(s, v);
      assert Dist2(p, s[f]) == d;
    }
    forall j | 0 <= j < |m|
      ensures d <= Dist2(p, m[j])
    {
      var f := FirstIndex(s, m[j]);
      assert Dist2(p, s[i]) <= Dist2(p, s[f]);
    }
    forall j | 0 <= j < k
      ensures d < Dist2(p, m[j])
    {
      var f := FirstIndex(s, m[j]);
      assert f < i;
      assert Dist2(p, s[i]) < Dist2(p, s[f]);
    }
    assert IsClosestIn(p, m, k);
    ClosestIsUnique(p, m, k, FindClosest(p, m).value);
  }

  /** The colour of pixel `k` of an RGBA buffer: bytes `4k`, `4k+1`, `4k+2`, the
      alpha byte ignored. */
  function RawPixel(pixels: seq<Byte>, k: nat): (c: Rgb)
    requires 4 * k + 2 < |pixels|
    ensures IsByteColor(c)
  {
    Rgb(pixels[4 * k], pixels[4 * k + 1], pixels[4 * k + 2])
  }

  /** `(r << 16) + (g << 8) + b` for byte channels, where the 32-bit shifts cannot
      overflow. */
  function Pack(c: Rgb): int {
    c.r * 0x1_0000 + c.g * 0x100 + c.b
  }

  /** `[(v >> 16) & 0xFF, (v >> 8) & 0xFF, v & 0xFF]` for a non-negative `v`
      below 2^31, where `>>` is floor division by a power of two. */
  function Unpack(v: nat): Rgb {
    Rgb((v / 0x1_0000) % 0x100, (v / 0x100) % 0x100, v % 0x100)
  }

  /** A packed byte colour fits in 24 bits and unpacks to the same channels. */
  lemma PackRoundTrip(c: Rgb)
    requires IsByteColor(c)
    ensures 0 <= Pack(c) < 0x100_0000
    ensures Unpack(Pack(c)) == c
  {
    var v := Pack(c);
    var hi := c.r * 0x100 + c.g;
    assert v == hi * 0x100 + c.b;
    assert 0 <= hi < 0x1_0000;
    assert v / 0x100 == hi && v % 0x100 == c.b;
    assert hi / 0x100 == c.r && hi % 0x100 == c.g;
    assert v / 0x1_0000 == hi / 0x100 by {
      assert v == c.r * 0x1_0000 + (c.g * 0x100 + c.b);
    }
  }

  /** Two byte colours with the same packed fill are the same colour. */
  lemma PackInjective(c: Rgb, d: Rgb)
    requires IsByteColor(c) && IsByteColor(d)
    requires Pack(c) == Pack(d)
    ensures c == d
  {
    PackRoundTrip(c);
    PackRoundTrip(d);
  }
}
