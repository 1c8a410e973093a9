/** The string keys the source uses for colours (`${r},${g},${b}`) and for cells
    (`${x},${y}`), and their decoding by `key.split(',').map(Number)`. The rest of
    the model keys its tables by `Color.Rgb` and by coordinate pairs directly;
    the round trip proved here is what makes that replacement faithful. */
module ColorKey {
  import opened Common
  import opened Color

  predicate IsDigit(ch: char) {
    '0' <= ch <= '9'
  }

  predicate AllDigits(s: string) {
    forall i :: 0 <= i < |s| ==> IsDigit(s[i])
  }

  function DigitChar(d: nat): (ch: char)
    requires d < 10
    ensures IsDigit(ch)
  {
    ('0' as int + d) as char
  }

  function DigitValue(ch: char): nat
    requires IsDigit(ch)
  {
    ch as int - '0' as int
  }

  /** `n.toString()` for a non-negative integer: decimal, no leading zeros. */
  function Decimal(n: nat): (s: string)
    ensures |s| > 0 && AllDigits(s)
    decreases n
  {
    if n < 10 then [DigitChar(n)] else Decimal(n / 10) + [DigitChar(n % 10)]
  }

  /** The value of a string of decimal digits. */
  function ParseDecimal(s: string): nat
    requires AllDigits(s)
  {
    if |s| == 0 then 0 else ParseDecimal(s[..|s| - 1]) * 10 + DigitValue(s[|s| - 1])
  }

  /** `Number(s)`, for the strings this model produces: a non-empty string of
      digits has its decimal value, and a non-empty string with any other
      character stands for `NaN`. The empty string, which `Number` reads as 0,
      is never produced by a split of a joined key. */
  function ToNumber(s: string): Option<nat> {
    if |s| > 0 && AllDigits(s) then Some(ParseDecimal(s)) else None
  }

  lemma {:induction false} DecimalRoundTrip(n: nat)
    ensures ToNumber(Decimal(n)) == Some(n)
    decreases n
  {
    var s := Decimal(n);
    if n < 10 {
      assert DigitValue(s[|s| - 1]) == n;
      assert s[..|s| - 1] == [];
      assert ParseDecimal(s[..|s| - 1]) == 0;
    } else {
      DecimalRoundTrip(n / 10);
      assert s[..|s| - 1] == Decimal(n / 10);
      assert DigitValue(s[|s| - 1]) == n % 10;
    }
  }

  /** `xs.join(',')` over decimal numbers. */
  function Join(xs: seq<nat>): string
  {
    if |xs| == 0 then ""
    else if |xs| == 1 then Decimal(xs[0])
    else Decimal(xs[0]) + "," + Join(xs[1..])
  }

  /** `s.split(',')`: the pieces between commas, always at least one. */
  function Split(s: string): (parts: seq<string>)
    ensures |parts| > 0
  {
    if |s| == 0 then [""]
    else
      var rest := Split(s[1..]);
      if s[0] == ',' then [""] + rest else [[s[0]] + rest[0]] + rest[1..]
  }

  /** `s.split(',').map(Number)`. */
  function ParseFields(s: string): (fields: seq<Option<nat>>)
    ensures |fields| == |Split(s)|
  {
    var parts := Split(s);
    seq(|parts|, i requires 0 <= i < |parts| => ToNumber(parts[i]))
  }

  lemma {:induction false} SplitWithoutComma(a: string)
    requires AllDigits(a)
    ensures Split(a) == [a]
    decreases |a|
  {
    if |a| > 0 {
      SplitWithoutComma(a[1..]);
      assert a[0] != ',';
      assert [a[0]] + a[1..] == a;
    }
  }

  lemma {:induction false} SplitAtFirstComma(a: string, b: string)
    requires AllDigits(a)
    ensures Split(a + "," + b) == [a] + Split(b)
    decreases |a|
  {
    if |a| == 0 {
      assert a + "," + b == [','] + b;
    } else {
      assert (a + "," + b)[1..] == a[1..] + "," + b;
      SplitAtFirstComma(a[1..], b);
      assert [a[0]] + a[1..] == a;
    }
  }

  /** Joining non-negative numbers with commas and splitting the result back
      recovers every number, in order. */
  lemma {:induction false} JoinRoundTrip(xs: seq<nat>)
    requires |xs| > 0
    ensures ParseFields(Join(xs)) == seq(|xs|, i requires 0 <= i < |xs| => Some(xs[i]))
    decreases |xs|
  {
    DecimalRoundTrip(xs[0]);
    if |xs| == 1 {
      SplitWithoutComma(Decimal(xs[0]));
    } else {
      var rest := xs[1..];
      JoinRoundTrip(rest);
      SplitAtFirstComma(Decimal(xs[0]), Join(rest));
      var parts := Split(Join(xs));
      assert parts == [Decimal(xs[0])] + Split(Join(rest));
      forall i | 0 <= i < |xs|
        ensures ParseFields(Join(xs))[i] == Some(xs[i])
      {
        if i > 0 {
          assert parts[i] == Split(Join(rest))[i - 1];
          assert ParseFields(Join(rest))[i - 1] == Some(rest[i - 1]);
        }
      }
    }
  }

  /** The template key `${r},${g},${b}` of a colour with non-negative channels. */
  function RgbKey(c: Rgb): string
    requires c.r >= 0 && c.g >= 0 && c.b >= 0
  {
    Join([c.r, c.g, c.b])
  }

  /** The selection key `${x},${y}` of a cell. */
  function CellKey(x: nat, y: nat): string {
    Join([x, y])
  }

  /** Decoding a colour key gives back the three channels, so re-joining them
      reproduces the key, and distinct colours never share a key. */
  lemma RgbKeyRoundTrip(c: Rgb)
    requires c.r >= 0 && c.g >= 0 && c.b >= 0
    ensures ParseFields(RgbKey(c)) == [Some(c.r), Some(c.g), Some(c.b)]
  {
    JoinRoundTrip([c.r, c.g, c.b]);
  }

  lemma RgbKeyInjective(c: Rgb, d: Rgb)
    requires c.r >= 0 && c.g >= 0 && c.b >= 0
    requires d.r >= 0 && d.g >= 0 && d.b >= 0
    requires RgbKey(c) == RgbKey(d)
    ensures c == d
  {
    RgbKeyRoundTrip(c);
    RgbKeyRoundTrip(d);
  }

  /** Decoding a cell key gives back the coordinates the tools index the grid by. */
  lemma CellKeyRoundTrip(x: nat, y: nat)
    ensures ParseFields(CellKey(x, y)) == [Some(x), Some(y)]
  {
    JoinRoundTrip([x, y]);
  }
}
