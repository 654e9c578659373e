/** Day 25, "Full of Hot Air": SNAFU numbers, written in base 5 with the
    digits `=` (-2), `-` (-1), `0`, `1` and `2`. A `Snafu` value keeps its
    digits in whichever order produced it: parsing a string stores the
    least significant digit first, encoding an integer stores the most
    significant digit first, and `Display` prints the stored order. */
module Snafu {
  import opened Wrappers
  import opened Arith
  import opened Sequences

  datatype SnafuDigit = DoubleMinus | Minus | Zero | One | Two

  datatype Snafu = Snafu(data: seq<SnafuDigit>)

  /** `From<char> for SnafuDigit`; any other character is `unimplemented!`. */
  function DigitOfChar(c: char): (r: Option<SnafuDigit>)
    ensures r.Some? <==> c in "=-012"
  {
    match c
    case '=' => Some(DoubleMinus)
    case '-' => Some(Minus)
    case '0' => Some(Zero)
    case '1' => Some(One)
    case '2' => Some(Two)
    case _ => None
  }

  /** `From<SnafuDigit> for char`. */
  function CharOfDigit(d: SnafuDigit): char
  {
    match d
    case DoubleMinus => '='
    case Minus => '-'
    case Zero => '0'
    case One => '1'
    case Two => '2'
  }

  /** `From<SnafuDigit> for isize`. */
  function DigitValue(d: SnafuDigit): (v: int)
    ensures -2 <= v <= 2
  {
    match d
    case DoubleMinus => -2
    case Minus => -1
    case Zero => 0
    case One => 1
    case Two => 2
  }

  /** `From<isize> for SnafuDigit`; values outside -2..=2 are `unimplemented!`. */
  function DigitOfValue(v: int): (r: Option<SnafuDigit>)
    ensures r.Some? <==> -2 <= v <= 2
  {
    match v
    case -2 => Some(DoubleMinus)
    case -1 => Some(Minus)
    case 0 => Some(Zero)
    case 1 => Some(One)
    case 2 => Some(Two)
    case _ => None
  }

  /** Characters, values and digits convert back and forth without loss. */
  lemma DigitConversions(d: SnafuDigit, c: char, v: int)
    ensures DigitOfChar(CharOfDigit(d)) == Some(d)
    ensures DigitOfChar(c) == Some(d) ==> CharOfDigit(d) == c
    ensures DigitOfValue(DigitValue(d)) == Some(d)
    ensures DigitOfValue(v) == Some(d) ==> DigitValue(d) == v
  {
  }

  function Pow5(e: nat): (p: nat)
    ensures p >= 1 && (e > 0 ==> p >= 5)
  {
    if e == 0 then 1 else 5 * Pow5(e - 1)
  }

  /** The largest magnitude `e` SNAFU digits can write, `22...2`: `(5^e - 1) / 2`. */
  function Half(e: nat): (h: nat)
    ensures Pow5(e) == 2 * h + 1
  {
    if e == 0 then 0 else 5 * Half(e - 1) + 2
  }

  /** `From<&str> for Snafu`: the characters, last first. */
  function Parse(s: string): (r: Option<Snafu>)
    ensures r.Some? <==> forall i :: 0 <= i < |s| ==> s[i] in "=-012"
    ensures r.Some? ==> (|r.value.data| == |s|
      && forall i :: 0 <= i < |s| ==> CharOfDigit(r.value.data[i]) == s[|s| - 1 - i])
  {
    if |s| == 0 then Some(Snafu([]))
    else
      match DigitOfChar(s[|s| - 1])
      case None => None
      case Some(d) =>
        match Parse(s[..|s| - 1])
        case None => None
        case Some(rest) => Some(Snafu([d] + rest.data))
  }

  /** `Display for Snafu`: the stored digits, in stored order. */
  function Show(n: Snafu): (s: string)
    ensures |s| == |n.data| && forall i :: 0 <= i < |s| ==> s[i] == CharOfDigit(n.data[i])
    decreases |n.data|
  {
    if |n.data| == 0 then "" else [CharOfDigit(n.data[0])] + Show(Snafu(n.data[1..]))
  }

  /** `From<Snafu> for isize`: digit `i` of the stored order is worth `5^i`. */
  function ToInt(n: Snafu): int
  {
    LsdValue(n.data)
  }

  function LsdValue(ds: seq<SnafuDigit>): int
  {
    if |ds| == 0 then 0 else DigitValue(ds[0]) + 5 * LsdValue(ds[1..])
  }

  /** The value of digits written most significant first, as printed. */
  function MsdValue(ds: seq<SnafuDigit>): int
  {
    if |ds| == 0 then 0 else DigitValue(ds[0]) * Pow5(|ds| - 1) + MsdValue(ds[1..])
  }

  /** A digit string read least significant first is worth what its
      reversal is worth read most significant first. */
  lemma {:induction false} LsdMsd(ds: seq<SnafuDigit>)
    ensures LsdValue(Reverse(ds)) == MsdValue(ds)
  {
    if |ds| > 0 {
      LsdMsd(ds[1..]);
      LsdAppend(Reverse(ds[1..]), ds[0]);
    }
  }

  /** Appending a most significant digit adds its value times `5^len`. */
  lemma {:induction false} LsdAppend(ds: seq<SnafuDigit>, d: SnafuDigit)
    ensures LsdValue(ds + [d]) == LsdValue(ds) + DigitValue(d) * Pow5(|ds|)
  {
    if |ds| > 0 {
      assert (ds + [d])[1..] == ds[1..] + [d];
      LsdAppend(ds[1..], d);
    } else {
      assert LsdValue([d]) == DigitValue(d) + 5 * LsdValue([]);
    }
  }

  /** Printing then parsing stores the digits reversed. */
  lemma ParseShow(ds: seq<SnafuDigit>)
    ensures Parse(Show(Snafu(ds))) == Some(Snafu(Reverse(ds)))
  {
    var s := Show(Snafu(ds));
    forall i | 0 <= i < |s| ensures s[i] in "=-012" {
      DigitConversions(ds[i], s[i], 0);
    }
    var r := Parse(s).value.data;
    forall i | 0 <= i < |s| ensures r[i] == Reverse(ds)[i] {
      CharOfDigitInjective(r[i], ds[|s| - 1 - i]);
    }
    assert r == Reverse(ds);
  }

  lemma CharOfDigitInjective(d1: SnafuDigit, d2: SnafuDigit)
    requires CharOfDigit(d1) == CharOfDigit(d2)
    ensures d1 == d2
  {
  }

  /** `next_power`, as written: starting from exponent 0, step while the
      exponent is 0 or `data / ((5^e - 1) / 2)` (rounded toward zero) is
      not 0. It stops at the least `e >= 1` with `|data| < (5^e - 1) / 2`;
      the pair is `(e, 5^e)`. */
  function NextPower(data: int): (r: (nat, nat))
    ensures r.0 >= 1 && r.1 == Pow5(r.0)
    ensures Abs(data) < Half(r.0)
    ensures forall e :: 1 <= e < r.0 ==> Half(e) <= Abs(data)
  {
    NextPowerFrom(data, 0)
  }

  function NextPowerFrom(data: int, e: nat): (r: (nat, nat))
    requires forall e' :: 1 <= e' < e ==> Half(e') <= Abs(data)
    ensures r.0 >= 1 && r.0 >= e && r.1 == Pow5(r.0)
    ensures Abs(data) < Half(r.0)
    ensures forall e' :: 1 <= e' < r.0 ==> Half(e') <= Abs(data)
    decreases if Half(e) <= Abs(data) then Abs(data) - Half(e) + 1 else 0
  {
    if Pow5(e) == 1 || Quotient(data, Half(e)) != 0 then NextPowerFrom(data, e + 1)
    else (e, Pow5(e))
  }

  /** `data / half` as the source computes it, rounding toward zero;
      it is zero exactly when `|data| < half`. */
  function Quotient(data: int, half: nat): (q: int)
    requires half > 0
    ensures q == 0 <==> Abs(data) < half
  {
    TruncDiv(data, half)
  }

  /** `From<isize> for Snafu`, as written: the digits for positions
      `k - 1` down to 0, most significant first, each the remainder's
      sign times its magnitude divided by `5^n` rounded to nearest. */
  function Encode(value: int): (r: Result<Snafu>)
    ensures r.Ok?
    ensures |r.value.data| == NextPower(value).0
    ensures MsdValue(r.value.data) == value
  {
    var k := NextPower(value).0;
    match EncodeFrom(value, k)
    case Ok(ds) => Ok(Snafu(ds))
    case Err(e) => Err(e)
  }

  /** The loop of `From<isize>` from position `k - 1` down: while the
      remainder fits in `k` digits every coefficient is a digit and the
      digits add up to the remainder. */
  function EncodeFrom(rem: int, k: nat): (r: Result<seq<SnafuDigit>>)
    ensures Abs(rem) <= Half(k) ==> r.Ok? && |r.value| == k && MsdValue(r.value) == rem
    decreases k
  {
    if k == 0 then Ok([])
    else
      var coeff := Coefficient(rem, k - 1);
      match DigitOfValue(coeff)
      case None => Err("coefficient is not a SNAFU digit")
      case Some(d) =>
        var step := coeff * Pow5(k - 1);
        match EncodeFrom(rem - step, k - 1)
        case Err(e) => Err(e)
        case Ok(rest) =>
          assert ([d] + rest)[1..] == rest;
          Ok([d] + rest)
  }

  /** The coefficient of `5^n`: the remainder's sign times its magnitude
      divided by `5^n`, rounded to nearest (`signum * (|rem| + (5^n - 1) / 2) / 5^n`).
      While the remainder fits in `n + 1` digits it is a digit, and what is
      left fits in `n` digits. */
  function Coefficient(rem: int, n: nat): (c: int)
    ensures Abs(rem) <= Half(n + 1) ==> -2 <= c <= 2 && Abs(rem - c * Pow5(n)) <= Half(n)
  {
    CoefficientFits(rem, n);
    Rounded(rem, Pow5(n))
  }

  /** `signum * (|rem| + (power - 1) / 2) / power`, with Rust's division. */
  function Rounded(rem: int, power: nat): int
    requires power > 0
  {
    TruncDiv(Sign(rem) * (Abs(rem) + (power - 1) / 2), power)
  }

  lemma CoefficientFits(rem: int, n: nat)
    ensures Abs(rem) <= Half(n + 1) ==>
      var c := Rounded(rem, Pow5(n));
      -2 <= c <= 2 && Abs(rem - c * Pow5(n)) <= Half(n)
  {
    var p, h := Pow5(n), Half(n);
    assert (p - 1) / 2 == h;
    if Abs(rem) <= Half(n + 1) {
      assert Half(n + 1) == 5 * h + 2;
      RoundingFits(rem, h, p);
    }
  }

  /** Rounding `rem` with `|rem| <= 5h + 2` to a multiple of `p == 2h + 1`
      leaves a digit and a remainder of magnitude at most `h`. */
  lemma RoundingFits(rem: int, h: nat, p: nat)
    requires p == 2 * h + 1 && Abs(rem) <= 5 * h + 2
    ensures var c := Rounded(rem, p); -2 <= c <= 2 && Abs(rem - c * p) <= h
  {
    var a := Abs(rem);
    var q := RoundingStep(a, h, p);
    var c := Rounded(rem, p);
    if rem > 0 {
      RoundedPositive(rem, h, p);
      SmallMultiple(c, p);
    } else if rem < 0 {
      RoundedNegative(rem, h, p);
      SmallMultiple(c, p);
    } else {
      assert c == 0;
    }
  }

  lemma SmallMultiple(c: int, p: int)
    requires -2 <= c <= 2
    ensures c * p == if c == 2 then p + p else if c == 1 then p else if c == 0 then 0
      else if c == -1 then 0 - p else 0 - p - p
  {
  }

  lemma RoundedPositive(rem: int, h: nat, p: nat)
    requires rem > 0 && p == 2 * h + 1
    ensures Rounded(rem, p) == (rem + h) / p
  {
    assert (p - 1) / 2 == h;
    assert Sign(rem) * (rem + h) == rem + h;
  }

  lemma RoundedNegative(rem: int, h: nat, p: nat)
    requires rem < 0 && p == 2 * h + 1
    ensures Rounded(rem, p) == -((-rem + h) / p)
  {
    assert (p - 1) / 2 == h;
    assert Sign(rem) * (-rem + h) == -(-rem + h);
  }

  /** Rounding a magnitude `a <= 5h + 2` to the nearest multiple of `p == 2h + 1`:
      the multiple is 0, `p` or `2p`, within `h` of `a`. */
  lemma RoundingStep(a: int, h: int, p: int) returns (q: int)
    requires 0 <= a && 0 <= h && p == 2 * h + 1 && a <= 5 * h + 2
    ensures q == (a + h) / p
    ensures (q == 0 && a <= h) || (q == 1 && -h <= a - p <= h) || (q == 2 && -h <= a - 2 * p <= h)
  {
    if a + h < p {
      q := 0;
    } else if a + h < 2 * p {
      q := 1;
    } else {
      q := 2;
    }
    DivModUnique(a + h, p, q, a + h - q * p);
  }

  /** Encoding, printing, parsing and decoding gives the number back:
      the path from `main`'s sum to its printed answer and back. */
  lemma RoundTrip(value: int)
    ensures Encode(value).Ok?
    ensures Parse(Show(Encode(value).value)).Some?
    ensures ToInt(Parse(Show(Encode(value).value)).value) == value
  {
    var ds := Encode(value).value.data;
    ParseShow(ds);
    LsdMsd(ds);
  }

  /** Parsing one more character puts its digit in front. */
  lemma ParseSnoc(s: string, c: char, t: string, d: SnafuDigit, rest: seq<SnafuDigit>, ds: seq<SnafuDigit>)
    requires DigitOfChar(c) == Some(d) && Parse(s) == Some(Snafu(rest))
    requires t == s + [c] && ds == [d] + rest
    ensures Parse(t) == Some(Snafu(ds))
  {
    assert t[..|s|] == s;
  }

  /** One step of the encoding loop, with the coefficient already known. */
  lemma EncodeStep(rem: int, k: nat, c: int, d: SnafuDigit, left: int, rest: seq<SnafuDigit>, ds: seq<SnafuDigit>)
    requires k >= 1 && Coefficient(rem, k - 1) == c && DigitValue(d) == c
    requires left == rem - c * Pow5(k - 1) && EncodeFrom(left, k - 1) == Ok(rest)
    requires ds == [d] + rest
    ensures EncodeFrom(rem, k) == Ok(ds)
  {
    DigitConversions(d, '0', c);
  }

  /** The source's examples: "=" is -2 and "1=-0-2" is 1747. */
  lemma ParseExamples()
    ensures Parse("=") == Some(Snafu([DoubleMinus]))
    ensures Parse("1=-0-2") == Some(Snafu([Two, Minus, Zero, Minus, DoubleMinus, One]))
  {
    ParseSnoc("", '=', "=", DoubleMinus, [], [DoubleMinus]);
    ParsePrefixExample();
    ParseSnoc("1=-0-", '2', "1=-0-2", Two, [Minus, Zero, Minus, DoubleMinus, One], [Two, Minus, Zero, Minus, DoubleMinus, One]);
  }

  lemma ParsePrefixExample()
    ensures Parse("1=-0-") == Some(Snafu([Minus, Zero, Minus, DoubleMinus, One]))
  {
    ParseShortPrefixExample();
    ParseSnoc("1=-", '0', "1=-0", Zero, [Minus, DoubleMinus, One], [Zero, Minus, DoubleMinus, One]);
    ParseSnoc("1=-0", '-', "1=-0-", Minus, [Zero, Minus, DoubleMinus, One], [Minus, Zero, Minus, DoubleMinus, One]);
  }

  lemma ParseShortPrefixExample()
    ensures Parse("1=-") == Some(Snafu([Minus, DoubleMinus, One]))
  {
    ParseSnoc("", '1', "1", One, [], [One]);
    ParseSnoc("1", '=', "1=", DoubleMinus, [One], [DoubleMinus, One]);
    ParseSnoc("1=", '-', "1=-", Minus, [DoubleMinus, One], [Minus, DoubleMinus, One]);
  }

  lemma ValueExample()
    ensures ToInt(Snafu([Two, Minus, Zero, Minus, DoubleMinus, One])) == 1747
  {
    var ds := [Two, Minus, Zero, Minus, DoubleMinus, One];
    assert ds[1..][1..][1..][1..][1..][1..] == [];
  }

  lemma EncodeExample()
    ensures Encode(-1) == Ok(Snafu([Minus]))
  {
    assert Half(1) == 2;
    assert NextPower(-1).0 == 1;
    MinusOneDigit();
  }

  lemma MinusOneDigit()
    ensures EncodeFrom(-1, 1) == Ok([Minus])
  {
    CoefficientOfMinusOne();
    assert Pow5(0) == 1;
    EncodeStep(-1, 1, -1, Minus, 0, [], [Minus]);
  }

  lemma MinusOneTwoDigits()
    ensures EncodeFrom(-1, 2) == Ok([Zero, Minus])
  {
    MinusOneDigit();
    CoefficientOfMinusOneAtFive();
    assert Pow5(1) == 5;
    EncodeStep(-1, 2, 0, Zero, -1, [Minus], [Zero, Minus]);
  }

  lemma MinusFiftyOne()
    ensures EncodeFrom(-51, 3) == Ok([DoubleMinus, Zero, Minus])
  {
    MinusOneTwoDigits();
    CoefficientOfMinusFiftyOne();
    assert Pow5(2) == 25;
    EncodeStep(-51, 3, -2, DoubleMinus, -1, [Zero, Minus], [DoubleMinus, Zero, Minus]);
  }

  /** The coefficients the examples use, each computed on its own. */
  lemma CoefficientOfMinusOne()
    ensures Coefficient(-1, 0) == -1
  {
    assert Pow5(0) == 1 && Half(0) == 0;
  }

  lemma CoefficientOfMinusOneAtFive()
    ensures Coefficient(-1, 1) == 0
  {
    assert Pow5(1) == 5 && Half(1) == 2;
    assert TruncDiv(-3, 5) == 0;
  }

  lemma CoefficientOfMinusFiftyOne()
    ensures Coefficient(-51, 2) == -2
  {
    assert Pow5(2) == 25 && Half(2) == 12;
    assert TruncDiv(-63, 25) == -2;
  }

  lemma CoefficientOfMinus176()
    ensures Coefficient(-176, 3) == -1
  {
    assert Pow5(3) == 125 && Half(3) == 62;
    assert TruncDiv(-238, 125) == -1;
  }

  lemma CoefficientOfTwo()
    ensures Coefficient(2, 0) == 2
  {
    assert Pow5(0) == 1 && Half(0) == 0;
  }

  lemma CoefficientOfTwoAtFive()
    ensures Coefficient(2, 1) == 0
  {
    assert Pow5(1) == 5 && Half(1) == 2;
    assert TruncDiv(4, 5) == 0;
  }

  lemma EncodeNegativeExample()
    ensures Encode(-176) == Ok(Snafu([Minus, DoubleMinus, Zero, Minus]))
  {
    NegativeExamplePower();
    NegativeExampleDigits();
  }

  lemma NegativeExampleDigits()
    ensures EncodeFrom(-176, 4) == Ok([Minus, DoubleMinus, Zero, Minus])
  {
    MinusFiftyOne();
    CoefficientOfMinus176();
    assert Pow5(3) == 125;
    assert [Minus, DoubleMinus, Zero, Minus] == [Minus] + [DoubleMinus, Zero, Minus];
    NegativeExampleLastStep(-176, -51, [DoubleMinus, Zero, Minus], [Minus, DoubleMinus, Zero, Minus]);
  }

  lemma NegativeExampleLastStep(rem: int, left: int, rest: seq<SnafuDigit>, ds: seq<SnafuDigit>)
    requires Pow5(3) == 125 && left == rem + 125 && Coefficient(rem, 3) == -1
    requires EncodeFrom(left, 3) == Ok(rest) && ds == [Minus] + rest
    ensures EncodeFrom(rem, 4) == Ok(ds)
  {
    EncodeStep(rem, 4, -1, Minus, left, rest, ds);
  }

  lemma NegativeExamplePower()
    ensures NextPower(-176).0 == 4
  {
    assert Half(1) == 2 && Half(2) == 12 && Half(3) == 62 && Half(4) == 312;
    assert NextPowerFrom(-176, 4) == (4, 625);
  }

  /** Because `next_power` stops only when `|data| < (5^e - 1) / 2`, a sum
      equal to `(5^e - 1) / 2` (`2`, `22`, `222`, ...) gets one exponent
      too many and is printed with a leading zero: 2 becomes "02". */
  lemma LeadingZeroForTwo()
    ensures NextPower(2).0 == 2
    ensures Encode(2) == Ok(Snafu([Zero, Two]))
    ensures Show(Encode(2).value) == "02"
  {
    TwoPower();
    TwoDigits();
    assert Show(Snafu([Zero, Two])) == "02";
  }

  lemma TwoPower()
    ensures NextPower(2).0 == 2
  {
    assert Half(1) == 2 && Half(2) == 12;
    assert NextPowerFrom(2, 2) == (2, 25);
  }

  lemma TwoOneDigit()
    ensures EncodeFrom(2, 1) == Ok([Two])
  {
    CoefficientOfTwo();
    assert Pow5(0) == 1;
    EncodeStep(2, 1, 2, Two, 0, [], [Two]);
  }

  lemma TwoDigits()
    ensures EncodeFrom(2, 2) == Ok([Zero, Two])
  {
    TwoOneDigit();
    CoefficientOfTwoAtFive();
    assert Pow5(1) == 5;
    EncodeStep(2, 2, 0, Zero, 2, [Two], [Zero, Two]);
  }

  /** `next_power` with the evident intent: the least `e >= 1` with
      `|data| <= (5^e - 1) / 2`, the fewest digits that can write it. */
  function NextPowerTight(data: int): (r: (nat, nat))
    ensures r.0 >= 1 && r.1 == Pow5(r.0)
    ensures Abs(data) <= Half(r.0)
    ensures forall e :: 1 <= e < r.0 ==> Half(e) < Abs(data)
  {
    NextPowerTightFrom(data, 0)
  }

  function NextPowerTightFrom(data: int, e: nat): (r: (nat, nat))
    requires forall e' :: 1 <= e' < e ==> Half(e') < Abs(data)
    ensures r.0 >= 1 && r.0 >= e && r.1 == Pow5(r.0)
    ensures Abs(data) <= Half(r.0)
    ensures forall e' :: 1 <= e' < r.0 ==> Half(e') < Abs(data)
    decreases if Half(e) <= Abs(data) then Abs(data) - Half(e) + 1 else 0
  {
    if e == 0 || Abs(data) > Half(e) then NextPowerTightFrom(data, e + 1)
    else (e, Pow5(e))
  }

  /** `From<isize>` with the tight exponent. */
  function EncodeTight(value: int): (r: Result<Snafu>)
    ensures r.Ok?
    ensures |r.value.data| == NextPowerTight(value).0
    ensures MsdValue(r.value.data) == value
  {
    match EncodeFrom(value, NextPowerTight(value).0)
    case Ok(ds) => Ok(Snafu(ds))
    case Err(e) => Err(e)
  }

  /** The tight encoding round-trips too, and never starts with a zero
      digit unless the number is 0 itself. */
  lemma TightRoundTrip(value: int)
    ensures Parse(Show(EncodeTight(value).value)).Some?
    ensures ToInt(Parse(Show(EncodeTight(value).value)).value) == value
    ensures value != 0 ==> EncodeTight(value).value.data[0] != Zero
  {
    var ds := EncodeTight(value).value.data;
    ParseShow(ds);
    LsdMsd(ds);
    var k := NextPowerTight(value).0;
    if value != 0 {
      LeadingDigitNonZero(value, k);
    }
  }

  /** A remainder too large for `k - 1` digits gets a non-zero leading digit. */
  lemma LeadingDigitNonZero(rem: int, k: nat)
    requires k >= 1 && rem != 0 && Abs(rem) <= Half(k)
    requires k == 1 || Half(k - 1) < Abs(rem)
    ensures EncodeFrom(rem, k).Ok? && EncodeFrom(rem, k).value[0] != Zero
  {
    var p, h := Pow5(k - 1), Half(k - 1);
    if k == 1 {
      assert h == 0;
    }
    RoundedNonZero(rem, h, p);
    assert Coefficient(rem, k - 1) != 0;
  }

  /** A magnitude above `h` rounds to a non-zero multiple of `2h + 1`. */
  lemma RoundedNonZero(rem: int, h: nat, p: nat)
    requires p == 2 * h + 1 && Abs(rem) > h
    ensures Rounded(rem, p) != 0
  {
    var x := Abs(rem) + h;
    assert x >= p;
    assert x / p >= 1;
    if rem > 0 {
      RoundedPositive(rem, h, p);
    } else {
      RoundedNegative(rem, h, p);
    }
  }
}
