/**
 * Conversion between unsigned 32-bit integers and PostgreSQL's packed
 * NUMERIC varlena in its short (2-byte header) format.
 *
 * A numeric value is modelled by what follows its 4-byte varlena length
 * word: the uint16 header (the short header, or the sign/display-scale word
 * of the long format), then the int16 words after it: the long format's
 * weight, and the base-10000 digits.
 */
module NumericSmall {
  import opened Wrappers

  const NBASE: nat := 10000
  const VARHDRSZ: nat := 4
  const UINT32: nat := 0x1_0000_0000

  /** Header bits shared by both formats. */
  const NUMERIC_SIGN_MASK: bv16 := 0xC000
  const NUMERIC_POS: bv16 := 0x0000
  const NUMERIC_NEG: bv16 := 0x4000
  const NUMERIC_SHORT: bv16 := 0x8000
  const NUMERIC_NAN: bv16 := 0xC000

  /** Short-format bit fields. */
  const NUMERIC_SHORT_SIGN_MASK: bv16 := 0x2000
  const NUMERIC_SHORT_DSCALE_MASK: bv16 := 0x1F80
  const NUMERIC_SHORT_DSCALE_SHIFT: nat := 7
  const NUMERIC_SHORT_WEIGHT_SIGN_MASK: bv16 := 0x0040
  const NUMERIC_SHORT_WEIGHT_MASK: bv16 := 0x003F
  const NUMERIC_DSCALE_MASK: bv16 := 0x3FFF

  /** Size of the varlena word plus the short header. */
  const NUMERIC_HDRSZ_SHORT: nat := VARHDRSZ + 2

  datatype Numeric = Numeric(header: bv16, words: seq<int>)

  /** Every word after the header is an int16; the long format has its weight word. */
  predicate WellFormed(n: Numeric) {
    (forall i :: 0 <= i < |n.words| ==> -0x8000 <= n.words[i] < 0x8000)
    && (HeaderIsShort(n) || |n.words| >= 1)
  }

  function Header(n: Numeric): bv16 {
    n.header
  }

  /** VARSIZE: the total length in bytes, varlena word included. */
  function VarSize(n: Numeric): nat {
    VARHDRSZ + 2 + 2 * |n.words|
  }

  function FlagBits(n: Numeric): bv16
  {
    Header(n) & NUMERIC_SIGN_MASK
  }

  predicate IsShort(n: Numeric)
  {
    FlagBits(n) == NUMERIC_SHORT
  }

  /** NUMERIC_HEADER_IS_SHORT: the top bit alone selects the short header. */
  predicate HeaderIsShort(n: Numeric)
  {
    Header(n) & 0x8000 != 0
  }

  /** NUMERIC_HEADER_SIZE in bytes. */
  function HeaderSize(n: Numeric): nat
  {
    VARHDRSZ + 2 + (if HeaderIsShort(n) then 0 else 2)
  }

  /** NUMERIC_SIGN. */
  function Sign(n: Numeric): (s: bv16)
    ensures s == NUMERIC_NAN <==> FlagBits(n) == NUMERIC_NAN
  {
    if IsShort(n) then
      (if Header(n) & NUMERIC_SHORT_SIGN_MASK != 0 then NUMERIC_NEG else NUMERIC_POS)
    else FlagBits(n)
  }

  /** NUMERIC_DSCALE: bits 7-12 of a short header, the low 14 bits of a long one. */
  function DScale(n: Numeric): (d: nat)
    ensures HeaderIsShort(n) ==> d < 64 && d == ((Header(n) >> 7) & 0x3F) as int
    ensures !HeaderIsShort(n) ==> d < 0x4000
  {
    if HeaderIsShort(n) then
      ((Header(n) & NUMERIC_SHORT_DSCALE_MASK) >> NUMERIC_SHORT_DSCALE_SHIFT) as nat
    else
      (Header(n) & NUMERIC_DSCALE_MASK) as nat
  }

  /** NUMERIC_WEIGHT: the short header's 7-bit weight field is sign-extended. */
  function Weight(n: Numeric): (w: int)
    requires WellFormed(n)
    ensures HeaderIsShort(n) ==> -64 <= w < 64 && w % 128 == (Header(n) & 0x7F) as int
  {
    if HeaderIsShort(n) then
      var h := Header(n);
      assert (h & 0x7F) as int == (h & NUMERIC_SHORT_WEIGHT_MASK) as int + (if h & NUMERIC_SHORT_WEIGHT_SIGN_MASK != 0 then 64 else 0);
      (if h & NUMERIC_SHORT_WEIGHT_SIGN_MASK != 0
       then (h & NUMERIC_SHORT_WEIGHT_MASK) as int - 64
       else (h & NUMERIC_SHORT_WEIGHT_MASK) as int)
    else n.words[0]
  }

  /** NUMERIC_NDIGITS: the words after the header. */
  function NDigits(n: Numeric): (k: nat)
    requires WellFormed(n)
    ensures k == (VarSize(n) - HeaderSize(n)) / 2
  {
    |n.words| - (if HeaderIsShort(n) then 0 else 1)
  }

  /** NUMERIC_DIGITS: the int16 digits after the header, most significant first. */
  function Digits(n: Numeric): (ds: seq<int>)
    requires WellFormed(n)
    ensures |ds| == NDigits(n)
  {
    n.words[if HeaderIsShort(n) then 0 else 1..]
  }

  /** The decoder reads a digit only below ndigits; a missing digit counts as 0. */
  function DigitOrZero(ds: seq<int>, i: nat): int {
    if i < |ds| then ds[i] else 0
  }

  /** The decoder reads digits[0] unchecked when the weight is 2. */
  predicate LeadingDigitReadable(n: Numeric)
    requires WellFormed(n)
  {
    Sign(n) == NUMERIC_NAN || DScale(n) != 0 || Weight(n) != 2 || NDigits(n) >= 1
  }

  /** The exact value of the first k base-NBASE digits, missing ones read as 0. */
  function Horner(ds: seq<int>, k: nat): int {
    if k == 0 then 0 else Horner(ds, k - 1) * NBASE + DigitOrZero(ds, k - 1)
  }

  /**
   * What numeric_get_small yields: None where it returns false, otherwise the
   * value of the digits up to the weight, negated for a negative sign, both
   * modulo 2^32.
   */
  function DecodeSmall(n: Numeric): Option<nat>
    requires WellFormed(n) && LeadingDigitReadable(n)
  {
    if Sign(n) == NUMERIC_NAN then None
    else if DScale(n) != 0 then None
    else if Weight(n) > 2 then None
    else if Weight(n) == 2 && Digits(n)[0] > 20 then None
    else
      var w := if Weight(n) < 0 then 0 else Weight(n) + 1;
      var magnitude := Horner(Digits(n), w) % UINT32;
      Some(if Sign(n) == NUMERIC_NEG then (UINT32 - magnitude) % UINT32 else magnitude)
  }

  lemma ModStep(x: int, d: int)
    ensures ((x % UINT32) * NBASE + d) % UINT32 == (x * NBASE + d) % UINT32
  {
    var q := x / UINT32;
    assert x == q * UINT32 + x % UINT32;
    assert x * NBASE + d == (x % UINT32) * NBASE + d + (q * NBASE) * UINT32;
  }

  lemma ModAdd(a: int, d: int)
    ensures (a % UINT32 + d) % UINT32 == (a + d) % UINT32
  {
    var q := a / UINT32;
    assert a == q * UINT32 + a % UINT32;
  }

  /**
   * The digit loop of numeric_get_small: weight+1 steps of result *= NBASE,
   * result += digits[i] (when present), all in uint32 arithmetic.
   */
  method Accumulate(digits: seq<int>, weight: int) returns (result: nat)
    requires weight <= 2
    ensures result < UINT32
    ensures result == Horner(digits, if weight < 0 then 0 else weight + 1) % UINT32
  {
    var ndigits := |digits|;
    result := 0;
    var i := 0;
    while i <= weight
      invariant 0 <= i && (weight >= 0 ==> i <= weight + 1) && (weight < 0 ==> i == 0)
      invariant result < UINT32
      invariant result == Horner(digits, i) % UINT32
    {
      ModStep(Horner(digits, i), DigitOrZero(digits, i));
      ModAdd(result * NBASE, DigitOrZero(digits, i));
      result := (result * NBASE) % UINT32;
      if i < ndigits {
        result := (result + digits[i]) % UINT32;
      }
      i := i + 1;
    }
  }

  /**
   * numeric_get_small: a uint32 accumulated by the base-10000 loop, or false.
   * The loop multiplies and adds in 32-bit unsigned arithmetic.
   */
  method NumericGetSmall(value: Numeric) returns (ok: bool, out: nat)
    requires WellFormed(value) && LeadingDigitReadable(value)
    ensures ok <==> DecodeSmall(value).Some?
    ensures ok ==> out == DecodeSmall(value).value && out < UINT32
  {
    out := 0;
    if Sign(value) == NUMERIC_NAN {
      return false, out;
    }
    if DScale(value) != 0 {
      return false, out;
    }
    var weight := Weight(value);
    if weight > 2 {
      return false, out;
    }
    var digits := Digits(value);
    if weight == 2 && digits[0] > 20 {
      return false, out;
    }
    var result := Accumulate(digits, weight);
    if Sign(value) == NUMERIC_NEG {
      result := (UINT32 - result) % UINT32;
    }
    return true, result;
  }

  /** The magnitude small_to_numeric encodes: |(int32) value| as a uint32. */
  function Magnitude(value: nat): (m: nat)
    requires value < UINT32
    ensures m <= 0x8000_0000
    ensures value < 0x8000_0000 ==> m == value
    ensures value >= 0x8000_0000 ==> m + value == UINT32
  {
    if value >= 0x8000_0000 then (UINT32 - value) % UINT32 else value
  }

  /** The three base-10000 digits computed from the magnitude, most significant first. */
  function DigitsOf(m: nat): (d: seq<nat>)
    ensures |d| == 3 && d[0] < NBASE && d[1] < NBASE && d[2] < NBASE
  {
    [(m / NBASE / NBASE) % NBASE, (m / NBASE) % NBASE, m % NBASE]
  }

  /** The weight small_to_numeric picks: the position of the first nonzero digit. */
  function WeightOf(m: nat): nat {
    var d := DigitsOf(m);
    if d[0] != 0 then 2 else if d[1] != 0 then 1 else 0
  }

  function SmallHeader(sign: bool, weight: nat): bv16
    requires weight <= 2
  {
    (if sign then NUMERIC_SHORT | NUMERIC_SHORT_SIGN_MASK else NUMERIC_SHORT)
      | ((weight as bv16) & NUMERIC_SHORT_WEIGHT_MASK)
  }

  /** The six headers small_to_numeric can write decode back to their fields. */
  lemma HeaderFields(sign: bool, weight: nat)
    requires weight <= 2
    ensures var h := SmallHeader(sign, weight);
      && h & 0x8000 != 0
      && h & NUMERIC_SIGN_MASK == NUMERIC_SHORT
      && (h & NUMERIC_SHORT_SIGN_MASK != 0 <==> sign)
      && (h & NUMERIC_SHORT_DSCALE_MASK) >> NUMERIC_SHORT_DSCALE_SHIFT == 0
      && h & NUMERIC_SHORT_WEIGHT_SIGN_MASK == 0
      && (h & NUMERIC_SHORT_WEIGHT_MASK) as int == weight
  {
    if sign {
      if weight == 0 {
        assert SmallHeader(sign, weight) == 0xA000;
      } else if weight == 1 {
        assert SmallHeader(sign, weight) == 0xA001;
      } else {
        assert SmallHeader(sign, weight) == 0xA002;
      }
    } else {
      if weight == 0 {
        assert SmallHeader(sign, weight) == 0x8000;
      } else if weight == 1 {
        assert SmallHeader(sign, weight) == 0x8001;
      } else {
        assert SmallHeader(sign, weight) == 0x8002;
      }
    }
  }

  /** A short numeric built from a header SmallHeader(sign, weight) and the digits. */
  lemma ShortFields(sign: bool, weight: nat, ds: seq<nat>)
    requires weight <= 2 && |ds| == weight + 1
    requires forall i :: 0 <= i < |ds| ==> ds[i] < NBASE
    ensures var r := Numeric(SmallHeader(sign, weight), ds);
      && WellFormed(r) && IsShort(r) && HeaderIsShort(r)
      && Sign(r) == (if sign then NUMERIC_NEG else NUMERIC_POS)
      && DScale(r) == 0 && Weight(r) == weight
      && Digits(r) == ds
  {
    HeaderFields(sign, weight);
  }

  /**
   * small_to_numeric: a short-format numeric holding the low weight+1 of the
   * three computed digits, with the sign bit iff (int32) value < 0.
   */
  function SmallToNumeric(value: nat): (r: Numeric)
    requires value < UINT32
    ensures WellFormed(r) && IsShort(r) && HeaderIsShort(r)
    ensures Sign(r) == (if value >= 0x8000_0000 then NUMERIC_NEG else NUMERIC_POS)
    ensures DScale(r) == 0
    ensures Weight(r) == (if Magnitude(value) >= NBASE * NBASE then 2
                          else if Magnitude(value) >= NBASE then 1 else 0)
    ensures VarSize(r) == NUMERIC_HDRSZ_SHORT + (Weight(r) + 1) * 2
    ensures Digits(r) == DigitsOf(Magnitude(value))[2 - Weight(r)..]
  {
    var m := Magnitude(value);
    var d := DigitsOf(m);
    var weight := WeightOf(m);
    var ds := d[2 - weight..];
    WeightOfBounds(m);
    ShortFields(value >= 0x8000_0000, weight, ds);
    Numeric(SmallHeader(value >= 0x8000_0000, weight), ds)
  }

  lemma WeightOfBounds(m: nat)
    requires m <= 0x8000_0000
    ensures WeightOf(m) == (if m >= NBASE * NBASE then 2 else if m >= NBASE then 1 else 0)
    ensures DigitsOf(m)[0] == m / (NBASE * NBASE)
    ensures WeightOf(m) < 2 ==> DigitsOf(m)[0] == 0
    ensures WeightOf(m) < 1 ==> DigitsOf(m)[1] == 0
    ensures m == DigitsOf(m)[0] * (NBASE * NBASE) + DigitsOf(m)[1] * NBASE + DigitsOf(m)[2]
  {
    var d := DigitsOf(m);
    assert m / NBASE / NBASE == m / (NBASE * NBASE);
    assert m / (NBASE * NBASE) <= 21;
    assert m / NBASE == (m / (NBASE * NBASE)) * NBASE + (m / NBASE) % NBASE;
    assert m == (m / NBASE) * NBASE + m % NBASE;
  }

  /**
   * Reading the stored digits positionally gives back the magnitude, and the
   * decoder's leading-digit guard trips exactly above 2,099,999,999.
   */
  lemma HornerOfDigits(m: nat)
    requires m <= 0x8000_0000
    ensures var w := WeightOf(m);
      var ds := DigitsOf(m)[2 - w..];
      w <= 2 && |ds| == w + 1
      && Horner(ds, w + 1) == m
      && ((w == 2 && ds[0] > 20) <==> m > 2_099_999_999)
  {
    var d := DigitsOf(m);
    var w := WeightOf(m);
    var ds := d[2 - w..];
    WeightOfBounds(m);
    assert Horner(ds, 1) == ds[0];
    if w >= 1 {
      assert Horner(ds, 2) == ds[0] * NBASE + ds[1];
    }
    if w == 2 {
      assert Horner(ds, 3) == (d[0] * NBASE + d[1]) * NBASE + d[2];
      assert ds[0] == m / (NBASE * NBASE);
    }
  }

  /** DecodeSmall of any numeric with a nonnegative weight of at most 2 and scale 0. */
  lemma DecodeShort(n: Numeric, neg: bool, w: nat, ds: seq<int>)
    requires WellFormed(n)
    requires Sign(n) == (if neg then NUMERIC_NEG else NUMERIC_POS)
    requires DScale(n) == 0 && Weight(n) == w && w <= 2
    requires Digits(n) == ds && |ds| == w + 1
    ensures LeadingDigitReadable(n)
    ensures DecodeSmall(n) == if w == 2 && ds[0] > 20 then None
      else Some(if neg then (UINT32 - Horner(ds, w + 1) % UINT32) % UINT32 else Horner(ds, w + 1) % UINT32)
  {
  }

  /** numeric_get_small on small_to_numeric's output, before the sign is resolved. */
  lemma DecodeOfSmall(v: nat)
    requires v < UINT32
    ensures var r := SmallToNumeric(v);
      var m := Magnitude(v);
      LeadingDigitReadable(r)
      && (DecodeSmall(r) == if m <= 2_099_999_999
          then Some(if v >= 0x8000_0000 then (UINT32 - m) % UINT32 else m) else None)
  {
    var m := Magnitude(v);
    var w := WeightOf(m);
    var ds := DigitsOf(m)[2 - w..];
    HornerOfDigits(m);
    DecodeShort(SmallToNumeric(v), v >= 0x8000_0000, w, ds);
    assert m % UINT32 == m;
  }

  /** Negating the magnitude modulo 2^32 restores a value whose int32 reading is negative. */
  lemma SignOfMagnitude(v: nat)
    requires v < UINT32
    ensures (if v >= 0x8000_0000 then (UINT32 - Magnitude(v)) % UINT32 else Magnitude(v)) == v
  {
    var m := Magnitude(v);
    if v >= 0x8000_0000 {
      assert UINT32 - m == v;
    }
  }

  /**
   * Round trip: numeric_get_small(small_to_numeric(v)) succeeds exactly when
   * |(int32) v| <= 2,099,999,999, and then yields v.
   */
  lemma RoundTrip(v: nat)
    requires v < UINT32
    ensures var r := SmallToNumeric(v);
      LeadingDigitReadable(r)
      && (DecodeSmall(r) == if Magnitude(v) <= 2_099_999_999 then Some(v) else None)
  {
    DecodeOfSmall(v);
    SignOfMagnitude(v);
  }

  /** INT_MIN encodes with leading digit 21 and does not decode. */
  lemma IntMinRejected()
    ensures DigitsOf(Magnitude(0x8000_0000))[0] == 21
    ensures DecodeSmall(SmallToNumeric(0x8000_0000)) == None
  {
    assert Magnitude(0x8000_0000) == 0x8000_0000;
    assert 0x8000_0000 / NBASE == 214748;
    assert 214748 / NBASE == 21;
    RoundTrip(0x8000_0000);
  }
}
