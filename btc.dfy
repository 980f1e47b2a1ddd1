/**
 * The fixed-point value converter: `satoshisToBTC` renders an integer amount of
 * satoshis as an exact decimal BTC string by string manipulation only (pad to
 * eight digits, insert a point eight places from the right, optionally strip
 * trailing zeros). `DecodeBTC` reads such a string back and is the partner
 * against which the rendering is proved exact.
 */
module Btc {
  import opened Wrappers

  /** Fractional digits of one bitcoin. */
  const Decimals: nat := 8

  /** Satoshis in one bitcoin, 10^Decimals. */
  const SatoshisPerBtc: nat := 100000000

  predicate IsDigit(c: char) {
    '0' <= c <= '9'
  }

  predicate AllDigits(s: string) {
    forall i :: 0 <= i < |s| ==> IsDigit(s[i])
  }

  function DigitValue(c: char): nat
    requires IsDigit(c)
  {
    c as int - '0' as int
  }

  function DigitChar(d: nat): char
    requires d < 10
  {
    (d + '0' as int) as char
  }

  /** A run of `n` zero characters. */
  function Zeros(n: nat): string {
    seq(n, _ => '0')
  }

  function Pow10(k: nat): nat {
    if k == 0 then 1 else 10 * Pow10(k - 1)
  }

  /**
   * `Number.prototype.toString()` of a non-negative integer: its decimal digits,
   * with no leading zero except for 0 itself.
   */
  function NatToString(n: nat): (s: string)
    ensures |s| > 0
  {
    if n < 10 then [DigitChar(n)] else NatToString(n / 10) + [DigitChar(n % 10)]
  }

  /** The decimal string of `n` is made of digits, with no leading zero except for 0 itself. */
  lemma {:induction false} NatToStringDigits(n: nat)
    ensures var s := NatToString(n);
      && AllDigits(s)
      && (s[0] == '0' ==> n == 0 && s == "0")
  {
    if n >= 10 {
      NatToStringDigits(n / 10);
      var s := NatToString(n);
      assert s[0] == NatToString(n / 10)[0];
    }
  }

  /** The number a string of decimal digits denotes (leading zeros allowed). */
  function DigitsValue(s: string): nat
    requires AllDigits(s)
  {
    if s == [] then 0 else DigitsValue(s[..|s| - 1]) * 10 + DigitValue(s[|s| - 1])
  }

  /** `s.padStart(width, fill)` with a one-character fill. */
  function PadStart(s: string, width: nat, fill: char): string {
    if |s| >= width then s else seq(width - |s|, _ => fill) + s
  }

  /** The length of `s[..n]` once the run of '0' at its end is removed. */
  function KeptLength(s: string, n: nat): (k: nat)
    requires n <= |s|
    ensures k <= n
    ensures k == 0 || s[k - 1] != '0'
  {
    if n > 0 && s[n - 1] == '0' then KeptLength(s, n - 1) else n
  }

  /**
   * `s.replace(/0+$/, '')`: the maximal run of '0' at the end of `s` is removed,
   * and nothing else.
   */
  function RemoveTrailingZeros(s: string): string {
    s[..KeptLength(s, |s|)]
  }

  /** What is removed is a run of zeros, and what is kept does not end in one. */
  lemma RemoveTrailingZerosSpec(s: string)
    ensures var r := RemoveTrailingZeros(s);
      && |r| <= |s| && s == r + Zeros(|s| - |r|)
      && (r == [] || r[|r| - 1] != '0')
  {
    var k := KeptLength(s, |s|);
    KeptLengthDropsZeros(s, |s|);
    assert s[k..|s|] == s[k..];
  }

  /** Only zeros lie between the kept length and `n`. */
  lemma {:induction false} KeptLengthDropsZeros(s: string, n: nat)
    requires n <= |s|
    ensures s[KeptLength(s, n)..n] == Zeros(n - KeptLength(s, n))
  {
    if n > 0 && s[n - 1] == '0' {
      var k := KeptLength(s, n - 1);
      KeptLengthDropsZeros(s, n - 1);
      assert s[k..n] == s[k..n - 1] + [s[n - 1]];
    }
  }

  /** `satoshisToBTC(satoshis, removeTrailingZeros)` of index.js. */
  function SatoshisToBTC(satoshis: nat, removeTrailingZeros: bool): string {
    var digits := NatToString(satoshis);
    var length := |digits|;
    var btc :=
      if length <= Decimals then "0." + PadStart(digits, Decimals, '0')
      else digits[..length - Decimals] + "." + digits[length - Decimals..];
    if removeTrailingZeros then RemoveTrailingZeros(btc) else btc
  }

  /** The first index of `c` in `s`, or `|s|` when there is none. */
  function IndexOf(s: string, c: char): (i: nat)
    ensures i <= |s|
    ensures i < |s| ==> s[i] == c
    ensures forall j :: 0 <= j < i ==> s[j] != c
  {
    if s == [] then 0 else if s[0] == c then 0 else 1 + IndexOf(s[1..], c)
  }

  /**
   * Reads a rendering "<digits>.<at most eight digits>" back as a number of
   * satoshis; anything else is `None`.
   */
  function DecodeBTC(r: string): Option<nat> {
    var p := IndexOf(r, '.');
    if p == |r| then None
    else
      var whole, frac := r[..p], r[p + 1..];
      if whole == [] || !AllDigits(whole) || !AllDigits(frac) || |frac| > Decimals then None
      else Some(FixedPointValue(whole, frac))
  }

  /** The satoshis denoted by whole part `whole` and fraction digits `frac`. */
  function FixedPointValue(whole: string, frac: string): nat
    requires AllDigits(whole) && AllDigits(frac) && |frac| <= Decimals
  {
    DigitsValue(whole) * SatoshisPerBtc + DigitsValue(frac) * Pow10(Decimals - |frac|)
  }

  /** `s` with every occurrence of `c` deleted. */
  function Without(s: string, c: char): string {
    if s == [] then [] else Without(s[..|s| - 1], c) + (if s[|s| - 1] == c then [] else [s[|s| - 1]])
  }

  /** `s` with its leading run of '0' deleted. */
  function StripLeadingZeros(s: string): string {
    if s != [] && s[0] == '0' then StripLeadingZeros(s[1..]) else s
  }

  // ---------------------------------------------------------------------------
  // Digit strings
  // ---------------------------------------------------------------------------

  /** The decimal string of `n` reads back as `n`. */
  lemma {:induction false} NatToStringRoundTrip(n: nat)
    ensures AllDigits(NatToString(n)) && DigitsValue(NatToString(n)) == n
  {
    NatToStringDigits(n);
    if n >= 10 {
      var s := NatToString(n);
      assert s[..|s| - 1] == NatToString(n / 10);
      NatToStringRoundTrip(n / 10);
    }
  }

  /** Conversely, a digit string without a superfluous leading zero is the decimal string of its value. */
  lemma {:induction false} NatToStringOfDigits(s: string)
    requires |s| > 0 && AllDigits(s) && (s[0] == '0' ==> s == "0")
    ensures NatToString(DigitsValue(s)) == s
  {
    var p := s[..|s| - 1];
    var d := DigitValue(s[|s| - 1]);
    assert DigitChar(d) == s[|s| - 1];
    if |s| > 1 {
      assert p[0] == s[0];
      NatToStringOfDigits(p);
      assert DigitsValue(p) != 0;
      assert DigitsValue(s) / 10 == DigitsValue(p) && DigitsValue(s) % 10 == d;
      assert s == p + [s[|s| - 1]];
    } else {
      assert s == [s[0]];
    }
  }

  lemma {:induction false} DigitsValueAppend(a: string, b: string)
    requires AllDigits(a) && AllDigits(b)
    ensures AllDigits(a + b)
    ensures DigitsValue(a + b) == DigitsValue(a) * Pow10(|b|) + DigitsValue(b)
  {
    if b == [] {
      assert a + b == a;
    } else {
      var b' := b[..|b| - 1];
      var last := DigitValue(b[|b| - 1]);
      assert (a + b)[..|a + b| - 1] == a + b';
      assert AllDigits(a + b) by {
        assert forall i :: 0 <= i < |a + b| ==> (a + b)[i] == if i < |a| then a[i] else b[i - |a|];
      }
      DigitsValueAppend(a, b');
      assert DigitsValue(a + b) == DigitsValue(a + b') * 10 + last;
      assert DigitsValue(b) == DigitsValue(b') * 10 + last;
      ShiftDigit(DigitsValue(a), Pow10(|b'|), DigitsValue(b'), last);
    }
  }

  /** Appending one digit to both sides of x * p + y. */
  lemma ShiftDigit(x: nat, p: nat, y: nat, d: nat)
    ensures (x * p + y) * 10 + d == x * (p * 10) + (y * 10 + d)
  {
  }

  lemma {:induction false} ZerosValue(n: nat)
    ensures AllDigits(Zeros(n)) && DigitsValue(Zeros(n)) == 0
  {
    if n > 0 {
      assert Zeros(n)[..n - 1] == Zeros(n - 1);
      ZerosValue(n - 1);
    }
  }

  /** Leading zeros do not change the value of a digit string. */
  lemma LeadingZerosValue(n: nat, s: string)
    requires AllDigits(s)
    ensures AllDigits(Zeros(n) + s) && DigitsValue(Zeros(n) + s) == DigitsValue(s)
  {
    ZerosValue(n);
    DigitsValueAppend(Zeros(n), s);
  }

  /** Trailing zeros multiply the value of a digit string by a power of ten. */
  lemma TrailingZerosValue(s: string, n: nat)
    requires AllDigits(s)
    ensures AllDigits(s + Zeros(n)) && DigitsValue(s + Zeros(n)) == DigitsValue(s) * Pow10(n)
  {
    ZerosValue(n);
    DigitsValueAppend(s, Zeros(n));
  }

  lemma {:induction false} DigitsValueBound(s: string)
    requires AllDigits(s)
    ensures DigitsValue(s) < Pow10(|s|)
  {
    if s != [] {
      DigitsValueBound(s[..|s| - 1]);
    }
  }

  lemma Pow10Decimals()
    ensures Pow10(Decimals) == SatoshisPerBtc
  {
  }

  // ---------------------------------------------------------------------------
  // Structure of the rendering
  // ---------------------------------------------------------------------------

  /**
   * The unstripped rendering splits into a whole part, the point and exactly
   * eight fraction digits; whole part and fraction together are the decimal
   * string of the amount behind `pad` zeros.
   */
  lemma Layout(satoshis: nat) returns (whole: string, frac: string, pad: nat)
    ensures SatoshisToBTC(satoshis, false) == whole + "." + frac
    ensures |whole| > 0 && AllDigits(whole) && (whole[0] == '0' ==> whole == "0")
    ensures |frac| == Decimals && AllDigits(frac)
    ensures whole + frac == Zeros(pad) + NatToString(satoshis)
    ensures DigitsValue(whole) * SatoshisPerBtc + DigitsValue(frac) == satoshis
  {
    var digits := NatToString(satoshis);
    NatToStringDigits(satoshis);
    if |digits| <= Decimals {
      whole, frac, pad := ShortLayout(satoshis);
    } else {
      whole, frac, pad := LongLayout(satoshis);
    }
    LayoutValue(whole, frac, pad, digits);
    NatToStringRoundTrip(satoshis);
  }

  lemma ShortLayout(satoshis: nat) returns (whole: string, frac: string, pad: nat)
    requires |NatToString(satoshis)| <= Decimals
    ensures SatoshisToBTC(satoshis, false) == whole + "." + frac
    ensures whole == "0" && |frac| == Decimals && AllDigits(frac)
    ensures whole + frac == Zeros(pad) + NatToString(satoshis)
  {
    var digits := NatToString(satoshis);
    NatToStringDigits(satoshis);
    assert SatoshisToBTC(satoshis, false) == "0." + PadStart(digits, Decimals, '0');
    whole, frac, pad := ShortSplit(digits);
  }

  /** The split of "0." followed by a short digit string padded to eight digits. */
  lemma ShortSplit(digits: string) returns (whole: string, frac: string, pad: nat)
    requires AllDigits(digits) && |digits| <= Decimals
    ensures "0." + PadStart(digits, Decimals, '0') == whole + "." + frac
    ensures whole == "0" && |frac| == Decimals && AllDigits(frac)
    ensures whole + frac == Zeros(pad) + digits
  {
    whole, frac, pad := "0", PadStart(digits, Decimals, '0'), Decimals + 1 - |digits|;
    PadStartZeros(digits, Decimals);
    ZerosSplit(1, Decimals - |digits|);
    assert Zeros(1) == whole;
    assert whole + frac == Zeros(pad) + digits;
  }

  lemma ZerosSplit(a: nat, b: nat)
    ensures Zeros(a + b) == Zeros(a) + Zeros(b)
  {
  }

  /** Padding a digit string with '0' keeps it a digit string. */
  lemma PadStartZeros(digits: string, width: nat)
    requires AllDigits(digits) && |digits| <= width
    ensures var p := PadStart(digits, width, '0');
      && p == Zeros(width - |digits|) + digits
      && AllDigits(p)
  {
    var p := PadStart(digits, width, '0');
    assert p == Zeros(width - |digits|) + digits;
    forall i | 0 <= i < |p|
      ensures IsDigit(p[i])
    {
      if i >= width - |digits| {
        assert p[i] == digits[i - (width - |digits|)];
      }
    }
  }

  lemma LongLayout(satoshis: nat) returns (whole: string, frac: string, pad: nat)
    requires |NatToString(satoshis)| > Decimals
    ensures SatoshisToBTC(satoshis, false) == whole + "." + frac
    ensures |whole| > 0 && AllDigits(whole) && whole[0] != '0'
    ensures |frac| == Decimals && AllDigits(frac)
    ensures whole + frac == Zeros(pad) + NatToString(satoshis)
  {
    var digits := NatToString(satoshis);
    NatToStringDigits(satoshis);
    var length := |digits|;
    whole, frac, pad := digits[..length - Decimals], digits[length - Decimals..], 0;
    assert whole[0] == digits[0];
    assert whole + frac == digits;
    assert Zeros(pad) + digits == digits;
  }

  lemma LayoutValue(whole: string, frac: string, pad: nat, digits: string)
    requires AllDigits(whole) && AllDigits(frac) && AllDigits(digits) && |frac| == Decimals
    requires whole + frac == Zeros(pad) + digits
    ensures DigitsValue(whole) * SatoshisPerBtc + DigitsValue(frac) == DigitsValue(digits)
  {
    DigitsValueAppend(whole, frac);
    LeadingZerosValue(pad, digits);
    Pow10Decimals();
  }

  /**
   * The unstripped rendering has a single point with exactly eight digits after
   * it. An amount of at most eight digits renders as "0." and its digits padded
   * to eight; a longer one keeps all but its last eight digits before the point.
   */
  lemma UnstrippedShape(satoshis: nat)
    ensures var r, digits := SatoshisToBTC(satoshis, false), NatToString(satoshis);
      && |r| >= Decimals + 2
      && r[|r| - Decimals - 1] == '.'
      && (forall i :: 0 <= i < |r| && i != |r| - Decimals - 1 ==> IsDigit(r[i]))
      && (|digits| <= Decimals ==> r == "0." + Zeros(Decimals - |digits|) + digits)
      && (|digits| > Decimals ==>
            r[..|r| - Decimals - 1] == digits[..|digits| - Decimals]
            && r[|r| - Decimals..] == digits[|digits| - Decimals..])
  {
    var whole, frac, pad := Layout(satoshis);
    var r := SatoshisToBTC(satoshis, false);
    assert r[|r| - Decimals - 1] == '.';
    forall i | 0 <= i < |r| && i != |r| - Decimals - 1
      ensures IsDigit(r[i])
    {
      if i < |whole| {
        assert r[i] == whole[i];
      } else {
        assert r[i] == frac[i - |whole| - 1];
      }
    }
  }

  lemma {:induction false} WithoutAppend(a: string, b: string, c: char)
    ensures Without(a + b, c) == Without(a, c) + Without(b, c)
  {
    if b == [] {
      assert a + b == a;
    } else {
      assert (a + b)[..|a + b| - 1] == a + b[..|b| - 1];
      WithoutAppend(a, b[..|b| - 1], c);
    }
  }

  lemma {:induction false} WithoutDigits(s: string)
    requires AllDigits(s)
    ensures Without(s, '.') == s
  {
    if s != [] {
      WithoutDigits(s[..|s| - 1]);
      assert s == s[..|s| - 1] + [s[|s| - 1]];
    }
  }

  lemma {:induction false} StripLeadingZerosAfterZeros(n: nat, s: string)
    ensures StripLeadingZeros(Zeros(n) + s) == StripLeadingZeros(s)
  {
    if n == 0 {
      assert Zeros(n) + s == s;
    } else {
      assert (Zeros(n) + s)[0] == '0';
      assert (Zeros(n) + s)[1..] == Zeros(n - 1) + s;
      StripLeadingZerosAfterZeros(n - 1, s);
    }
  }

  /**
   * Exactness without division: deleting the point and the leading zeros of the
   * unstripped rendering gives back the decimal string of the amount (the empty
   * string for 0), and the remaining digits denote the amount.
   */
  lemma UnstrippedRoundTrip(satoshis: nat)
    ensures var digitsOnly := Without(SatoshisToBTC(satoshis, false), '.');
      && AllDigits(digitsOnly)
      && DigitsValue(digitsOnly) == satoshis
      && StripLeadingZeros(digitsOnly) == if satoshis == 0 then "" else NatToString(satoshis)
  {
    var whole, frac, pad := Layout(satoshis);
    var digits := NatToString(satoshis);
    NatToStringDigits(satoshis);
    WithoutPoint(whole, frac);
    LeadingZerosValue(pad, digits);
    NatToStringRoundTrip(satoshis);
    StripLeadingZerosAfterZeros(pad, digits);
    if satoshis == 0 {
      StripZero();
    }
  }

  /** Deleting the point from "<whole>.<frac>" leaves the two digit strings joined. */
  lemma WithoutPoint(whole: string, frac: string)
    requires AllDigits(whole) && AllDigits(frac)
    ensures Without(whole + "." + frac, '.') == whole + frac
  {
    WithoutAppend(whole + ".", frac, '.');
    WithoutAppend(whole, ".", '.');
    assert Without(".", '.') == [] by {
      assert "."[..0] == [];
    }
    WithoutDigits(whole);
    WithoutDigits(frac);
  }

  lemma StripZero()
    ensures StripLeadingZeros("0") == ""
  {
    assert "0"[1..] == [];
  }

  /**
   * The stripped string is the only split of `s` into a part that does not end
   * in '0' followed by zeros.
   */
  lemma RemoveTrailingZerosUnique(s: string, r: string, n: nat)
    requires s == r + Zeros(n) && (r == [] || r[|r| - 1] != '0')
    ensures RemoveTrailingZeros(s) == r
  {
    var t := RemoveTrailingZeros(s);
    RemoveTrailingZerosSpec(s);
    assert forall j :: |r| <= j < |s| ==> s[j] == '0';
    assert forall j :: |t| <= j < |s| ==> s[j] == '0';
    assert t == s[..|t|] && r == s[..|r|];
  }

  /** Stripping stops at the last character that is not '0'. */
  lemma RemoveTrailingZerosStopsAt(a: string, c: char, b: string)
    requires c != '0'
    ensures RemoveTrailingZeros(a + [c] + b) == a + [c] + RemoveTrailingZeros(b)
  {
    var rb := RemoveTrailingZeros(b);
    RemoveTrailingZerosSpec(b);
    var r := a + [c] + rb;
    assert a + [c] + b == r + Zeros(|b| - |rb|);
    assert r[|r| - 1] == if rb == [] then c else rb[|rb| - 1];
    RemoveTrailingZerosUnique(a + [c] + b, r, |b| - |rb|);
  }

  /** A run of zeros after a non-zero character is removed entirely. */
  lemma RemoveTrailingZerosAfter(a: string, c: char, n: nat)
    requires c != '0'
    ensures RemoveTrailingZeros(a + [c] + Zeros(n)) == a + [c]
  {
    RemoveTrailingZerosUnique(a + [c] + Zeros(n), a + [c], n);
  }

  lemma {:induction false} PositiveLastDigit(s: string)
    requires AllDigits(s) && s != [] && s[|s| - 1] != '0'
    ensures DigitsValue(s) > 0
  {
  }

  /** The stripped rendering is the unstripped one with the fraction's trailing zeros removed. */
  lemma StrippedLayout(satoshis: nat) returns (whole: string, frac: string, f: string)
    ensures SatoshisToBTC(satoshis, false) == whole + "." + frac
    ensures SatoshisToBTC(satoshis, true) == whole + "." + f
    ensures |whole| > 0 && AllDigits(whole) && (whole[0] == '0' ==> whole == "0")
    ensures |frac| == Decimals && AllDigits(frac)
    ensures DigitsValue(whole) * SatoshisPerBtc + DigitsValue(frac) == satoshis
    ensures f == RemoveTrailingZeros(frac) && AllDigits(f)
  {
    var pad;
    whole, frac, pad := Layout(satoshis);
    f := RemoveTrailingZeros(frac);
    RemoveTrailingZerosSpec(frac);
    assert SatoshisToBTC(satoshis, true) == RemoveTrailingZeros(SatoshisToBTC(satoshis, false));
    RemoveTrailingZerosStopsAt(whole, '.', frac);
    assert whole + "." + frac == whole + ['.'] + frac;
    assert AllDigits(f) by {
      forall i | 0 <= i < |f| ensures IsDigit(f[i]) {
        assert f[i] == frac[i];
      }
    }
  }

  /**
   * The stripped rendering is the unstripped one minus its maximal trailing
   * run of '0': only zeros go, and what is left does not end in '0'.
   */
  lemma StrippedIsUnstrippedWithoutZeros(satoshis: nat)
    ensures var r, t := SatoshisToBTC(satoshis, false), SatoshisToBTC(satoshis, true);
      && |t| <= |r|
      && r == t + Zeros(|r| - |t|)
      && |t| > 0 && t[|t| - 1] != '0'
  {
    var r := SatoshisToBTC(satoshis, false);
    RemoveTrailingZerosSpec(r);
    assert SatoshisToBTC(satoshis, true) == RemoveTrailingZeros(r);
    StrippedShape(satoshis);
  }

  /**
   * The stripped rendering keeps the point and every digit before it; only
   * zeros of the fraction go. It ends in the point exactly when the amount is a
   * whole number of bitcoins, so 0 renders as "0." and 100000000 as "1.".
   */
  lemma StrippedShape(satoshis: nat)
    ensures var r, t := SatoshisToBTC(satoshis, false), SatoshisToBTC(satoshis, true);
      && |r| - Decimals <= |t| <= |r|
      && t[|r| - Decimals - 1] == '.'
      && t[..|r| - Decimals - 1] == r[..|r| - Decimals - 1]
      && (t[|t| - 1] == '.' <==> satoshis % SatoshisPerBtc == 0)
      && (satoshis == 0 ==> t == "0.")
  {
    var whole, frac, f := StrippedLayout(satoshis);
    var r, t := whole + "." + frac, whole + "." + f;
    assert t[|r| - Decimals - 1] == '.';
    assert t[..|r| - Decimals - 1] == whole == r[..|r| - Decimals - 1];
    DigitsValueBound(frac);
    Pow10Decimals();
    FractionIsRemainder(DigitsValue(whole), DigitsValue(frac), satoshis);
    assert satoshis % SatoshisPerBtc == DigitsValue(frac);
    FractionZeroIffEmpty(frac);
    if satoshis == 0 {
      assert whole == "0";
    }
  }

  /**
   * A whole number `k` of bitcoins renders as the digits of `k`, the point and
   * eight zeros; stripped, the point stays and nothing follows it.
   */
  lemma WholeBitcoins(k: nat)
    ensures SatoshisToBTC(k * SatoshisPerBtc, false) == NatToString(k) + "." + Zeros(Decimals)
    ensures SatoshisToBTC(k * SatoshisPerBtc, true) == NatToString(k) + "."
  {
    var whole, frac, f := StrippedLayout(k * SatoshisPerBtc);
    DigitsValueBound(frac);
    Pow10Decimals();
    WholeMultiple(DigitsValue(whole), DigitsValue(frac), k);
    FractionZeroIffEmpty(frac);
    RemoveTrailingZerosSpec(frac);
    assert frac == Zeros(Decimals);
    NatToStringOfDigits(whole);
  }

  /** A multiple of one bitcoin has no fractional part. */
  lemma WholeMultiple(w: nat, fv: nat, k: nat)
    requires fv < SatoshisPerBtc && w * SatoshisPerBtc + fv == k * SatoshisPerBtc
    ensures fv == 0 && w == k
  {
  }

  lemma FractionIsRemainder(w: nat, fv: nat, satoshis: nat)
    requires fv < SatoshisPerBtc && w * SatoshisPerBtc + fv == satoshis
    ensures satoshis % SatoshisPerBtc == fv
  {
  }

  /** A digit string is all zeros exactly when stripping its trailing zeros empties it. */
  lemma FractionZeroIffEmpty(frac: string)
    requires AllDigits(frac)
    ensures RemoveTrailingZeros(frac) == [] <==> DigitsValue(frac) == 0
  {
    var f := RemoveTrailingZeros(frac);
    RemoveTrailingZerosSpec(frac);
    var m := |frac| - |f|;
    assert AllDigits(f) by {
      forall i | 0 <= i < |f| ensures IsDigit(f[i]) {
        assert f[i] == frac[i];
      }
    }
    TrailingZerosValue(f, m);
    assert DigitsValue(frac) == DigitsValue(f) * Pow10(m);
    if f == [] {
      assert DigitsValue(f) == 0;
    } else {
      PositiveLastDigit(f);
      Pow10Positive(m);
      PositiveProduct(DigitsValue(f), Pow10(m));
    }
  }

  lemma PositiveProduct(a: nat, b: nat)
    requires a > 0 && b > 0
    ensures a * b > 0
  {
  }

  lemma {:induction false} Pow10Positive(k: nat)
    ensures Pow10(k) > 0
  {
    if k > 0 {
      Pow10Positive(k - 1);
    }
  }

  // ---------------------------------------------------------------------------
  // Decoding: the rendering is exact
  // ---------------------------------------------------------------------------

  lemma IndexOfAfterDigits(whole: string, tail: string)
    requires AllDigits(whole)
    ensures IndexOf(whole + "." + tail, '.') == |whole|
  {
    var s := whole + "." + tail;
    var i := IndexOf(s, '.');
    assert s[|whole|] == '.';
    assert forall j :: 0 <= j < |whole| ==> s[j] == whole[j];
  }

  /** Both renderings, stripped or not, decode to exactly the amount rendered. */
  lemma DecodeRoundTrip(satoshis: nat, removeTrailingZeros: bool)
    ensures DecodeBTC(SatoshisToBTC(satoshis, removeTrailingZeros)) == Some(satoshis)
  {
    var whole, frac, stripped := StrippedLayout(satoshis);
    var f := if removeTrailingZeros then stripped else frac;
    RemoveTrailingZerosSpec(frac);
    assert f + Zeros(Decimals - |f|) == frac;
    TrailingZerosValue(f, Decimals - |f|);
    assert FixedPointValue(whole, f) == satoshis;
    DecodeParts(whole, f);
  }

  /** Decoding "<whole>.<f>" reads the whole part and the fraction as if padded on the right to eight digits. */
  lemma DecodeParts(whole: string, f: string)
    requires |whole| > 0 && AllDigits(whole) && AllDigits(f) && |f| <= Decimals
    ensures DecodeBTC(whole + "." + f) == Some(FixedPointValue(whole, f))
  {
    var t := whole + "." + f;
    IndexOfAfterDigits(whole, f);
    var p := IndexOf(t, '.');
    assert p == |whole| < |t|;
    assert t[..p] == whole;
    assert t[p + 1..] == f;
  }

  /** Distinct amounts never share a rendering. */
  lemma RenderInjective(a: nat, b: nat, removeTrailingZeros: bool)
    requires SatoshisToBTC(a, removeTrailingZeros) == SatoshisToBTC(b, removeTrailingZeros)
    ensures a == b
  {
    DecodeRoundTrip(a, removeTrailingZeros);
    DecodeRoundTrip(b, removeTrailingZeros);
  }
}
