// atoi undoes %d, and exactly when it does for a field with width and flags.
module NumberRoundTrip {
  import opened NumberText

  ghost predicate AllDigits(s: string) {
    forall i :: 0 <= i < |s| ==> IsDigit(s[i])
  }

  lemma {:induction false} DigitsAreDigits(n: nat)
    ensures AllDigits(Digits(n, 10))
  {
    if n >= 10 { DigitsAreDigits(n / 10); }
  }

  lemma {:induction false} AccumulateAppend(a: string, b: string, v: nat)
    requires AllDigits(a)
    ensures Accumulate(a + b, v) == Accumulate(b, Accumulate(a, v))
  {
    if a == "" {
      assert a + b == b;
    } else {
      assert (a + b)[1..] == a[1..] + b;
      AccumulateAppend(a[1..], b, (v * 10 + DigitValue(a[0])) % 0x1_0000_0000);
    }
  }

  lemma DigitReads(d: nat)
    requires d < 10
    ensures IsDigit(DigitChar(d)) && DigitValue(DigitChar(d)) == d
  {
  }

  lemma OneCharacter(c: char, v: nat)
    requires IsDigit(c)
    ensures Accumulate([c], v) == (v * 10 + DigitValue(c)) % 0x1_0000_0000
  {
    assert [c][1..] == "";
  }

  lemma Recompose(n: nat)
    requires n < 0x1_0000_0000
    ensures (n / 10 * 10 + n % 10) % 0x1_0000_0000 == n
  {
  }

  // Reading the digits of n gives n.
  lemma {:induction false} AccumulateDigits(n: nat)
    requires n < 0x1_0000_0000
    ensures Accumulate(Digits(n, 10), 0) == n
  {
    hide DigitChar, DigitValue, IsDigit, Accumulate;
    LastDigit(n, 10);
    DigitReads(n % 10);
    Recompose(n);
    var d := DigitChar(n % 10);
    OneCharacter(d, n / 10);
    if n >= 10 {
      DigitsAreDigits(n / 10);
      AccumulateAppend(Digits(n / 10, 10), [d], 0);
      AccumulateDigits(n / 10);
    }
  }

  // k more zeros at the end of a number read as v.
  function Times10(v: nat, k: nat): nat
    decreases k
  {
    if k == 0 then v else Times10(v * 10 % 0x1_0000_0000, k - 1)
  }

  lemma {:induction false} AccumulateZeros(k: nat, v: nat)
    ensures Accumulate(Fill('0', k), v) == Times10(v, k)
  {
    if k > 0 {
      assert Fill('0', k)[1..] == Fill('0', k - 1);
      AccumulateZeros(k - 1, v * 10 % 0x1_0000_0000);
    }
  }

  lemma {:induction false} ZeroStays(k: nat)
    ensures Times10(0, k) == 0
  {
    if k > 0 { ZeroStays(k - 1); }
  }

  lemma {:induction false} BlanksSkipped(k: nat, s: string)
    requires s != "" && !Blank(s[0])
    ensures SkipBlanks(Fill(' ', k) + s) == s
  {
    if k == 0 {
      assert Fill(' ', k) + s == s;
    } else {
      assert (Fill(' ', k) + s)[1..] == Fill(' ', k - 1) + s;
      BlanksSkipped(k - 1, s);
    }
  }

  lemma AccumulateStops(k: nat, v: nat)
    ensures Accumulate(Fill(' ', k), v) == v
  {
  }

  // The word atoi reads from digits followed by k fill characters.
  lemma ReadPadded(n: nat, k: nat, c: char)
    requires n < 0x1_0000_0000 && (c == ' ' || c == '0')
    ensures Accumulate(Digits(n, 10) + Fill(c, k), 0) == if c == '0' then Times10(n, k) else n
  {
    DigitsAreDigits(n);
    AccumulateAppend(Digits(n, 10), Fill(c, k), 0);
    AccumulateDigits(n);
    if c == '0' { AccumulateZeros(k, n); } else { AccumulateStops(k, n); }
  }

  // The word atoi reads from k zeros followed by digits.
  lemma ReadZeroed(n: nat, k: nat)
    requires n < 0x1_0000_0000
    ensures Accumulate(Fill('0', k) + Digits(n, 10), 0) == n
  {
    AccumulateAppend(Fill('0', k), Digits(n, 10), 0);
    AccumulateZeros(k, 0);
    ZeroStays(k);
    AccumulateDigits(n);
  }

  // The word a field of %d reads back as.
  function ReadBack(v: int, f: Field): nat
    requires IsInt(v)
  {
    var n, k := GetNum(v).1, Padding(f, (if v < 0 then 1 else 0) + |Digits(GetNum(v).1, 10)|);
    if f.rightspc && f.fillchar == '0' then Times10(n, k) else n
  }

  lemma FirstDigit(n: nat)
    ensures IsDigit(Digits(n, 10)[0])
  {
    DigitsAreDigits(n);
  }

  // Without padding on the left, the sign is first.
  lemma ValueSigned(neg: bool, body: string)
    requires body != "" && IsDigit(body[0])
    ensures Value((if neg then "-" else "") + body) == ToInt(if neg then Negate(Accumulate(body, 0)) else Accumulate(body, 0))
  {
    var t := (if neg then "-" else "") + body;
    assert SkipBlanks(t) == t;
    if neg { assert t[1..] == body; } else { assert t == body; }
  }

  lemma ValueBlanks(k: nat, neg: bool, body: string)
    requires body != "" && IsDigit(body[0])
    ensures Value(Fill(' ', k) + (if neg then "-" else "") + body) == Value((if neg then "-" else "") + body)
  {
    var t := (if neg then "-" else "") + body;
    assert Fill(' ', k) + (if neg then "-" else "") + body == Fill(' ', k) + t;
    BlanksSkipped(k, t);
    BlanksSkipped(0, t);
    assert Fill(' ', 0) + t == t;
  }

  lemma ValueOfText(v: int, f: Field)
    requires IsInt(v) && (f.fillchar == ' ' || f.fillchar == '0')
    ensures Value(TextOf(v, f)) == ToInt(if v < 0 then Negate(ReadBack(v, f)) else ReadBack(v, f))
  {
    var neg, n := GetNum(v).0, GetNum(v).1;
    var sign, d := if neg then "-" else "", Digits(n, 10);
    var k := Padding(f, |sign| + |d|);
    FirstDigit(n);
    if f.rightspc {
      ReadPadded(n, k, f.fillchar);
      assert sign + d + Fill(f.fillchar, k) == sign + (d + Fill(f.fillchar, k));
      ValueSigned(neg, d + Fill(f.fillchar, k));
    } else if f.fillchar == '0' {
      ReadZeroed(n, k);
      assert sign + Fill('0', k) + d == sign + (Fill('0', k) + d);
      ValueSigned(neg, Fill('0', k) + d);
    } else {
      AccumulateDigits(n);
      ValueBlanks(k, neg, d);
      ValueSigned(neg, d);
    }
  }

  // ---- Zeros on the right ----

  // 2 to the j.
  function Pow2(j: nat): (p: nat)
    ensures p > 0
  {
    if j == 0 then 1 else 2 * Pow2(j - 1)
  }

  // The lowest bit set in v.
  lemma {:induction false} LowBit(v: nat, n: nat) returns (j: nat, q: nat)
    requires 0 < v < Pow2(n)
    ensures j < n && v == (2 * q + 1) * Pow2(j)
    decreases v
  {
    if v % 2 == 1 {
      j, q := 0, v / 2;
      assert n > 0;
    } else {
      var h := v / 2;
      j, q := LowBit(h, n - 1);
      j := j + 1;
      Doubled(2 * q + 1, Pow2(j - 1));
    }
  }

  lemma Doubled(a: nat, b: nat)
    ensures 2 * (a * b) == a * (2 * b) == 2 * a * b
  {
  }

  lemma {:induction false} PowerDivides(j: nat, n: nat) returns (q: nat)
    requires j <= n
    ensures Pow2(n) == q * Pow2(j)
  {
    if j == n {
      q := 1;
    } else {
      var p := PowerDivides(j, n - 1);
      q := 2 * p;
      Doubled(p, Pow2(j));
    }
  }

  lemma WordIsPower()
    ensures Pow2(32) == 0x1_0000_0000
  {
    assert Pow2(8) == 256;
    assert Pow2(16) == 65536;
    assert Pow2(24) == 0x100_0000;
  }

  // Times ten adds a factor of two, whatever overflows.
  lemma TenfoldMultiple(w: nat, a: int, d: nat, c: nat) returns (r: int)
    requires w == a * d && 0x1_0000_0000 == c * (2 * d)
    ensures w * 10 % 0x1_0000_0000 == r * (2 * d)
  {
    var t := w * 10 / 0x1_0000_0000;
    r := 5 * a - c * t;
    assert w * 10 == 0x1_0000_0000 * t + w * 10 % 0x1_0000_0000;
    Distribute(a, c, t, d);
  }

  lemma Distribute(a: int, c: int, t: int, d: int)
    ensures (5 * a - c * t) * (2 * d) == 10 * (a * d) - c * (2 * d) * t
  {
  }

  // Every number of zeros on the right leaves a multiple of twice the lowest bit.
  lemma {:induction false} ZerosMultiple(v: nat, a: int, d: nat, c: nat, k: nat) returns (r: int)
    requires v == a * d && 0x1_0000_0000 == c * (2 * d) && k > 0
    ensures Times10(v, k) == r * (2 * d)
    decreases k
  {
    var w := v * 10 % 0x1_0000_0000;
    r := TenfoldMultiple(v, a, d, c);
    if k > 1 {
      Doubled2(r, d);
      r := ZerosMultiple(w, 2 * r, d, c, k - 1);
    }
  }

  lemma Doubled2(r: int, d: int)
    ensures r * (2 * d) == 2 * r * d
  {
  }

  lemma OddTimes(q: int, r: int, d: int)
    requires d > 0
    ensures (2 * q + 1) * d != r * (2 * d)
  {
    if (2 * q + 1) * d == r * (2 * d) { Cancel(2 * q + 1, 2 * r, d); }
  }

  lemma Cancel(a: int, b: int, d: int)
    requires d > 0 && a * d == b * d
    ensures a == b
  {
  }

  // Zeros on the right change every number but 0.
  lemma ZerosChange(v: nat, k: nat)
    requires v < 0x1_0000_0000
    ensures Times10(v, k) == v <==> v == 0 || k == 0
  {
    if v == 0 {
      ZeroStays(k);
    } else if k > 0 {
      WordIsPower();
      var j, q := LowBit(v, 32);
      var c := PowerDivides(j + 1, 32);
      var r := ZerosMultiple(v, 2 * q + 1, Pow2(j), c, k);
      OddTimes(q, r, Pow2(j));
    }
  }

  lemma {:induction false} TimesWord(v: nat, k: nat)
    requires v < 0x1_0000_0000
    ensures Times10(v, k) < 0x1_0000_0000
    decreases k
  {
    if k > 0 { TimesWord(v * 10 % 0x1_0000_0000, k - 1); }
  }

  lemma SignedWord(v: int, u: nat)
    requires IsInt(v) && u < 0x1_0000_0000
    ensures ToInt(if v < 0 then Negate(u) else u) == v <==> u == GetNum(v).1
  {
    if v < 0 { assert (-v) % 0x1_0000_0000 == -v; }
    if u > 0 { assert Negate(u) == 0x1_0000_0000 - u; }
  }

  // atoi of the text of %d gives the value back exactly unless zeros were padded on the
  // right of a number other than 0.
  lemma RoundTrip(v: int, f: Field)
    requires IsInt(v) && (f.fillchar == ' ' || f.fillchar == '0')
    ensures Value(TextOf(v, f)) == v <==>
            v == 0 || !f.rightspc || f.fillchar != '0' || f.spacing <= |Digits(GetNum(v).1, 10)| + if v < 0 then 1 else 0
  {
    hide Value, TextOf, Times10, Digits, ToInt, Negate;
    var n := GetNum(v).1;
    var k := Padding(f, (if v < 0 then 1 else 0) + |Digits(n, 10)|);
    ValueOfText(v, f);
    TimesWord(n, k);
    SignedWord(v, ReadBack(v, f));
    ZerosChange(n, k);
    assert n == 0 <==> v == 0;
  }

  // In particular for plain %d, the minimum included.
  lemma PlainRoundTrip(v: int)
    requires IsInt(v)
    ensures Value(TextOf(v, Field(0, false, ' '))) == v
  {
    hide Value, TextOf, Digits;
    RoundTrip(v, Field(0, false, ' '));
  }

  // Left-aligned with zero fill, 7 in a field of three reads back as 700.
  lemma ZeroPadded()
    ensures TextOf(7, Field(3, true, '0')) == "700" && Value("700") == 700
  {
    assert Digits(7, 10) == "7";
    assert "7" + Fill('0', 2) == "700";
    assert "700"[1..] == "00" && "00"[1..] == "0" && "0"[1..] == "";
    assert Accumulate("0", 70) == 700;
    assert Accumulate("00", 7) == 700;
  }

  // ---- What atoi reads from any string ----

  // The number decimal digits stand for.
  function Decimal(d: string): nat {
    if d == "" then 0 else Decimal(d[..|d| - 1]) * 10 + DigitValue(d[|d| - 1])
  }

  lemma WrapDigit(x: nat, c: nat)
    ensures (x % 0x1_0000_0000 * 10 + c) % 0x1_0000_0000 == (x * 10 + c) % 0x1_0000_0000
  {
  }

  // In unsigned arithmetic: the number modulo 2 to the 32, whatever its length.
  lemma {:induction false} AccumulateDecimal(d: string, rest: string)
    requires AllDigits(d) && (rest == "" || !IsDigit(rest[0]))
    ensures Accumulate(d + rest, 0) == Decimal(d) % 0x1_0000_0000
  {
    hide DigitValue, IsDigit;
    if d == "" {
      assert d + rest == rest;
    } else {
      var e, c := d[..|d| - 1], d[|d| - 1];
      assert d == e + [c] && d + rest == e + ([c] + rest);
      AccumulateDecimal(e, [] + "");
      assert e + "" == e;
      AccumulateAppend(e, [c] + rest, 0);
      assert ([c] + rest)[1..] == rest;
      WrapDigit(Decimal(e), DigitValue(c));
    }
  }

  ghost predicate AllBlank(b: string) {
    forall i :: 0 <= i < |b| ==> Blank(b[i])
  }

  lemma {:induction false} SkipAll(b: string, s: string)
    requires AllBlank(b) && (s == "" || !Blank(s[0]))
    ensures SkipBlanks(b + s) == s
  {
    if b == "" {
      assert b + s == s;
    } else {
      assert (b + s)[1..] == b[1..] + s;
      SkipAll(b[1..], s);
    }
  }

  // Blanks, a sign or none, digits and whatever follows them: atoi gives the number the digits
  // stand for, modulo 2 to the 32 and with the sign; a plus sign is as none.
  lemma ValueOfAny(b: string, sign: string, d: string, rest: string)
    requires AllBlank(b) && sign in {"", "+", "-"} && AllDigits(d) && (rest == "" || !IsDigit(rest[0]))
    requires sign == "" && d == "" ==> rest == "" || (!Blank(rest[0]) && rest[0] != '+' && rest[0] != '-')
    ensures Value(b + (sign + (d + rest))) ==
            ToInt(if sign == "-" then Negate(Decimal(d) % 0x1_0000_0000) else Decimal(d) % 0x1_0000_0000)
  {
    hide ToInt, Negate, Decimal, Accumulate;
    var t := sign + (d + rest);
    assert t == "" || !Blank(t[0]);
    SkipAll(b, t);
    AccumulateDecimal(d, rest);
    if sign == "" { assert t == d + rest; } else { assert t[1..] == d + rest; }
  }

  lemma PlusIsNone(d: string)
    requires AllDigits(d) && d != ""
    ensures Value("+" + d) == Value(d)
  {
    hide Value;
    ValueOfAny("", "+", d, "");
    ValueOfAny("", "", d, "");
    assert "" + ("+" + (d + "")) == "+" + d && "" + ("" + (d + "")) == d;
  }

  // ---- What is printed ----

  // The value of a digit, 0 to 9 and a to f.
  function HexValue(c: char): nat {
    if '0' <= c <= '9' then c as nat - '0' as nat else if 'a' <= c <= 'f' then c as nat - 'a' as nat + 10 else 0
  }

  // The number digits stand for in a base.
  function InBase(d: string, base: nat): nat {
    if d == "" then 0 else InBase(d[..|d| - 1], base) * base + HexValue(d[|d| - 1])
  }

  lemma HexReads(d: nat)
    requires d < 16
    ensures HexValue(DigitChar(d)) == d && (DigitChar(d) == '0' <==> d == 0)
  {
  }

  lemma InBaseLast(e: string, c: char, base: nat)
    ensures InBase(e + [c], base) == InBase(e, base) * base + HexValue(c)
  {
    assert (e + [c])[..|e|] == e;
  }

  // In every base the digits stand for the number,
  lemma {:induction false} DigitsStandFor(n: nat, base: nat)
    requires 2 <= base <= 16
    ensures InBase(Digits(n, base), base) == n
    decreases n
  {
    hide DigitChar, HexValue, InBase;
    LastDigit(n, base);
    HexReads(n % base);
    var e := if n / base > 0 then Digits(n / base, base) else "";
    InBaseLast(e, DigitChar(n % base), base);
    Division(n, base);
    Shrinks(n, base);
    if n / base > 0 { DigitsStandFor(n / base, base); } else { InBaseNone(base); }
  }

  lemma InBaseNone(base: nat)
    ensures InBase("", base) == 0
  {
  }

  // and only 0 starts with a 0.
  lemma {:induction false} NoLeadingZero(n: nat, base: nat)
    requires 2 <= base <= 16
    ensures Digits(n, base)[0] == '0' <==> n == 0
    decreases n
  {
    hide DigitChar;
    if n < base {
      HexReads(n);
    } else {
      MoreDigits(n, base);
      Shrinks(n, base);
      NoLeadingZero(n / base, base);
    }
  }

  lemma Division(n: nat, base: nat)
    requires base > 0
    ensures n / base * base + n % base == n
  {
  }

  // A field is as wide as asked or as the number is, if that is more. Aligned to the left the
  // number comes first; to the right it comes last, with blanks before its sign or zeros after.
  lemma FieldLayout(v: int, f: Field)
    requires IsInt(v)
    ensures var sign := if v < 0 then "-" else ""; var d := Digits(GetNum(v).1, 10); var t := TextOf(v, f); var n := |sign + d|;
            && |t| == (if f.spacing > n then f.spacing else n)
            && (f.rightspc ==> t[..n] == sign + d && forall i :: n <= i < |t| ==> t[i] == f.fillchar)
            && (!f.rightspc && f.fillchar != '0' ==> t[|t| - n..] == sign + d && forall i :: 0 <= i < |t| - n ==> t[i] == f.fillchar)
            && (!f.rightspc && f.fillchar == '0' ==> t[..|sign|] == sign && t[|t| - |d|..] == d && forall i :: |sign| <= i < |t| - |d| ==> t[i] == '0')
  {
    hide Digits;
  }
}
