// Printing integers with __printf.c and reading them back with atoi.c, for 32-bit
// int, long and unsigned.
module NumberText {

  const NUMBER_BUF_SIZE: nat := 12

  predicate IsInt(v: int) {
    -0x8000_0000 <= v < 0x8000_0000
  }

  // An unsigned value taken as a signed one.
  function ToInt(u: nat): int {
    var w := u % 0x1_0000_0000;
    if w < 0x8000_0000 then w else w - 0x1_0000_0000
  }

  function DigitChar(d: nat): char
    requires d < 16
  {
    "0123456789abcdef"[d]
  }

  // ---- Printing ----

  // The digits of n, most significant first; 0 is one digit.
  function Digits(n: nat, base: nat): (s: string)
    requires 2 <= base <= 16
    ensures |s| > 0
    decreases n
  {
    if n < base then [DigitChar(n)] else Digits(n / base, base) + [DigitChar(n % base)]
  }

  function Pow8(k: nat): nat {
    if k == 0 then 1 else 8 * Pow8(k - 1)
  }

  // k octal digits suffice below 8 to the k, and so do k digits of a larger base.
  lemma {:induction false} DigitsShort(n: nat, base: nat, k: nat)
    requires 8 <= base <= 16 && k > 0 && n < Pow8(k)
    ensures |Digits(n, base)| <= k
  {
    if n >= base {
      Smaller(n, base, k);
      DigitsShort(n / base, base, k - 1);
    }
  }

  lemma Smaller(n: nat, base: nat, k: nat)
    requires 8 <= base && k > 0 && n < Pow8(k)
    ensures n / base < Pow8(k - 1) && (k == 1 ==> n < base)
  {
    var q := n / base;
    Quotient(n, base);
    AtLeastEightfold(base, q);
  }

  lemma Quotient(n: nat, base: nat)
    requires base > 0
    ensures base * (n / base) <= n
  {
  }

  lemma AtLeastEightfold(base: nat, q: nat)
    requires base >= 8
    ensures base * q >= 8 * q
  {
  }

  // Eleven octal digits hold a 32-bit word: with the terminator they fill the buffer.
  lemma WordFits(n: nat, base: nat)
    requires n < 0x1_0000_0000 && 8 <= base <= 16
    ensures |Digits(n, base)| + 1 <= NUMBER_BUF_SIZE
  {
    assert Pow8(11) == 0x2_0000_0000 by {
      assert Pow8(4) == 4096;
      assert Pow8(8) == 0x100_0000;
    }
    DigitsShort(n, base, 11);
  }

  // __pf_printnum, up to the call of __pf_printstuff: the digits from right to left in a
  // buffer of NUMBER_BUF_SIZE, and where they start.
  method PrintNum(num: nat, base: nat) returns (buf: array<char>, x: nat)
    requires num < 0x1_0000_0000 && base in {8, 10, 16}
    ensures fresh(buf) && buf.Length == NUMBER_BUF_SIZE && x < 11
    ensures buf[x..11] == Digits(num, base) && buf[11] == '\0'
  {
    hide Digits, DigitChar;
    buf := new char[12];
    buf[11] := '\0';
    WordFits(num, base);
    ghost var full := Digits(num, base);
    var i, more := 10, true;
    var xnum: nat := num;
    while more
      invariant -1 <= i <= 10 && buf[11] == '\0'
      invariant full == (if more then Digits(xnum, base) else []) + buf[i + 1..11]
      decreases more, xnum
    {
      LastDigit(xnum, base);
      Shrinks(xnum, base);
      ghost var tail := buf[i + 1..11];
      assert |full| == |Digits(xnum, base)| + |tail|;
      buf[i] := DigitChar(xnum % base);
      assert buf[i..11] == [DigitChar(xnum % base)] + tail;
      i := i - 1;
      xnum := xnum / base;
      more := xnum > 0;
    }
    x := i + 1;
  }

  // The last digit, and the digits before it if there are any.
  lemma LastDigit(n: nat, base: nat)
    requires 2 <= base <= 16
    ensures |Digits(n, base)| > 0
    ensures Digits(n, base) == (if n / base > 0 then Digits(n / base, base) else []) + [DigitChar(n % base)]
  {
    if n < base { OneDigit(n, base); } else { MoreDigits(n, base); }
    hide DigitChar;
  }

  lemma Shrinks(n: nat, base: nat)
    requires 2 <= base <= 16
    ensures n % base < 16 && (n > 0 ==> n / base < n)
  {
  }

  lemma OneDigit(n: nat, base: nat)
    requires n < base
    ensures n / base == 0 && n % base == n
  {
  }

  lemma MoreDigits(n: nat, base: nat)
    requires 2 <= base <= n
    ensures n / base > 0
  {
  }

  // __pf_getnum for %d: the sign, and the magnitude as an unsigned word.
  function GetNum(v: int): (r: (bool, nat))
    requires IsInt(v)
    ensures r.1 <= 0x8000_0000
  {
    if v < 0 then (true, (-v) % 0x1_0000_0000) else (false, v)
  }

  function Fill(c: char, k: nat): (s: string)
    ensures |s| == k && forall i :: 0 <= i < k ==> s[i] == c
  {
    seq(k, _ => c)
  }

  // Field width, left alignment and padding of a %-format.
  datatype Field = Field(spacing: nat, rightspc: bool, fillchar: char)

  function Padding(f: Field, len: nat): nat {
    if f.spacing > len then f.spacing - len else 0
  }

  // The text of a field: blanks go before the prefixes, zeros after them.
  function Padded(f: Field, prefix: string, stuff: string): string {
    var spc := Padding(f, |prefix| + |stuff|);
    if f.rightspc then prefix + stuff + Fill(f.fillchar, spc)
    else if f.fillchar == '0' then prefix + Fill('0', spc) + stuff
    else Fill(f.fillchar, spc) + prefix + stuff
  }

  // __pf_fill
  method SendFill(out: string, c: char, spc: nat) returns (r: string)
    ensures r == out + Fill(c, spc)
  {
    r := out;
    for i := 0 to spc
      invariant r == out + Fill(c, i)
    {
      r := r + [c];
    }
  }

  // __pf_printstuff
  method PrintStuff(f: Field, prefix: string, prefix2: string, stuff: string) returns (out: string)
    ensures out == Padded(f, prefix + prefix2, stuff)
  {
    var len := |prefix| + |prefix2| + |stuff|;
    var spc := f.spacing;
    if spc > len {
      spc := spc - len;
    } else {
      spc := 0;
    }
    out := "";
    if spc > 0 && !f.rightspc && f.fillchar != '0' {
      out := SendFill(out, f.fillchar, spc);
    }
    out := out + prefix;
    out := out + prefix2;
    if spc > 0 && !f.rightspc && f.fillchar == '0' {
      out := SendFill(out, f.fillchar, spc);
    }
    out := out + stuff;
    if spc > 0 && f.rightspc {
      out := SendFill(out, f.fillchar, spc);
    }
  }

  // The text of %d with field f.
  function TextOf(v: int, f: Field): string
    requires IsInt(v)
  {
    Padded(f, if GetNum(v).0 then "-" else "", Digits(GetNum(v).1, 10))
  }

  // The %d path of printf.
  method PrintInt(v: int, f: Field) returns (out: string)
    requires IsInt(v)
    ensures out == TextOf(v, f)
  {
    var (neg, num) := GetNum(v);
    var buf, x := PrintNum(num, 10);
    out := PrintStuff(f, if neg then "-" else "", "", buf[x..11]);
    assert (if neg then "-" else "") + "" == if neg then "-" else "";
  }

  // ---- Reading ----

  predicate Blank(c: char) {
    c == ' ' || c == '\t'
  }

  predicate IsDigit(c: char) {
    '0' <= c <= '9'
  }

  function DigitValue(c: char): nat {
    if IsDigit(c) then c as nat - '0' as nat else 0
  }

  function SkipBlanks(s: string): string {
    if s != "" && Blank(s[0]) then SkipBlanks(s[1..]) else s
  }

  // Digits up to the first character that is none, in unsigned arithmetic.
  function Accumulate(s: string, val: nat): nat {
    if s == "" || !IsDigit(s[0]) then val
    else Accumulate(s[1..], (val * 10 + DigitValue(s[0])) % 0x1_0000_0000)
  }

  function Negate(u: nat): nat {
    (0x1_0000_0000 - u % 0x1_0000_0000) % 0x1_0000_0000
  }

  // What atoi returns.
  function Value(s: string): int {
    var t := SkipBlanks(s);
    if t != "" && t[0] == '-' then ToInt(Negate(Accumulate(t[1..], 0)))
    else if t != "" && t[0] == '+' then ToInt(Accumulate(t[1..], 0))
    else ToInt(Accumulate(t, 0))
  }

  // atoi
  method Atoi(s: string) returns (v: int)
    ensures v == Value(s)
  {
    var i := 0;
    assert s[0..] == s;
    while i < |s| && (s[i] == ' ' || s[i] == '\t')
      invariant 0 <= i <= |s| && SkipBlanks(s[i..]) == SkipBlanks(s)
    {
      assert s[i..][1..] == s[i + 1..];
      i := i + 1;
    }
    ghost var t := s[i..];
    var neg := false;
    if i < |s| && s[i] == '-' {
      neg := true;
      i := i + 1;
      assert t[1..] == s[i..];
    } else if i < |s| && s[i] == '+' {
      i := i + 1;
      assert t[1..] == s[i..];
    }
    var val: nat := 0;
    ghost var all := Accumulate(s[i..], 0);
    while i < |s|
      invariant 0 <= i <= |s| && Accumulate(s[i..], val) == all
    {
      if !IsDigit(s[i]) {
        break;
      }
      assert s[i..][1..] == s[i + 1..];
      val := (val * 10 + DigitValue(s[i])) % 0x1_0000_0000;
      i := i + 1;
    }
    if neg {
      return ToInt(Negate(val));
    }
    return ToInt(val);
  }
}
