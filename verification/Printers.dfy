/** The number formats of kutil.c: `print_fmt_u`, `print_fmt_x` and `print_fmt_b`. */
module Printers {
  import opened Common
  import opened Words

  const HEX_LUT: string := "0123456789abcdef"

  predicate IsDigit(c: char, b: nat) {
    exists d :: 0 <= d < b && d < 16 && HEX_LUT[d] == c
  }

  /** The value of a digit; 0 for other characters. */
  function DigitVal(c: char): nat {
    if '0' <= c <= '9' then (c - '0') as nat else if 'a' <= c <= 'f' then 10 + (c - 'a') as nat else 0
  }

  /** The digits, and what they are worth. */
  lemma DigitChars(c: char)
    ensures IsDigit(c, 16) <==> '0' <= c <= '9' || 'a' <= c <= 'f'
    ensures IsDigit(c, 10) <==> '0' <= c <= '9'
    ensures IsDigit(c, 2) <==> c == '0' || c == '1'
    ensures '0' <= c <= '9' ==> DigitVal(c) == (c - '0') as nat
    ensures 'a' <= c <= 'f' ==> DigitVal(c) == 10 + (c - 'a') as nat
  {
    if '0' <= c <= '9' {
      assert HEX_LUT[(c - '0') as nat] == c;
    } else if 'a' <= c <= 'f' {
      assert HEX_LUT[10 + (c - 'a') as nat] == c;
    }
  }

  lemma DigitFacts(d: nat)
    requires d < 16
    ensures DigitVal(HEX_LUT[d]) == d && HEX_LUT[d] != '\0' && (HEX_LUT[d] == '0' <==> d == 0)
    ensures d < 10 ==> HEX_LUT[d] == '0' + d as char
  {
  }

  /** What a reader makes of the characters, most significant first. */
  function Decode(s: string, b: nat): nat {
    if s == "" then 0 else Decode(s[..|s| - 1], b) * b + DigitVal(s[|s| - 1])
  }

  /** A numeral without leading zeros. */
  ghost predicate IsNumeral(s: string, b: nat) {
    && s != "" && (forall i :: 0 <= i < |s| ==> IsDigit(s[i], b))
    && (1 < |s| ==> s[0] != '0')
  }

  /** Digit `j` of `n`, counted from the least significant. */
  function DigitAt(n: nat, b: nat, j: nat): char
    requires 0 < b <= 16
  {
    PowPositive(b, j);
    HEX_LUT[n / Pow(b, j) % b]
  }

  // ----- arithmetic

  /** Shifting by `j + 1` digits is dropping the last digit and shifting by `j`. */
  lemma DigitShift(n: nat, b: nat, j: nat)
    requires 0 < b <= 16
    ensures DigitAt(n, b, j + 1) == DigitAt(n / b, b, j)
  {
    PowPositive(b, j);
    PowPositive(b, j + 1);
    DivModProduct(n, b, Pow(b, j));
  }

  lemma LastDigit(s: string, n: nat, b: nat)
    requires 2 <= b <= 16 && s != "" && s[|s| - 1] == DigitAt(n, b, 0)
    ensures DigitVal(s[|s| - 1]) == n % b
  {
    assert Pow(b, 0) == 1 && n / 1 == n;
    DigitFacts(n % b);
  }

  lemma UpperDigits(s: string, n: nat, b: nat)
    requires 2 <= b <= 16 && s != "" && forall j :: 0 <= j < |s| ==> s[|s| - 1 - j] == DigitAt(n, b, j)
    ensures var k := |s| - 1; forall j :: 0 <= j < k ==> s[..k][k - 1 - j] == DigitAt(n / b, b, j)
  {
    var k := |s| - 1;
    forall j | 0 <= j < k ensures s[..k][k - 1 - j] == DigitAt(n / b, b, j) {
      assert s[..k][k - 1 - j] == s[|s| - 1 - (j + 1)];
      DigitShift(n, b, j);
    }
  }

  lemma DecodeLast(s: string, n: nat, b: nat)
    requires 2 <= b && s != "" && DigitVal(s[|s| - 1]) == n % b && 0 < Pow(b, |s| - 1)
    requires Decode(s[..|s| - 1], b) == n / b % Pow(b, |s| - 1)
    ensures 0 < Pow(b, |s|) && Decode(s, b) == n % Pow(b, |s|)
  {
    PowPositive(b, |s|);
    DivModProduct(n, b, Pow(b, |s| - 1));
  }

  /** The last `k` digits of a number, read back, are the number modulo `b` to the `k`. */
  lemma {:induction false} DecodeDigits(s: string, n: nat, b: nat)
    requires 2 <= b <= 16 && forall j :: 0 <= j < |s| ==> s[|s| - 1 - j] == DigitAt(n, b, j)
    ensures 0 < Pow(b, |s|) && Decode(s, b) == n % Pow(b, |s|)
    decreases |s|
  {
    if s == "" {
      assert Pow(b, 0) == 1;
    } else {
      UpperDigits(s, n, b);
      LastDigit(s, n, b);
      DecodeDigits(s[..|s| - 1], n / b, b);
      DecodeLast(s, n, b);
    }
  }

  // ----- numerals are unique

  lemma DigitBound(c: char, b: nat)
    requires b <= 16 && IsDigit(c, b)
    ensures DigitVal(c) < b && (DigitVal(c) == 0 <==> c == '0') && HEX_LUT[DigitVal(c)] == c
  {
    var d :| 0 <= d < b && d < 16 && HEX_LUT[d] == c;
    DigitFacts(d);
  }

  lemma AppendBound(x: nat, p: nat, d: nat, b: nat)
    requires x < p && d < b
    ensures x * b + d < b * p
  {
    MulMono(x + 1, p, b);
    Distribute(x, 1, b);
  }

  lemma {:induction false} DecodeBound(s: string, b: nat)
    requires 2 <= b <= 16 && forall i :: 0 <= i < |s| ==> IsDigit(s[i], b)
    ensures Decode(s, b) < Pow(b, |s|)
    ensures s != "" && s[0] != '0' ==> Pow(b, |s| - 1) <= Decode(s, b)
    decreases |s|
  {
    if s == "" {
    } else {
      var init := s[..|s| - 1];
      DecodeBound(init, b);
      DigitBound(s[|s| - 1], b);
      AppendBound(Decode(init, b), Pow(b, |init|), DigitVal(s[|s| - 1]), b);
      if init != "" && s[0] != '0' {
        MulMono(Pow(b, |init| - 1), Decode(init, b), b);
      }
    }
  }

  lemma {:induction false} SameLengthSame(s: string, t: string, b: nat)
    requires 2 <= b <= 16 && |s| == |t| && Decode(s, b) == Decode(t, b)
    requires forall i :: 0 <= i < |s| ==> IsDigit(s[i], b) && IsDigit(t[i], b)
    ensures s == t
    decreases |s|
  {
    if s == "" {
    } else {
      var n := |s| - 1;
      DigitBound(s[n], b);
      DigitBound(t[n], b);
      DivUnique(Decode(s, b), b, Decode(s[..n], b));
      DivUnique(Decode(t, b), b, Decode(t[..n], b));
      SameLengthSame(s[..n], t[..n], b);
      assert s == s[..n] + [s[n]] && t == t[..n] + [t[n]];
    }
  }

  lemma ShorterIsLess(s: string, t: string, b: nat)
    requires 2 <= b <= 16 && IsNumeral(s, b) && IsNumeral(t, b) && |s| < |t|
    ensures Decode(s, b) < Decode(t, b)
  {
    var k := |t| - 1;
    assert Decode(s, b) < Pow(b, |s|) by {
      DecodeBound(s, b);
    }
    assert Pow(b, k) <= Decode(t, b) by {
      DecodeBound(t, b);
    }
    assert Pow(b, |s|) <= Pow(b, k) by {
      PowMono(b, |s|, k);
    }
  }

  /** A number has one numeral, so a format that decodes to `n` without leading zeros is the numeral of `n`. */
  lemma NumeralUnique(s: string, t: string, b: nat)
    requires 2 <= b <= 16 && IsNumeral(s, b) && IsNumeral(t, b) && Decode(s, b) == Decode(t, b)
    ensures s == t
  {
    if |s| < |t| {
      ShorterIsLess(s, t, b);
    } else if |t| < |s| {
      ShorterIsLess(t, s, b);
    } else {
      SameLengthSame(s, t, b);
    }
  }

  // ----- the buffers

  /** What `sp_write_str` writes: the characters before the first NUL. */
  function CString(s: string): string {
    if s == "" || s[0] == '\0' then "" else [s[0]] + CString(s[1..])
  }

  lemma {:induction false} CStringIs(s: string, k: nat)
    requires k < |s| && s[k] == '\0' && forall i :: 0 <= i < k ==> s[i] != '\0'
    ensures CString(s) == s[..k]
    decreases k
  {
    if k > 0 {
      CStringIs(s[1..], k - 1);
      assert s[..k] == [s[0]] + s[1..][..k - 1];
    }
  }

  /** The places of a text that hold the last `k` digits of `n`, ending before `end`. */
  ghost predicate Holds(text: string, end: nat, k: nat, n: nat, b: nat) {
    2 <= b <= 16 && k <= end <= |text| && forall j :: 0 <= j < k ==> text[end - 1 - j] == DigitAt(n, b, j)
  }

  lemma AnyDigit(n: nat, b: nat, j: nat)
    requires 2 <= b <= 16
    ensures IsDigit(DigitAt(n, b, j), b) && DigitAt(n, b, j) != '\0'
  {
    PowPositive(b, j);
    DigitFacts(n / Pow(b, j) % b);
  }

  /** A filled buffer prints as the last `k` digits. */
  lemma HoldsPrints(text: string, from: nat, end: nat, n: nat, b: nat)
    requires from <= end < |text| && Holds(text, end, end - from, n, b) && text[end] == '\0'
    ensures CString(text[from..]) == text[from..end]
    ensures 0 < Pow(b, end - from) && Decode(text[from..end], b) == n % Pow(b, end - from)
    ensures forall i :: from <= i < end ==> IsDigit(text[i], b)
  {
    var out := text[from..end];
    forall i | from <= i < end ensures IsDigit(text[i], b) && text[i] != '\0' {
      assert text[end - 1 - (end - 1 - i)] == DigitAt(n, b, end - 1 - i);
      AnyDigit(n, b, end - 1 - i);
    }
    CStringIs(text[from..], end - from);
    assert text[from..][..end - from] == out;
    forall j | 0 <= j < |out| ensures out[|out| - 1 - j] == DigitAt(n, b, j) {
      assert out[|out| - 1 - j] == text[end - 1 - j];
    }
    DecodeDigits(out, n, b);
  }

  lemma SmallMod(q: nat, b: nat)
    ensures q < b ==> q % b == q
  {
  }

  lemma QuotientBetween(n: nat, b: nat, p: nat)
    requires 0 < p <= n < b * p
    ensures 0 < n / p < b && n / p % b == n / p
  {
    DivMod(n, p);
    DivUnique(p, p, 1);
    DivMono(p, n, p);
    if n / p >= b {
      MulMono(b, n / p, p);
    }
    SmallMod(n / p, b);
  }

  /** The first of `k` digits is not zero when `k` is the least number of digits that hold `n`. */
  lemma LeadingDigit(n: nat, b: nat, k: nat)
    requires 2 <= b <= 16 && 0 < k && Pow(b, k - 1) <= n < Pow(b, k)
    ensures DigitAt(n, b, k - 1) != '0'
  {
    PowPositive(b, k - 1);
    QuotientBetween(n, b, Pow(b, k - 1));
    DigitFacts(n / Pow(b, k - 1));
  }

  /** The format without a width: the least number of digits, read back to `n`. */
  lemma NumeralPrints(text: string, from: nat, end: nat, n: nat, b: nat)
    requires from < end < |text| && Holds(text, end, end - from, n, b) && text[end] == '\0'
    requires Pow(b, end - from - 1) <= n < Pow(b, end - from)
    ensures IsNumeral(CString(text[from..]), b) && Decode(CString(text[from..]), b) == n
    ensures |CString(text[from..])| == end - from
  {
    var k := end - from;
    HoldsPrints(text, from, end, n, b);
    LeadingDigit(n, b, k);
    assert text[from] == text[end - 1 - (k - 1)] == DigitAt(n, b, k - 1);
    SmallMod(n, Pow(b, k));
  }

  lemma ZeroPrints(b: nat)
    requires 2 <= b <= 16
    ensures IsNumeral("0", b) && Decode("0", b) == 0
  {
    DigitFacts(0);
    assert "0"[..0] == "";
  }

  /** Sixteen hexadecimal, sixty-four binary, and twenty decimal digits hold every 64-bit number. */
  lemma WidthsSuffice()
    ensures Pow(16, 16) == TWO64 && Pow(2, 64) == TWO64 && TWO64 < Pow(10, 20)
  {
    assert Pow(16, 4) == 0x1_0000;
    assert Pow(16, 8) == 0x1_0000_0000;
    assert Pow(16, 12) == 0x1_0000_0000_0000;
    assert Pow(2, 8) == 0x100;
    assert Pow(2, 16) == 0x1_0000;
    assert Pow(2, 24) == 0x100_0000;
    assert Pow(2, 32) == 0x1_0000_0000;
    assert Pow(2, 40) == 0x100_0000_0000;
    assert Pow(2, 48) == 0x1_0000_0000_0000;
    assert Pow(2, 56) == 0x100_0000_0000_0000;
    assert Pow(10, 5) == 10_0000;
    assert Pow(10, 10) == 100_0000_0000;
    assert Pow(10, 15) == 1000_0000_0000_0000;
  }

  /** Fewer digits than `k` when the number is below `b` to the `k`. */
  lemma FewDigits(n: nat, b: nat, j: nat, k: nat)
    requires 1 <= b && Pow(b, j) <= n < Pow(b, k)
    ensures j < k
  {
    if k <= j {
      PowMono(b, k, j);
    }
  }

  lemma OneMoreDigit(text: string, end: nat, k: nat, n: nat, b: nat)
    requires Holds(text, end, k, n, b) && k < end
    ensures 0 < Pow(b, k) && Holds(text[end - 1 - k := HEX_LUT[n / Pow(b, k) % b]], end, k + 1, n, b)
  {
    PowPositive(b, k);
  }

  // ----- the formats

  /** The width modifiers. */
  datatype Width = Natural | QWord | DWord | Word | ByteWide

  /** Dividing once more, and whether that was the last digit. */
  lemma NextDigit(n: nat, b: nat, k: nat, max: nat)
    requires 2 <= b <= 16 && 0 < Pow(b, k) <= n < Pow(b, max)
    ensures 0 < Pow(b, k + 1) && n / Pow(b, k + 1) == n / Pow(b, k) / b && k < max
    ensures if n < Pow(b, k + 1) then n / Pow(b, k + 1) == 0 else n / Pow(b, k + 1) > 0 && k + 1 < max
  {
    var p := Pow(b, k + 1);
    PowPositive(b, k + 1);
    DivModProduct(n, Pow(b, k), b);
    FewDigits(n, b, k, max);
    if n >= p {
      FewDigits(n, b, k + 1, max);
      MulMono(1, n / p, p);
      DivMod(n, p);
    } else {
      DivUnique(n, p, 0);
    }
  }

  /** The next digit, written in front of those there are. */
  method PutDigit(text: array<char>, ghost n: nat, nch: nat, m: nat)
    requires text.Length == 21 && nch < 20 && text[20] == '\0' && Holds(text[..], 20, nch, n, 10)
    requires 0 < Pow(10, nch) && m == n / Pow(10, nch)
    modifies text
    ensures text[20] == '\0' && Holds(text[..], 20, nch + 1, n, 10)
  {
    OneMoreDigit(text[..], 20, nch, n, 10);
    DigitFacts(m % 10);
    ghost var before := text[..];
    text[20 - (nch + 1)] := '0' + (m % 10) as char;
    assert text[..] == before[20 - (nch + 1) := HEX_LUT[m % 10]];
  }

  /** `k` digits of `n` have been divided off, and `m` is what is left. */
  ghost predicate DividedOff(n: nat, k: nat, m: nat) {
    && 0 < Pow(10, k) && m == n / Pow(10, k) && k <= 20
    && if m == 0 then 0 < k && Pow(10, k - 1) <= n < Pow(10, k) else k < 20 && Pow(10, k) <= n
  }

  lemma NothingDivided(n: nat)
    requires 0 < n
    ensures DividedOff(n, 0, n)
  {
    assert Pow(10, 0) == 1;
  }

  lemma OneMoreDivided(n: nat, k: nat, m: nat)
    requires DividedOff(n, k, m) && 0 < m && n < TWO64
    ensures DividedOff(n, k + 1, m / 10)
  {
    WidthsSuffice();
    NextDigit(n, 10, k, 20);
  }

  /** One round of the loop of `print_fmt_u`. */
  method DivideOff(text: array<char>, ghost n: nat, nch: nat, m: nat) returns (next: nat, rest: nat)
    requires text.Length == 21 && text[20] == '\0' && Holds(text[..], 20, nch, n, 10)
    requires DividedOff(n, nch, m) && 0 < m && n < TWO64
    modifies text
    ensures text[20] == '\0' && Holds(text[..], 20, next, n, 10)
    ensures DividedOff(n, next, rest) && rest == m / 10
  {
    OneMoreDivided(n, nch, m);
    PutDigit(text, n, nch, m);
    next, rest := nch + 1, m / 10;
  }

  /** `print_fmt_u`: the text it writes to the serial port. */
  method FmtU(n: nat) returns (out: string)
    requires n < TWO64
    ensures IsNumeral(out, 10) && Decode(out, 10) == n && |out| <= 20
  {
    if n == 0 {
      ZeroPrints(10);
      return "0";
    }
    NothingDivided(n);
    var nch, m := 0, n;
    var text := new char[21](_ => '\0');
    while m > 0
      invariant DividedOff(n, nch, m) && Holds(text[..], 20, nch, n, 10) && text[20] == '\0'
      decreases m
    {
      nch, m := DivideOff(text, n, nch, m);
    }
    out := CString(text[..][20 - nch..]);
    NumeralPrints(text[..], 20 - nch, 20, n, 10);
  }

  // ----- hexadecimal and binary

  /** Bits of a digit: four for hexadecimal, one for binary. */
  predicate DigitBits(bits: nat, b: nat) {
    (bits == 4 && b == 16) || (bits == 1 && b == 2)
  }

  lemma {:induction false} ShrIsDigits(n: nat, bits: nat, b: nat, k: nat)
    requires DigitBits(bits, b)
    ensures 0 < Pow(b, k) && Pow(2, bits * k) == Pow(b, k) && Shr(n, bits * k) == n / Pow(b, k)
  {
    PowPositive(b, k);
    if k > 0 {
      ShrIsDigits(n, bits, b, k - 1);
      if bits == 4 {
        var j := 4 * (k - 1);
        assert Pow(2, j + 2) == 4 * Pow(2, j) && Pow(2, j + 4) == 4 * Pow(2, j + 2);
      }
    }
  }

  lemma NotBelow(n: nat, p: nat)
    requires 0 < p && n / p != 0
    ensures p <= n
  {
    if n < p {
      DivUnique(n, p, 0);
    }
  }

  lemma Below(n: nat, p: nat)
    requires 0 < p && n / p == 0
    ensures n < p
  {
    DivMod(n, p);
  }

  /** `while (nch < max && n >> bits * nch) ++nch;` */
  method CountDigits(n: nat, bits: nat, b: nat, max: nat) returns (nch: nat)
    requires DigitBits(bits, b) && 0 < n < Pow(b, max)
    ensures 0 < nch <= max && Pow(b, nch - 1) <= n < Pow(b, nch)
  {
    nch := 0;
    assert Pow(b, 0) == 1;
    while nch < max && Shr(n, bits * nch) != 0
      invariant nch <= max && (nch == 0 || Pow(b, nch - 1) <= n)
    {
      ShrIsDigits(n, bits, b, nch);
      NotBelow(n, Pow(b, nch));
      nch := nch + 1;
    }
    if nch < max {
      ShrIsDigits(n, bits, b, nch);
      Below(n, Pow(b, nch));
    }
  }

  /** The loop that writes the digits, into a buffer of `cap` characters and a NUL. */
  method FillText(n: nat, bits: nat, b: nat, nch: nat, cap: nat) returns (text: array<char>)
    requires DigitBits(bits, b) && nch <= cap
    ensures text.Length == cap + 1 && Holds(text[..], nch, nch, n, b) && text[nch] == '\0'
  {
    text := new char[cap + 1](_ => '\0');
    var i := 0;
    while i < nch
      invariant 0 <= i <= nch && Holds(text[..], nch, i, n, b) && text[nch] == '\0'
    {
      ShrIsDigits(n, bits, b, i);
      OneMoreDigit(text[..], nch, i, n, b);
      ghost var before := text[..];
      text[nch - i - 1] := HEX_LUT[Shr(n, bits * i) % b];
      assert text[..] == before[nch - 1 - i := HEX_LUT[n / Pow(b, i) % b]];
      i := i + 1;
    }
  }

  /** `print_fmt_x` and `print_fmt_b` with a width of `nch` digits. */
  method FmtWidth(n: nat, bits: nat, b: nat, nch: nat, cap: nat) returns (out: string)
    requires DigitBits(bits, b) && nch <= cap
    ensures |out| == nch && (forall i :: 0 <= i < nch ==> IsDigit(out[i], b))
    ensures 0 < Pow(b, nch) && Decode(out, b) == n % Pow(b, nch)
  {
    var text := FillText(n, bits, b, nch, cap);
    HoldsPrints(text[..], 0, nch, n, b);
    assert text[..][0..] == text[..];
    out := CString(text[..]);
  }

  /** Without a width. */
  method FmtNatural(n: nat, bits: nat, b: nat, cap: nat) returns (out: string)
    requires DigitBits(bits, b) && n < Pow(b, cap) && 0 < cap
    ensures IsNumeral(out, b) && Decode(out, b) == n && |out| <= cap
  {
    if n == 0 {
      ZeroPrints(b);
      return "0";
    }
    var nch := CountDigits(n, bits, b, cap);
    var text := FillText(n, bits, b, nch, cap);
    NumeralPrints(text[..], 0, nch, n, b);
    assert text[..][0..] == text[..];
    out := CString(text[..]);
  }

  function HexDigits(w: Width): nat {
    match w
    case Natural => 0
    case QWord => 16
    case DWord => 8
    case Word => 4
    case ByteWide => 2
  }

  /** The modifiers ask for 64, 32, 16 and 8 bits, in either base. */
  lemma WidthBits(w: Width)
    requires !w.Natural?
    ensures Pow(16, HexDigits(w)) == Pow(2, 4 * HexDigits(w))
         == match w
            case QWord => TWO64
            case DWord => 0x1_0000_0000
            case Word => 0x1_0000
            case _ => 0x100
    ensures HexDigits(w) == match w case QWord => 16 case DWord => 8 case Word => 4 case _ => 2
  {
    ShrIsDigits(0, 4, 16, HexDigits(w));
    WidthsSuffice();
    assert Pow(2, 4) == 16;
    PowAdd(2, 4, 4);
    PowAdd(2, 8, 8);
    PowAdd(2, 16, 16);
  }

  /** `print_fmt_x` */
  method FmtX(n: nat, w: Width) returns (out: string)
    requires n < TWO64
    ensures w.Natural? ==> IsNumeral(out, 16) && Decode(out, 16) == n && |out| <= 16
    ensures !w.Natural? ==>
      && |out| == HexDigits(w) && (forall i :: 0 <= i < |out| ==> IsDigit(out[i], 16))
      && 0 < Pow(16, HexDigits(w)) && Decode(out, 16) == n % Pow(16, HexDigits(w))
  {
    WidthsSuffice();
    if w.Natural? {
      out := FmtNatural(n, 4, 16, 16);
    } else {
      out := FmtWidth(n, 4, 16, HexDigits(w), 16);
    }
  }

  /** `print_fmt_b` */
  method FmtB(n: nat, w: Width) returns (out: string)
    requires n < TWO64
    ensures w.Natural? ==> IsNumeral(out, 2) && Decode(out, 2) == n && |out| <= 64
    ensures !w.Natural? ==>
      && |out| == 4 * HexDigits(w) && (forall i :: 0 <= i < |out| ==> IsDigit(out[i], 2))
      && 0 < Pow(2, 4 * HexDigits(w)) && Decode(out, 2) == n % Pow(2, 4 * HexDigits(w))
  {
    WidthsSuffice();
    if w.Natural? {
      out := FmtNatural(n, 1, 2, 64);
    } else {
      out := FmtWidth(n, 1, 2, 4 * HexDigits(w), 64);
    }
  }
}
