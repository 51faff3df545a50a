/** Decimal numbers as std::to_string prints and strtol(..., 10) reads them. */
module Decimal {
  import opened Chunks

  const LONG_MAX := 0x7FFF_FFFF_FFFF_FFFF
  const LONG_MIN := -0x8000_0000_0000_0000

  predicate IsDigit(c: char) {
    '0' <= c <= '9'
  }

  predicate IsSpace(c: char) {
    c == ' ' || (9 as char <= c <= 13 as char)
  }

  function DigitChar(d: nat): (c: char)
    requires d < 10
    ensures IsDigit(c) && DigitValue(c) == d
  {
    '0' + d as char
  }

  function DigitValue(c: char): (d: nat)
    requires IsDigit(c)
    ensures d < 10
  {
    c as int - '0' as int
  }

  // ---------------------------------------------------------------------------
  // Printing
  // ---------------------------------------------------------------------------

  function PrintNat(n: nat): (s: string)
    ensures |s| > 0 && forall k :: 0 <= k < |s| ==> IsDigit(s[k])
  {
    if n < 10 then [DigitChar(n)] else PrintNat(n / 10) + [DigitChar(n % 10)]
  }

  function Print(n: int): (s: string)
    ensures |s| > 0
  {
    if n < 0 then "-" + PrintNat(-n) else PrintNat(n)
  }

  // ---------------------------------------------------------------------------
  // Reading
  // ---------------------------------------------------------------------------

  function SkipSpace(s: string, i: nat): (j: nat)
    requires i <= |s|
    ensures i <= j <= |s|
    decreases |s| - i
  {
    if i < |s| && IsSpace(s[i]) then SkipSpace(s, i + 1) else i
  }

  function DigitsEnd(s: string, i: nat): (j: nat)
    requires i <= |s|
    ensures i <= j <= |s| && forall k :: i <= k < j ==> IsDigit(s[k])
    decreases |s| - i
  {
    if i < |s| && IsDigit(s[i]) then DigitsEnd(s, i + 1) else i
  }

  /** The value of the digits from i to j. */
  function Value(s: string, i: nat, j: nat): (n: nat)
    requires i <= j <= |s| && forall k :: i <= k < j ==> IsDigit(s[k])
    decreases j
  {
    if i == j then 0 else 10 * Value(s, i, j - 1) + DigitValue(s[j - 1])
  }

  /** strtol: the value kept in the range of a long, where reading stopped (at the start if there
      are no digits), and whether the range was left. */
  datatype Number = Number(value: int, next: nat, overflow: bool)

  function StrToL(s: string, i: nat): (r: Number)
    requires i <= |s|
    ensures i <= r.next <= |s| && LONG_MIN <= r.value <= LONG_MAX
  {
    var a := SkipSpace(s, i);
    var minus := a < |s| && s[a] == '-';
    var b := if a < |s| && (s[a] == '-' || s[a] == '+') then a + 1 else a;
    var e := DigitsEnd(s, b);
    if e == b then Number(0, i, false) else
    var v: int := if minus then 0 - Value(s, b, e) else Value(s, b, e);
    if v > LONG_MAX then Number(LONG_MAX, e, true)
    else if v < LONG_MIN then Number(LONG_MIN, e, true)
    else Number(v, e, false)
  }

  // ---------------------------------------------------------------------------
  // Round trip
  // ---------------------------------------------------------------------------

  /** No digit follows. */
  predicate Ends(s: string, j: nat) {
    j < |s| ==> !IsDigit(s[j])
  }

  lemma {:induction false} EndOfDigits(s: string, i: nat, j: nat)
    requires i <= j <= |s| && Ends(s, j) && forall k :: i <= k < j ==> IsDigit(s[k])
    ensures DigitsEnd(s, i) == j
    decreases j - i
  {
    if i < j {
      EndOfDigits(s, i + 1, j);
    }
  }

  lemma {:induction false} ValueOfPrinted(s: string, i: nat, n: nat)
    requires HasAt(s, i, PrintNat(n))
    ensures forall k :: i <= k < i + |PrintNat(n)| ==> IsDigit(s[k])
    ensures Value(s, i, i + |PrintNat(n)|) == n
  {
    var p := PrintNat(n);
    forall k | i <= k < i + |p| ensures IsDigit(s[k]) {
      assert s[k] == p[k - i];
    }
    if n < 10 {
      assert s[i] == p[0];
      assert Value(s, i, i) == 0;
    } else {
      var head := PrintNat(n / 10);
      HasAtParts(s, i, head, [DigitChar(n % 10)]);
      ValueOfPrinted(s, i, n / 10);
      assert p[|head|] == DigitChar(n % 10);
    }
  }

  /** A printed number is read back, after a space or not. */
  lemma ReadPrinted(s: string, i: nat, n: int)
    requires LONG_MIN <= n <= LONG_MAX && HasAt(s, i, Print(n)) && Ends(s, i + |Print(n)|)
    ensures StrToL(s, i) == Number(n, i + |Print(n)|, false)
    ensures i > 0 && s[i - 1] == ' ' ==> StrToL(s, i - 1) == Number(n, i + |Print(n)|, false)
  {
    var p := Print(n);
    var b := if n < 0 then i + 1 else i;
    if n < 0 {
      HasAtParts(s, i, "-", PrintNat(-n));
      assert s[i] == "-"[0];
    }
    var m := if n < 0 then -n else n;
    ValueOfPrinted(s, b, m);
    EndOfDigits(s, b, i + |p|);
    assert n >= 0 ==> IsDigit(s[i]);
    assert SkipSpace(s, i) == i;
  }
}
