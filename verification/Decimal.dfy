// Decimal text for the numbers in log records: std::to_string when writing, std::stoull (which
// also accepts leading white space and a sign) when reading.

module Decimal {
  import opened Bytes

  const PLUS: byte := 0x2B
  const MINUS: byte := 0x2D

  predicate IsDigit(b: byte) {
    0x30 <= b <= 0x39
  }

  function DigitOf(d: nat): (b: byte)
    requires d < 10
  {
    ToByte(48 + d)
  }

  function ValueOf(b: byte): nat {
    if IsDigit(b) then b as nat - 48 else 0
  }

  lemma DigitRoundTrip(d: nat)
    requires d < 10
    ensures IsDigit(DigitOf(d)) && ValueOf(DigitOf(d)) == d
  {
    ByteOrder(DigitOf(d));
  }

  lemma ByteOrder(b: byte)
    ensures 48 <= b as nat <= 57 <==> IsDigit(b)
  {}

  function ToDecimal(n: nat): (s: str)
    ensures s != []
  {
    if n < 10 then [DigitOf(n)] else ToDecimal(n / 10) + [DigitOf(n % 10)]
  }

  function Digits(s: str): nat {
    if s == [] then 0 else 10 * Digits(s[..|s| - 1]) + ValueOf(s[|s| - 1])
  }

  predicate AllDigits(s: str) {
    forall i :: 0 <= i < |s| ==> IsDigit(s[i])
  }

  predicate IsSpace(b: byte) {
    b == 0x20 || 0x09 <= b <= 0x0D
  }

  function SkipSpaces(s: str): str {
    if s != [] && IsSpace(s[0]) then SkipSpaces(s[1..]) else s
  }

  /** std::stoull followed by the check that the whole string was consumed. */
  function ParseU64(s: str): Option<u64> {
    var t := SkipSpaces(s);
    var negative := t != [] && t[0] == MINUS;
    var u := if t != [] && (t[0] == MINUS || t[0] == PLUS) then t[1..] else t;
    if u == [] || !AllDigits(u) || Digits(u) >= U64 then None
    else Some(if negative then (U64 - Digits(u)) % U64 else Digits(u))
  }

  lemma {:induction false} DecimalDigits(n: nat)
    ensures AllDigits(ToDecimal(n)) && Digits(ToDecimal(n)) == n
  {
    hide IsDigit, ValueOf, DigitOf;
    DigitRoundTrip(n % 10);
    if n < 10 {
      var s := [DigitOf(n)];
      assert s[..|s| - 1] == [];
    } else {
      DecimalDigits(n / 10);
      var s := ToDecimal(n);
      assert s[..|s| - 1] == ToDecimal(n / 10);
    }
  }

  lemma DigitIsNoSpace(b: byte)
    requires IsDigit(b)
    ensures !IsSpace(b) && b != MINUS && b != PLUS
  {}

  /** Reading a written number gives the number back. */
  lemma DecimalRoundTrip(n: u64)
    ensures ParseU64(ToDecimal(n)) == Some(n)
  {
    DecimalDigits(n);
    DigitIsNoSpace(ToDecimal(n)[0]);
  }
}
