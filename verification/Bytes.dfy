/** Bytes, and the decimal notation the protocols share. */
module Bytes {

  type byte = b: int | 0 <= b < 256
  type bytes = seq<byte>

  datatype Option<+T> = None | Some(value: T)

  const CR: byte := 13
  const LF: byte := 10
  const CRLF: bytes := [CR, LF]

  const INT_MAX: int := 0x7fff_ffff
  const LLONG_MAX: int := 0x7fff_ffff_ffff_ffff

  predicate IsDigit(b: byte) { 48 <= b <= 57 }

  predicate IsAlpha(b: byte) { 65 <= b <= 90 || 97 <= b <= 122 }

  predicate IsHexDigit(b: byte) { IsDigit(b) || 65 <= b <= 70 || 97 <= b <= 102 }

  /** The value of a hexadecimal digit. */
  function HexValue(b: byte): (v: nat)
    requires IsHexDigit(b)
    ensures v < 16
  {
    if IsDigit(b) then b as int - 48
    else if b <= 70 then b as int - 55
    else b as int - 87
  }

  lemma HexDigitsAre(b: byte)
    ensures IsHexDigit(b) <==> b as char in "0123456789abcdefABCDEF"
  {
  }

  /** The digits in order, in either case. */
  lemma HexDigitsInOrder(b: byte, i: nat)
    requires i < 16 && (b as char == "0123456789abcdef"[i] || b as char == "0123456789ABCDEF"[i])
    ensures IsHexDigit(b) && HexValue(b) == i
  {
  }

  function Concat(pieces: seq<bytes>): bytes {
    if pieces == [] then [] else pieces[0] + Concat(pieces[1..])
  }

  /** The decimal digits of a natural number, without leading zeros. */
  function Decimal(n: nat): (s: bytes)
    ensures |s| >= 1
    ensures forall k | 0 <= k < |s| :: IsDigit(s[k])
  {
    if n < 10 then [48 + n] else Decimal(n / 10) + [48 + n % 10]
  }

  /** The printed form of an integer. */
  function Printed(n: int): (s: bytes)
    ensures |s| >= 1
    ensures forall k | 0 <= k < |s| :: IsDigit(s[k]) || s[k] == 45
  {
    if n < 0 then [45] + Decimal(-n) else Decimal(n)
  }

  // ---------- values ----------

  /** The value of a string of digits in some base. */
  function ValueOf(ds: seq<nat>, b: nat): nat {
    if ds == [] then 0 else ValueOf(ds[..|ds| - 1], b) * b + ds[|ds| - 1]
  }

  lemma {:induction false} ValueAppend(ds: seq<nat>, d: nat, b: nat)
    requires b >= 1
    ensures ValueOf(ds + [d], b) == ValueOf(ds, b) * b + d
    ensures ValueOf(ds, b) <= ValueOf(ds + [d], b)
  {
    assert (ds + [d])[..|ds|] == ds;
    assert ValueOf(ds, b) * b >= ValueOf(ds, b);
  }

  function DigitValue(b: byte): (d: nat)
    ensures d < 10
  {
    if IsDigit(b) then b as int - 48 else 0
  }

  function DecimalDigits(t: bytes): (d: seq<nat>)
    ensures |d| == |t| && forall i | 0 <= i < |d| :: d[i] == DigitValue(t[i])
  {
    seq(|t|, i requires 0 <= i < |t| => DigitValue(t[i]))
  }

  // ---------- sequences ----------

  lemma Regroup<T>(a: seq<T>, b: seq<T>, c: seq<T>)
    ensures a + b + c == a + (b + c)
  {
  }
}
