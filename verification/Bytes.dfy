/** Bytes, zero filling and little-endian numbers, as the firmware images use them. */
module Bytes {

  type byte = x: int | 0 <= x < 256

  const TWO32: nat := 0x1_0000_0000

  function Zeros(n: nat): (r: seq<byte>)
    ensures |r| == n && forall i :: 0 <= i < n ==> r[i] == 0
  {
    seq(n, _ => 0)
  }

  /** A 32-bit number, least significant byte first. */
  function PutUint32(x: nat): (r: seq<byte>)
    ensures |r| == 4
  {
    var x1 := x / 256;
    var x2 := x1 / 256;
    var x3 := x2 / 256;
    [x % 256, x1 % 256, x2 % 256, x3 % 256]
  }

  function GetUint16(b: seq<byte>): nat
    requires |b| >= 2
  {
    (b[0] as int) + 256 * (b[1] as int)
  }

  function GetUint32(b: seq<byte>): (x: nat)
    requires |b| >= 4
    ensures x < TWO32
  {
    (b[0] as int) + 256 * ((b[1] as int) + 256 * ((b[2] as int) + 256 * (b[3] as int)))
  }

  /** Reading back what was written gives the number modulo 2^32. */
  lemma GetPut(x: nat, rest: seq<byte>)
    ensures GetUint32(PutUint32(x) + rest) == x % TWO32
  {
    var x1 := x / 256;
    var x2 := x1 / 256;
    var x3 := x2 / 256;
    var b := PutUint32(x) + rest;
    assert b[0] == x % 256 && b[1] == x1 % 256 && b[2] == x2 % 256 && b[3] == x3 % 256;
    Digits(x, x1, x2, x3, x3 / 256);
  }

  lemma Digits(x: nat, x1: nat, x2: nat, x3: nat, x4: nat)
    requires x1 == x / 256 && x2 == x1 / 256 && x3 == x2 / 256 && x4 == x3 / 256
    ensures x % 256 + 256 * (x1 % 256 + 256 * (x2 % 256 + 256 * (x3 % 256))) == x % TWO32
  {
    var r := x % 256 + 256 * (x1 % 256 + 256 * (x2 % 256 + 256 * (x3 % 256)));
    Digit(x3, x4);
    Digit(x2, x3);
    Digit(x1, x2);
    Digit(x, x1);
    Remainder(x, x4, r);
  }

  lemma Digit(x: nat, q: nat)
    requires q == x / 256
    ensures x == 256 * q + x % 256
  {
  }

  lemma Remainder(x: nat, q: nat, r: nat)
    requires x == TWO32 * q + r && r < TWO32
    ensures x % TWO32 == r
  {
  }
}
