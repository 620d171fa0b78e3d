/**
  Variable-length integers and zigzag of the Thrift compact protocol: the
  encodings of its specification and the reader of `TCompactSliceInputProtocol`.
*/
module ThriftVarint {
  import opened Basics

  const TWO_64: nat := 0x1_0000_0000_0000_0000
  const TWO_63: nat := 0x8000_0000_0000_0000
  const TWO_31: nat := 0x8000_0000
  const TWO_15: nat := 0x8000

  /** A decoded value and the bytes after it; an error otherwise. */
  datatype Decoded<+T> = Ok(value: T, rest: seq<byte>) | Err

  /** The minimal encoding: seven bits a byte, low bits first. */
  function VlqBytes(n: nat): (bs: seq<byte>)
    ensures |bs| > 0
  {
    if n < 128 then [n] else [n % 128 + 128] + VlqBytes(n / 128)
  }

  /** `x` shifted left by `k` groups of seven bits. */
  function Shl7(x: nat, k: nat): (r: nat)
    decreases k
  {
    if k == 0 then x else Shl7(128 * x, k - 1)
  }

  /** `read_vlq` after `k` bytes, whose bits are in `acc`. A shift by 64 or more,
      that is an eleventh byte, is an overflow. */
  function ReadVlqFrom(acc: nat, k: nat, buf: seq<byte>): (r: Decoded<nat>)
    ensures r.Ok? ==> |r.rest| < |buf|
    decreases |buf|
  {
    if buf == [] || k >= 10 then Err
    else
      var acc' := (acc + Shl7(buf[0] % 128, k)) % TWO_64;
      if buf[0] < 128 then Ok(acc', buf[1..]) else ReadVlqFrom(acc', k + 1, buf[1..])
  }

  function ReadVlq(buf: seq<byte>): (r: Decoded<nat>)
    ensures r.Ok? ==> |r.rest| < |buf|
  {
    ReadVlqFrom(0, 0, buf)
  }

  lemma {:induction false} Shl7Adds(x: nat, y: nat, k: nat)
    ensures Shl7(x + y, k) == Shl7(x, k) + Shl7(y, k)
    decreases k
  {
    if k > 0 {
      Shl7Adds(128 * x, 128 * y, k - 1);
    }
  }

  lemma {:induction false} Shl7AtLeast(x: nat, y: nat, k: nat)
    requires x <= y
    ensures Shl7(x, k) <= Shl7(y, k)
    decreases k
  {
    if k > 0 {
      Shl7AtLeast(128 * x, 128 * y, k - 1);
    }
  }

  /** A non-zero digit in the eleventh place does not fit in 64 bits. */
  lemma {:induction false} Shl7Overflows(x: nat, k: nat)
    requires x > 0 && k >= 10
    ensures Shl7(x, k) >= TWO_64
    decreases k
  {
    if k == 10 {
      Shl7AtLeast(1, x, 10);
      assert Shl7(1, 10) == Shl7(128, 9) == Shl7(0x4000, 8) == Shl7(0x20_0000, 7) == Shl7(0x1000_0000, 6)
        == Shl7(0x8_0000_0000, 5) == Shl7(0x400_0000_0000, 4);
    } else {
      Shl7Overflows(128 * x, k - 1);
    }
  }

  lemma ReadVlqCons(acc: nat, k: nat, b: byte, rest: seq<byte>)
    requires k < 10 && acc + Shl7(b % 128, k) < TWO_64
    ensures ReadVlqFrom(acc, k, [b] + rest) ==
              if b < 128 then Ok(acc + Shl7(b % 128, k), rest)
              else ReadVlqFrom(acc + Shl7(b % 128, k), k + 1, rest)
  {
    assert ([b] + rest)[1..] == rest;
  }

  lemma Shl7Split(n: nat, k: nat)
    ensures Shl7(n, k) == Shl7(n % 128, k) + Shl7(n / 128, k + 1)
  {
    Shl7Adds(n % 128, 128 * (n / 128), k);
  }

  lemma ReadVlqDigit(acc: nat, k: nat, n: nat, suffix: seq<byte>)
    requires k < 10 && n >= 128 && acc + Shl7(n % 128, k) < TWO_64
    ensures ReadVlqFrom(acc, k, VlqBytes(n) + suffix) ==
            ReadVlqFrom(acc + Shl7(n % 128, k), k + 1, VlqBytes(n / 128) + suffix)
  {
    var b, tail := n % 128 + 128, VlqBytes(n / 128) + suffix;
    assert VlqBytes(n) + suffix == [b] + tail;
    assert b % 128 == n % 128;
    ReadVlqCons(acc, k, b, tail);
  }

  lemma {:induction false} ReadVlqFromOf(acc: nat, k: nat, n: nat, suffix: seq<byte>)
    requires n > 0 || k == 0
    requires acc + Shl7(n, k) < TWO_64
    ensures ReadVlqFrom(acc, k, VlqBytes(n) + suffix) == Ok(acc + Shl7(n, k), suffix)
    decreases n
  {
    if k >= 10 {
      Shl7Overflows(n, k);
    } else if n < 128 {
      ReadVlqCons(acc, k, n, suffix);
    } else {
      Shl7Split(n, k);
      ReadVlqDigit(acc, k, n, suffix);
      ReadVlqFromOf(acc + Shl7(n % 128, k), k + 1, n / 128, suffix);
    }
  }

  /** Every unsigned 64-bit number is read back, and nothing after it is touched. */
  lemma VlqRoundTrip(n: nat, suffix: seq<byte>)
    requires n < TWO_64
    ensures ReadVlq(VlqBytes(n) + suffix) == Ok(n, suffix)
  {
    ReadVlqFromOf(0, 0, n, suffix);
  }

  /** The encoding takes at most ten bytes. */
  lemma {:induction false} VlqLength(n: nat, digits: nat)
    requires digits > 0 && n < Pow128(digits)
    ensures |VlqBytes(n)| <= digits
  {
    if n >= 128 {
      assert Pow128(digits) == 128 * Pow128(digits - 1);
      VlqLength(n / 128, digits - 1);
    }
  }

  function Pow128(k: nat): (p: nat) {
    if k == 0 then 1 else 128 * Pow128(k - 1)
  }

  lemma VlqAtMostTenBytes(n: nat)
    requires n < TWO_64
    ensures |VlqBytes(n)| <= 10
  {
    assert Pow128(10) == 128 * 128 * 128 * 128 * 128 * Pow128(5);
    VlqLength(n, 10);
  }

  /** Signed numbers, those near zero of either sign first. */
  function ZigZag(n: int): (v: nat) {
    if n >= 0 then 2 * n else -2 * n - 1
  }

  /** `(val >> 1) as i64 ^ -((val & 1) as i64)`. */
  function UnZigZag(v: nat): (n: int) {
    if v % 2 == 0 then v / 2 else -(v / 2) - 1
  }

  /** The signed integer types; `half` is the number of their non-negative values. */
  datatype Width = W16 | W32 | W64 {
    function Half(): (h: nat) {
      match this case W16 => TWO_15 case W32 => TWO_31 case W64 => TWO_63
    }

    predicate Fits(n: int) {
      n < Half() && -n <= Half()
    }

    /** The cast from 64 bits: keeps the low bits and reads them as signed. */
    function Narrow(n: int): (r: int)
      ensures Fits(r)
    {
      match this
      case W16 => Wrap(n % (2 * TWO_15), TWO_15)
      case W32 => Wrap(n % (2 * TWO_31), TWO_31)
      case W64 => Wrap(n % (2 * TWO_63), TWO_63)
    }
  }

  function Wrap(m: nat, half: nat): (r: int) {
    if m < half then m else m - 2 * half
  }

  function ReadZigZag(buf: seq<byte>): (r: Decoded<int>)
    ensures r.Ok? ==> |r.rest| < |buf|
  {
    var r := ReadVlq(buf);
    if r.Ok? then Ok(UnZigZag(r.value), r.rest) else Err
  }

  /** `read_i16`, `read_i32` and `read_i64`. */
  function ReadInt(buf: seq<byte>, width: Width): (r: Decoded<int>)
    ensures r.Ok? ==> |r.rest| < |buf| && width.Fits(r.value)
  {
    var r := ReadZigZag(buf);
    if r.Ok? then Ok(width.Narrow(r.value), r.rest) else Err
  }

  function IntBytes(n: int): (bs: seq<byte>)
    ensures |bs| > 0
  {
    VlqBytes(ZigZag(n))
  }

  /** Every number of a signed type survives zigzag, the varint and the cast. */
  lemma IntRoundTrip(n: int, width: Width, suffix: seq<byte>)
    requires width.Fits(n)
    ensures ReadInt(IntBytes(n) + suffix, width) == Ok(n, suffix)
  {
    VlqRoundTrip(ZigZag(n), suffix);
    ZigZagInverse(n);
    NarrowFits(n, width);
  }

  lemma ZigZagInverse(n: int)
    ensures UnZigZag(ZigZag(n)) == n
  {
  }

  lemma NarrowFits(n: int, width: Width)
    requires width.Fits(n)
    ensures width.Narrow(n) == n
  {
  }

  /** The example of the protocol's specification, and the order of signed numbers. */
  lemma SpecificationExamples()
    ensures VlqBytes(50399) == [0xDF, 0x89, 0x03]
    ensures IntBytes(0) == [0] && IntBytes(-1) == [1] && IntBytes(1) == [2] && IntBytes(-2) == [3] && IntBytes(64) == [0x80, 0x01]
  {
    assert VlqBytes(3) == [3];
    assert VlqBytes(393) == [137] + VlqBytes(3) == [137, 3];
    assert VlqBytes(50399) == [223] + VlqBytes(393);
    assert VlqBytes(128) == [128] + VlqBytes(1) == [128, 1];
  }
}
