/**
 The CRC-32 of gzip and GPT: its definition over the bits of the message, its
 meaning as a polynomial remainder (section 8 of RFC 1952), the bursts it is
 guaranteed to catch, and the bitwise loop that computes it.
 */
module Crc32 {
  import opened Bytes
  import opened Casts
  import opened MachineWord
  import opened Polynomial

  // ---------- the checksum of bytes ----------

  /** The binary digits of `value`, least significant first. */
  function Digits(value: nat, width: nat): (bits: Bits)
    ensures |bits| == width
    decreases width
  {
    if width == 0 then [] else [value % 2 == 1] + Digits(value / 2, width - 1)
  }

  function FromDigits(bits: Bits): (value: nat)
    decreases |bits|
  {
    if |bits| == 0 then 0 else (if bits[0] then 1 else 0) + 2 * FromDigits(bits[1..])
  }

  function Power2(width: nat): nat {
    if width == 0 then 1 else 2 * Power2(width - 1)
  }

  lemma {:induction false} FromDigitsBound(bits: Bits)
    ensures FromDigits(bits) < Power2(|bits|)
    decreases |bits|
  {
    if |bits| > 0 {
      FromDigitsBound(bits[1..]);
    }
  }

  lemma Power2Of32()
    ensures Power2(32) == U32_LIMIT
  {
    assert Power2(8) == 0x100;
    assert Power2(16) == 0x1_0000;
    assert Power2(24) == 0x100_0000;
  }

  lemma {:induction false} DigitsRoundTrip(bits: Bits)
    ensures Digits(FromDigits(bits), |bits|) == bits
    decreases |bits|
  {
    if |bits| > 0 {
      DigitsRoundTrip(bits[1..]);
      assert bits == [bits[0]] + bits[1..];
    }
  }

  lemma {:induction false} DigitsInjective(a: nat, b: nat, width: nat)
    requires a < Power2(width) && b < Power2(width)
    requires Digits(a, width) == Digits(b, width)
    ensures a == b
    decreases width
  {
    if width > 0 {
      assert Digits(a, width)[0] == Digits(b, width)[0];
      assert Digits(a, width)[1..] == Digits(b, width)[1..];
      DigitsInjective(a / 2, b / 2, width - 1);
    }
  }

  /** The bits of a message in the order in which CRC-32 consumes them. */
  function MessageBits(bytes: seq<byte>): (bits: Bits)
    ensures |bits| == 8 * |bytes|
    decreases |bytes|
  {
    if |bytes| == 0 then [] else Digits(bytes[0], 8) + MessageBits(bytes[1..])
  }

  lemma {:induction false} MessageBitsSplits(a: seq<byte>, b: seq<byte>)
    ensures MessageBits(a + b) == MessageBits(a) + MessageBits(b)
    decreases |a|
  {
    if |a| == 0 {
      assert a + b == b;
    } else {
      assert (a + b)[1..] == a[1..] + b;
      MessageBitsSplits(a[1..], b);
    }
  }

  lemma {:induction false} MessageBitsInjective(a: seq<byte>, b: seq<byte>)
    requires |a| == |b| && MessageBits(a) == MessageBits(b)
    ensures a == b
    decreases |a|
  {
    if |a| > 0 {
      assert MessageBits(a)[..8] == Digits(a[0], 8) && MessageBits(b)[..8] == Digits(b[0], 8);
      assert MessageBits(a)[8..] == MessageBits(a[1..]) && MessageBits(b)[8..] == MessageBits(b[1..]);
      assert Power2(8) == 0x100;
      DigitsInjective(a[0], b[0], 8);
      MessageBitsInjective(a[1..], b[1..]);
      assert a == [a[0]] + a[1..] && b == [b[0]] + b[1..];
    }
  }

  /** The final register: all ones to begin with, complemented at the end. */
  function ChecksumBits(bytes: seq<byte>): (bits: Bits)
    ensures |bits| == 32
  {
    Add(Feed(Ones(), MessageBits(bytes)), Ones())
  }

  /** The checksum as the number that is stored on disk. */
  function Checksum(bytes: seq<byte>): (crc: u32) {
    FromDigitsBound(ChecksumBits(bytes));
    Power2Of32();
    FromDigits(ChecksumBits(bytes))
  }

  /**
   The polynomial definition: the complemented checksum is the remainder of the
   message times x^32, with its first 32 coefficients complemented, on division
   by the generator. By RemainderIsUnique it is the only one.
   */
  lemma ChecksumIsPolynomialRemainder(bytes: seq<byte>) returns (q: Bits)
    ensures IsDivision(AddFront(Ones(), MessageBits(bytes) + Zero(32)), q, Add(Digits(Checksum(bytes), 32), Ones()))
  {
    var p := AddFront(Ones(), MessageBits(bytes) + Zero(32));
    DigitsRoundTrip(ChecksumBits(bytes));
    FeedIsRemainder(Ones(), MessageBits(bytes));
    assert Add(Add(Remainder(p), Ones()), Ones()) == Remainder(p);
    q := RemainderDivides(p);
  }

  /** Two strings that differ, and only within four consecutive bytes, have different checksums. */
  lemma BurstDetected(front: seq<byte>, a: seq<byte>, b: seq<byte>, back: seq<byte>)
    requires |a| == |b| <= 4 && a != b
    ensures Checksum(front + a + back) != Checksum(front + b + back)
  {
    if Checksum(front + a + back) == Checksum(front + b + back) {
      var s, t := front + a + back, front + b + back;
      DigitsRoundTrip(ChecksumBits(s));
      DigitsRoundTrip(ChecksumBits(t));
      var rs, rt := Feed(Ones(), MessageBits(s)), Feed(Ones(), MessageBits(t));
      assert rs == rt by {
        forall i | 0 <= i < 32 ensures rs[i] == rt[i] {
          assert ChecksumBits(s)[i] == ChecksumBits(t)[i];
        }
      }
      FeedMessage(front, a, back);
      FeedMessage(front, b, back);
      BurstChangesRegister(Feed(Ones(), MessageBits(front)), MessageBits(a), MessageBits(b), MessageBits(back));
      MessageBitsInjective(a, b);
    }
  }

  lemma FeedMessage(front: seq<byte>, middle: seq<byte>, back: seq<byte>)
    ensures Feed(Ones(), MessageBits(front + middle + back))
         == Feed(Feed(Ones(), MessageBits(front)), MessageBits(middle) + MessageBits(back))
  {
    assert front + middle + back == front + (middle + back);
    MessageBitsSplits(front, middle + back);
    MessageBitsSplits(middle, back);
    FeedSplits(Ones(), MessageBits(front), MessageBits(middle + back));
  }

  // ---------- the loop ----------

  lemma OctetValue(x: bv8)
    ensures FromDigits(Octet(x)) == x as int
  {
    var o := Octet(x);
    assert FromDigits(o[7..]) == if o[7] then 1 else 0;
    assert FromDigits(o[6..]) == (if o[6] then 1 else 0) + 2 * FromDigits(o[7..]) by { assert o[6..][1..] == o[7..]; }
    assert FromDigits(o[5..]) == (if o[5] then 1 else 0) + 2 * FromDigits(o[6..]) by { assert o[5..][1..] == o[6..]; }
    assert FromDigits(o[4..]) == (if o[4] then 1 else 0) + 2 * FromDigits(o[5..]) by { assert o[4..][1..] == o[5..]; }
    assert FromDigits(o[3..]) == (if o[3] then 1 else 0) + 2 * FromDigits(o[4..]) by { assert o[3..][1..] == o[4..]; }
    assert FromDigits(o[2..]) == (if o[2] then 1 else 0) + 2 * FromDigits(o[3..]) by { assert o[2..][1..] == o[3..]; }
    assert FromDigits(o[1..]) == (if o[1] then 1 else 0) + 2 * FromDigits(o[2..]) by { assert o[1..][1..] == o[2..]; }
  }

  lemma OctetDigits(b: byte)
    ensures Octet(b as bv8) == Digits(b, 8)
  {
    OctetCast(b);
    OctetValue(b as bv8);
    DigitsRoundTrip(Octet(b as bv8));
  }

  lemma WordLoaded(before: bv32, b: byte)
    ensures Feed(Word(before ^ ((b as bv8) as bv32)), Zero(8)) == Feed(Word(before), Digits(b, 8))
  {
    var octet := b as bv8;
    WordXor(before, octet as bv32);
    WordOfOctet(octet);
    OctetDigits(b);
    FeedPreloaded(Word(before), Octet(octet));
  }

  lemma WordShifts(v: bv32, count: nat)
    requires count > 0
    ensures Feed(Word(v), Zero(count)) == Feed(Word((v >> 1) ^ (REFLECTED & (0 - (v & 1)))), Zero(count - 1))
  {
    WordStep(v);
    assert Zero(count)[1..] == Zero(count - 1);
  }

  /** One byte of the message: added to the low end of the register, then eight single-bit shifts. */
  method AbsorbByte(before: bv32, b: byte) returns (value: bv32)
    ensures Word(value) == Feed(Word(before), Digits(b, 8))
  {
    value := before ^ ((b as bv8) as bv32);
    ghost var loaded := Word(value);
    WordLoaded(before, b);
    for bit := 0 to 8
      invariant Feed(Word(value), Zero(8 - bit)) == Feed(loaded, Zero(8))
    {
      var mask: bv32 := 0 - (value & 1);
      WordShifts(value, 8 - bit);
      value := (value >> 1) ^ (REFLECTED & mask);
    }
  }

  lemma ShiftedTo(v: bv32, next: bv32, count: nat)
    requires count > 0 && next == (v >> 1) ^ (REFLECTED & (0 - (v & 1)))
    ensures Feed(Word(v), Zero(count)) == Feed(Word(next), Zero(count - 1))
  {
    WordShifts(v, count);
  }

  lemma KnownRegister()
    ensures Feed(Word(0xFFFF_FFFF), Zero(8)) == Word(0x2DFD_1072)
  {
    hide Word, Feed;
    ShiftedTo(0xFFFF_FFFF, 0x9247_7CDF, 8);
    ShiftedTo(0x9247_7CDF, 0xA49B_3D4F, 7);
    ShiftedTo(0xA49B_3D4F, 0xBFF5_1D87, 6);
    ShiftedTo(0xBFF5_1D87, 0xB242_0DE3, 5);
    ShiftedTo(0xB242_0DE3, 0xB499_85D1, 4);
    ShiftedTo(0xB499_85D1, 0xB7F4_41C8, 3);
    ShiftedTo(0xB7F4_41C8, 0x5BFA_20E4, 2);
    ShiftedTo(0x5BFA_20E4, 0x2DFD_1072, 1);
    NothingFed(Word(0x2DFD_1072));
  }

  lemma NothingFed(register: Bits)
    requires |register| == 32
    ensures Feed(register, Zero(0)) == register
  {
  }

  /** A known value: the checksum of a single zero byte is 0xD202EF8D. */
  lemma KnownChecksum()
    ensures Digits(Checksum([0]), 32) == Word(0xD202_EF8D)
  {
    hide Word, Feed;
    var ones: bv32 := 0xFFFF_FFFF;
    assert ones ^ ((0 as bv8) as bv32) == ones;
    WordOfOnes();
    KnownRegister();
    WordLoaded(ones, 0);
    assert MessageBits([0]) == Digits(0, 8);
    WordXor(0x2DFD_1072, ones);
    DigitsRoundTrip(ChecksumBits([0]));
  }

  /** The bitwise loop computes exactly the checksum. */
  method ComputeCrc32(bytes: seq<byte>) returns (crc: bv32)
    ensures FromDigits(Word(crc)) == Checksum(bytes)
  {
    var value: bv32 := 0xFFFF_FFFF;
    WordOfOnes();
    for i := 0 to |bytes|
      invariant Feed(Word(value), MessageBits(bytes[i..])) == Feed(Ones(), MessageBits(bytes))
    {
      ghost var before := value;
      value := AbsorbByte(value, bytes[i]);
      assert bytes[i..][1..] == bytes[i + 1..];
      FeedSplits(Word(before), Digits(bytes[i], 8), MessageBits(bytes[i + 1..]));
    }
    assert bytes[|bytes|..] == [];
    crc := value ^ 0xFFFF_FFFF;
    WordXor(value, 0xFFFF_FFFF);
  }
}
