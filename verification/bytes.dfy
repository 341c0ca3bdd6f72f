/** Bytes, fixed-width integers, and their little-endian layout. */
module Bytes {

  type byte = n: int | 0 <= n < 0x100
  type u16 = n: int | 0 <= n < 0x1_0000
  type u32 = n: int | 0 <= n < 0x1_0000_0000
  type u64 = n: int | 0 <= n < 0x1_0000_0000_0000_0000

  const U32_LIMIT: int := 0x1_0000_0000
  const U64_LIMIT: int := 0x1_0000_0000_0000_0000

  /** 256 to the power `width`: the number of values that `width` bytes can hold. */
  function Capacity(width: nat): (c: nat)
    ensures c > 0
  {
    if width == 0 then 1 else 0x100 * Capacity(width - 1)
  }

  /** The `width` low-order bytes of `value`, least significant first. */
  function Little(value: nat, width: nat): (s: seq<byte>)
    ensures |s| == width
    decreases width
  {
    if width == 0 then [] else [value % 0x100] + Little(value / 0x100, width - 1)
  }

  /** The number that the bytes denote, least significant first. */
  function FromLittle(s: seq<byte>): (value: nat)
  {
    if |s| == 0 then 0 else s[0] + 0x100 * FromLittle(s[1..])
  }

  lemma {:induction false} FromLittleBound(s: seq<byte>)
    ensures FromLittle(s) < Capacity(|s|)
  {
    if |s| > 0 {
      FromLittleBound(s[1..]);
    }
  }

  lemma {:induction false} LittleRoundTrip(value: nat, width: nat)
    requires value < Capacity(width)
    ensures FromLittle(Little(value, width)) == value
    decreases width
  {
    if width > 0 {
      LittleRoundTrip(value / 0x100, width - 1);
      assert Little(value, width)[1..] == Little(value / 0x100, width - 1);
    }
  }

  lemma {:induction false} FromLittleRoundTrip(s: seq<byte>)
    ensures Little(FromLittle(s), |s|) == s
  {
    if |s| > 0 {
      FromLittleRoundTrip(s[1..]);
      assert FromLittle(s) % 0x100 == s[0];
      assert FromLittle(s) / 0x100 == FromLittle(s[1..]);
      assert s == [s[0]] + s[1..];
    }
  }

  lemma Capacities()
    ensures Capacity(1) == 0x100
    ensures Capacity(2) == 0x1_0000
    ensures Capacity(4) == U32_LIMIT
    ensures Capacity(8) == U64_LIMIT
  {
    assert Capacity(1) == 0x100;
    assert Capacity(2) == 0x1_0000;
    assert Capacity(3) == 0x100_0000;
    assert Capacity(4) == U32_LIMIT;
    assert Capacity(5) == 0x100_0000_0000;
    assert Capacity(6) == 0x1_0000_0000_0000;
    assert Capacity(7) == 0x100_0000_0000_0000;
  }

  function U16At(s: seq<byte>, offset: nat): u16
    requires offset + 2 <= |s|
  {
    FromLittleBound(s[offset..offset + 2]);
    Capacities();
    FromLittle(s[offset..offset + 2])
  }

  function U32At(s: seq<byte>, offset: nat): u32
    requires offset + 4 <= |s|
  {
    FromLittleBound(s[offset..offset + 4]);
    Capacities();
    FromLittle(s[offset..offset + 4])
  }

  function U64At(s: seq<byte>, offset: nat): u64
    requires offset + 8 <= |s|
  {
    FromLittleBound(s[offset..offset + 8]);
    Capacities();
    FromLittle(s[offset..offset + 8])
  }

  lemma FromLittleOne(s: seq<byte>)
    requires |s| == 1
    ensures FromLittle(s) == s[0]
  {
  }

  /** The bytes of a field count from the least significant one. */
  lemma U16Bytes(s: seq<byte>, offset: nat)
    requires offset + 2 <= |s|
    ensures U16At(s, offset) == 0x100 * (s[offset + 1] as int) + s[offset]
  {
    FromLittleOne(s[offset + 1..offset + 2]);
    assert s[offset..offset + 2][1..] == s[offset + 1..offset + 2];
  }

  lemma U32Bytes(s: seq<byte>, offset: nat)
    requires offset + 4 <= |s|
    ensures U32At(s, offset)
         == 0x100_0000 * (s[offset + 3] as int) + 0x1_0000 * (s[offset + 2] as int) + 0x100 * (s[offset + 1] as int)
            + s[offset]
  {
    FromLittleOne(s[offset + 3..offset + 4]);
    assert s[offset..offset + 4][1..] == s[offset + 1..offset + 4];
    assert s[offset + 1..offset + 4][1..] == s[offset + 2..offset + 4];
    assert s[offset + 2..offset + 4][1..] == s[offset + 3..offset + 4];
    var third, second := FromLittle(s[offset + 2..offset + 4]), FromLittle(s[offset + 1..offset + 4]);
    assert third == s[offset + 2] + 0x100 * (s[offset + 3] as int);
    assert second == s[offset + 1] + 0x100 * third;
  }

  lemma U16Stored(s: seq<byte>, offset: nat, value: u16)
    requires offset + 2 <= |s| && s[offset..offset + 2] == Little(value, 2)
    ensures U16At(s, offset) == value
  {
    Capacities();
    LittleRoundTrip(value, 2);
  }

  lemma U32Stored(s: seq<byte>, offset: nat, value: u32)
    requires offset + 4 <= |s| && s[offset..offset + 4] == Little(value, 4)
    ensures U32At(s, offset) == value
  {
    Capacities();
    LittleRoundTrip(value, 4);
  }

  lemma U64Stored(s: seq<byte>, offset: nat, value: u64)
    requires offset + 8 <= |s| && s[offset..offset + 8] == Little(value, 8)
    ensures U64At(s, offset) == value
  {
    Capacities();
    LittleRoundTrip(value, 8);
  }

  function Zeros(count: nat): (s: seq<byte>)
    ensures |s| == count
    ensures forall i :: 0 <= i < count ==> s[i] == 0
  {
    seq(count, _ => 0)
  }

  /** `s` with the bytes from `offset` on replaced by `patch`. */
  function Splice(s: seq<byte>, offset: nat, patch: seq<byte>): (r: seq<byte>)
    requires offset + |patch| <= |s|
    ensures |r| == |s|
    ensures r[offset..offset + |patch|] == patch
    ensures forall i :: 0 <= i < |s| && !(offset <= i < offset + |patch|) ==> r[i] == s[i]
  {
    s[..offset] + patch + s[offset + |patch|..]
  }

  /** Writing just behind a finished prefix of a zeroed buffer extends the prefix. */
  lemma SpliceExtends(prefix: seq<byte>, room: nat, patch: seq<byte>)
    requires |patch| <= room
    ensures Splice(prefix + Zeros(room), |prefix|, patch) == prefix + patch + Zeros(room - |patch|)
  {
  }

  /** A slice that the patch does not touch keeps its bytes. */
  lemma SpliceElsewhere(s: seq<byte>, offset: nat, patch: seq<byte>, lo: nat, hi: nat)
    requires offset + |patch| <= |s|
    requires lo <= hi <= |s|
    requires hi <= offset || offset + |patch| <= lo
    ensures Splice(s, offset, patch)[lo..hi] == s[lo..hi]
  {
  }

  lemma SubSlice(s: seq<byte>, lo: nat, hi: nat, a: nat, b: nat)
    requires lo <= hi <= |s| && a <= b <= hi - lo
    ensures s[lo..hi][a..b] == s[lo + a..lo + b]
  {
    var inner, direct := s[lo..hi][a..b], s[lo + a..lo + b];
    forall i | 0 <= i < b - a ensures inner[i] == direct[i] {
      assert s[lo..hi][a + i] == s[lo + a + i];
    }
  }

  /** Copies `patch` into the buffer, as memcpy and std::copy do in the source. */
  method Store(buffer: array<byte>, offset: nat, patch: seq<byte>)
    requires offset + |patch| <= buffer.Length
    modifies buffer
    ensures buffer[..] == Splice(old(buffer[..]), offset, patch)
  {
    forall i | 0 <= i < |patch| {
      buffer[offset + i] := patch[i];
    }
  }
}
