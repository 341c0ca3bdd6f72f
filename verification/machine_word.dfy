/** Casts between numbers and machine words. */
module Casts {

  lemma OctetCast(b: int)
    requires 0 <= b < 0x100
    ensures (b as bv8) as int == b
  {
  }
}

/** A 32-bit machine word as a register of 32 bits, its lowest bit first. */
module MachineWord {
  import opened Polynomial

  const REFLECTED: bv32 := 0xEDB8_8320

  function Mask(place: nat): (m: bv32)
    ensures m & (m - 1) == 0
  {
    if place == 0 then 1 else MaskDoubles(Mask(place - 1)); Mask(place - 1) << 1
  }

  lemma MaskDoubles(m: bv32)
    requires m & (m - 1) == 0
    ensures (m << 1) & ((m << 1) - 1) == 0
  {
  }

  lemma MaskValues()
    ensures Mask(0) == 0x1
    ensures Mask(1) == 0x2
    ensures Mask(2) == 0x4
    ensures Mask(3) == 0x8
    ensures Mask(4) == 0x10
    ensures Mask(5) == 0x20
    ensures Mask(6) == 0x40
    ensures Mask(7) == 0x80
    ensures Mask(8) == 0x100
    ensures Mask(9) == 0x200
    ensures Mask(10) == 0x400
    ensures Mask(11) == 0x800
    ensures Mask(12) == 0x1000
    ensures Mask(13) == 0x2000
    ensures Mask(14) == 0x4000
    ensures Mask(15) == 0x8000
    ensures Mask(16) == 0x10000
    ensures Mask(17) == 0x20000
    ensures Mask(18) == 0x40000
    ensures Mask(19) == 0x80000
    ensures Mask(20) == 0x100000
    ensures Mask(21) == 0x200000
    ensures Mask(22) == 0x400000
    ensures Mask(23) == 0x800000
    ensures Mask(24) == 0x1000000
    ensures Mask(25) == 0x2000000
    ensures Mask(26) == 0x4000000
    ensures Mask(27) == 0x8000000
    ensures Mask(28) == 0x10000000
    ensures Mask(29) == 0x20000000
    ensures Mask(30) == 0x40000000
    ensures Mask(31) == 0x80000000
    ensures Mask(32) == 0
  {
    assert Mask(1) == 0x2;
    assert Mask(2) == 0x4;
    assert Mask(3) == 0x8;
    assert Mask(4) == 0x10;
    assert Mask(5) == 0x20;
    assert Mask(6) == 0x40;
    assert Mask(7) == 0x80;
    assert Mask(8) == 0x100;
    assert Mask(9) == 0x200;
    assert Mask(10) == 0x400;
    assert Mask(11) == 0x800;
    assert Mask(12) == 0x1000;
    assert Mask(13) == 0x2000;
    assert Mask(14) == 0x4000;
    assert Mask(15) == 0x8000;
    assert Mask(16) == 0x10000;
    assert Mask(17) == 0x20000;
    assert Mask(18) == 0x40000;
    assert Mask(19) == 0x80000;
    assert Mask(20) == 0x100000;
    assert Mask(21) == 0x200000;
    assert Mask(22) == 0x400000;
    assert Mask(23) == 0x800000;
    assert Mask(24) == 0x1000000;
    assert Mask(25) == 0x2000000;
    assert Mask(26) == 0x4000000;
    assert Mask(27) == 0x8000000;
    assert Mask(28) == 0x10000000;
    assert Mask(29) == 0x20000000;
    assert Mask(30) == 0x40000000;
    assert Mask(31) == 0x80000000;
  }

  /** The bit of a machine word at the given place, counted from the lowest. */
  predicate Bit(v: bv32, place: nat) {
    v & Mask(place) != 0
  }

  /** The bits of a machine word, least significant first. */
  function Word(v: bv32): (bits: Bits)
    ensures |bits| == 32
  {
    seq(32, place requires 0 <= place < 32 => Bit(v, place))
  }

  function Octet(x: bv8): (bits: Bits)
    ensures |bits| == 8
  {
    [x & 0x1 != 0, x & 0x2 != 0, x & 0x4 != 0, x & 0x8 != 0,
     x & 0x10 != 0, x & 0x20 != 0, x & 0x40 != 0, x & 0x80 != 0]
  }

  lemma WordOfOnes()
    ensures Word(0xFFFF_FFFF) == Ones()
  {
    forall place: nat | place < 32 ensures Bit(0xFFFF_FFFF, place) {
      MaskValues();
    }
  }

  lemma WordXor(v: bv32, w: bv32)
    ensures Word(v ^ w) == Add(Word(v), Word(w))
  {
    forall place: nat | place < 32 ensures Bit(v ^ w, place) == (Bit(v, place) != Bit(w, place)) {
      XorBits(v, w, place);
    }
  }

  lemma XorBits(v: bv32, w: bv32, place: nat)
    requires place < 32
    ensures Bit(v ^ w, place) == (Bit(v, place) != Bit(w, place))
  {
    XorMasked(v, w, Mask(place));
  }

  lemma XorMasked(v: bv32, w: bv32, m: bv32)
    requires m & (m - 1) == 0
    ensures ((v ^ w) & m != 0) == ((v & m != 0) != (w & m != 0))
  {
  }

  lemma WordOfOctet(x: bv8)
    ensures Word(x as bv32) == Octet(x) + Zero(24)
  {
    forall place: nat | place < 32 ensures Word(x as bv32)[place] == (Octet(x) + Zero(24))[place] {
      OctetBits(x, place);
    }
  }

  lemma OctetBits(x: bv8, place: nat)
    requires place < 32
    ensures Bit(x as bv32, place) == (place < 8 && Octet(x)[place])
  {
    MaskValues();
    if place < 8 {
      LowMasks(x);
    } else {
      HighMasks(x, place);
    }
  }

  lemma LowMasks(x: bv8)
    ensures ((x as bv32) & 0x1 != 0) == (x & 0x1 != 0)
    ensures ((x as bv32) & 0x2 != 0) == (x & 0x2 != 0)
    ensures ((x as bv32) & 0x4 != 0) == (x & 0x4 != 0)
    ensures ((x as bv32) & 0x8 != 0) == (x & 0x8 != 0)
    ensures ((x as bv32) & 0x10 != 0) == (x & 0x10 != 0)
    ensures ((x as bv32) & 0x20 != 0) == (x & 0x20 != 0)
    ensures ((x as bv32) & 0x40 != 0) == (x & 0x40 != 0)
    ensures ((x as bv32) & 0x80 != 0) == (x & 0x80 != 0)
  {
  }

  lemma HighMasks(x: bv8, place: nat)
    requires 8 <= place
    ensures Mask(place) & 0xFF == 0
    ensures !Bit(x as bv32, place)
  {
    MaskValues();
    if place > 8 {
      HighMasks(x, place - 1);
    }
  }

  /** The shift and masked exclusive-or of the loop is one step of the register. */
  lemma WordStep(v: bv32)
    ensures Word((v >> 1) ^ (REFLECTED & (0 - (v & 1)))) == Step(Word(v), false)
  {
    var next := (v >> 1) ^ (REFLECTED & (0 - (v & 1)));
    var stepped := Step(Word(v), false);
    TopBits(v);
    forall place: nat | place < 32 ensures Bit(next, place) == stepped[place] {
      StepBits(v, place);
      StepAt(Word(v), false);
    }
  }

  lemma TopBits(v: bv32)
    ensures Bit(v, 0) == (v & 1 != 0)
    ensures !Bit(v, 32)
  {
    MaskValues();
  }

  lemma StepBits(v: bv32, place: nat)
    requires place < 32
    ensures Bit((v >> 1) ^ (REFLECTED & (0 - (v & 1))), place)
         == (Bit(v, place + 1) != (v & 1 != 0 && Generator()[place]))
  {
    StepMasked(v, Mask(place));
    GeneratorMasks(place);
  }

  lemma StepMasked(v: bv32, m: bv32)
    requires m & (m - 1) == 0
    ensures (((v >> 1) ^ (REFLECTED & (0 - (v & 1)))) & m != 0)
         == ((v & (m << 1) != 0) != (v & 1 != 0 && REFLECTED & m != 0))
  {
  }

  lemma GeneratorMasks(place: nat)
    requires place < 32
    ensures (REFLECTED & Mask(place) != 0) == Tap(31 - place)
  {
    MaskValues();
  }
}
