/**
 Polynomials over GF(2), division by the CRC-32 generator, and the shift
 register that carries the remainder along.
 */
module Polynomial {

  /** Coefficients over GF(2), highest power first. */
  type Bits = seq<bool>

  // ---------- polynomials ----------

  function Add(a: Bits, b: Bits): (sum: Bits)
    requires |a| == |b|
    ensures |sum| == |a|
    ensures forall i :: 0 <= i < |a| ==> sum[i] == (a[i] != b[i])
  {
    seq(|a|, i requires 0 <= i < |a| => a[i] != b[i])
  }

  function Zero(length: nat): (zero: Bits)
    ensures |zero| == length
    ensures forall i :: 0 <= i < length ==> !zero[i]
  {
    seq(length, _ => false)
  }

  function Ones(): (ones: Bits)
    ensures |ones| == 32
    ensures forall i :: 0 <= i < 32 ==> ones[i]
  {
    seq(32, _ => true)
  }

  /** The generator of CRC-32 without its leading x^32. */
  function Generator(): (g: Bits)
    ensures |g| == 32 && g[31]
  {
    seq(32, i requires 0 <= i < 32 => Tap(31 - i))
  }

  /** The powers of x below x^32 that occur in the generator. */
  predicate Tap(power: nat) {
    || power == 26 || power == 23 || power == 22 || power == 16 || power == 12 || power == 11 || power == 10
    || power == 8 || power == 7 || power == 5 || power == 4 || power == 2 || power == 1 || power == 0
  }

  /** `p` with `r` added to its 32 highest coefficients. */
  function AddFront(r: Bits, p: Bits): (sum: Bits)
    requires |r| == 32 <= |p|
    ensures |sum| == |p|
    ensures forall i :: 0 <= i < |p| ==> sum[i] == (p[i] != (i < 32 && r[i]))
  {
    Add(r, p[..32]) + p[32..]
  }

  /** Long division by x^32 + Generator(): the remainder that is left. */
  function Remainder(p: Bits): (r: Bits)
    requires |p| >= 32
    ensures |r| == 32
    decreases |p|
  {
    if |p| == 32 then p else Remainder(Subtracted(p))
  }

  /** One step of long division: the leading coefficient is cancelled. */
  function Subtracted(p: Bits): (next: Bits)
    requires |p| > 32
    ensures |next| == |p| - 1
    ensures forall i :: 0 <= i < |next| ==> next[i] == (p[i + 1] != (p[0] && i < 32 && Generator()[i]))
  {
    if p[0] then AddFront(Generator(), p[1..]) else p[1..]
  }

  /** The product with x^32 + Generator(). */
  function TimesGenerator(q: Bits): (p: Bits)
    ensures |p| == |q| + 32
    ensures |q| > 0 ==> p[0] == q[0]
    decreases |q|
  {
    if |q| == 0 then Zero(32)
    else
      var rest := TimesGenerator(q[1..]);
      [q[0]] + (if q[0] then AddFront(Generator(), rest) else rest)
  }

  lemma ProductTail(q: Bits, i: nat)
    requires |q| > 0 && i < |q| + 31
    ensures TimesGenerator(q)[i + 1] == (TimesGenerator(q[1..])[i] != (q[0] && i < 32 && Generator()[i]))
  {
  }

  /** p = q * (x^32 + Generator()) + r */
  ghost predicate IsDivision(p: Bits, q: Bits, r: Bits) {
    && |p| == |q| + 32
    && |r| == 32
    && forall i :: 0 <= i < |p| ==> AgreesAt(p, q, r, i)
  }

  ghost predicate AgreesAt(p: Bits, q: Bits, r: Bits, i: nat)
    requires |p| == |q| + 32 && |r| == 32 && i < |p|
  {
    p[i] == (TimesGenerator(q)[i] != (|q| <= i && r[i - |q|]))
  }

  lemma DivisionStepAt(p: Bits, q: Bits, r: Bits, i: nat)
    requires |q| > 0 && |p| == |q| + 32 && |r| == 32 && q[0] == p[0] && i < |p| - 1
    ensures AgreesAt(p, q, r, i + 1) <==> AgreesAt(Subtracted(p), q[1..], r, i)
  {
    ProductTail(q, i);
  }

  lemma DivisionStep(p: Bits, q: Bits, r: Bits)
    requires |q| > 0 && |p| == |q| + 32 && |r| == 32 && q[0] == p[0]
    ensures IsDivision(p, q, r) <==> IsDivision(Subtracted(p), q[1..], r)
  {
    assert AgreesAt(p, q, r, 0);
    forall i: nat | i < |p| - 1
      ensures AgreesAt(p, q, r, i + 1) <==> AgreesAt(Subtracted(p), q[1..], r, i)
    {
      DivisionStepAt(p, q, r, i);
    }
    if IsDivision(Subtracted(p), q[1..], r) {
      forall i | 0 <= i < |p| ensures AgreesAt(p, q, r, i) {
        if i > 0 {
          assert AgreesAt(Subtracted(p), q[1..], r, i - 1);
        }
      }
    }
  }

  /** Long division finds the remainder: the difference is a multiple of the generator. */
  lemma {:induction false} RemainderDivides(p: Bits) returns (q: Bits)
    requires |p| >= 32
    ensures IsDivision(p, q, Remainder(p))
    decreases |p|
  {
    if |p| == 32 {
      q := [];
    } else {
      var rest := RemainderDivides(Subtracted(p));
      q := [p[0]] + rest;
      assert q[1..] == rest;
      DivisionStep(p, q, Remainder(p));
    }
  }

  /** No other polynomial of degree below 32 is a remainder of `p`. */
  lemma {:induction false} RemainderIsUnique(p: Bits, q: Bits, r: Bits)
    requires IsDivision(p, q, r)
    ensures r == Remainder(p)
    decreases |q|
  {
    if |q| == 0 {
      forall i | 0 <= i < 32 ensures p[i] == r[i] {
        assert AgreesAt(p, q, r, i);
      }
      assert p == r;
    } else {
      assert AgreesAt(p, q, r, 0) && p[0] == TimesGenerator(q)[0] == q[0];
      DivisionStep(p, q, r);
      RemainderIsUnique(Subtracted(p), q[1..], r);
    }
  }

  // ---------- the register ----------

  /** The register after one message bit; its first element is the coefficient of x^31. */
  function Step(r: Bits, bit: bool): (next: Bits)
    requires |r| == 32
    ensures |next| == 32
  {
    if r[0] != bit then Add(r[1..] + [false], Generator()) else r[1..] + [false]
  }

  lemma StepAt(r: Bits, bit: bool)
    requires |r| == 32
    ensures forall i :: 0 <= i < 32 ==>
      Step(r, bit)[i] == ((i < 31 && r[i + 1]) != (r[0] != bit && Generator()[i]))
  {
  }

  function Feed(r: Bits, message: Bits): (next: Bits)
    requires |r| == 32
    ensures |next| == 32
    decreases |message|
  {
    if |message| == 0 then r else Feed(Step(r, message[0]), message[1..])
  }

  /** Stepping the register is one step of the division. */
  lemma StepDivides(r: Bits, bit: bool, rest: Bits)
    requires |r| == 32 <= |rest|
    ensures Subtracted(AddFront(r, [bit] + rest)) == AddFront(Step(r, bit), rest)
  {
    assert AddFront(r, [bit] + rest)[0] == (r[0] != bit);
    StepAt(r, bit);
  }

  /** The register holds the remainder of the message times x^32, the start value added in front. */
  lemma {:induction false} FeedIsRemainder(r: Bits, message: Bits)
    requires |r| == 32
    ensures Feed(r, message) == Remainder(AddFront(r, message + Zero(32)))
    decreases |message|
  {
    if |message| == 0 {
      assert AddFront(r, message + Zero(32)) == r;
    } else {
      var rest := message[1..] + Zero(32);
      assert message + Zero(32) == [message[0]] + rest;
      StepDivides(r, message[0], rest);
      FeedIsRemainder(Step(r, message[0]), message[1..]);
    }
  }

  lemma {:induction false} FeedSplits(r: Bits, front: Bits, back: Bits)
    requires |r| == 32
    ensures Feed(r, front + back) == Feed(Feed(r, front), back)
    decreases |front|
  {
    if |front| == 0 {
      assert front + back == back;
    } else {
      assert (front + back)[1..] == front[1..] + back;
      FeedSplits(Step(r, front[0]), front[1..], back);
    }
  }

  lemma StepInjective(r: Bits, s: Bits, bit: bool)
    requires |r| == |s| == 32 && Step(r, bit) == Step(s, bit)
    ensures r == s
  {
    assert Step(r, bit)[31] == (r[0] != bit);
    assert Step(s, bit)[31] == (s[0] != bit);
    forall i | 0 < i < 32 ensures r[i] == s[i] {
      assert Step(r, bit)[i - 1] == Step(s, bit)[i - 1];
    }
  }

  lemma {:induction false} FeedInjective(r: Bits, s: Bits, message: Bits)
    requires |r| == |s| == 32 && Feed(r, message) == Feed(s, message)
    ensures r == s
    decreases |message|
  {
    if |message| > 0 {
      FeedInjective(Step(r, message[0]), Step(s, message[0]), message[1..]);
      StepInjective(r, s, message[0]);
    }
  }

  lemma PreloadedStep(r: Bits, message: Bits)
    requires |r| == 32 && 0 < |message| <= 32
    ensures Step(Add(r, message + Zero(32 - |message|)), false)
         == Add(Step(r, message[0]), message[1..] + Zero(32 - |message[1..]|))
  {
    var padded, shifted := message + Zero(32 - |message|), message[1..] + Zero(32 - |message[1..]|);
    assert forall i :: 0 <= i < 32 ==> shifted[i] == (i < 31 && padded[i + 1]);
    StepAt(r, message[0]);
    StepAt(Add(r, padded), false);
  }

  /** At most 32 message bits may be added to the register at once and then shifted out. */
  lemma {:induction false} FeedPreloaded(r: Bits, message: Bits)
    requires |r| == 32 && |message| <= 32
    ensures Feed(r, message) == Feed(Add(r, message + Zero(32 - |message|)), Zero(|message|))
    decreases |message|
  {
    hide Step;
    if |message| == 0 {
      assert Add(r, message + Zero(32)) == r;
    } else {
      PreloadedStep(r, message);
      FeedPreloaded(Step(r, message[0]), message[1..]);
      assert Zero(|message|)[1..] == Zero(|message[1..]|);
    }
  }

  lemma BurstChangesRegister(r: Bits, a: Bits, b: Bits, back: Bits)
    requires |r| == 32 && |a| == |b| <= 32
    requires Feed(r, a + back) == Feed(r, b + back)
    ensures a == b
  {
    FeedSplits(r, a, back);
    FeedSplits(r, b, back);
    FeedInjective(Feed(r, a), Feed(r, b), back);
    FeedPreloaded(r, a);
    FeedPreloaded(r, b);
    var la, lb := Add(r, a + Zero(32 - |a|)), Add(r, b + Zero(32 - |b|));
    FeedInjective(la, lb, Zero(|a|));
    forall i | 0 <= i < |a| ensures a[i] == b[i] {
      assert la[i] == lb[i];
    }
  }
}
