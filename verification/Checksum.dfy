/** `crc32b` of bhw4/hash.h: what it computes, and which differences it can see. */
module Checksum {
  import opened CStrings
  import opened Folds

  function Word(b: byte): bv32 { b as bv32 }

  predicate Odd(c: bv32) { c & 1 == 1 }

  /** One bit step of the reflected CRC-32 register, as section 8 of RFC 1952 writes it. */
  function Shift(c: bv32): bv32 {
    if Odd(c) then (c >> 1) ^ 0xEDB88320 else c >> 1
  }

  function Mix(c: bv32, b: byte): bv32 { c ^ Word(b) }

  /** One hashed byte: exclusive or into the low end, then eight bit steps. */
  function Absorb(c: bv32, b: byte): bv32 {
    Iterate(Shift, Mix(c, b), 8)
  }

  /** The register after the bit loop has absorbed `hashed`. */
  function Register(c: bv32, hashed: seq<byte>): bv32 {
    Fold(Absorb, c, hashed)
  }

  /** The loop advances its index twice per round, so it reads offsets 0, 2, 4, ... */
  function EvenBytes(message: seq<byte>): (hashed: seq<byte>)
    ensures |hashed| == (|message| + 1) / 2
    ensures forall i :: 0 <= i < |hashed| ==> hashed[i] == message[2 * i]
  {
    if |message| < 2 then message else
      var rest := EvenBytes(message[2..]);
      EvenOffsets(message, rest);
      [message[0]] + rest
  }

  lemma EvenOffsets(message: seq<byte>, rest: seq<byte>)
    requires 2 <= |message| && |rest| == (|message| - 1) / 2
    requires forall i :: 0 <= i < |rest| ==> rest[i] == message[2..][2 * i]
    ensures
      var hashed := [message[0]] + rest;
      |hashed| == (|message| + 1) / 2 && forall i :: 0 <= i < |hashed| ==> hashed[i] == message[2 * i]
  {
    var hashed := [message[0]] + rest;
    forall i | 0 <= i < |hashed|
      ensures hashed[i] == message[2 * i]
    {
      if i > 0 {
        assert hashed[i] == rest[i - 1] && message[2..][2 * (i - 1)] == message[2 * i];
      }
    }
  }

  /** The register starts at all ones and is returned without the final complement. */
  function Crc(message: seq<byte>): bv32 {
    Register(0xFFFF_FFFF, EvenBytes(message))
  }

  // The imperative loop.

  function MaskedShift(c: bv32): bv32 {
    (c >> 1) ^ (0xEDB88320 & (0 - (c & 1)))
  }

  lemma MaskedShiftIsShift(c: bv32)
    ensures MaskedShift(c) == Shift(c)
  {
    assert c & 1 == 0 || c & 1 == 1;
  }

  method BitStep(c: bv32) returns (crc: bv32)
    ensures crc == Shift(c)
  {
    var mask := 0 - (c & 1);
    crc := (c >> 1) ^ (0xEDB88320 & mask);
    assert crc == MaskedShift(c);
    MaskedShiftIsShift(c);
  }

  method AbsorbByte(c: bv32, b: byte) returns (crc: bv32)
    ensures crc == Absorb(c, b)
  {
    crc := Mix(c, b);
    var j := 7;
    while j >= 0
      invariant -1 <= j <= 7
      invariant Iterate(Shift, crc, j + 1) == Absorb(c, b)
    {
      crc := BitStep(crc);
      j := j - 1;
    }
  }

  /** What is left of a message after one round of the outer loop. */
  function AfterRound(message: seq<byte>): seq<byte> {
    if |message| < 2 then [] else message[2..]
  }

  function From(message: seq<byte>, i: nat): seq<byte> {
    if i <= |message| then message[i..] else []
  }

  lemma OneRound(c: bv32, message: seq<byte>, i: nat)
    requires i < |message|
    ensures Register(c, EvenBytes(From(message, i)))
         == Register(Absorb(c, message[i]), EvenBytes(From(message, i + 2)))
  {
    var rest := From(message, i);
    assert AfterRound(rest) == From(message, i + 2);
    assert EvenBytes(rest) == [message[i]] + EvenBytes(AfterRound(rest));
  }

  lemma WholeMessage(message: seq<byte>)
    ensures From(message, 0) == message
  {}

  lemma NothingLeft(c: bv32, message: seq<byte>, i: nat)
    requires i >= |message|
    ensures Register(c, EvenBytes(From(message, i))) == c
  {
    assert From(message, i) == [];
  }

  lemma TwoIncrements(i: nat)
    requires i < UINT_RANGE - 2
    ensures ((i + 1) % UINT_RANGE + 1) % UINT_RANGE == i + 2
  {}

  method Crc32b(message: array<byte>, at: nat, len: nat) returns (crc: bv32)
    requires at + len <= message.Length
    requires len < UINT_RANGE - 1
    ensures crc == Crc(message[at..at + len])
  {
    hide Register, EvenBytes, From, Absorb;
    crc := 0xFFFF_FFFF;
    var i := 0;
    WholeMessage(message[at..at + len]);
    ghost var hashed := message[at..at + len];
    while i < len
      invariant 0 <= i <= len + 1
      invariant Register(crc, EvenBytes(From(hashed, i))) == Crc(hashed)
    {
      OneRound(crc, hashed, i);
      TwoIncrements(i);
      crc := AbsorbByte(crc, message[at + i]);
      i := (i + 1) % UINT_RANGE;
      i := (i + 1) % UINT_RANGE;
    }
    NothingLeft(crc, hashed, i);
  }

  /** The value of the unsigned 32-bit index after `rounds` rounds. */
  function IndexAfter(rounds: nat): nat {
    2 * rounds % UINT_RANGE
  }

  /** The loop guard can become false exactly when the length is below the largest unsigned value. */
  lemma LoopEndsExactlyWhen(len: nat)
    requires len < UINT_RANGE
    ensures (exists rounds :: IndexAfter(rounds) >= len) <==> len < UINT_RANGE - 1
  {
    if len < UINT_RANGE - 1 {
      var rounds := (len + 1) / 2;
      assert 2 * rounds < UINT_RANGE;
      assert IndexAfter(rounds) >= len;
    } else {
      forall rounds
        ensures IndexAfter(rounds) < len
      {
        assert IndexAfter(rounds) % 2 == 0;
      }
    }
  }

  // Linearity of the register over exclusive or.

  lemma PolynomialOnBoth(g: bv32, h: bv32)
    ensures (g ^ 0xEDB88320) ^ (h ^ 0xEDB88320) == g ^ h
  {}

  lemma PolynomialOnOne(g: bv32, h: bv32)
    ensures (g ^ 0xEDB88320) ^ h == (g ^ h) ^ 0xEDB88320
    ensures h ^ (g ^ 0xEDB88320) == (h ^ g) ^ 0xEDB88320
  {}

  lemma HalvesOfXor(a: bv32, b: bv32)
    ensures Odd(a ^ b) == (Odd(a) != Odd(b))
    ensures (a ^ b) >> 1 == (a >> 1) ^ (b >> 1)
  {}

  lemma ShiftIsLinear(a: bv32, b: bv32)
    ensures Shift(a ^ b) == Shift(a) ^ Shift(b)
  {
    HalvesOfXor(a, b);
    if Odd(a) {
      if Odd(b) { PolynomialOnBoth(a >> 1, b >> 1); } else { PolynomialOnOne(a >> 1, b >> 1); }
    } else if Odd(b) {
      PolynomialOnOne(b >> 1, a >> 1);
    }
  }

  function Xor(a: bv32, b: bv32): bv32 { a ^ b }

  function XorByte(x: byte, y: byte): byte { x ^ y }

  lemma ShiftIsAdditive()
    ensures Additive(Shift, Xor)
  {
    forall a, b
      ensures Shift(Xor(a, b)) == Xor(Shift(a), Shift(b))
    {
      ShiftIsLinear(a, b);
    }
  }

  lemma RegroupXor(a: bv32, b: bv32, x: byte, y: byte)
    ensures Mix(Xor(a, b), XorByte(x, y)) == Xor(Mix(a, x), Mix(b, y))
  {}

  lemma AbsorbIsLinear(a: bv32, b: bv32, x: byte, y: byte)
    ensures Absorb(Xor(a, b), XorByte(x, y)) == Xor(Absorb(a, x), Absorb(b, y))
  {
    RegroupXor(a, b, x, y);
    ShiftIsAdditive();
    IterateIsAdditive(Shift, Xor, Mix(a, x), Mix(b, y), 8);
  }

  function XorBytes(x: seq<byte>, y: seq<byte>): (d: seq<byte>)
    requires |x| == |y|
    ensures |d| == |x| && forall i :: 0 <= i < |x| ==> d[i] == XorByte(x[i], y[i])
  {
    seq(|x|, i requires 0 <= i < |x| => XorByte(x[i], y[i]))
  }

  lemma RegisterIsLinear(a: bv32, b: bv32, x: seq<byte>, y: seq<byte>)
    requires |x| == |y|
    ensures Register(Xor(a, b), XorBytes(x, y)) == Xor(Register(a, x), Register(b, y))
  {
    forall r, s, d, e
      ensures Absorb(Xor(r, s), XorByte(d, e)) == Xor(Absorb(r, d), Absorb(s, e))
    {
      AbsorbIsLinear(r, s, d, e);
    }
    FoldIsAdditive(Absorb, Xor, XorByte, a, b, x, y, XorBytes(x, y));
  }
}
