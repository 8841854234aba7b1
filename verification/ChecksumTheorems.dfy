/** The checksum against the table-driven CRC-32 of RFC 1952, and its exact detection power. */
module ChecksumTheorems {
  import opened CStrings
  import opened Folds
  import opened Checksum

  // Section 8 of RFC 1952, in its own terms.

  function TableStep(c: bv32): bv32 {
    if c & 1 != 0 then 0xEDB88320 ^ (c >> 1) else c >> 1
  }

  function TableEntry(n: bv32): bv32 {
    Iterate(TableStep, n, 8)
  }

  function TableIndex(c: bv32, b: byte): bv32 { (c ^ (b as bv32)) & 0xFF }

  function LowByte(c: bv32): bv32 { c & 0xFF }

  function HighBytes(c: bv32): bv32 { c & 0xFFFF_FF00 }

  function RfcAbsorb(c: bv32, b: byte): bv32 {
    TableEntry(TableIndex(c, b)) ^ (c >> 8)
  }

  function RfcCrc(message: seq<byte>): bv32 {
    Fold(RfcAbsorb, 0xFFFF_FFFF, message) ^ 0xFFFF_FFFF
  }

  lemma SplitLowByte(c: bv32)
    ensures Xor(LowByte(c), HighBytes(c)) == c
    ensures HighBytes(c) >> 8 == c >> 8
  {}

  lemma MixIndexesTable(c: bv32, b: byte)
    ensures LowByte(Mix(c, b)) == TableIndex(c, b)
  {}

  lemma ShiftIsTableStep(c: bv32)
    ensures Shift(c) == TableStep(c)
  {
    assert c & 1 == 0 || c & 1 == 1;
  }

  lemma {:induction false} IterateAgrees<S(!new)>(f: S -> S, g: S -> S, s: S, times: nat)
    requires forall x :: f(x) == g(x)
    ensures Iterate(f, s, times) == Iterate(g, s, times)
    decreases times
  {
    if times > 0 {
      IterateAgrees(f, g, f(s), times - 1);
    }
  }

  lemma EightStepsAreOneEntry(n: bv32)
    ensures Iterate(Shift, n, 8) == TableEntry(n)
  {
    forall c
      ensures Shift(c) == TableStep(c)
    {
      ShiftIsTableStep(c);
    }
    IterateAgrees(Shift, TableStep, n, 8);
  }

  lemma MixKeepsHighBytes(c: bv32, b: byte)
    ensures Mix(c, b) >> 8 == c >> 8
  {}

  ghost predicate HalvesEven(f: bv32 -> bv32) {
    forall d :: d & 1 == 0 ==> f(d) == d >> 1
  }

  lemma ShiftHalvesEven()
    ensures HalvesEven(Shift)
  {}

  lemma Halvings(d: bv32)
    requires d & 0xFF == 0
    ensures d & 1 == 0 && (d >> 1) & 1 == 0 && (d >> 2) & 1 == 0 && (d >> 3) & 1 == 0
    ensures (d >> 4) & 1 == 0 && (d >> 5) & 1 == 0 && (d >> 6) & 1 == 0 && (d >> 7) & 1 == 0
    ensures (d >> 1) >> 1 == d >> 2 && (d >> 2) >> 1 == d >> 3 && (d >> 3) >> 1 == d >> 4
    ensures (d >> 4) >> 1 == d >> 5 && (d >> 5) >> 1 == d >> 6 && (d >> 6) >> 1 == d >> 7 && (d >> 7) >> 1 == d >> 8
  {}

  /** With zero bits at the bottom, as many steps only shift. */
  lemma ShiftOutZeros(f: bv32 -> bv32, d: bv32)
    requires HalvesEven(f) && d & 0xFF == 0
    ensures Iterate(f, d, 8) == d >> 8
  {
    Halvings(d);
    IterateAlong(f, [d, d >> 1, d >> 2, d >> 3, d >> 4, d >> 5, d >> 6, d >> 7, d >> 8]);
  }

  lemma LowAndHighApart(f: bv32 -> bv32, c: bv32)
    requires HalvesEven(f) && Additive(f, Xor)
    ensures Iterate(f, c, 8) == Iterate(f, LowByte(c), 8) ^ (c >> 8)
  {
    SplitLowByte(c);
    IterateIsAdditive(f, Xor, LowByte(c), HighBytes(c), 8);
    ShiftOutZeros(f, HighBytes(c));
  }

  /** Eight bit steps are one table lookup. */
  lemma ByteStepIsTableLookup(c: bv32)
    ensures Iterate(Shift, c, 8) == TableEntry(LowByte(c)) ^ (c >> 8)
  {
    ShiftHalvesEven();
    ShiftIsAdditive();
    LowAndHighApart(Shift, c);
    EightStepsAreOneEntry(LowByte(c));
  }

  lemma AbsorbIsRfcAbsorb(c: bv32, b: byte)
    ensures Absorb(c, b) == RfcAbsorb(c, b)
  {
    hide Mix, LowByte, TableIndex, TableEntry;
    ByteStepIsTableLookup(Mix(c, b));
    MixKeepsHighBytes(c, b);
    MixIndexesTable(c, b);
  }

  lemma {:induction false} RegistersAgree(c: bv32, hashed: seq<byte>)
    ensures Fold(Absorb, c, hashed) == Fold(RfcAbsorb, c, hashed)
    decreases |hashed|
  {
    if hashed != [] {
      AbsorbIsRfcAbsorb(c, hashed[0]);
      RegistersAgree(Absorb(c, hashed[0]), hashed[1..]);
    }
  }

  lemma ComplementTwice(c: bv32)
    ensures !(c ^ 0xFFFF_FFFF) == c
  {}

  /** The checksum is the complement of the standard one, taken over the even offsets only. */
  lemma CrcIsComplementedRfcCrcOfEvenBytes(message: seq<byte>)
    ensures Crc(message) == !RfcCrc(EvenBytes(message))
  {
    RegistersAgree(0xFFFF_FFFF, EvenBytes(message));
    ComplementTwice(Fold(RfcAbsorb, 0xFFFF_FFFF, EvenBytes(message)));
  }

  // Detection.

  /** The polynomial has its top bit set, so the register shows whether a bit was shifted out. */
  function Unshift(d: bv32): bv32 {
    if d >> 31 == 1 then ((d ^ 0xEDB88320) << 1) | 1 else d << 1
  }

  lemma UnshiftUndoes(c: bv32)
    ensures Unshift(Shift(c)) == c
  {}

  lemma ShiftIsInjective()
    ensures Injective(Shift)
  {
    forall a, b | Shift(a) == Shift(b)
      ensures a == b
    {
      UnshiftUndoes(a);
      UnshiftUndoes(b);
    }
  }

  lemma MixIsInjective(a: bv32, b: bv32, x: byte)
    requires Mix(a, x) == Mix(b, x)
    ensures a == b
  {}

  lemma AbsorbIsInjective(a: bv32, b: bv32, x: byte)
    requires Absorb(a, x) == Absorb(b, x)
    ensures a == b
  {
    ShiftIsInjective();
    IterateIsInjective(Shift, Mix(a, x), Mix(b, x), 8);
    MixIsInjective(a, b, x);
  }

  lemma RegisterIsInjective(a: bv32, b: bv32, hashed: seq<byte>)
    requires Register(a, hashed) == Register(b, hashed)
    ensures a == b
  {
    forall r, s, x | Absorb(r, x) == Absorb(s, x)
      ensures r == s
    {
      AbsorbIsInjective(r, s, x);
    }
    FoldIsInjective(Absorb, a, b, hashed);
  }

  lemma XorIsZeroOnEqual(a: bv32, b: bv32)
    ensures Xor(a, b) == 0 <==> a == b
  {}

  function Difference(x: seq<byte>, y: seq<byte>): (d: seq<byte>)
    requires |x| == |y|
    ensures |d| == (|x| + 1) / 2
  {
    XorBytes(EvenBytes(x), EvenBytes(y))
  }

  /** Two equal-length messages collide exactly when their difference drives a zero register to zero. */
  lemma CollideExactlyWhen(x: seq<byte>, y: seq<byte>)
    requires |x| == |y|
    ensures Crc(x) == Crc(y) <==> Register(0, Difference(x, y)) == 0
  {
    RegisterIsLinear(0xFFFF_FFFF, 0xFFFF_FFFF, EvenBytes(x), EvenBytes(y));
    XorIsZeroOnEqual(0xFFFF_FFFF, 0xFFFF_FFFF);
    XorIsZeroOnEqual(Crc(x), Crc(y));
  }

  predicate AllZero(hashed: seq<byte>) {
    forall i :: 0 <= i < |hashed| ==> hashed[i] == 0
  }

  lemma {:induction false} ZerosKeepZero(hashed: seq<byte>)
    requires AllZero(hashed)
    ensures Register(0, hashed) == 0
    decreases |hashed|
  {
    if hashed != [] {
      ShiftHalvesEven();
      ShiftOutZeros(Shift, 0);
      assert Mix(0, hashed[0]) == 0;
      ZerosKeepZero(hashed[1..]);
    }
  }

  /** Up to four bytes as one little-endian word. */
  function Pack(window: seq<byte>): bv32
    requires |window| <= 4
  {
    if window == [] then 0 else Word(window[0]) | (Pack(window[1..]) << 8)
  }

  lemma PackStep(low: byte, rest: bv32)
    requires rest >> 24 == 0
    ensures Word(low) | (rest << 8) == Xor(Word(low), rest << 8)
    ensures (rest << 8) >> 8 == rest && (rest << 8) & 0xFF == 0
    ensures Word(low) | (rest << 8) == 0 <==> low == 0 && rest == 0
  {}

  lemma PackOfThree(window: seq<byte>)
    requires |window| <= 3
    ensures Pack(window) >> 24 == 0
  {
    if |window| == 0 {
    } else if |window| == 1 {
      assert Pack(window) == Word(window[0]) | (0 << 8);
    } else if |window| == 2 {
      assert Pack(window[1..]) == Word(window[1]) | (0 << 8);
    } else {
      assert Pack(window[1..][1..]) == Word(window[2]) | (0 << 8);
      assert Pack(window[1..]) == Word(window[1]) | (Pack(window[1..][1..]) << 8);
    }
  }

  lemma XorAssociates(c: bv32, low: byte, high: bv32)
    ensures Xor(c, Xor(Word(low), high)) == Xor(Mix(c, low), high)
  {}

  lemma StepsOverTwo(f: bv32 -> bv32, c: bv32, rest: bv32)
    requires HalvesEven(f) && Additive(f, Xor)
    requires (rest << 8) >> 8 == rest && (rest << 8) & 0xFF == 0
    ensures Iterate(f, Xor(c, rest << 8), 8) == Xor(Iterate(f, c, 8), rest)
  {
    IterateIsAdditive(f, Xor, c, rest << 8, 8);
    ShiftOutZeros(f, rest << 8);
  }

  lemma AbsorbThenRest(c: bv32, low: byte, rest: bv32)
    requires rest >> 24 == 0
    ensures Iterate(Shift, Xor(c, Word(low) | (rest << 8)), 8) == Xor(Absorb(c, low), rest)
  {
    PackStep(low, rest);
    XorAssociates(c, low, rest << 8);
    ShiftHalvesEven();
    ShiftIsAdditive();
    StepsOverTwo(Shift, Mix(c, low), rest);
  }

  ghost predicate AbsorbsAhead(f: bv32 -> bv32, absorb: (bv32, byte) -> bv32) {
    forall c, low, rest :: rest >> 24 == 0 ==>
      Iterate(f, Xor(c, Word(low) | (rest << 8)), 8) == Xor(absorb(c, low), rest)
  }

  lemma {:induction false} FoldOfWindow(f: bv32 -> bv32, absorb: (bv32, byte) -> bv32, c: bv32, window: seq<byte>)
    requires |window| <= 4 && AbsorbsAhead(f, absorb)
    ensures Fold(absorb, c, window) == Iterate(f, Xor(c, Pack(window)), 8 * |window|)
    decreases |window|
  {
    if window == [] {
      assert Xor(c, 0) == c;
    } else {
      PackOfThree(window[1..]);
      IterateTwice(f, Xor(c, Pack(window)), 8, 8 * (|window| - 1));
      FoldOfWindow(f, absorb, absorb(c, window[0]), window[1..]);
    }
  }

  /** Absorbing up to four bytes is one exclusive or followed by plain bit steps. */
  lemma RegisterOfWindow(c: bv32, window: seq<byte>)
    requires |window| <= 4
    ensures Register(c, window) == Iterate(Shift, Xor(c, Pack(window)), 8 * |window|)
  {
    forall r, low, rest | rest >> 24 == 0
      ensures Iterate(Shift, Xor(r, Word(low) | (rest << 8)), 8) == Xor(Absorb(r, low), rest)
    {
      AbsorbThenRest(r, low, rest);
    }
    FoldOfWindow(Shift, Absorb, c, window);
  }

  lemma AllZeroStep(window: seq<byte>)
    requires window != []
    ensures AllZero(window) <==> window[0] == 0 && AllZero(window[1..])
  {
    assert window == [window[0]] + window[1..];
  }

  lemma {:induction false} PackIsZeroOnZeros(window: seq<byte>)
    requires |window| <= 4
    ensures Pack(window) == 0 <==> AllZero(window)
    decreases |window|
  {
    if window != [] {
      PackOfThree(window[1..]);
      PackIsZeroOnZeros(window[1..]);
      AllZeroStep(window);
      PackStep(window[0], Pack(window[1..]));
    }
  }

  lemma WindowNeverCancels(window: seq<byte>)
    requires |window| <= 4 && !AllZero(window)
    ensures Register(0, window) != 0
  {
    RegisterOfWindow(0, window);
    PackIsZeroOnZeros(window);
    if Register(0, window) == 0 {
      XorWithZero(Pack(window));
      ZerosKeepZero(Zeros(|window|));
      RegisterOfWindow(0, Zeros(|window|));
      PackIsZeroOnZeros(Zeros(|window|));
      ShiftIsInjective();
      IterateIsInjective(Shift, Pack(window), 0, 8 * |window|);
    }
  }

  lemma XorWithZero(c: bv32)
    ensures Xor(0, c) == c
  {}

  lemma ZeroOnlyFromZeroWindow(before: seq<byte>, window: seq<byte>, after: seq<byte>)
    requires |window| <= 4 && AllZero(before) && AllZero(after)
    ensures Register(0, before + window + after) == 0 <==> AllZero(window)
  {
    FoldOfConcat(Absorb, 0, before + window, after);
    FoldOfConcat(Absorb, 0, before, window);
    ZerosKeepZero(before);
    ZerosKeepZero(after);
    if AllZero(window) {
      ZerosKeepZero(window);
    } else {
      WindowNeverCancels(window);
      if Register(Register(0, window), after) == Register(0, after) {
        RegisterIsInjective(Register(0, window), 0, after);
      }
    }
  }

  lemma ZeroOnlyFromZeroSlice(d: seq<byte>, start: nat, end: nat)
    requires start <= end <= |d| && end - start <= 4 && AllZero(d[..start]) && AllZero(d[end..])
    ensures Register(0, d) == 0 <==> AllZero(d[start..end])
  {
    assert d == d[..start] + d[start..end] + d[end..];
    ZeroOnlyFromZeroWindow(d[..start], d[start..end], d[end..]);
  }

  lemma XorByteIsZeroOnEqual(a: byte, b: byte)
    ensures XorByte(a, b) == 0 <==> a == b
  {}

  lemma DifferenceAt(x: seq<byte>, y: seq<byte>)
    requires |x| == |y|
    ensures forall i :: 0 <= i < |EvenBytes(x)| ==>
              (Difference(x, y)[i] == 0 <==> EvenBytes(x)[i] == EvenBytes(y)[i])
  {
    forall i | 0 <= i < |EvenBytes(x)|
      ensures Difference(x, y)[i] == 0 <==> EvenBytes(x)[i] == EvenBytes(y)[i]
    {
      XorByteIsZeroOnEqual(EvenBytes(x)[i], EvenBytes(y)[i]);
    }
  }

  /** The hashed bytes agree outside the window of `width` bytes that starts at `start`. */
  ghost predicate DifferWithin(x: seq<byte>, y: seq<byte>, start: nat, width: nat)
    requires |x| == |y|
  {
    forall i :: 0 <= i < |EvenBytes(x)| && !(start <= i < start + width) ==> EvenBytes(x)[i] == EvenBytes(y)[i]
  }

  lemma DifferenceSplits(x: seq<byte>, y: seq<byte>, start: nat, width: nat, end: nat)
    requires |x| == |y| && DifferWithin(x, y, start, width)
    requires start <= end <= |EvenBytes(x)| && (end == start + width || end == |EvenBytes(x)| <= start + width)
    ensures AllZero(Difference(x, y)[..start]) && AllZero(Difference(x, y)[end..])
    ensures AllZero(Difference(x, y)[start..end]) <==> EvenBytes(x) == EvenBytes(y)
  {
    hide EvenBytes, Difference, XorByte;
    DifferenceAt(x, y);
    var d := Difference(x, y);
    assert forall i {:trigger d[end..][i]} :: 0 <= i < |d| - end ==> d[end..][i] == d[end + i];
    forall i | start <= i < end
      ensures d[start..end][i - start] == 0 <==> EvenBytes(x)[i] == EvenBytes(y)[i]
    {}
  }

  /** Any difference confined to four consecutive hashed bytes is seen; odd offsets never are. */
  lemma BurstIsDetected(x: seq<byte>, y: seq<byte>, start: nat)
    requires |x| == |y| && start <= |EvenBytes(x)| && DifferWithin(x, y, start, 4)
    ensures Crc(x) == Crc(y) <==> EvenBytes(x) == EvenBytes(y)
  {
    var d := Difference(x, y);
    var end := if start + 4 <= |d| then start + 4 else |d|;
    DifferenceSplits(x, y, start, 4, end);
    ZeroOnlyFromZeroSlice(d, start, end);
    CollideExactlyWhen(x, y);
  }

  lemma FirstTableEntry()
    ensures Absorb(0, 1) == 0x77073096
  {
    assert Mix(0, 1) == 1;
    IterateAlong(Shift, [0x1, 0xedb88320, 0x76dc4190, 0x3b6e20c8, 0x1db71064, 0xedb8832, 0x76dc419, 0xee0e612c, 0x77073096]);
  }

  lemma PackOfFour(window: seq<byte>)
    requires window == [0x96, 0x30, 0x07, 0x77]
    ensures Pack(window) == 0x77073096
  {
    assert window[1..] == [0x30, 0x07, 0x77] && window[2..] == [0x07, 0x77] && window[3..] == [0x77];
    assert Pack(window[3..]) == Word(0x77) | (0 << 8);
    assert Pack(window[2..]) == Word(0x07) | (Pack(window[3..]) << 8);
    assert Pack(window[1..]) == Word(0x30) | (Pack(window[2..]) << 8);
  }

  lemma FiveBytesCancel()
    ensures Register(0, [1, 0x96, 0x30, 0x07, 0x77]) == 0
  {
    var rest: seq<byte> := [0x96, 0x30, 0x07, 0x77];
    FirstTableEntry();
    PackOfFour(rest);
    assert [1] + rest == [1, 0x96, 0x30, 0x07, 0x77];
    FoldOfConcat(Absorb, 0, [1], rest);
    assert Fold(Absorb, 0, [1]) == Absorb(0, 1);
    RegisterOfWindow(0x77073096, rest);
    ZerosKeepZero([0, 0, 0, 0]);
    RegisterOfWindow(0, [0, 0, 0, 0]);
    PackIsZeroOnZeros([0, 0, 0, 0]);
    XorIsZeroOnEqual(0x77073096, 0x77073096);
    XorIsZeroOnEqual(0, 0);
  }

  const FIVE_BYTES: seq<byte> := [1, 0x96, 0x30, 0x07, 0x77]

  function Zeros(length: nat): (zeros: seq<byte>)
    ensures |zeros| == length && AllZero(zeros)
  {
    seq(length, i => 0)
  }

  lemma FiveBytesCancelAnywhere(before: nat, after: nat)
    ensures Register(0, Zeros(before) + FIVE_BYTES + Zeros(after)) == 0
  {
    FoldOfConcat(Absorb, 0, Zeros(before) + FIVE_BYTES, Zeros(after));
    FoldOfConcat(Absorb, 0, Zeros(before), FIVE_BYTES);
    ZerosKeepZero(Zeros(before));
    ZerosKeepZero(Zeros(after));
    FiveBytesCancel();
  }

  lemma XorByteTwice(a: byte, b: byte)
    ensures XorByte(a, XorByte(a, b)) == b && XorByte(a, 0) == a
  {}

  /** The message with `d` combined into its hashed bytes. */
  function Flip(x: seq<byte>, d: seq<byte>): (y: seq<byte>)
    requires |d| == (|x| + 1) / 2
    ensures |y| == |x|
  {
    if x == [] then [] else
      [XorByte(x[0], d[0])] + if |x| == 1 then [] else [x[1]] + Flip(x[2..], d[1..])
  }

  lemma {:induction false} FlipAt(x: seq<byte>, d: seq<byte>, i: nat)
    requires |d| == (|x| + 1) / 2 && i < |d|
    ensures Flip(x, d)[2 * i] == XorByte(x[2 * i], d[i])
    decreases i
  {
    hide XorByte;
    if i > 0 {
      FlipAt(x[2..], d[1..], i - 1);
      var rest := Flip(x[2..], d[1..]);
      assert Flip(x, d) == [XorByte(x[0], d[0]), x[1]] + rest;
      assert Flip(x, d)[2 * i] == rest[2 * (i - 1)];
    }
  }

  lemma HashedBytesOfFlip(x: seq<byte>, d: seq<byte>)
    requires |d| == |EvenBytes(x)|
    ensures EvenBytes(Flip(x, d)) == XorBytes(EvenBytes(x), d)
  {
    hide XorByte, Flip;
    forall i | 0 <= i < |d|
      ensures EvenBytes(Flip(x, d))[i] == XorByte(EvenBytes(x)[i], d[i])
    {
      FlipAt(x, d, i);
    }
  }

  lemma DifferenceOfFlip(x: seq<byte>, d: seq<byte>)
    requires |d| == |EvenBytes(x)|
    ensures Difference(x, Flip(x, d)) == d
  {
    HashedBytesOfFlip(x, d);
    forall i | 0 <= i < |d|
      ensures Difference(x, Flip(x, d))[i] == d[i]
    {
      XorByteTwice(EvenBytes(x)[i], d[i]);
    }
  }

  /** Four is the widest guarantee: a five-byte difference can go unseen, in any message at any place. */
  lemma FiveBytesCanCollide(x: seq<byte>, start: nat) returns (y: seq<byte>)
    requires start + 5 <= |EvenBytes(x)|
    ensures |y| == |x| && DifferWithin(x, y, start, 5) && EvenBytes(y) != EvenBytes(x)
    ensures Crc(x) == Crc(y)
  {
    var after := |EvenBytes(x)| - start - 5;
    var d := Zeros(start) + FIVE_BYTES + Zeros(after);
    y := Flip(x, d);
    DifferenceOfFlip(x, d);
    DifferenceAt(x, y);
    assert d[start] == 1;
    FiveBytesCancelAnywhere(start, after);
    CollideExactlyWhen(x, y);
  }
}
