/** The CRC-16 kernel shared by the build host and the device: the
    reflected CRC-16/ARC update (polynomial 0xA001, initial value 0, no
    final XOR), the fold of a byte sequence through it, and the facts
    about both that the two traversals rely on. */
module Crc16 {

  /** sizeof(crc_t): the checksum and its slot in flash are 2 bytes. */
  const CrcSize: nat := 2

  /** The reflected polynomial of CRC-16/ARC. */
  const Poly: bv16 := 0xA001

  /** One round of the update: shift right by one and XOR the
      polynomial in when the bit shifted out was 1. The mask 0 - (c & 1)
      is all ones exactly when that bit is 1 (StepCases spells out the
      two cases as the C code writes them). */
  function Step(c: bv16): bv16 {
    (c >> 1) ^ (Poly & (0 - (c & 1)))
  }

  lemma StepCases(c: bv16)
    ensures c & 1 == 1 ==> Step(c) == (c >> 1) ^ Poly
    ensures c & 1 == 0 ==> Step(c) == c >> 1
  {
  }

  /** k rounds of Step, the first one applied first. */
  function Rounds(c: bv16, k: nat): bv16
    decreases k
  {
    if k == 0 then c else Rounds(Step(c), k - 1)
  }

  /** The byte-wise update: XOR the byte into the low 8 bits of the
      accumulator, then eight rounds. */
  function Update(crc: bv16, a: bv8): bv16 {
    Rounds(crc ^ a as bv16, 8)
  }

  /** The CRC of s starting from accumulator crc, the bytes taken in
      sequence order. */
  function Fold(crc: bv16, s: seq<bv8>): bv16
    decreases |s|
  {
    if |s| == 0 then crc else Update(Fold(crc, s[..|s| - 1]), s[|s| - 1])
  }

  /** The per-byte update as the C code runs it: the byte is XORed into
      the accumulator and an 8-iteration loop shifts it out. */
  method Crc16Update(crc: bv16, a: bv8) returns (r: bv16)
    ensures r == Update(crc, a)
  {
    r := crc ^ a as bv16;
    for i := 0 to 8
      invariant Rounds(r, 8 - i) == Update(crc, a)
    {
      StepCases(r);
      if r & 1 == 1 {
        r := (r >> 1) ^ Poly;
      } else {
        r := r >> 1;
      }
    }
  }

  // ---------------------------------------------------------------------
  // An independent reference: the CRC-16/ARC shift register fed one
  // message bit at a time, least significant bit first.

  /** One clock of the reflected shift register with data bit b. */
  function FeedBit(c: bv16, b: bv16): bv16
    requires b <= 1
  {
    if (c ^ b) & 1 == 1 then (c >> 1) ^ Poly else c >> 1
  }

  /** Clock the register n times, feeding the low bits of d in turn. */
  function SerialRounds(c: bv16, d: bv16, n: nat): bv16
    decreases n
  {
    if n == 0 then c else SerialRounds(FeedBit(c, d & 1), d >> 1, n - 1)
  }

  /** d shifted right n times. */
  function ShiftedOut(d: bv16, n: nat): bv16
    decreases n
  {
    if n == 0 then d else ShiftedOut(d >> 1, n - 1)
  }

  /** The bit-serial CRC-16/ARC register after taking in byte a. */
  function ArcUpdate(crc: bv16, a: bv8): bv16 {
    SerialRounds(crc, a as bv16, 8)
  }

  /** Pre-XORing the data and shifting it through the rounds is the same
      as feeding it in bit by bit, up to the data bits not yet consumed. */
  lemma {:induction false} RoundsMatchSerial(c: bv16, d: bv16, n: nat)
    ensures Rounds(c ^ d, n) == SerialRounds(c, d, n) ^ ShiftedOut(d, n)
    decreases n
  {
    if n == 0 {
      RoundsNone(c, d);
    } else {
      var f, d' := FeedBit(c, d & 1), d >> 1;
      calc {
        Rounds(c ^ d, n);
      == { RoundsOne(c, d, n); }
        Rounds(f ^ d', n - 1);
      == { RoundsMatchSerial(f, d', n - 1); }
        SerialRounds(f, d', n - 1) ^ ShiftedOut(d', n - 1);
      == { RoundsOne(c, d, n); }
        SerialRounds(c, d, n) ^ ShiftedOut(d, n);
      }
    }
  }

  lemma RoundsNone(c: bv16, d: bv16)
    ensures Rounds(c ^ d, 0) == SerialRounds(c, d, 0) ^ ShiftedOut(d, 0)
  {
  }

  /** Taking one round off all three. */
  lemma RoundsOne(c: bv16, d: bv16, n: nat)
    requires n > 0
    ensures Rounds(c ^ d, n) == Rounds(FeedBit(c, d & 1) ^ (d >> 1), n - 1)
    ensures SerialRounds(c, d, n) == SerialRounds(FeedBit(c, d & 1), d >> 1, n - 1)
    ensures ShiftedOut(d, n) == ShiftedOut(d >> 1, n - 1)
  {
    StepMatchesFeedBit(c, d);
  }

  /** One round of the pre-XORed register is one clock of the serial
      register with the rest of the data still XORed in. */
  lemma StepMatchesFeedBit(c: bv16, d: bv16)
    ensures Step(c ^ d) == FeedBit(c, d & 1) ^ (d >> 1)
  {
    if (c ^ d) & 1 == 1 {
      StepOdd(c, d);
    } else {
      StepEven(c, d);
    }
  }

  /** The two cases of StepMatchesFeedBit, by the bit that leaves the
      register: with 1 the polynomial is XORed in on both sides. */
  lemma StepOdd(c: bv16, d: bv16)
    requires (c ^ d) & 1 == 1
    ensures Step(c ^ d) == ((c >> 1) ^ Poly) ^ (d >> 1)
    ensures FeedBit(c, d & 1) == (c >> 1) ^ Poly
  {
  }

  lemma StepEven(c: bv16, d: bv16)
    requires (c ^ d) & 1 == 0
    ensures Step(c ^ d) == (c >> 1) ^ (d >> 1)
    ensures FeedBit(c, d & 1) == c >> 1
  {
  }

  /** Eight shifts push every bit of a byte out. */
  lemma ByteShiftedOut(a: bv8)
    ensures ShiftedOut(a as bv16, 8) == 0
  {
    var d := a as bv16;
    assert ShiftedOut(d, 8) == d >> 1 >> 1 >> 1 >> 1 >> 1 >> 1 >> 1 >> 1 by {
      assert ShiftedOut(d, 8) == ShiftedOut(d >> 1, 7);
      assert ShiftedOut(d >> 1, 7) == ShiftedOut(d >> 1 >> 1, 6);
      assert ShiftedOut(d >> 1 >> 1, 6) == ShiftedOut(d >> 1 >> 1 >> 1, 5);
      assert ShiftedOut(d >> 1 >> 1 >> 1, 5) == ShiftedOut(d >> 1 >> 1 >> 1 >> 1, 4);
      assert ShiftedOut(d >> 1 >> 1 >> 1 >> 1, 4) == ShiftedOut(d >> 1 >> 1 >> 1 >> 1 >> 1, 3);
      assert ShiftedOut(d >> 1 >> 1 >> 1 >> 1 >> 1, 3) == ShiftedOut(d >> 1 >> 1 >> 1 >> 1 >> 1 >> 1, 2);
      assert ShiftedOut(d >> 1 >> 1 >> 1 >> 1 >> 1 >> 1, 2) == ShiftedOut(d >> 1 >> 1 >> 1 >> 1 >> 1 >> 1 >> 1, 1);
      assert ShiftedOut(d >> 1 >> 1 >> 1 >> 1 >> 1 >> 1 >> 1, 1) == ShiftedOut(d >> 1 >> 1 >> 1 >> 1 >> 1 >> 1 >> 1 >> 1, 0);
    }
  }

  /** The byte-wise update computes the CRC-16/ARC shift register. */
  lemma UpdateIsArc(crc: bv16, a: bv8)
    ensures Update(crc, a) == ArcUpdate(crc, a)
  {
    var d := a as bv16;
    calc {
      Update(crc, a);
      Rounds(crc ^ d, 8);
    == { RoundsMatchSerial(crc, d, 8); }
      SerialRounds(crc, d, 8) ^ ShiftedOut(d, 8);
    == { ByteShiftedOut(a); }
      ArcUpdate(crc, a);
    }
  }

  // ---------------------------------------------------------------------
  // Folding

  /** Folding a concatenation threads the accumulator through the parts:
      what lets the traversals fold region after region, file after file. */
  lemma {:induction false} FoldAppend(crc: bv16, a: seq<bv8>, b: seq<bv8>)
    ensures Fold(crc, a + b) == Fold(Fold(crc, a), b)
    decreases |b|
  {
    if |b| == 0 {
      assert a + b == a;
    } else {
      var b' := b[..|b| - 1];
      assert (a + b)[..|a + b| - 1] == a + b';
      FoldAppend(crc, a, b');
    }
  }

  /** The empty input leaves the accumulator as it is; from the initial
      value 0 its CRC is 0x0000. */
  lemma FoldEmpty(crc: bv16)
    ensures Fold(crc, []) == crc
    ensures Fold(0, []) == 0x0000
  {
  }

  /** Folding one more byte is one more update. */
  lemma FoldSnoc(crc: bv16, s: seq<bv8>, a: bv8)
    ensures Fold(crc, s + [a]) == Update(Fold(crc, s), a)
  {
    assert (s + [a])[..|s|] == s;
  }

  /** The accumulator after each byte of "123456789". */
  lemma CheckSteps()
    ensures Update(0x0000, 0x31) == 0xD4C1
    ensures Update(0xD4C1, 0x32) == 0x4594
    ensures Update(0x4594, 0x33) == 0xBA04
    ensures Update(0xBA04, 0x34) == 0x14BA
    ensures Update(0x14BA, 0x35) == 0xA455
    ensures Update(0xA455, 0x36) == 0x29E4
    ensures Update(0x29E4, 0x37) == 0x9D68
    ensures Update(0x9D68, 0x38) == 0x3C9D
    ensures Update(0x3C9D, 0x39) == 0xBB3D
  {
  }

  /** The standard CRC-16/ARC check value: the ASCII digits "123456789"
      give 0xBB3D. */
  lemma CheckValue(s: seq<bv8>)
    requires s == [0x31, 0x32, 0x33, 0x34, 0x35, 0x36, 0x37, 0x38, 0x39]
    ensures Fold(0, s) == 0xBB3D
  {
    var p, q, r := s[..3], s[3..6], s[6..];
    assert s == p + q + r;
    FoldAppend(0, p + q, r);
    FoldAppend(0, p, q);
    FoldThree(0, p);
    FoldThree(Fold(0, p), q);
    FoldThree(Fold(0, p + q), r);
    CheckSteps();
  }

  /** Folding three bytes is three updates. */
  lemma FoldThree(crc: bv16, s: seq<bv8>)
    requires |s| == 3
    ensures Fold(crc, s) == Update(Update(Update(crc, s[0]), s[1]), s[2])
  {
    assert s[..2][..1] == s[..1];
    assert s[..1][..0] == [];
    assert Fold(crc, s[..1]) == Update(crc, s[0]);
    assert Fold(crc, s[..2]) == Update(Fold(crc, s[..1]), s[1]);
  }

  // ---------------------------------------------------------------------
  // Error detection: one round loses no information, so a change in a
  // single byte always changes the CRC.

  lemma StepInjective(x: bv16, y: bv16)
    requires Step(x) == Step(y)
    ensures x == y
  {
  }

  lemma {:induction false} RoundsInjective(x: bv16, y: bv16, k: nat)
    requires Rounds(x, k) == Rounds(y, k)
    ensures x == y
    decreases k
  {
    if k > 0 {
      RoundsInjective(Step(x), Step(y), k - 1);
      StepInjective(x, y);
    }
  }

  /** Distinct accumulators stay distinct after the same byte. */
  lemma UpdateInjectiveInCrc(c: bv16, c': bv16, a: bv8)
    requires c != c'
    ensures Update(c, a) != Update(c', a)
  {
    var x, y := c ^ a as bv16, c' ^ a as bv16;
    assert x != y by {
      XorInjective(c, c', a as bv16);
    }
    assert Rounds(x, 8) != Rounds(y, 8) by {
      RoundsDistinct(x, y, 8);
    }
  }

  /** Distinct bytes give distinct accumulators from the same start. */
  lemma UpdateInjectiveInByte(c: bv16, a: bv8, a': bv8)
    requires a != a'
    ensures Update(c, a) != Update(c, a')
  {
    XorInjective(a as bv16, a' as bv16, c);
    if Update(c, a) == Update(c, a') {
      RoundsInjective(c ^ a as bv16, c ^ a' as bv16, 8);
    }
  }

  lemma RoundsDistinct(x: bv16, y: bv16, k: nat)
    requires x != y
    ensures Rounds(x, k) != Rounds(y, k)
  {
    if Rounds(x, k) == Rounds(y, k) {
      RoundsInjective(x, y, k);
    }
  }

  lemma XorInjective(x: bv16, y: bv16, z: bv16)
    requires x != y
    ensures x ^ z != y ^ z && z ^ x != z ^ y
  {
  }

  /** Distinct accumulators stay distinct after the same sequence. */
  lemma {:induction false} FoldInjectiveInCrc(c: bv16, c': bv16, s: seq<bv8>)
    requires c != c'
    ensures Fold(c, s) != Fold(c', s)
    decreases |s|
  {
    if |s| > 0 {
      FoldInjectiveInCrc(c, c', s[..|s| - 1]);
      UpdateInjectiveInCrc(Fold(c, s[..|s| - 1]), Fold(c', s[..|s| - 1]), s[|s| - 1]);
    }
  }

  /** Changing any one byte of the input changes its CRC. */
  lemma SingleByteChangeDetected(c: bv16, p: seq<bv8>, a: bv8, a': bv8, q: seq<bv8>)
    requires a != a'
    ensures Fold(c, p + [a] + q) != Fold(c, p + [a'] + q)
  {
    FoldAppend(c, p + [a], q);
    FoldAppend(c, p + [a'], q);
    assert (p + [a])[..|p|] == p;
    assert (p + [a'])[..|p|] == p;
    UpdateInjectiveInByte(Fold(c, p), a, a');
    FoldInjectiveInCrc(Fold(c, p + [a]), Fold(c, p + [a']), q);
  }
}
