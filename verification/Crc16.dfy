/**
 CRC-16/MODBUS as computed by the simulator helpers and by the emulated master chip:
 initial value 0xFFFF, reflected polynomial 0xA001, low CRC byte sent first
 (MODBUS over Serial Line V1.02, section 2.5.1.2).

 Word-level facts are proved first, one small lemma each; the theory above them hides the words.
 */
module Crc16 {

  type byte = bv8

  const INITIAL: bv16 := 0xFFFF

  function Xor(a: bv16, b: bv16): bv16 { a ^ b }

  /** One shift of the CRC register. */
  function BitStep(crc: bv16): bv16 {
    if crc & 1 != 0 then (crc >> 1) ^ 0xA001 else crc >> 1
  }

  /** `n` shifts of the register. */
  function Steps(crc: bv16, n: nat): bv16 {
    if n == 0 then crc else BitStep(Steps(crc, n - 1))
  }

  function Wide(b: byte): bv16 { b as bv16 }

  /** The register after `data`, started from `crc`. */
  function CrcFrom(crc: bv16, data: seq<byte>): bv16
    decreases |data|
  {
    if data == [] then crc else Steps(Xor(CrcFrom(crc, data[..|data| - 1]), Wide(data[|data| - 1])), 8)
  }

  function Crc(data: seq<byte>): bv16 {
    CrcFrom(INITIAL, data)
  }

  function Lo(crc: bv16): byte { (crc & 0xFF) as byte }

  function Hi(crc: bv16): byte { (crc >> 8) as byte }

  function AppendCrc(payload: seq<byte>): seq<byte> {
    payload + [Lo(Crc(payload)), Hi(Crc(payload))]
  }

  /** The acceptance test of a frame. */
  predicate CrcOk(frame: seq<byte>) {
    |frame| >= 3 && Crc(frame) == 0
  }

  /** The nested loop of the source: one register, updated bit by bit. */
  method Crc16Modbus(data: seq<byte>) returns (crc: bv16)
    ensures crc == Crc(data)
  {
    crc := INITIAL;
    for i := 0 to |data|
      invariant crc == CrcFrom(INITIAL, data[..i])
    {
      crc := crc ^ (data[i] as bv16);
      ghost var mixed := crc;
      for bit := 0 to 8
        invariant crc == Steps(mixed, bit)
      {
        if crc & 1 != 0 {
          crc := (crc >> 1) ^ 0xA001;
        } else {
          crc := crc >> 1;
        }
      }
      assert data[..i + 1][..i] == data[..i];
    }
    assert data[..|data|] == data;
  }

  // ---------------------------------------------------------------- words

  predicate Odd(w: bv16) { w & 1 != 0 }

  function Half(w: bv16): bv16 { w >> 1 }

  function Word(bit: bool): bv16 { if bit then 1 else 0 }

  lemma XorLaws(a: bv16, b: bv16, c: bv16, d: bv16)
    ensures Xor(Xor(a, b), Xor(c, d)) == Xor(Xor(a, c), Xor(b, d))
    ensures Xor(a, Xor(b, c)) == Xor(Xor(a, b), c)
    ensures Xor(a, a) == 0 && Xor(a, 0) == a
    ensures Xor(a, b) == 0 <==> a == b
  {}

  lemma WordXor(p: bool, q: bool)
    ensures Xor(Word(p), Word(q)) == Word(p != q)
  {}

  lemma OddOdd(a: bv16, b: bv16)
    requires Odd(a) && Odd(b)
    ensures BitStep(Xor(a, b)) == Xor(BitStep(a), BitStep(b))
  {}

  lemma OddEven(a: bv16, b: bv16)
    requires Odd(a) && !Odd(b)
    ensures BitStep(Xor(a, b)) == Xor(BitStep(a), BitStep(b))
  {}

  lemma EvenOdd(a: bv16, b: bv16)
    requires !Odd(a) && Odd(b)
    ensures BitStep(Xor(a, b)) == Xor(BitStep(a), BitStep(b))
  {}

  lemma EvenEven(a: bv16, b: bv16)
    requires !Odd(a) && !Odd(b)
    ensures BitStep(Xor(a, b)) == Xor(BitStep(a), BitStep(b))
  {}

  lemma BitStepLinear(a: bv16, b: bv16)
    ensures BitStep(Xor(a, b)) == Xor(BitStep(a), BitStep(b))
  {
    hide *;
    if Odd(a) {
      if Odd(b) { OddOdd(a, b); } else { OddEven(a, b); }
    } else {
      if Odd(b) { EvenOdd(a, b); } else { EvenEven(a, b); }
    }
  }

  lemma BitStepInjective(a: bv16, b: bv16)
    requires BitStep(a) == BitStep(b)
    ensures a == b
  {}

  lemma BitStepOfZero()
    ensures BitStep(0) == 0
  {}

  // ---------------------------------------------------------------- the serial circuit

  function BitsOf(b: byte): (bits: seq<bool>)
    ensures |bits| == 8
  {
    [b & 1 != 0, b & 2 != 0, b & 4 != 0, b & 8 != 0, b & 16 != 0, b & 32 != 0, b & 64 != 0, b & 128 != 0]
  }

  /** The bits of a message in transmission order: bytes in order, least significant bit first. */
  function Bits(data: seq<byte>): (bits: seq<bool>)
    ensures |bits| == 8 * |data|
  {
    if data == [] then [] else Bits(data[..|data| - 1]) + BitsOf(data[|data| - 1])
  }

  function Feed(crc: bv16, bit: bool): bv16 {
    BitStep(Xor(crc, Word(bit)))
  }

  /** The register as a serial circuit fed one message bit per shift. */
  function Serial(crc: bv16, bits: seq<bool>): bv16
    decreases |bits|
  {
    if bits == [] then crc else Serial(Feed(crc, bits[0]), bits[1..])
  }

  lemma {:induction false} SerialConcat(crc: bv16, left: seq<bool>, right: seq<bool>)
    ensures Serial(crc, left + right) == Serial(Serial(crc, left), right)
    decreases |left|
  {
    hide Feed;
    if left == [] {
      assert left + right == right;
    } else {
      SerialConcat(Feed(crc, left[0]), left[1..], right);
      assert (left + right)[1..] == left[1..] + right;
    }
  }

  lemma EvenStep(w: bv16)
    ensures !Odd(Xor(w, Word(Odd(w))))
    ensures BitStep(Xor(w, Word(Odd(w)))) == Half(w)
  {}

  /** Mixing a word in at once equals feeding its lowest bit, with the others still to come. */
  lemma OneBit(crc: bv16, w: bv16)
    ensures BitStep(Xor(crc, w)) == Xor(Feed(crc, Odd(w)), Half(w))
  {
    hide Xor, BitStep, Word, Odd, Half;
    var bit := Word(Odd(w));
    XorLaws(crc, bit, w, bit);
    XorLaws(bit, bit, w, 0);
    XorLaws(Xor(crc, w), 0, 0, 0);
    BitStepLinear(Xor(crc, bit), Xor(w, bit));
    EvenStep(w);
  }

  lemma ByteBits(b: byte, w: bv16)
    requires w == Wide(b)
    ensures Odd(w) == (b & 1 != 0) && Odd(w >> 1) == (b & 2 != 0)
    ensures Odd(w >> 2) == (b & 4 != 0) && Odd(w >> 3) == (b & 8 != 0)
    ensures Odd(w >> 4) == (b & 16 != 0) && Odd(w >> 5) == (b & 32 != 0)
    ensures Odd(w >> 6) == (b & 64 != 0) && Odd(w >> 7) == (b & 128 != 0)
    ensures w >> 8 == 0
  {}

  lemma Halves(w: bv16)
    ensures Half(w) == w >> 1 && Half(w >> 1) == w >> 2 && Half(w >> 2) == w >> 3 && Half(w >> 3) == w >> 4
    ensures Half(w >> 4) == w >> 5 && Half(w >> 5) == w >> 6 && Half(w >> 6) == w >> 7 && Half(w >> 7) == w >> 8
  {}

  lemma ByteIsSerial(crc: bv16, b: byte)
    ensures Steps(Xor(crc, Wide(b)), 8) == Serial(crc, BitsOf(b))
  {
    hide Xor, BitStep, Word, Odd, Half, Feed, Steps, Serial;
    var w := Wide(b);
    ByteBits(b, w);
    Halves(w);
    var bits := BitsOf(b);
    var c1 := Feed(crc, bits[0]);
    var c2 := Feed(c1, bits[1]);
    var c3 := Feed(c2, bits[2]);
    var c4 := Feed(c3, bits[3]);
    var c5 := Feed(c4, bits[4]);
    var c6 := Feed(c5, bits[5]);
    var c7 := Feed(c6, bits[6]);
    OneBit(crc, w);
    OneBit(c1, w >> 1);
    OneBit(c2, w >> 2);
    OneBit(c3, w >> 3);
    OneBit(c4, w >> 4);
    OneBit(c5, w >> 5);
    OneBit(c6, w >> 6);
    OneBit(c7, w >> 7);
    XorLaws(Feed(c7, bits[7]), 0, 0, 0);
    StepsEight(Xor(crc, w));
    SerialEight(crc, bits);
  }

  lemma StepsEight(c: bv16)
    ensures Steps(c, 8) == BitStep(BitStep(BitStep(BitStep(BitStep(BitStep(BitStep(BitStep(c))))))))
  {
    hide BitStep;
    assert Steps(c, 2) == BitStep(Steps(c, 1)) && Steps(c, 1) == BitStep(Steps(c, 0));
    assert Steps(c, 4) == BitStep(Steps(c, 3)) && Steps(c, 3) == BitStep(Steps(c, 2));
    assert Steps(c, 6) == BitStep(Steps(c, 5)) && Steps(c, 5) == BitStep(Steps(c, 4));
    assert Steps(c, 8) == BitStep(Steps(c, 7)) && Steps(c, 7) == BitStep(Steps(c, 6));
  }

  lemma SerialEight(c: bv16, b: seq<bool>)
    requires |b| == 8
    ensures Serial(c, b)
         == Feed(Feed(Feed(Feed(Feed(Feed(Feed(Feed(c, b[0]), b[1]), b[2]), b[3]), b[4]), b[5]), b[6]), b[7])
  {
    hide Feed;
    var c2 := Feed(Feed(c, b[0]), b[1]);
    var c4 := Feed(Feed(c2, b[2]), b[3]);
    var c6 := Feed(Feed(c4, b[4]), b[5]);
    assert b[1..][1..] == b[2..] && b[2..][1..] == b[3..] && b[3..][1..] == b[4..] && b[4..][1..] == b[5..];
    assert b[5..][1..] == b[6..] && b[6..][1..] == b[7..] && b[7..][1..] == [];
    assert Serial(c, b) == Serial(c2, b[2..]);
    assert Serial(c2, b[2..]) == Serial(c4, b[4..]);
    assert Serial(c4, b[4..]) == Serial(c6, b[6..]);
    assert Serial(c6, b[6..]) == Serial(Feed(Feed(c6, b[6]), b[7]), []);
  }

  /** The byte-wise register of the source is the serial circuit over the transmitted bits. */
  lemma {:induction false} CrcIsSerial(crc: bv16, data: seq<byte>)
    ensures CrcFrom(crc, data) == Serial(crc, Bits(data))
    decreases |data|
  {
    hide Xor, Wide, Steps, Feed, BitsOf;
    if data == [] {
    } else {
      var init, last := data[..|data| - 1], data[|data| - 1];
      CrcIsSerial(crc, init);
      SerialConcat(crc, Bits(init), BitsOf(last));
      ByteIsSerial(CrcFrom(crc, init), last);
    }
  }

  // ---------------------------------------------------------------- burst detection

  function Differences(a: seq<bool>, b: seq<bool>): (r: seq<bool>)
    requires |a| == |b|
    ensures |r| == |a|
    ensures (forall i :: 0 <= i < |r| ==> !r[i]) ==> a == b
  {
    if a == [] then [] else
      var rest := Differences(a[1..], b[1..]);
      var r := [a[0] != b[0]] + rest;
      assert (forall i :: 0 <= i < |r| ==> !r[i]) ==> a == b by {
        if forall i :: 0 <= i < |r| ==> !r[i] {
          assert !r[0];
          forall i | 0 <= i < |rest| ensures !rest[i] { assert rest[i] == r[i + 1]; }
          assert a == [a[0]] + a[1..] && b == [b[0]] + b[1..];
        }
      }
      r
  }

  lemma FeedLinear(c: bv16, d: bv16, p: bool, q: bool)
    ensures Xor(Feed(c, p), Feed(d, q)) == Feed(Xor(c, d), p != q)
  {
    hide Xor, BitStep, Word;
    BitStepLinear(Xor(c, Word(p)), Xor(d, Word(q)));
    XorLaws(c, Word(p), d, Word(q));
    WordXor(p, q);
  }

  lemma {:induction false} SerialLinear(c: bv16, d: bv16, a: seq<bool>, b: seq<bool>)
    requires |a| == |b|
    ensures Xor(Serial(c, a), Serial(d, b)) == Serial(Xor(c, d), Differences(a, b))
    decreases |a|
  {
    hide Xor, Feed;
    if a == [] {
    } else {
      FeedLinear(c, d, a[0], b[0]);
      SerialLinear(Feed(c, a[0]), Feed(d, b[0]), a[1..], b[1..]);
      assert Differences(a, b)[1..] == Differences(a[1..], b[1..]);
    }
  }

  lemma {:induction false} SerialInjective(c: bv16, d: bv16, bits: seq<bool>)
    requires Serial(c, bits) == Serial(d, bits)
    ensures c == d
    decreases |bits|
  {
    hide Xor, BitStep, Word;
    if bits == [] {
    } else {
      SerialInjective(Feed(c, bits[0]), Feed(d, bits[0]), bits[1..]);
      BitStepInjective(Xor(c, Word(bits[0])), Xor(d, Word(bits[0])));
      XorInjective(c, d, Word(bits[0]));
    }
  }

  lemma XorInjective(c: bv16, d: bv16, m: bv16)
    requires Xor(c, m) == Xor(d, m)
    ensures c == d
  {}

  /** Only the lowest `n` bits of `d` may be set. */
  predicate Within(d: bv16, n: nat)
    requires n <= 16
  {
    d >> (n as bv16) == 0
  }

  lemma WithinStep(d: bv16, bit: bool, n: nat)
    requires 1 <= n <= 16
    requires Within(Feed(d, bit), n - 1)
    ensures Within(d, n)
    ensures bit == Odd(d)
    ensures Feed(d, bit) == Half(d)
  {
    hide Feed, Odd, Half;
    Predecessor(n);
    TopClear(Feed(d, bit), (n as bv16) - 1);
    FeedWithoutTop(d, bit);
    ShiftShift(d, n as bv16);
    Halves(d);
  }

  lemma Predecessor(n: nat)
    requires 1 <= n <= 16
    ensures (n - 1) as bv16 == (n as bv16) - 1
    ensures 1 <= n as bv16 <= 16
  {}

  lemma ShiftShift(x: bv16, k: bv16)
    requires 1 <= k <= 16
    ensures (x >> 1) >> (k - 1) == x >> k
  {}

  lemma TopClear(x: bv16, k: bv16)
    requires k <= 15 && x >> k == 0
    ensures x & 0x8000 == 0
  {}

  lemma FeedWithoutTop(d: bv16, bit: bool)
    requires Feed(d, bit) & 0x8000 == 0
    ensures Feed(d, bit) == Half(d)
    ensures bit == Odd(d)
  {}

  lemma ZeroIsEven()
    ensures !Odd(0) && Half(0) == 0
  {}

  /** A register cleared by at most 16 error bits held only bits those errors could cancel. */
  lemma {:induction false} ClearedBy(d: bv16, error: seq<bool>)
    requires |error| <= 16
    requires Serial(d, error) == 0
    ensures Within(d, |error|)
    ensures d == 0 ==> forall i :: 0 <= i < |error| ==> !error[i]
    decreases |error|
  {
    if error == [] {
    } else {
      hide Within, Feed, Odd, Half;
      ClearedBy(Feed(d, error[0]), error[1..]);
      WithinStep(d, error[0], |error|);
      ZeroIsEven();
      if d == 0 {
        forall i | 0 <= i < |error| ensures !error[i] {
          if i > 0 { assert error[i] == error[1..][i - 1]; }
        }
      }
    }
  }

  lemma SameBits(a: byte, b: byte)
    requires BitsOf(a) == BitsOf(b)
    ensures a == b
  {
    var p, q := BitsOf(a), BitsOf(b);
    assert p[0] == q[0] && p[1] == q[1] && p[2] == q[2] && p[3] == q[3];
    assert p[4] == q[4] && p[5] == q[5] && p[6] == q[6] && p[7] == q[7];
  }

  lemma {:induction false} BitsInjective(x: seq<byte>, y: seq<byte>)
    requires |x| == |y| && Bits(x) == Bits(y)
    ensures x == y
    decreases |x|
  {
    hide BitsOf;
    if x == [] {
    } else {
      var n := |x| - 1;
      assert Bits(x)[..8 * n] == Bits(x[..n]) && Bits(x)[8 * n..] == BitsOf(x[n]);
      assert Bits(y)[..8 * n] == Bits(y[..n]) && Bits(y)[8 * n..] == BitsOf(y[n]);
      BitsInjective(x[..n], y[..n]);
      SameBits(x[n], y[n]);
      assert x == x[..n] + [x[n]] && y == y[..n] + [y[n]];
    }
  }

  /** Serial form of the burst argument: one register, two streams that differ in a short middle. */
  lemma SerialBurst(c: bv16, head: seq<bool>, p: seq<bool>, q: seq<bool>, tail: seq<bool>)
    requires |p| == |q| <= 16
    requires Serial(c, head + p + tail) == Serial(c, head + q + tail)
    ensures p == q
  {
    hide Xor, Serial, Within;
    var d := Serial(c, head);
    SerialConcat(c, head + p, tail);
    SerialConcat(c, head, p);
    SerialConcat(c, head + q, tail);
    SerialConcat(c, head, q);
    SerialInjective(Serial(d, p), Serial(d, q), tail);
    SerialLinear(d, d, p, q);
    XorLaws(d, d, 0, 0);
    XorLaws(Serial(d, p), Serial(d, q), 0, 0);
    ClearedBy(0, Differences(p, q));
  }

  lemma InThree(p: seq<bool>, a: nat, b: nat)
    requires a <= b <= |p|
    ensures p == p[..a] + p[a..b] + p[b..]
  {}

  /** Two different messages that agree outside 16 consecutive bits never share a CRC. */
  lemma BurstDetected(x: seq<byte>, y: seq<byte>, start: nat)
    requires |x| == |y| && x != y
    requires forall i :: 0 <= i < 8 * |x| && !(start <= i < start + 16) ==> Bits(x)[i] == Bits(y)[i]
    ensures Crc(x) != Crc(y)
  {
    hide CrcFrom, Serial, BitsOf;
    if Crc(x) == Crc(y) {
      var p, q := Bits(x), Bits(y);
      var a := if start <= |p| then start else |p|;
      var b := if start + 16 <= |p| then start + 16 else |p|;
      CrcIsSerial(INITIAL, x);
      CrcIsSerial(INITIAL, y);
      InThree(p, a, b);
      InThree(q, a, b);
      assert q[..a] == p[..a] && q[b..] == p[b..];
      SerialBurst(INITIAL, p[..a], p[a..b], q[a..b], p[b..]);
      BitsInjective(x, y);
    }
  }

  lemma {:induction false} BitsAt(data: seq<byte>, i: nat, j: nat)
    requires i < |data| && j < 8
    ensures Bits(data)[8 * i + j] == BitsOf(data[i])[j]
    decreases |data|
  {
    hide BitsOf;
    if i < |data| - 1 {
      BitsAt(data[..|data| - 1], i, j);
    }
  }

  /** Byte-level reading: damage confined to one byte or to two adjacent bytes is always seen. */
  lemma AdjacentBytesDetected(frame: seq<byte>, damaged: seq<byte>, at: nat)
    requires |damaged| == |frame| && damaged != frame
    requires forall i :: 0 <= i < |frame| && i != at && i != at + 1 ==> damaged[i] == frame[i]
    requires CrcOk(frame)
    ensures !CrcOk(damaged)
  {
    hide CrcFrom, BitsOf;
    forall i | 0 <= i < 8 * |frame| && !(8 * at <= i < 8 * at + 16)
      ensures Bits(frame)[i] == Bits(damaged)[i]
    {
      BitsAt(frame, i / 8, i % 8);
      BitsAt(damaged, i / 8, i % 8);
    }
    BurstDetected(frame, damaged, 8 * at);
  }

  // ---------------------------------------------------------------- residue

  lemma ShiftsOutLowByte(c: bv16, s: bv16)
    requires c & 0xFF == 0 && s == c >> 8
    ensures BitStep(BitStep(BitStep(BitStep(BitStep(BitStep(BitStep(BitStep(c)))))))) == s
  {}

  lemma CancelLow(c: bv16)
    ensures Xor(c, Wide(Lo(c))) == c & 0xFF00
    ensures (c & 0xFF00) & 0xFF == 0
    ensures Wide(Hi(c)) == (c & 0xFF00) >> 8
  {}

  lemma AppendedResidue(payload: seq<byte>)
    ensures Crc(AppendCrc(payload)) == 0
  {
    hide Steps, Xor, Lo, Hi, Wide;
    var c := Crc(payload);
    var most, frame := payload + [Lo(c)], AppendCrc(payload);
    assert most[..|most| - 1] == payload;
    assert CrcFrom(INITIAL, most) == Steps(Xor(c, Wide(Lo(c))), 8);
    assert frame[..|frame| - 1] == most;
    assert CrcFrom(INITIAL, frame) == Steps(Xor(CrcFrom(INITIAL, most), Wide(Hi(c))), 8);
    ResidueOf(c);
  }

  lemma ResidueOf(c: bv16)
    ensures Steps(Xor(Steps(Xor(c, Wide(Lo(c))), 8), Wide(Hi(c))), 8) == 0
  {
    hide BitStep, Steps, Xor, Lo, Hi, Wide;
    CancelLow(c);
    ShiftsOutLowByte(c & 0xFF00, Wide(Hi(c)));
    StepsEight(c & 0xFF00);
    XorLaws(Wide(Hi(c)), 0, 0, 0);
    StepsEight(0);
    BitStepOfZero();
  }

  /** A frame is accepted exactly when its last two bytes are the CRC of the rest. */
  lemma CrcOkIffAppended(frame: seq<byte>)
    requires |frame| >= 3
    ensures CrcOk(frame) <==> frame == AppendCrc(frame[..|frame| - 2])
  {
    hide CrcFrom, Lo, Hi;
    var n := |frame| - 2;
    var whole := AppendCrc(frame[..n]);
    AppendedResidue(frame[..n]);
    if CrcOk(frame) && frame != whole {
      assert forall i :: 0 <= i < n ==> frame[i] == frame[..n][i];
      AdjacentBytesDetected(whole, frame, n);
    }
  }
}
