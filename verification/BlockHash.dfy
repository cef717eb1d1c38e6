/**
  The part of SHA-1 and MD5 around their compression function: blocks, the count of bits, and padding
  (FIPS 180-4, section 5.1.1; RFC 1321, sections 3.1 and 3.2). The compression function is a parameter.
 */
module BlockHash {
  import opened Bytes

  const BLOCK: nat := 64
  const TWO_TO_THE_32: nat := 0x1_0000_0000
  const TWO_TO_THE_61: nat := 0x2000_0000_0000_0000

  // ----- blocks -----

  /** The state after all whole blocks of `data`; what is left over does not matter yet. */
  function Absorb<S>(transform: (S, seq<byte>) -> S, state: S, data: seq<byte>): S
    decreases |data|
  {
    if |data| < BLOCK then state else Absorb(transform, transform(state, data[..BLOCK]), data[BLOCK..])
  }

  lemma {:induction false} AbsorbSplits<S>(transform: (S, seq<byte>) -> S, state: S, whole: seq<byte>, more: seq<byte>)
    requires |whole| % BLOCK == 0
    ensures Absorb(transform, state, whole + more) == Absorb(transform, Absorb(transform, state, whole), more)
    decreases |whole|
  {
    if whole == [] {
      assert whole + more == more;
    } else {
      SliceOfPrefix(whole, more, 0, BLOCK);
      AbsorbSplits(transform, transform(state, whole[..BLOCK]), whole[BLOCK..], more);
    }
  }

  lemma AbsorbOne<S>(transform: (S, seq<byte>) -> S, state: S, whole: seq<byte>, block: seq<byte>)
    requires |whole| % BLOCK == 0 && |block| == BLOCK
    ensures Absorb(transform, state, whole + block) == transform(Absorb(transform, state, whole), block)
  {
    AbsorbSplits(transform, state, whole, block);
    assert block[..BLOCK] == block;
  }

  /** How many octets of the message are not in a whole block. */
  function Pending(message: seq<byte>): (n: nat)
    ensures n < BLOCK && n <= |message|
  {
    |message| % BLOCK
  }

  function Whole(message: seq<byte>): (s: seq<byte>)
    ensures |s| % BLOCK == 0
  {
    message[..|message| - Pending(message)]
  }

  function Tail(message: seq<byte>): (s: seq<byte>)
    ensures |s| == Pending(message) && message == Whole(message) + s
  {
    message[|message| - Pending(message)..]
  }

  // ----- padding -----

  function Zeros(n: nat): (s: seq<byte>)
    ensures |s| == n
  {
    seq(n, i => 0)
  }

  /** How many zero octets bring the message, 0x80 and eight octets of length to whole blocks. */
  function ZerosNeeded(length: nat): (n: nat)
    ensures n < BLOCK && (length + 1 + n + 8) % BLOCK == 0
  {
    (119 - length % BLOCK) % BLOCK
  }

  function Padded(message: seq<byte>, length: seq<byte>): (s: seq<byte>)
    requires |length| == 8
    ensures |s| % BLOCK == 0
  {
    message + [0x80] + Zeros(ZerosNeeded(|message|)) + length
  }

  /** Fewer zeros would not do. */
  lemma ZerosAreFewest(length: nat, n: nat)
    requires (length + 1 + n + 8) % BLOCK == 0
    ensures ZerosNeeded(length) <= n
  {
  }

  /** A message padded so far. */
  function Marked(message: seq<byte>, zeros: nat): (s: seq<byte>)
    ensures |s| == |message| + 1 + zeros
  {
    message + [0x80] + Zeros(zeros)
  }

  lemma MarkedBegins(message: seq<byte>)
    ensures Marked(message, 0) == message + [0x80]
  {
  }

  lemma MarkedGoesOn(message: seq<byte>, zeros: nat)
    ensures Marked(message, zeros) + [0] == Marked(message, zeros + 1)
  {
    assert Zeros(zeros) + [0] == Zeros(zeros + 1);
    assert message + [0x80] + Zeros(zeros) + [0] == message + [0x80] + (Zeros(zeros) + [0]);
  }

  lemma MarkedEnds(message: seq<byte>, length: seq<byte>)
    requires |length| == 8
    ensures Marked(message, ZerosNeeded(|message|)) + length == Padded(message, length)
  {
  }

  // ----- counting bits in two words -----

  ghost predicate Counts(lo: nat, hi: nat, octets: nat) {
    lo < TWO_TO_THE_32 && hi < TWO_TO_THE_32 && hi * TWO_TO_THE_32 + lo == 8 * octets % TWO_TO_THE_64
  }

  function AddLow(lo: nat, n: nat): (r: nat)
    ensures r < TWO_TO_THE_32
  {
    (lo + 8 * n % TWO_TO_THE_32) % TWO_TO_THE_32
  }

  function AddHigh(lo: nat, hi: nat, n: nat): (r: nat)
    ensures r < TWO_TO_THE_32
  {
    (hi + (if AddLow(lo, n) < lo then 1 else 0) + n / 0x2000_0000) % TWO_TO_THE_32
  }

  /** The carry between the words is right: together they count modulo 2^64. */
  lemma CountGoesOn(lo: nat, hi: nat, octets: nat, n: nat)
    requires Counts(lo, hi, octets) && n < TWO_TO_THE_32
    ensures Counts(AddLow(lo, n), AddHigh(lo, hi, n), octets + n)
  {
    var carry := if AddLow(lo, n) < lo then 1 else 0;
    var q := 8 * octets / TWO_TO_THE_64;
    var high := hi + carry + n / 0x2000_0000;
    assert 8 * n == n / 0x2000_0000 * TWO_TO_THE_32 + 8 * n % TWO_TO_THE_32;
    assert lo + 8 * n % TWO_TO_THE_32 == carry * TWO_TO_THE_32 + AddLow(lo, n);
    assert 8 * (octets + n) == q * TWO_TO_THE_64 + high * TWO_TO_THE_32 + AddLow(lo, n);
    WordsWrap(q, high, AddLow(lo, n));
  }

  lemma WordsWrap(q: nat, high: nat, low: nat)
    requires low < TWO_TO_THE_32
    ensures
      (q * TWO_TO_THE_64 + high * TWO_TO_THE_32 + low) % TWO_TO_THE_64 == high % TWO_TO_THE_32 * TWO_TO_THE_32 + low
  {
    var k, r := high / TWO_TO_THE_32, high % TWO_TO_THE_32 * TWO_TO_THE_32 + low;
    assert q * TWO_TO_THE_64 + high * TWO_TO_THE_32 + low == (q + k) * TWO_TO_THE_64 + r;
  }

  /** The low word tells how many octets wait in the buffer. */
  lemma LowWordTells(lo: nat, hi: nat, octets: nat)
    requires Counts(lo, hi, octets)
    ensures lo / 8 % BLOCK == octets % BLOCK
  {
    var q := 8 * octets / TWO_TO_THE_64;
    assert octets == lo / 8 + BLOCK * (hi * 0x80_0000 + q * 0x80_0000_0000_0000);
  }

  /** Least significant octet first. */
  function ToLittleEndian(n: nat, width: nat): (s: seq<byte>)
    ensures |s| == width
  {
    if width == 0 then [] else [n % 256] + ToLittleEndian(n / 256, width - 1)
  }

  /** Octet i is the digit of weight 256^i. */
  lemma {:induction false} LittleEndianOctet(n: nat, width: nat, i: nat)
    requires i < width
    ensures ToLittleEndian(n, width)[i] == n / Power256(i) % 256
    decreases width
  {
    if i == 0 {
      assert Power256(0) == 1;
    } else {
      LittleEndianOctet(n / 256, width - 1, i - 1);
      DividesTwice(n, Power256(i - 1));
    }
  }

  lemma TwoWordsBigEndian(hi: nat, lo: nat)
    requires lo < TWO_TO_THE_32
    ensures ToBigEndian(hi * TWO_TO_THE_32 + lo, 8) == ToBigEndian(hi, 4) + ToBigEndian(lo, 4)
  {
    BigEndianJoins(hi, lo, 4, 4);
    assert Power256(4) == TWO_TO_THE_32 by { assert Power256(2) == 0x1_0000; }
  }

  lemma {:induction false} BigEndianJoins(hi: nat, lo: nat, width: nat, low: nat)
    requires lo < Power256(low)
    ensures ToBigEndian(hi * Power256(low) + lo, width + low) == ToBigEndian(hi, width) + ToBigEndian(lo, low)
    decreases low
  {
    if low > 0 {
      var n := hi * Power256(low) + lo;
      ShiftOut(hi, Power256(low - 1), lo);
      BigEndianJoins(hi, lo / 256, width, low - 1);
      assert ToBigEndian(hi, width) + (ToBigEndian(lo / 256, low - 1) + [lo % 256]) ==
             ToBigEndian(hi, width) + ToBigEndian(lo / 256, low - 1) + [lo % 256];
    }
  }

  lemma {:induction false} LittleEndianJoins(hi: nat, lo: nat, width: nat, low: nat)
    requires lo < Power256(low)
    ensures ToLittleEndian(hi * Power256(low) + lo, low + width) == ToLittleEndian(lo, low) + ToLittleEndian(hi, width)
    decreases low
  {
    if low > 0 {
      ShiftOut(hi, Power256(low - 1), lo);
      LittleEndianJoins(hi, lo / 256, width, low - 1);
      assert [lo % 256] + ToLittleEndian(lo / 256, low - 1) + ToLittleEndian(hi, width) ==
             [lo % 256] + (ToLittleEndian(lo / 256, low - 1) + ToLittleEndian(hi, width));
    }
  }

  lemma ShiftOut(hi: nat, p: nat, lo: nat)
    requires lo < 256 * p
    ensures (hi * (256 * p) + lo) / 256 == hi * p + lo / 256 && (hi * (256 * p) + lo) % 256 == lo % 256
    ensures lo / 256 < p
  {
    assert hi * (256 * p) == 256 * (hi * p);
  }

  lemma TwoWordsLittleEndian(hi: nat, lo: nat)
    requires lo < TWO_TO_THE_32
    ensures ToLittleEndian(hi * TWO_TO_THE_32 + lo, 8) == ToLittleEndian(lo, 4) + ToLittleEndian(hi, 4)
  {
    LittleEndianJoins(hi, lo, 4, 4);
    assert Power256(4) == TWO_TO_THE_32 by { assert Power256(2) == 0x1_0000; }
  }

  /** Octets written in either order tell the number. */
  lemma {:induction false} LittleEndianTells(m: nat, n: nat, width: nat)
    requires m < Power256(width) && n < Power256(width)
    ensures ToLittleEndian(m, width) == ToLittleEndian(n, width) <==> m == n
  {
    if width > 0 {
      var s, t := ToLittleEndian(m, width), ToLittleEndian(n, width);
      assert s[1..] == ToLittleEndian(m / 256, width - 1) && t[1..] == ToLittleEndian(n / 256, width - 1);
      if s == t {
        assert s[0] == t[0];
        LittleEndianTells(m / 256, n / 256, width - 1);
      }
    }
  }

  /** The bit counts of two messages agree exactly when their lengths do modulo 2^61. */
  lemma SameBits(m: nat, n: nat)
    ensures 8 * m % TWO_TO_THE_64 == 8 * n % TWO_TO_THE_64 <==> m % TWO_TO_THE_61 == n % TWO_TO_THE_61
  {
    EightTimes(m);
    EightTimes(n);
  }

  lemma EightTimes(n: nat)
    ensures 8 * n % TWO_TO_THE_64 == 8 * (n % TWO_TO_THE_61)
  {
    var q, r := n / TWO_TO_THE_61, n % TWO_TO_THE_61;
    Wraps(q, 8 * r);
    assert 8 * n == q * TWO_TO_THE_64 + 8 * r;
  }

  lemma Wraps(q: nat, r: nat)
    requires r < TWO_TO_THE_64
    ensures (q * TWO_TO_THE_64 + r) % TWO_TO_THE_64 == r
  {
  }

  lemma CountsNothing()
    ensures Counts(0, 0, 0)
  {
  }

  // ----- the last blocks -----

  lemma PaddedIsWhole(message: seq<byte>, length: seq<byte>)
    requires |length| == 8
    ensures Whole(Padded(message, length)) == Padded(message, length)
  {
  }

  lemma LastBlock<S>(transform: (S, seq<byte>) -> S, start: S, message: seq<byte>, length: seq<byte>)
    requires |length| == 8 && Pending(message) < 56
    ensures
      var block := Tail(message) + [0x80] + Zeros(55 - Pending(message)) + length;
      Absorb(transform, start, Padded(message, length)) == transform(Absorb(transform, start, Whole(message)), block)
  {
    var block := Tail(message) + [0x80] + Zeros(55 - Pending(message)) + length;
    assert ZerosNeeded(|message|) == 55 - Pending(message);
    assert Padded(message, length) == Whole(message) + block;
    AbsorbOne(transform, start, Whole(message), block);
  }

  lemma LastTwoBlocks<S>(transform: (S, seq<byte>) -> S, start: S, message: seq<byte>, length: seq<byte>)
    requires |length| == 8 && Pending(message) >= 56
    ensures
      var block := Tail(message) + [0x80] + Zeros(63 - Pending(message));
      var state := transform(Absorb(transform, start, Whole(message)), block);
      Absorb(transform, start, Padded(message, length)) == transform(state, Zeros(56) + length)
  {
    var block := Tail(message) + [0x80] + Zeros(63 - Pending(message));
    assert ZerosNeeded(|message|) == 119 - Pending(message);
    assert Zeros(119 - Pending(message)) == Zeros(63 - Pending(message)) + Zeros(56);
    assert Padded(message, length) == Whole(message) + block + (Zeros(56) + length);
    AbsorbOne(transform, start, Whole(message), block);
    AbsorbOne(transform, start, Whole(message) + block, Zeros(56) + length);
  }

  // ----- taking more of the message -----

  /** The message and the first `i` octets behind it are whole blocks, and the state has absorbed them. */
  ghost predicate Absorbed<S>(
    transform: (S, seq<byte>) -> S, start: S, state: S, message: seq<byte>, data: seq<byte>, i: nat)
  {
    i <= |data| && (|message| + i) % BLOCK == 0 && state == Absorb(transform, start, message + data[..i])
  }

  lemma StaysPending(message: seq<byte>, data: seq<byte>)
    requires Pending(message) + |data| < BLOCK
    ensures Whole(message + data) == Whole(message) && Tail(message + data) == Tail(message) + data
  {
    var n := |message| - Pending(message);
    assert |message + data| % BLOCK == Pending(message) + |data|;
    SliceOfPrefix(message, data, 0, n);
  }

  lemma FillsTheBlock<S>(transform: (S, seq<byte>) -> S, start: S, message: seq<byte>, data: seq<byte>)
    requires Pending(message) + |data| >= BLOCK
    ensures
      var i := BLOCK - Pending(message);
      var state := transform(Absorb(transform, start, Whole(message)), Tail(message) + data[..i]);
      Absorbed(transform, start, state, message, data, i)
  {
    var i := BLOCK - Pending(message);
    AbsorbOne(transform, start, Whole(message), Tail(message) + data[..i]);
    assert message + data[..i] == Whole(message) + (Tail(message) + data[..i]);
    assert (|message| + i) % BLOCK == 0;
  }

  lemma TakesABlock<S>(
    transform: (S, seq<byte>) -> S, start: S, state: S, message: seq<byte>, data: seq<byte>, i: nat)
    requires Absorbed(transform, start, state, message, data, i) && i + BLOCK <= |data|
    ensures Absorbed(transform, start, transform(state, data[i..i + BLOCK]), message, data, i + BLOCK)
  {
    AbsorbOne(transform, start, message + data[..i], data[i..i + BLOCK]);
    assert message + data[..i + BLOCK] == message + data[..i] + data[i..i + BLOCK];
  }

  lemma KeepsTheRest<S>(
    transform: (S, seq<byte>) -> S, start: S, state: S, message: seq<byte>, data: seq<byte>, i: nat)
    requires Absorbed(transform, start, state, message, data, i) && |data| - i < BLOCK
    ensures state == Absorb(transform, start, Whole(message + data)) && Tail(message + data) == data[i..]
  {
    assert |message + data| % BLOCK == |data| - i;
    assert Whole(message + data) == message + data[..i];
    assert Tail(message + data) == data[i..];
  }

  lemma EnoughAt56(length: nat, zeros: nat)
    requires zeros <= ZerosNeeded(length)
    ensures (length + 1 + zeros) % BLOCK == 56 <==> zeros == ZerosNeeded(length)
  {
    if (length + 1 + zeros) % BLOCK == 56 {
      ZerosAreFewest(length, zeros);
    }
  }

  /** The number of bits, modulo 2^64, in eight octets. */
  function LengthBig(octets: nat): (s: seq<byte>)
    ensures |s| == 8
  {
    ToBigEndian(8 * octets % TWO_TO_THE_64, 8)
  }

  function LengthLittle(octets: nat): (s: seq<byte>)
    ensures |s| == 8
  {
    ToLittleEndian(8 * octets % TWO_TO_THE_64, 8)
  }

  /** The eight octets of the length: most significant first for SHA-1, least significant first for MD5. */
  lemma LengthOctet(octets: nat, i: nat)
    requires i < 8
    ensures LengthBig(octets)[i] == 8 * octets % TWO_TO_THE_64 / Power256(7 - i) % 256
    ensures LengthLittle(octets)[i] == 8 * octets % TWO_TO_THE_64 / Power256(i) % 256
  {
    hide ToBigEndian, ToLittleEndian, Power256;
    BigEndianOctet(8 * octets % TWO_TO_THE_64, 8, i);
    LittleEndianOctet(8 * octets % TWO_TO_THE_64, 8, i);
  }

  lemma LengthInWords(lo: nat, hi: nat, octets: nat)
    requires Counts(lo, hi, octets)
    ensures LengthBig(octets) == ToBigEndian(hi, 4) + ToBigEndian(lo, 4)
    ensures LengthLittle(octets) == ToLittleEndian(lo, 4) + ToLittleEndian(hi, 4)
  {
    TwoWordsBigEndian(hi, lo);
    TwoWordsLittleEndian(hi, lo);
  }

  /** The test that stops SHA-1 from appending zeros, on the low word of the count. */
  lemma ZerosAreEnough(lo: nat, hi: nat, message: seq<byte>, zeros: nat)
    requires Counts(lo, hi, |Marked(message, zeros)|) && zeros <= ZerosNeeded(|message|)
    ensures lo / 8 % BLOCK * 8 == 448 <==> zeros == ZerosNeeded(|message|)
  {
    LowWordTells(lo, hi, |message| + 1 + zeros);
    EnoughAt56(|message|, zeros);
  }

  /**
    The octets of a padded message: the message, 0x80, zeros, and in the last eight the count of bits, most significant
    octet first or last; and no more than brings it to whole blocks.
   */
  lemma PaddedOctet(message: seq<byte>, i: nat)
    requires i < |Padded(message, LengthBig(|message|))|
    ensures
      var p, q := Padded(message, LengthBig(|message|)), Padded(message, LengthLittle(|message|));
      var n, bits := |p| - 8, 8 * |message| % TWO_TO_THE_64;
      && |q| == |p| && |p| % 64 == 0 && |message| + 9 <= |p| < |message| + 9 + 64
      && p[i] == (if i < |message| then message[i] else if i == |message| then 128 else if i < n then 0
                  else bits / Power256(7 - (i - n)) % 256)
      && q[i] == (if i < |message| then message[i] else if i == |message| then 128 else if i < n then 0
                  else bits / Power256(i - n) % 256)
  {
    var n := |Padded(message, LengthBig(|message|))| - 8;
    if i >= n {
      LengthOctet(|message|, i - n);
    }
    hide LengthBig, LengthLittle, Power256;
  }
}
