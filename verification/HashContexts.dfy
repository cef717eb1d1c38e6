/** SHA-1 and MD5 over a message that is handed over in pieces. */
module HashContexts {
  import opened BlockHash
  import opened Bytes

  /** What a context keeps between calls: the state, and the octets that wait for their block to be complete. */
  ghost predicate Keeps<S>(
    transform: (S, seq<byte>) -> S, start: S, state: S, waiting: seq<byte>, message: seq<byte>)
  {
    |waiting| == BLOCK && state == Absorb(transform, start, Whole(message)) &&
      waiting[..Pending(message)] == Tail(message)
  }

  lemma KeepsNothing<S>(transform: (S, seq<byte>) -> S, start: S, waiting: seq<byte>)
    requires |waiting| == BLOCK
    ensures Keeps(transform, start, start, waiting, []) && Pending([]) == 0 % BLOCK
  {
  }

  lemma WaitsTogether<S>(
    transform: (S, seq<byte>) -> S, start: S, state: S, was: seq<byte>, now: seq<byte>,
    message: seq<byte>, data: seq<byte>)
    requires Keeps(transform, start, state, was, message)
    requires |now| == BLOCK && Pending(message) + |data| < BLOCK
    requires now[..Pending(message) + |data|] == was[..Pending(message)] + data
    ensures Keeps(transform, start, state, now, message + data)
  {
    StaysPending(message, data);
  }

  lemma BlockIsFull<S>(
    transform: (S, seq<byte>) -> S, start: S, state: S, was: seq<byte>, now: seq<byte>,
    message: seq<byte>, data: seq<byte>)
    requires Keeps(transform, start, state, was, message)
    requires |now| == BLOCK && Pending(message) + |data| >= BLOCK
    requires now == was[..Pending(message)] + data[..BLOCK - Pending(message)]
    ensures Absorbed(transform, start, transform(state, now), message, data, BLOCK - Pending(message))
  {
    FillsTheBlock(transform, start, message, data);
  }

  lemma RestWaits<S>(
    transform: (S, seq<byte>) -> S, start: S, state: S, now: seq<byte>, message: seq<byte>, data: seq<byte>, i: nat)
    requires Absorbed(transform, start, state, message, data, i) && |data| - i < BLOCK
    requires |now| == BLOCK && now[..|data| - i] == data[i..]
    ensures Keeps(transform, start, state, now, message + data)
  {
    KeepsTheRest(transform, start, state, message, data, i);
  }

  /** memcpy into the block buffer. */
  method Fill(buffer: array<byte>, at: nat, data: seq<byte>)
    requires at + |data| <= buffer.Length
    modifies buffer
    ensures buffer[..at + |data|] == old(buffer[..at]) + data
  {
    ghost var was := buffer[..];
    forall k | 0 <= k < |data| {
      buffer[at + k] := data[k];
    }
    SameElements(buffer[..at + |data|], was[..at] + data);
  }

  class Sha1<S> {
    const transform: (S, seq<byte>) -> S
    const start: S
    const buffer: array<byte>
    var state: S
    var lo: nat
    var hi: nat
    ghost var message: seq<byte>

    ghost predicate Valid()
      reads this, buffer
    {
      buffer.Length == BLOCK && Counts(lo, hi, |message|) && Keeps(transform, start, state, buffer[..], message)
    }

    constructor (transform: (S, seq<byte>) -> S, start: S)
      ensures Valid() && message == [] && fresh(buffer)
      ensures this.transform == transform && this.start == start
    {
      this.transform, this.start := transform, start;
      buffer := new byte[BLOCK];
      state, lo, hi, message := start, 0, 0, [];
      new;
      KeepsNothing(transform, start, buffer[..]);
      CountsNothing();
      hide Keeps, Counts, Pending;
    }

    /** Counts the bits of `n` octets; tells how many octets waited before. */
    method Count(n: nat) returns (j: nat)
      requires Counts(lo, hi, |message|) && n < TWO_TO_THE_32
      modifies this`lo, this`hi
      ensures j == Pending(message) && Counts(lo, hi, |message| + n)
    {
      j := lo / 8 % BLOCK;
      LowWordTells(lo, hi, |message|);
      CountGoesOn(lo, hi, |message|, n);
      hide AddLow, AddHigh, Counts;
      hi := AddHigh(lo, hi, n);
      lo := AddLow(lo, n);
    }

    /** Hands block after block to the transform, and keeps what is left over. */
    method TakeBlocks(data: seq<byte>, first: nat, ghost m: seq<byte>)
      requires buffer.Length == BLOCK && Absorbed(transform, start, state, m, data, first) && first <= |data|
      modifies `state, buffer
      ensures Keeps(transform, start, state, buffer[..], m + data)
    {
      hide Absorbed, Keeps;
      var i := first;
      while i + 63 < |data|
        invariant i <= |data| && Absorbed(transform, start, state, m, data, i)
        modifies `state
      {
        TakesABlock(transform, start, state, m, data, i);
        state := transform(state, data[i..i + BLOCK]);
        i := i + BLOCK;
      }
      Fill(buffer, 0, data[i..]);
      RestWaits(transform, start, state, buffer[..], m, data, i);
    }

    /** Takes more of the message; the fill of the block and the length must leave room for their sum in 32 bits. */
    method Update(data: seq<byte>)
      requires Valid() && Pending(message) + |data| < TWO_TO_THE_32
      modifies this, buffer
      ensures Valid() && message == old(message) + data
    {
      ghost var m, was := message, buffer[..];
      var j := Count(|data|);
      message := message + data;
      hide Keeps, Absorbed, Counts, Pending;
      if j + |data| > 63 {
        var i := BLOCK - j;
        Fill(buffer, j, data[..i]);
        assert buffer[..BLOCK] == buffer[..];
        BlockIsFull(transform, start, state, was, buffer[..], m, data);
        state := transform(state, buffer[..]);
        TakeBlocks(data, i, m);
      } else {
        Fill(buffer, j, data);
        WaitsTogether(transform, start, state, was, buffer[..], m, data);
      }
    }

    /** Appends zeros until eight octets are missing. */
    method AppendZeros(ghost m: seq<byte>)
      requires Valid() && message == Marked(m, 0)
      modifies this, buffer
      ensures Valid() && message == Marked(m, ZerosNeeded(|m|))
    {
      ghost var zeros := 0;
      ZerosAreEnough(lo, hi, m, zeros);
      hide Keeps, Counts, Marked, ZerosNeeded;
      while lo / 8 % BLOCK * 8 != 448
        invariant Valid() && message == Marked(m, zeros) && zeros <= ZerosNeeded(|m|)
        invariant lo / 8 % BLOCK * 8 == 448 <==> zeros == ZerosNeeded(|m|)
        decreases ZerosNeeded(|m|) - zeros
      {
        Update([0]);
        MarkedGoesOn(m, zeros);
        zeros := zeros + 1;
        ZerosAreEnough(lo, hi, m, zeros);
      }
    }

    /** Pads the message by handing itself the padding octets, and gives the state after the last block. */
    method Final() returns (digest: S)
      requires Valid()
      modifies this, buffer
      ensures
        var m := old(message);
        digest == Absorb(transform, start, Padded(m, LengthBig(|m|)))
    {
      ghost var m := message;
      var finalCount := ToBigEndian(hi, 4) + ToBigEndian(lo, 4);
      LengthInWords(lo, hi, |m|);
      hide Keeps, Absorb, Counts, ZerosNeeded, Marked, Padded, Whole, ToBigEndian, LengthBig;
      Update([0x80]);
      MarkedBegins(m);
      AppendZeros(m);
      Update(finalCount);
      MarkedEnds(m, finalCount);
      PaddedIsWhole(m, finalCount);
      AllAbsorbed(transform, start, state, buffer[..], message);
      return state;
    }
  }

  lemma AllAbsorbed<S>(transform: (S, seq<byte>) -> S, start: S, state: S, waiting: seq<byte>, message: seq<byte>)
    requires Keeps(transform, start, state, waiting, message) && Whole(message) == message
    ensures state == Absorb(transform, start, message)
  {
  }

  lemma StartsOnABlock<S>(
    transform: (S, seq<byte>) -> S, start: S, state: S, was: seq<byte>, message: seq<byte>, data: seq<byte>)
    requires Keeps(transform, start, state, was, message) && Pending(message) == 0
    ensures Absorbed(transform, start, state, message, data, 0)
  {
    assert message + data[..0] == message;
  }

  class Md5<S> {
    const transform: (S, seq<byte>) -> S
    const start: S
    const buffer: array<byte>
    var state: S
    var lo: nat
    var hi: nat
    ghost var message: seq<byte>
    ghost var counted: nat

    /** The count may miss multiples of 2^32 octets, which is why it is not simply the length of the message. */
    ghost predicate Valid()
      reads this, buffer
    {
      && buffer.Length == BLOCK
      && Counts(lo, hi, counted) && counted % BLOCK == Pending(message)
      && Keeps(transform, start, state, buffer[..], message)
    }

    constructor (transform: (S, seq<byte>) -> S, start: S)
      ensures Valid() && message == [] && counted == 0 && fresh(buffer)
      ensures this.transform == transform && this.start == start
    {
      this.transform, this.start := transform, start;
      buffer := new byte[BLOCK];
      state, lo, hi, message, counted := start, 0, 0, [], 0;
      new;
      KeepsNothing(transform, start, buffer[..]);
      CountsNothing();
      hide Keeps, Counts, Pending;
    }

    /** Counts the bits of `n` octets, `n` in 32 bits; tells how many octets waited before. */
    method Count(n: nat) returns (t: nat)
      requires Counts(lo, hi, counted) && counted % BLOCK == Pending(message)
      modifies this`lo, this`hi, this`counted
      ensures t == Pending(message)
      ensures Counts(lo, hi, counted) && counted == old(counted) + n % TWO_TO_THE_32
    {
      t := lo / 8 % BLOCK;
      LowWordTells(lo, hi, counted);
      CountGoesOn(lo, hi, counted, n % TWO_TO_THE_32);
      hide AddLow, AddHigh, Counts, Pending;
      hi := AddHigh(lo, hi, n % TWO_TO_THE_32);
      lo := AddLow(lo, n % TWO_TO_THE_32);
      counted := counted + n % TWO_TO_THE_32;
    }

    /** Copies block after block into the buffer, and what is left over too. */
    method TakeBlocks(data: seq<byte>, first: nat, ghost m: seq<byte>)
      requires buffer.Length == BLOCK && Absorbed(transform, start, state, m, data, first) && first <= |data|
      modifies `state, buffer
      ensures Keeps(transform, start, state, buffer[..], m + data)
    {
      hide Absorbed, Keeps;
      var i := first;
      while |data| - i >= BLOCK
        invariant i <= |data| && Absorbed(transform, start, state, m, data, i)
      {
        Fill(buffer, 0, data[i..i + BLOCK]);
        assert buffer[..BLOCK] == buffer[..] == data[i..i + BLOCK];
        TakesABlock(transform, start, state, m, data, i);
        state := transform(state, buffer[..]);
        i := i + BLOCK;
      }
      Fill(buffer, 0, data[i..]);
      RestWaits(transform, start, state, buffer[..], m, data, i);
    }

    method Update(data: seq<byte>)
      requires Valid()
      modifies this, buffer
      ensures Valid() && message == old(message) + data
      ensures counted == old(counted) + |data| % TWO_TO_THE_32
    {
      ghost var m, was := message, buffer[..];
      var t := Count(|data|);
      CountedInStep(old(counted), m, data);
      message := message + data;
      hide Keeps, Absorbed, Counts, Pending;
      if t == 0 {
        StartsOnABlock(transform, start, state, was, m, data);
        TakeBlocks(data, 0, m);
      } else if |data| < BLOCK - t {
        Fill(buffer, t, data);
        WaitsTogether(transform, start, state, was, buffer[..], m, data);
      } else {
        var i := BLOCK - t;
        Fill(buffer, t, data[..i]);
        assert buffer[..BLOCK] == buffer[..];
        BlockIsFull(transform, start, state, was, buffer[..], m, data);
        state := transform(state, buffer[..]);
        TakeBlocks(data, i, m);
      }
    }

    /** Puts 0x80 and zeros behind what waits; starts another block when the length has no room in this one. */
    method Mark(at: nat, ghost length: seq<byte>)
      requires Keeps(transform, start, state, buffer[..], message) && at == Pending(message) && |length| == 8
      requires buffer.Length == BLOCK
      modifies `state, buffer
      ensures Absorb(transform, start, Padded(message, length)) == transform(state, buffer[..56] + length)
    {
      hide Absorb, Padded;
      Fill(buffer, at, [0x80]);
      var count := BLOCK - 1 - at;
      if count < 8 {
        Fill(buffer, at + 1, Zeros(count));
        assert buffer[..BLOCK] == buffer[..];
        state := transform(state, buffer[..]);
        LastTwoBlocks(transform, start, message, length);
        Fill(buffer, 0, Zeros(56));
        assert buffer[..0] + Zeros(56) == Zeros(56);
      } else {
        Fill(buffer, at + 1, Zeros(count - 8));
        LastBlock(transform, start, message, length);
      }
    }

    method Waiting() returns (n: nat)
      requires Counts(lo, hi, counted) && counted % BLOCK == Pending(message)
      ensures n == Pending(message)
    {
      LowWordTells(lo, hi, counted);
      return lo / 8 % BLOCK;
    }

    /** The two words of the count go into the last eight octets of the block. */
    method PutLength()
      requires buffer.Length == BLOCK
      modifies buffer
      ensures buffer[..] == old(buffer[..56]) + (ToLittleEndian(lo, 4) + ToLittleEndian(hi, 4))
    {
      hide ToLittleEndian;
      ghost var front := buffer[..56];
      Fill(buffer, 56, ToLittleEndian(lo, 4));
      Fill(buffer, 60, ToLittleEndian(hi, 4));
      BlockInParts(buffer[..], front, ToLittleEndian(lo, 4), ToLittleEndian(hi, 4));
    }

    /** Pads in the block buffer itself, in one block or two, and gives the state after the last one. */
    method Final() returns (digest: S)
      requires Valid()
      modifies this, buffer
      ensures
        digest ==
          Absorb(transform, start, Padded(old(message), LengthLittle(old(counted))))
    {
      LengthInWords(lo, hi, counted);
      var at := Waiting();
      hide *;
      Mark(at, LengthLittle(counted));
      PutLength();
      state := transform(state, buffer[..]);
      return state;
    }
  }

  lemma BlockInParts(block: seq<byte>, front: seq<byte>, lo: seq<byte>, hi: seq<byte>)
    requires |block| == BLOCK && |front| == 56 && |lo| == 4 && |hi| == 4
    requires block[..64] == block[..60] + hi && block[..60] == front + lo
    ensures block == front + (lo + hi)
  {
  }

  lemma CountedInStep(counted: nat, message: seq<byte>, data: seq<byte>)
    requires counted % BLOCK == Pending(message)
    ensures (counted + |data| % TWO_TO_THE_32) % BLOCK == Pending(message + data)
  {
    var waiting, r := Pending(message), |data| % TWO_TO_THE_32;
    SameRemainder(counted / BLOCK, |message| / BLOCK + |data| / TWO_TO_THE_32 * 0x400_0000, waiting + r);
    assert counted == BLOCK * (counted / BLOCK) + waiting;
    assert |message| == BLOCK * (|message| / BLOCK) + waiting;
    assert |data| == TWO_TO_THE_32 * (|data| / TWO_TO_THE_32) + r;
  }

  lemma SameRemainder(a: nat, b: nat, n: nat)
    ensures (BLOCK * a + n) % BLOCK == (BLOCK * b + n) % BLOCK
  {
  }

  // ----- a message handed over in pieces -----

  /** What the bit count of MD5 makes of the lengths: each is taken modulo 2^32. */
  function CountedOf(pieces: seq<seq<byte>>): nat {
    if pieces == [] then 0 else |pieces[0]| % TWO_TO_THE_32 + CountedOf(pieces[1..])
  }

  lemma CountedRest(pieces: seq<seq<byte>>, i: nat)
    requires i < |pieces|
    ensures CountedOf(pieces[i..]) == |pieces[i]| % TWO_TO_THE_32 + CountedOf(pieces[i + 1..])
  {
    assert pieces[i..][1..] == pieces[i + 1..];
  }

  lemma NoPieces(pieces: seq<seq<byte>>)
    ensures Concat(pieces[|pieces|..]) == [] && CountedOf(pieces[|pieces|..]) == 0
    ensures pieces[0..] == pieces
  {
  }

  lemma TakenOver(before: seq<byte>, piece: seq<byte>, later: seq<byte>)
    ensures before + (piece + later) == before + piece + later
  {
  }

  /** What of a piece reaches SHA-1, whose length parameter has 32 bits. */
  function Reaching(piece: seq<byte>): (s: seq<byte>)
    ensures |s| == |piece| % TWO_TO_THE_32
  {
    piece[..|piece| % TWO_TO_THE_32]
  }

  function ReachingAll(pieces: seq<seq<byte>>): seq<byte> {
    if pieces == [] then [] else Reaching(pieces[0]) + ReachingAll(pieces[1..])
  }

  /** The fill of the block and the length of a piece are added in 32 bits; `n` octets have been taken before. */
  predicate SumsFit(n: nat, pieces: seq<seq<byte>>)
    decreases |pieces|
  {
    pieces == [] ||
    (n % BLOCK + |Reaching(pieces[0])| < TWO_TO_THE_32 && SumsFit(n + |Reaching(pieces[0])|, pieces[1..]))
  }

  lemma NextReaching(n: nat, pieces: seq<seq<byte>>, i: nat)
    requires i < |pieces| && SumsFit(n, pieces[i..])
    ensures n % BLOCK + |Reaching(pieces[i])| < TWO_TO_THE_32 && SumsFit(n + |Reaching(pieces[i])|, pieces[i + 1..])
    ensures ReachingAll(pieces[i..]) == Reaching(pieces[i]) + ReachingAll(pieces[i + 1..])
  {
    hide Reaching;
    assert pieces[i..][1..] == pieces[i + 1..];
  }

  /** SHA-1 of the pieces is that of what reaches it of them, put together, however the message is cut. */
  method HashSha1<S>(transform: (S, seq<byte>) -> S, start: S, pieces: seq<seq<byte>>) returns (digest: S)
    requires SumsFit(0, pieces)
    ensures
      var m := ReachingAll(pieces);
      digest == Absorb(transform, start, Padded(m, LengthBig(|m|)))
  {
    hide Concat, Absorb, Padded, LengthBig, Sha1.Valid, ReachingAll, SumsFit;
    var context := new Sha1(transform, start);
    assert pieces[0..] == pieces && [] + ReachingAll(pieces) == ReachingAll(pieces);
    for i := 0 to |pieces|
      invariant context.Valid() && fresh(context) && fresh(context.buffer)
      invariant context.message + ReachingAll(pieces[i..]) == ReachingAll(pieces)
      invariant SumsFit(|context.message|, pieces[i..])
    {
      NextReaching(|context.message|, pieces, i);
      TakenOver(context.message, Reaching(pieces[i]), ReachingAll(pieces[i + 1..]));
      context.Update(Reaching(pieces[i]));
    }
    NothingReaching(pieces);
    assert context.message + [] == context.message;
    digest := context.Final();
  }

  lemma NothingReaching(pieces: seq<seq<byte>>)
    ensures ReachingAll(pieces[|pieces|..]) == []
  {
  }

  /** SHA-1 hashes the whole message exactly when every piece is shorter than 2^32 octets. */
  lemma Sha1HashesAll(pieces: seq<seq<byte>>)
    ensures
      var m, all := ReachingAll(pieces), Concat(pieces);
      Padded(m, LengthBig(|m|)) == Padded(all, LengthBig(|all|)) <==> forall p | p in pieces :: |p| < TWO_TO_THE_32
  {
    var m, all := ReachingAll(pieces), Concat(pieces);
    if forall p | p in pieces :: |p| < TWO_TO_THE_32 {
      AllReaching(pieces);
    } else {
      SomeMissing(pieces);
      assert |Padded(m, LengthBig(|m|))| <= |m| + 1 + 63 + 8;
    }
  }

  lemma {:induction false} AllReaching(pieces: seq<seq<byte>>)
    requires forall p | p in pieces :: |p| < TWO_TO_THE_32
    ensures ReachingAll(pieces) == Concat(pieces)
  {
    if pieces != [] {
      assert pieces[0] in pieces && forall p | p in pieces[1..] :: p in pieces;
      AllReaching(pieces[1..]);
      ShortRemains(|pieces[0]|);
      assert pieces[0][..|pieces[0]|] == pieces[0];
    }
  }

  lemma {:induction false} SomeMissing(pieces: seq<seq<byte>>)
    ensures |ReachingAll(pieces)| <= |Concat(pieces)|
    ensures (exists p :: p in pieces && |p| >= TWO_TO_THE_32) ==>
      |ReachingAll(pieces)| + TWO_TO_THE_32 <= |Concat(pieces)|
  {
    if pieces != [] {
      SomeMissing(pieces[1..]);
      var n := |pieces[0]|;
      assert n >= TWO_TO_THE_32 ==> n % TWO_TO_THE_32 <= n - TWO_TO_THE_32;
    }
  }

  /** MD5 of the pieces is that of their concatenation, except that the length may have been counted wrong. */
  method HashMd5<S>(transform: (S, seq<byte>) -> S, start: S, pieces: seq<seq<byte>>) returns (digest: S)
    ensures
      digest ==
        Absorb(transform, start, Padded(Concat(pieces), LengthLittle(CountedOf(pieces))))
  {
    hide Concat, CountedOf, Absorb, Padded, LengthLittle, Md5.Valid;
    var context := new Md5(transform, start);
    NoPieces(pieces);
    assert [] + Concat(pieces) == Concat(pieces);
    for i := 0 to |pieces|
      invariant context.Valid() && fresh(context) && fresh(context.buffer)
      invariant context.message + Concat(pieces[i..]) == Concat(pieces)
      invariant context.counted + CountedOf(pieces[i..]) == CountedOf(pieces)
    {
      ConcatSuffix(pieces, i);
      CountedRest(pieces, i);
      TakenOver(context.message, pieces[i], Concat(pieces[i + 1..]));
      context.Update(pieces[i]);
    }
    assert context.message + [] == context.message;
    digest := context.Final();
  }

  /**
    MD5 pads as RFC 1321 says exactly when the lengths, each modulo 2^32, add up to the whole length modulo 2^61.
    That is so whenever every piece is shorter than 2^32 octets.
   */
  lemma Md5PadsRightly(pieces: seq<seq<byte>>)
    ensures
      var m := Concat(pieces);
      Padded(m, LengthLittle(CountedOf(pieces))) ==
        Padded(m, LengthLittle(|m|))
      <==> CountedOf(pieces) % TWO_TO_THE_61 == |m| % TWO_TO_THE_61
  {
    var m, counted := Concat(pieces), CountedOf(pieces);
    SameBits(counted, |m|);
    PaddedTells(m, LengthLittle(counted), LengthLittle(|m|));
    EightOctets();
    LittleEndianTells(8 * counted % TWO_TO_THE_64, 8 * |m| % TWO_TO_THE_64, 8);
  }

  lemma EightOctets()
    ensures Power256(8) == TWO_TO_THE_64
  {
    assert Power256(4) == TWO_TO_THE_32 by { assert Power256(2) == 0x1_0000; }
    assert Power256(6) == 0x1_0000_0000_0000;
  }

  lemma PaddedTells(m: seq<byte>, a: seq<byte>, b: seq<byte>)
    requires |a| == |b| == 8
    ensures Padded(m, a) == Padded(m, b) <==> a == b
  {
    var front := Marked(m, ZerosNeeded(|m|));
    MarkedEnds(m, a);
    MarkedEnds(m, b);
    assert (front + a)[|front|..] == a && (front + b)[|front|..] == b;
  }

  lemma {:induction false} ShortPiecesCount(pieces: seq<seq<byte>>)
    requires forall p | p in pieces :: |p| < TWO_TO_THE_32
    ensures CountedOf(pieces) == |Concat(pieces)|
  {
    if pieces != [] {
      assert pieces[0] in pieces && forall p | p in pieces[1..] :: p in pieces;
      ShortPiecesCount(pieces[1..]);
      ShortRemains(|pieces[0]|);
    }
  }

  lemma ShortRemains(n: nat)
    requires n < TWO_TO_THE_32
    ensures n % TWO_TO_THE_32 == n
  {
  }

  /** A piece of 2^32 octets is not counted by MD5, and of it nothing reaches SHA-1. */
  lemma LongPieceIsLost(p: seq<byte>)
    requires |p| == TWO_TO_THE_32
    ensures ReachingAll([p]) == [] && CountedOf([p]) == 0
    ensures Padded(Concat([p]), LengthLittle(CountedOf([p]))) != Padded(Concat([p]), LengthLittle(|Concat([p])|))
  {
    var none: seq<seq<byte>> := [];
    assert [p][1..] == none && Concat([p]) == p + Concat(none);
    Md5PadsRightly([p]);
    hide Padded, LengthLittle;
  }
}
