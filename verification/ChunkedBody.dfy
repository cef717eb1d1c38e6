/** Chunked transfer coding (RFC 7230, section 4.1): chunks on the wire and the step that takes one. */
module ChunkedBody {
  import opened Bytes
  import opened Incremental

  const CR: byte := 13
  const LF: byte := 10

  predicate IsHexDigit(c: byte) { 48 <= c <= 57 || 65 <= c <= 70 || 97 <= c <= 102 }

  function HexDigit(c: byte): (d: nat)
    requires IsHexDigit(c)
    ensures d < 16
  {
    if c <= 57 then c - 48 else if c <= 70 then c - 55 else c - 87
  }

  /** How many hexadecimal digits stand at the start. */
  function HexRun(u: seq<byte>): (k: nat)
    ensures k <= |u| && forall i | 0 <= i < k :: IsHexDigit(u[i])
    ensures k < |u| ==> !IsHexDigit(u[k])
  {
    if u == [] || !IsHexDigit(u[0]) then 0 else 1 + HexRun(u[1..])
  }

  function HexValue(s: seq<byte>): nat
    requires forall i | 0 <= i < |s| :: IsHexDigit(s[i])
  {
    if s == [] then 0 else 16 * HexValue(s[..|s| - 1]) + HexDigit(s[|s| - 1])
  }

  predicate CrLfAt(u: seq<byte>, i: nat) { i + 2 <= |u| && u[i] == CR && u[i + 1] == LF }

  /** A chunk: where its data starts, how long it is, and how many octets it takes in all; 0 for none. */
  datatype Chunk = Chunk(start: nat, length: nat, size: nat)

  const NO_CHUNK := Chunk(0, 0, 0)

  /** At most six digits are taken for a size. */
  function ParseChunk(u: seq<byte>): (c: Chunk)
    ensures c.size > 0 ==> 0 < c.start && c.start + c.length + 2 == c.size <= |u|
  {
    var k := HexRun(u);
    if k == 0 || k > 6 || !CrLfAt(u, k) then NO_CHUNK
    else
      var n := HexValue(u[..k]);
      if !CrLfAt(u, k + 2 + n) then NO_CHUNK else Chunk(k + 2, n, k + 4 + n)
  }

  /** One chunk is taken from the unread octets; the state says whether the last one has been seen. */
  function ChunkStep(done: bool, u: seq<byte>): Step<bool, byte> {
    var c := ParseChunk(u);
    if done || c.size == 0 then Stuck
    else Took(c.length == 0, u[c.size..], u[c.start..c.start + c.length])
  }

  lemma ChunkShrinks()
    ensures Shrinks(ChunkStep)
  {
    forall done, u | ChunkStep(done, u).Took?
      ensures |ChunkStep(done, u).buf| < |u|
    {
    }
  }

  lemma {:induction false} HexRunExtends(u: seq<byte>, more: seq<byte>)
    requires HexRun(u) < |u|
    ensures HexRun(u + more) == HexRun(u)
  {
    if IsHexDigit(u[0]) {
      assert (u + more)[1..] == u[1..] + more;
      HexRunExtends(u[1..], more);
    }
  }

  lemma ChunkExtends(u: seq<byte>, more: seq<byte>)
    requires ParseChunk(u).size > 0
    ensures ParseChunk(u + more) == ParseChunk(u)
  {
    hide HexValue;
    var k := HexRun(u);
    HexRunExtends(u, more);
    assert (u + more)[..k] == u[..k];
  }

  lemma StepExtends()
    ensures Extends(ChunkStep)
  {
    forall done: bool, u: seq<byte>, more: seq<byte>
      ensures Undisturbed(ChunkStep, done, u, more)
    {
      if ChunkStep(done, u).Took? {
        ChunkUndisturbed(done, u, more);
      }
    }
  }

  lemma ChunkUndisturbed(done: bool, u: seq<byte>, more: seq<byte>)
    requires ChunkStep(done, u).Took?
    ensures Undisturbed(ChunkStep, done, u, more)
  {
    hide ParseChunk;
    ChunkExtends(u, more);
    var c := ParseChunk(u);
    SliceOfPrefix(u, more, c.start, c.start + c.length);
    SliceOfPrefix(u, more, c.size, c.size);
  }

  // ----- writing -----

  function UpperHexDigit(d: nat): (c: byte)
    requires d < 16
    ensures IsHexDigit(c) && HexDigit(c) == d
  {
    if d < 10 then 48 + d else 55 + d
  }

  /** A number in upper-case hexadecimal, without leading zeros. */
  function Hex(n: nat): (s: seq<byte>)
    ensures s != [] && forall i | 0 <= i < |s| :: IsHexDigit(s[i])
  {
    if n < 16 then [UpperHexDigit(n)] else Hex(n / 16) + [UpperHexDigit(n % 16)]
  }

  function WriteChunk(data: seq<byte>): seq<byte> {
    Hex(|data|) + [CR, LF] + data + [CR, LF]
  }

  lemma {:induction false} HexRoundTrip(n: nat)
    ensures HexValue(Hex(n)) == n
  {
    hide HexDigit, UpperHexDigit, IsHexDigit;
    var s := Hex(n);
    if n < 16 {
      assert s[..0] == [];
    } else {
      HexRoundTrip(n / 16);
      assert s[..|s| - 1] == Hex(n / 16);
    }
  }

  function Power16(k: nat): nat {
    if k == 0 then 1 else 16 * Power16(k - 1)
  }

  /** The number of digits tells how large the number is. */
  lemma {:induction false} HexLength(n: nat)
    ensures n < Power16(|Hex(n)|) && (|Hex(n)| > 1 ==> Power16(|Hex(n)| - 1) <= n)
  {
    if n >= 16 {
      HexLength(n / 16);
    }
  }

  lemma {:induction false} Power16Monotone(a: nat, b: nat)
    requires a <= b
    ensures 1 <= Power16(a) <= Power16(b)
    decreases b
  {
    if b > 0 {
      Power16Monotone(if a == 0 then 0 else a - 1, b - 1);
    }
  }

  /** Six digits hold exactly the sizes below two to the 24th. */
  lemma SixDigits(n: nat)
    ensures |Hex(n)| <= 6 <==> n < 0x100_0000
  {
    HexLength(n);
    assert Power16(6) == 0x100_0000 by { assert Power16(3) == 4096; }
    if |Hex(n)| <= 6 {
      Power16Monotone(|Hex(n)|, 6);
    } else {
      Power16Monotone(6, |Hex(n)| - 1);
    }
  }

  lemma {:induction false} HexRunOf(s: seq<byte>, rest: seq<byte>)
    requires forall i | 0 <= i < |s| :: IsHexDigit(s[i])
    requires rest != [] ==> !IsHexDigit(rest[0])
    ensures HexRun(s + rest) == |s|
  {
    if s == [] {
      assert s + rest == rest;
    } else {
      assert (s + rest)[1..] == s[1..] + rest;
      HexRunOf(s[1..], rest);
    }
  }

  // ----- sizes spelled in either case -----

  /** "0123456789abcdef" and "0123456789ABCDEF" */
  const LOWER_DIGITS: seq<byte> := [48, 49, 50, 51, 52, 53, 54, 55, 56, 57, 97, 98, 99, 100, 101, 102]
  const UPPER_DIGITS: seq<byte> := [48, 49, 50, 51, 52, 53, 54, 55, 56, 57, 65, 66, 67, 68, 69, 70]

  /** These are all the digits there are, and what they stand for is their place in the list. */
  lemma DigitsAre(c: byte)
    ensures IsHexDigit(c) <==> c in LOWER_DIGITS || c in UPPER_DIGITS
    ensures forall d | 0 <= d < 16 :: HexDigit(LOWER_DIGITS[d]) == d && HexDigit(UPPER_DIGITS[d]) == d
  {
    if IsHexDigit(c) {
      var d := HexDigit(c);
      assert c == LOWER_DIGITS[d] || c == UPPER_DIGITS[d];
    }
  }

  ghost predicate AreDigits(digits: seq<nat>) {
    forall i | 0 <= i < |digits| :: digits[i] < 16
  }

  /** The number that digits stand for, the first of them having the greatest weight. */
  function Place(digits: seq<nat>): nat {
    if digits == [] then 0 else digits[0] * Power16(|digits| - 1) + Place(digits[1..])
  }

  /** Digits as octets, each in the case that is asked for. */
  function Spelled(digits: seq<nat>, upper: seq<bool>): (s: seq<byte>)
    requires AreDigits(digits) && |upper| == |digits|
    ensures |s| == |digits|
  {
    seq(|digits|, i requires 0 <= i < |digits| => if upper[i] then UPPER_DIGITS[digits[i]] else LOWER_DIGITS[digits[i]])
  }

  lemma SpelledAreDigits(digits: seq<nat>, upper: seq<bool>)
    requires AreDigits(digits) && |upper| == |digits|
    ensures forall i | 0 <= i < |digits| :: IsHexDigit(Spelled(digits, upper)[i])
    ensures forall i | 0 <= i < |digits| :: HexDigit(Spelled(digits, upper)[i]) == digits[i]
  {
    DigitsAre(0);
    forall i | 0 <= i < |digits|
      ensures IsHexDigit(Spelled(digits, upper)[i]) && HexDigit(Spelled(digits, upper)[i]) == digits[i]
    {
      DigitsAre(Spelled(digits, upper)[i]);
    }
  }

  lemma {:induction false} PlaceOfLast(digits: seq<nat>)
    requires digits != []
    ensures Place(digits) == 16 * Place(digits[..|digits| - 1]) + digits[|digits| - 1]
  {
    var n := |digits|;
    if n == 1 {
      assert digits[..0] == [] && digits[1..] == [] && Power16(0) == 1;
    } else {
      var front := digits[..n - 1];
      PlaceOfLast(digits[1..]);
      assert digits[1..][..n - 2] == front[1..];
      assert digits[0] * Power16(n - 1) == 16 * (digits[0] * Power16(n - 2));
    }
  }

  /** The value that is read of a spelled number is the number. */
  lemma {:induction false} SpelledIsRead(digits: seq<nat>, upper: seq<bool>)
    requires AreDigits(digits) && |upper| == |digits|
    requires forall i | 0 <= i < |digits| :: IsHexDigit(Spelled(digits, upper)[i])
    ensures HexValue(Spelled(digits, upper)) == Place(digits)
    decreases |digits|
  {
    hide IsHexDigit, HexDigit, Place;
    var n, s := |digits|, Spelled(digits, upper);
    SpelledAreDigits(digits, upper);
    if n == 0 {
      NothingInPlace();
    } else {
      assert s[..n - 1] == Spelled(digits[..n - 1], upper[..n - 1]);
      SpelledIsRead(digits[..n - 1], upper[..n - 1]);
      PlaceOfLast(digits);
    }
  }

  lemma NothingInPlace()
    ensures Place([]) == 0
  {
  }

  /** A chunk whose size is spelled in up to six digits, each in either case, is taken with its data. */
  lemma EitherCaseIsTaken(digits: seq<nat>, upper: seq<bool>, data: seq<byte>, rest: seq<byte>)
    requires 1 <= |digits| <= 6 && AreDigits(digits) && |upper| == |digits| && |data| == Place(digits)
    ensures
      var u := Spelled(digits, upper) + [CR, LF] + data + [CR, LF] + rest;
      ChunkStep(false, u) == Took(data == [], rest, data)
  {
    hide IsHexDigit, HexValue, HexRun, Place, Spelled, CrLfAt;
    var h := Spelled(digits, upper);
    var tail := [CR, LF] + data + [CR, LF] + rest;
    NotHex();
    ChunkInParts(h, data, rest);
    SpelledAreDigits(digits, upper);
    HexRunOf(h, tail);
    SpelledIsRead(digits, upper);
  }

  lemma ChunkInParts(h: seq<byte>, data: seq<byte>, rest: seq<byte>)
    ensures
      var u, k := h + [CR, LF] + data + [CR, LF] + rest, |h|;
      && u == h + ([CR, LF] + data + [CR, LF] + rest) && u[..k] == h && CrLfAt(u, k) && CrLfAt(u, k + 2 + |data|)
      && u[k + 2..k + 2 + |data|] == data && u[k + 4 + |data|..] == rest
      && ([CR, LF] + data + [CR, LF] + rest)[0] == CR
  {
    var u, k := h + [CR, LF] + data + [CR, LF] + rest, |h|;
    SameElements(u[..k], h);
    SameElements(u[k + 2..k + 2 + |data|], data);
    SameElements(u[k + 4 + |data|..], rest);
  }

  /** The receiver takes a chunk as it was sent exactly when its size has at most six digits; otherwise nothing. */
  lemma WrittenChunk(data: seq<byte>, rest: seq<byte>)
    ensures
      var u, k := WriteChunk(data) + rest, |Hex(|data|)|;
      ParseChunk(u) == if |data| < 0x100_0000 then Chunk(k + 2, |data|, |WriteChunk(data)|) else NO_CHUNK
    ensures
      var u, k := WriteChunk(data) + rest, |Hex(|data|)|;
      u[k + 2..k + 2 + |data|] == data && u[|WriteChunk(data)|..] == rest
  {
    hide IsHexDigit, HexValue, Hex;
    var h, w := Hex(|data|), WriteChunk(data);
    var u := w + rest;
    var tail := [CR, LF] + data + [CR, LF] + rest;
    assert u == h + tail;
    NotHex();
    HexRunOf(h, tail);
    HexRoundTrip(|data|);
    SixDigits(|data|);
    assert u[..|h|] == h;
    assert u[|h| + 2..|h| + 2 + |data|] == data;
  }

  lemma WrittenChunkStep(data: seq<byte>, rest: seq<byte>)
    requires |data| < 0x100_0000
    ensures ChunkStep(false, WriteChunk(data) + rest) == Took(data == [], rest, data)
  {
    hide ParseChunk, Hex;
    WrittenChunk(data, rest);
  }

  lemma NotHex()
    ensures !IsHexDigit(CR)
  {
  }

  /** A chunk of which octets are missing is not taken. */
  lemma UnfinishedChunkWaits(data: seq<byte>, n: nat)
    requires n < |WriteChunk(data)|
    ensures ParseChunk(WriteChunk(data)[..n]) == NO_CHUNK
  {
    hide Hex;
    var w := WriteChunk(data);
    var u := w[..n];
    if ParseChunk(u).size > 0 {
      hide ParseChunk;
      ChunkExtends(u, w[n..]);
      assert u + w[n..] == w + [];
      WrittenChunk(data, []);
    }
  }

  // ----- a whole body -----

  ghost predicate Sendable(chunks: seq<seq<byte>>) {
    forall i | 0 <= i < |chunks| :: 0 < |chunks[i]| < 0x100_0000
  }

  function WriteAll(chunks: seq<seq<byte>>): seq<byte> {
    if chunks == [] then [] else WriteChunk(chunks[0]) + WriteAll(chunks[1..])
  }

  lemma {:induction false} ChunksAreTaken(chunks: seq<seq<byte>>, rest: seq<byte>)
    requires Sendable(chunks)
    ensures Shrinks(ChunkStep)
    ensures
      var d := Drain(ChunkStep, false, rest);
      Drain(ChunkStep, false, WriteAll(chunks) + rest) == d.(effects := Concat(chunks) + d.effects)
  {
    ChunkShrinks();
    hide ChunkStep, WriteChunk;
    var d := Drain(ChunkStep, false, rest);
    if chunks == [] {
      assert WriteAll(chunks) + rest == rest;
      assert Concat(chunks) + d.effects == d.effects;
    } else {
      var more := WriteAll(chunks[1..]) + rest;
      WrittenChunkStep(chunks[0], more);
      assert WriteAll(chunks) + rest == WriteChunk(chunks[0]) + more;
      ChunksAreTaken(chunks[1..], rest);
      assert chunks[0] + (Concat(chunks[1..]) + d.effects) == Concat(chunks) + d.effects;
    }
  }

  /**
    A body sent as chunks and closed by the empty chunk: however its octets are cut into receive events,
    the data of the chunks comes out in order and what follows the body is left untouched.
   */
  lemma BodyArrives(chunks: seq<seq<byte>>, following: seq<byte>, arrivals: seq<seq<byte>>)
    requires Sendable(chunks)
    requires Concat(arrivals) == WriteAll(chunks) + (WriteChunk([]) + following)
    ensures Shrinks(ChunkStep)
    ensures Feed(ChunkStep, false, [], arrivals) == Drained(true, following, Concat(chunks))
  {
    ChunkShrinks();
    StepExtends();
    EmptyWaits();
    hide WriteChunk, ParseChunk;
    DoneStaysDone(following);
    hide ChunkStep;
    FeedIsOneDrain(ChunkStep, false, [], arrivals);
    ChunksAreTaken(chunks, WriteChunk([]) + following);
    WrittenChunkStep([], following);
    assert [] + Concat(arrivals) == Concat(arrivals);
    assert Concat(chunks) + ([] + []) == Concat(chunks);
    assert Drain(ChunkStep, false, WriteChunk([]) + following) == Drained(true, following, [] + []);
  }

  /** Before the body is complete: the data of the complete chunks is there, the octets of the next one wait. */
  lemma BodyInProgress(chunks: seq<seq<byte>>, next: seq<byte>, part: nat, arrivals: seq<seq<byte>>)
    requires Sendable(chunks) && part < |WriteChunk(next)|
    requires Concat(arrivals) == WriteAll(chunks) + WriteChunk(next)[..part]
    ensures Shrinks(ChunkStep)
    ensures Feed(ChunkStep, false, [], arrivals) == Drained(false, WriteChunk(next)[..part], Concat(chunks))
  {
    ChunkShrinks();
    StepExtends();
    hide WriteChunk, Hex;
    EmptyWaits();
    hide ParseChunk;
    FeedIsOneDrain(ChunkStep, false, [], arrivals);
    ChunksAreTaken(chunks, WriteChunk(next)[..part]);
    UnfinishedChunkWaits(next, part);
    assert [] + Concat(arrivals) == Concat(arrivals);
    assert Concat(chunks) + [] == Concat(chunks);
  }

  /** A chunk as some sender may write it. */
  datatype Spelling = Spelling(digits: seq<nat>, upper: seq<bool>, data: seq<byte>) {
    ghost predicate Valid() {
      1 <= |digits| <= 6 && AreDigits(digits) && |upper| == |digits| && |data| == Place(digits)
    }

    ghost function Wire(): seq<byte>
      requires Valid()
    {
      Spelled(digits, upper) + [CR, LF] + data + [CR, LF]
    }
  }

  ghost predicate AllSpelled(chunks: seq<Spelling>) {
    forall i | 0 <= i < |chunks| :: chunks[i].Valid() && chunks[i].data != []
  }

  ghost function WireOf(chunks: seq<Spelling>): seq<byte>
    requires AllSpelled(chunks)
  {
    if chunks == [] then [] else chunks[0].Wire() + WireOf(chunks[1..])
  }

  function DataOf(chunks: seq<Spelling>): seq<byte> {
    if chunks == [] then [] else chunks[0].data + DataOf(chunks[1..])
  }

  lemma {:induction false} SpelledAreTaken(chunks: seq<Spelling>, rest: seq<byte>)
    requires AllSpelled(chunks)
    ensures Shrinks(ChunkStep)
    ensures
      var d := Drain(ChunkStep, false, rest);
      Drain(ChunkStep, false, WireOf(chunks) + rest) == d.(effects := DataOf(chunks) + d.effects)
    decreases |chunks|
  {
    ChunkShrinks();
    hide ChunkStep, Spelled, Place;
    var d := Drain(ChunkStep, false, rest);
    if chunks == [] {
      assert WireOf(chunks) + rest == rest;
      assert DataOf(chunks) + d.effects == d.effects;
    } else {
      var c, more := chunks[0], WireOf(chunks[1..]) + rest;
      EitherCaseIsTaken(c.digits, c.upper, c.data, more);
      assert WireOf(chunks) + rest == c.Wire() + more;
      SpelledAreTaken(chunks[1..], rest);
      assert c.data + (DataOf(chunks[1..]) + d.effects) == DataOf(chunks) + d.effects;
    }
  }

  /** However the sizes are spelled and the octets are cut, the data of the chunks comes out in order. */
  lemma AnySpellingArrives(chunks: seq<Spelling>, last: Spelling, following: seq<byte>, arrivals: seq<seq<byte>>)
    requires AllSpelled(chunks) && last.Valid() && last.data == []
    requires Concat(arrivals) == WireOf(chunks) + (last.Wire() + following)
    ensures Shrinks(ChunkStep)
    ensures Feed(ChunkStep, false, [], arrivals) == Drained(true, following, DataOf(chunks))
  {
    ChunkShrinks();
    StepExtends();
    EmptyWaits();
    DoneStaysDone(following);
    hide ChunkStep, Spelled, Place;
    FeedIsOneDrain(ChunkStep, false, [], arrivals);
    SpelledAreTaken(chunks, last.Wire() + following);
    EitherCaseIsTaken(last.digits, last.upper, [], following);
    assert [] + Concat(arrivals) == Concat(arrivals);
    assert DataOf(chunks) + ([] + []) == DataOf(chunks);
    assert Drain(ChunkStep, false, last.Wire() + following) == Drained(true, following, [] + []);
  }

  lemma DoneStaysDone(u: seq<byte>)
    ensures ChunkStep(true, u).Stuck?
  {
  }

  lemma EmptyWaits()
    ensures ParseChunk([]) == NO_CHUNK && ChunkStep(false, []).Stuck?
  {
  }

  /** Ten octets behind a size of "a", and the end, in two events. */
  lemma LowerCaseArrives()
    ensures Shrinks(ChunkStep)
    ensures
      Feed(ChunkStep, false, [],
           [[97, 13, 10, 48, 49, 50, 51, 52, 53, 54, 55, 56, 57, 13, 10], [48, 13, 10, 13, 10]]) ==
        Drained(true, [], [48, 49, 50, 51, 52, 53, 54, 55, 56, 57])
  {
    var digits: seq<byte> := [48, 49, 50, 51, 52, 53, 54, 55, 56, 57];
    var chunk, last := Spelling([10], [false], digits), Spelling([0], [false], []);
    var first: seq<byte>, second: seq<byte> :=
      [97, 13, 10, 48, 49, 50, 51, 52, 53, 54, 55, 56, 57, 13, 10], [48, 13, 10, 13, 10];
    OneDigit(10);
    OneDigit(0);
    assert chunk.Wire() == first && last.Wire() == second;
    hide Spelling.Wire, Place, Feed, ChunkStep;
    var chunks, arrivals := [chunk], [first, second];
    assert chunks[1..] == [] && arrivals[1..] == [second] && [second][1..] == [];
    assert WireOf([]) == [] && DataOf([]) == [] && Concat<byte>([]) == [];
    assert WireOf(chunks) == first && DataOf(chunks) == digits;
    assert Concat([second]) == second + [] == second;
    assert Concat(arrivals) == first + second;
    assert second + [] == second;
    AnySpellingArrives(chunks, last, [], arrivals);
  }

  lemma OneDigit(d: nat)
    requires d < 16
    ensures Place([d]) == d
  {
    assert [d][1..] == [] && Power16(0) == 1;
  }
}
