/** Chunked bodies in the buffers of a connection: chunks are collapsed where they lie. */
module ChunkedTransfer {
  import opened Bytes
  import opened Incremental
  import opened Mbufs
  import opened ChunkedBody

  /** Scans one chunk at `at`: the size in hexadecimal, a line end, the data, another line end. */
  method ScanChunk(b: array<byte>, at: nat, end: nat) returns (c: Chunk)
    requires at <= end <= b.Length
    ensures c == ParseChunk(b[at..end])
  {
    hide HexRun, HexValue;
    ghost var u := b[at..end];
    var n, i := 0, 0;
    HexBegins(u);
    while at + i < end && IsHexDigit(b[at + i])
      invariant i <= 6 && at + i <= end
      invariant forall k | 0 <= k < i :: IsHexDigit(u[k])
      invariant n == HexValue(u[..i])
    {
      HexGrows(u, i);
      n := n * 16 + HexDigit(b[at + i]);
      i := i + 1;
      if i > 6 {
        HexRunAtLeast(u, i);
        return NO_CHUNK;
      }
    }
    HexRunIs(u, i);
    if i == 0 || at + i + 2 > end || b[at + i] != CR || b[at + i + 1] != LF {
      return NO_CHUNK;
    }
    var start := i + 2;
    i := start + n;
    if at + i + 2 > end || b[at + i] != CR || b[at + i + 1] != LF {
      return NO_CHUNK;
    }
    c := Chunk(start, n, i + 2);
  }

  lemma HexBegins(u: seq<byte>)
    ensures u[..0] == [] && HexValue(u[..0]) == 0
  {
  }

  lemma HexGrows(u: seq<byte>, i: nat)
    requires i < |u| && forall k | 0 <= k <= i :: IsHexDigit(u[k])
    ensures HexValue(u[..i + 1]) == 16 * HexValue(u[..i]) + HexDigit(u[i])
  {
    assert u[..i + 1][..i] == u[..i];
  }

  lemma {:induction false} HexRunAtLeast(u: seq<byte>, i: nat)
    requires i <= |u| && forall k | 0 <= k < i :: IsHexDigit(u[k])
    ensures HexRun(u) >= i
  {
    if i > 0 {
      HexRunAtLeast(u[1..], i - 1);
    }
  }

  lemma HexRunIs(u: seq<byte>, i: nat)
    requires i <= |u| && forall k | 0 <= k < i :: IsHexDigit(u[k])
    requires i < |u| ==> !IsHexDigit(u[i])
    ensures HexRun(u) == i
  {
    HexRunAtLeast(u, i);
  }

  /** Writes one chunk to the send buffer. */
  method SendChunk(send: Mbuf, data: seq<byte>)
    requires send.Valid() && |data| < 0x8000_0000
    modifies send, send.buf
    ensures send.Valid() && (send.buf == old(send.buf) || fresh(send.buf))
    ensures send.Contents() == old(send.Contents()) + WriteChunk(data)
  {
    hide Hex;
    ghost var was := send.Contents();
    var size := Hex(|data|) + [CR, LF];
    send.Append(size);
    send.Append(data);
    send.Append([CR, LF]);
    assert was + size + data + [CR, LF] == was + (size + data + [CR, LF]);
  }

  /** The receive buffer of a message with a chunked body: its head, the body so far, octets not looked at yet. */
  class Receiver {
    const recv: Mbuf
    const head: nat
    var bodyLen: nat
    var done: bool
    /** The parts of the body that the handler has seen and asked to be dropped. */
    ghost var dropped: seq<byte>

    ghost predicate Valid()
      reads this, recv, recv.buf
    {
      recv.Valid() && head + bodyLen <= recv.len
    }

    ghost function Head(): seq<byte>
      requires Valid()
      reads this, recv, recv.buf
    {
      recv.Contents()[..head]
    }

    ghost function Body(): seq<byte>
      requires Valid()
      reads this, recv, recv.buf
    {
      recv.Contents()[head..head + bodyLen]
    }

    ghost function Unread(): seq<byte>
      requires Valid()
      reads this, recv, recv.buf
    {
      recv.Contents()[head + bodyLen..]
    }

    constructor (recv: Mbuf)
      requires recv.Valid()
      ensures this.recv == recv && head == recv.len && Valid() && !done
      ensures Head() == recv.Contents() && Body() == [] && Unread() == [] && dropped == []
    {
      this.recv := recv;
      head := recv.len;
      bodyLen, done, dropped := 0, false, [];
    }

    /** Moves the data of one chunk down behind what has been collapsed so far. */
    method TakeChunk(i: nat, c: Chunk, ghost front: seq<byte>, ghost left: seq<byte>)
      requires Valid() && bodyLen <= i && head + i <= recv.len
      requires recv.Contents()[..head + bodyLen] == front && recv.Contents()[head + i..] == left
      requires c.start + c.length <= c.size <= |left|
      modifies `bodyLen, recv.buf
      ensures Valid() && recv.len == old(recv.len) && bodyLen == old(bodyLen) + c.length
      ensures recv.Contents()[..head + bodyLen] == front + left[c.start..c.start + c.length]
      ensures recv.Contents()[head + i + c.size..] == left[c.size..]
    {
      ghost var was := recv.Contents();
      recv.MoveDown(head + bodyLen, head + i + c.start, c.length);
      SliceOfSuffix(was, head + i, c.start, c.start + c.length);
      TailOfTail(was, recv.Contents(), head + i, c.start + c.length, c.size);
      bodyLen := bodyLen + c.length;
    }

    /**
      Takes the complete chunks from position `i` on, moving their data down behind the body. `left` are
      the octets from there on, which stay as they are until they are looked at.
     */
    method Collapse(ghost u: seq<byte>) returns (i: nat, ghost left: seq<byte>, ghost taken: seq<byte>)
      requires Valid() && !done && u == Unread()
      modifies `bodyLen, `done, recv.buf
      ensures Valid() && recv.len == old(recv.len)
      ensures old(bodyLen) <= bodyLen <= i && head + i <= recv.len &&
        (i == bodyLen ==> bodyLen == old(bodyLen) && !done)
      ensures recv.Contents()[..head + bodyLen] == old(recv.Contents()[..head + bodyLen]) + taken
      ensures recv.Contents()[head + i..] == left
      ensures Shrinks(ChunkStep)
      ensures Drain(ChunkStep, false, u) == Drained(done, left, taken)
    {
      hide ParseChunk, Drain, Shrinks, ChunkStep, InProgress;
      i, left, taken := bodyLen, u, [];
      ghost var front := recv.Contents()[..head + bodyLen];
      assert front + [] == front;
      ProgressBegins(u);
      while true
        invariant Valid() && recv.len == old(recv.len)
        invariant old(bodyLen) <= bodyLen <= i && head + i <= recv.len
        invariant i == bodyLen ==> bodyLen == old(bodyLen)
        invariant recv.Contents()[..head + bodyLen] == front + taken
        invariant recv.Contents()[head + i..] == left
        invariant InProgress(u, done, left, taken)
        invariant !done
        decreases recv.len - i
      {
        assert recv.buf[head + i..recv.len] == left;
        var c := ScanChunk(recv.buf, head + i, recv.len);
        if c.size == 0 {
          ProgressEnds(u, done, left, taken);
          return;
        }
        ProgressStep(u, left, taken);
        ghost var data := left[c.start..c.start + c.length];
        TakeChunk(i, c, front + taken, left);
        assert front + taken + data == front + (taken + data);
        i := i + c.size;
        taken, left := taken + data, left[c.size..];
        if c.length == 0 {
          done := true;
          ProgressEnds(u, done, left, taken);
          return;
        }
      }
    }

    /** Takes the complete chunks, then moves the octets not looked at yet down behind the body. */
    method TakeAll() returns (progress: bool, ghost taken: seq<byte>)
      requires Valid() && !done
      modifies `bodyLen, `done, recv, recv.buf
      ensures Valid() && recv.buf == old(recv.buf) && Head() == old(Head())
      ensures Body() == old(Body()) + taken
      ensures Shrinks(ChunkStep)
      ensures Drain(ChunkStep, false, old(Unread())) == Drained(done, Unread(), taken)
      ensures progress <==> |Unread()| < |old(Unread())|
      ensures done ==> progress
    {
      hide ParseChunk, Drain, Shrinks, ChunkStep;
      ghost var b, was := bodyLen, recv.Contents();
      ghost var left;
      var i;
      i, left, taken := Collapse(Unread());
      progress := i > bodyLen;
      ghost var front := recv.Contents()[..head + bodyLen];
      if progress {
        recv.CloseGap(head + bodyLen, head + i);
      }
      assert recv.Contents() == front + left;
      BodyBehindHead(was, recv.Contents(), head, b, taken, left);
    }

    /**
      Takes all complete chunks. Their data is moved down behind the body, then the octets not looked at
      yet are moved down behind that. `delete` is whether the handler, shown the body, asks for it to be
      dropped. When the last chunk has been seen the length of the whole message is reported: that of the head and the
      body exactly when nothing has arrived behind the last chunk.
     */
    method Handle(delete: bool) returns (messageLen: nat, ghost taken: seq<byte>)
      requires Valid() && !done
      modifies this, recv, recv.buf
      ensures Valid() && recv.buf == old(recv.buf) && Head() == old(Head())
      ensures Shrinks(ChunkStep)
      ensures Drain(ChunkStep, false, old(Unread())) == Drained(done, Unread(), taken)
      ensures Body() == if delete && |Unread()| < |old(Unread())| then [] else old(Body()) + taken
      ensures dropped + Body() == old(dropped) + old(Body()) + taken
      ensures done ==> messageLen == |Head()| + |Body()| + |Unread()|
      ensures done ==> (messageLen == |Head()| + |Body()| <==> Unread() == [])
    {
      hide Drain, Shrinks, ChunkStep;
      var progress;
      progress, taken := TakeAll();
      messageLen := 0;
      assert dropped + Body() == dropped + old(Body()) + taken;
      if progress {
        if delete {
          DropBody();
          assert dropped + [] == dropped;
        }
        if done {
          messageLen := bodyLen + (recv.len - head - bodyLen) + head;
        }
      }
    }

    /** A receive event. */
    method Receive(data: seq<byte>, delete: bool) returns (ghost taken: seq<byte>)
      requires Valid()
      modifies this, recv, recv.buf
      ensures Valid() && (recv.buf == old(recv.buf) || fresh(recv.buf)) && Head() == old(Head())
      ensures Shrinks(ChunkStep)
      ensures Drain(ChunkStep, old(done), old(Unread()) + data) == Drained(done, Unread(), taken)
      ensures dropped + Body() == old(dropped) + old(Body()) + taken
    {
      hide ParseChunk, Drain, Shrinks, ChunkStep;
      ChunkShrinks();
      ghost var was, b := recv.Contents(), bodyLen;
      recv.Append(data);
      ghost var h := head;
      SliceOfPrefix(was, data, 0, h);
      SliceOfPrefix(was, data, h, h + b);
      if done {
        taken := [];
        NothingAfterTheLast(Unread());
        assert dropped + Body() + [] == dropped + Body();
      } else {
        var length;
        length, taken := Handle(delete);
      }
    }

    /**
      All receive events of a message: whatever the handler drops on the way, the parts it has dropped
      followed by the body it is left with are the data of the chunks.
     */
    method ReceiveAll(arrivals: seq<seq<byte>>, deletes: seq<bool>)
      requires Valid() && |deletes| == |arrivals|
      modifies this, recv, recv.buf
      ensures Valid() && Head() == old(Head())
      ensures Shrinks(ChunkStep)
      ensures
        var d := Feed(ChunkStep, old(done), old(Unread()), arrivals);
        done == d.state && Unread() == d.buf && dropped + Body() == old(dropped + Body()) + d.effects
    {
      hide ParseChunk, Drain, Shrinks, ChunkStep, Feed;
      ChunkShrinks();
      ghost var goal, all := Feed(ChunkStep, done, Unread(), arrivals), dropped + Body();
      ghost var total: seq<byte> := [];
      assert arrivals[0..] == arrivals;
      assert [] + goal.effects == goal.effects;
      assert all + [] == all;
      label Start:
      for i := 0 to |arrivals|
        invariant Valid() && Head() == old(Head()) && (recv.buf == old(recv.buf) || fresh@Start(recv.buf))
        invariant dropped + Body() == all + total
        invariant
          var d := Feed(ChunkStep, done, Unread(), arrivals[i..]);
          goal == Drained(d.state, d.buf, total + d.effects)
      {
        FeedUnfolds(ChunkStep, done, Unread(), arrivals, i, total);
        ghost var taken := Receive(arrivals[i], deletes[i]);
        assert all + total + taken == all + (total + taken);
        total := total + taken;
      }
      FeedUnfolds(ChunkStep, done, Unread(), arrivals, |arrivals|, total);
    }

    /** Drops the body collected so far. */
    method DropBody()
      requires Valid()
      modifies `bodyLen, `dropped, recv, recv.buf
      ensures Valid() && recv.buf == old(recv.buf) && bodyLen == 0
      ensures dropped == old(dropped) + old(Body())
      ensures Head() == old(Head()) && Body() == [] && Unread() == old(Unread())
    {
      ghost var was := recv.Contents();
      dropped := dropped + Body();
      recv.CloseGap(head, head + bodyLen);
      SameElements(recv.Contents()[..head], was[..head]);
      SameElements(recv.Contents()[head..], was[head + bodyLen..]);
      bodyLen := 0;
    }
  }

  lemma NothingAfterTheLast(u: seq<byte>)
    requires Shrinks(ChunkStep)
    ensures Drain(ChunkStep, true, u) == Drained(true, u, [])
  {
  }

  /** Of the octets `u`, `taken` is the data taken so far and `left` what is still to be looked at. */
  ghost predicate InProgress(u: seq<byte>, done: bool, left: seq<byte>, taken: seq<byte>) {
    && Shrinks(ChunkStep)
    && var d := Drain(ChunkStep, done, left);
       Drain(ChunkStep, false, u) == Drained(d.state, d.buf, taken + d.effects)
  }

  lemma ProgressBegins(u: seq<byte>)
    ensures InProgress(u, false, u, [])
  {
    ChunkShrinks();
    hide Drain;
    var d := Drain(ChunkStep, false, u);
    assert [] + d.effects == d.effects;
  }

  lemma ProgressStep(u: seq<byte>, left: seq<byte>, taken: seq<byte>)
    requires InProgress(u, false, left, taken) && ParseChunk(left).size > 0
    ensures
      var c := ParseChunk(left);
      InProgress(u, c.length == 0, left[c.size..], taken + left[c.start..c.start + c.length])
  {
    hide ParseChunk, Drain;
    DrainUnfolds(ChunkStep, false, left, taken);
  }

  lemma ProgressEnds(u: seq<byte>, done: bool, left: seq<byte>, taken: seq<byte>)
    requires InProgress(u, done, left, taken) && (done || ParseChunk(left).size == 0)
    ensures Shrinks(ChunkStep) && Drain(ChunkStep, false, u) == Drained(done, left, taken)
  {
    hide ParseChunk, Drain;
    DrainUnfolds(ChunkStep, done, left, taken);
  }

  lemma TailOfTail(was: seq<byte>, now: seq<byte>, a: nat, i: nat, j: nat)
    requires |now| == |was| && i <= j && a + j <= |was| && now[a + i..] == was[a + i..]
    ensures now[a + j..] == was[a..][j..]
  {
    forall k | a + j <= k < |was|
      ensures now[k] == was[k]
    {
      assert now[a + i..][k - a - i] == was[a + i..][k - a - i];
    }
    SameElements(now[a + j..], was[a..][j..]);
  }

  lemma BodyBehindHead(was: seq<byte>, now: seq<byte>, head: nat, bodyLen: nat, taken: seq<byte>, left: seq<byte>)
    requires head + bodyLen <= |was| && now == was[..head + bodyLen] + taken + left
    ensures now[..head] == was[..head]
    ensures now[head..head + bodyLen + |taken|] == was[head..head + bodyLen] + taken
    ensures now[head + bodyLen + |taken|..] == left
  {
    SameElements(now[..head], was[..head]);
    SameElements(now[head..head + bodyLen + |taken|], was[head..head + bodyLen] + taken);
    SameElements(now[head + bodyLen + |taken|..], left);
  }
}
