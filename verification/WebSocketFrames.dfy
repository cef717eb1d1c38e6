/**
  WebSocket frames on the wire (RFC 6455, section 5.2), the step the receiver takes on its buffer, and
  what a stream of frames means to the application.
 */
module WebSocketFrames {
  import opened Bytes
  import opened Incremental

  const OP_CONTINUE: nat := 0
  const OP_CLOSE: nat := 8
  const OP_PING: nat := 9
  const OP_PONG: nat := 10

  function Op(flags: byte): nat { flags % 16 }

  predicate Fin(flags: byte) { flags >= 128 }

  function WithFin(flags: byte): byte { if Fin(flags) then flags else flags + 128 }

  predicate IsFragment(flags: byte) { !Fin(flags) || Op(flags) == OP_CONTINUE }

  predicate IsFirstFragment(flags: byte) { !Fin(flags) && Op(flags) != OP_CONTINUE }

  predicate IsControlFrame(flags: byte) { Op(flags) == OP_CLOSE || Op(flags) == OP_PING || Op(flags) == OP_PONG }

  // ----- frames as sent -----

  /** The three encodings of the payload length. */
  datatype LengthForm = Short | Medium | Long

  /** A frame: its first octet (FIN, RSV and opcode), the masking key if there is one, its payload. */
  datatype Frame = Frame(flags: byte, key: seq<byte>, form: LengthForm, payload: seq<byte>) {
    ghost predicate Valid() {
      && (key == [] || |key| == 4)
      && match form
         case Short => |payload| < 126
         case Medium => |payload| < 0x1_0000
         case Long => |payload| < 0x8000_0000_0000_0000
    }

    function LengthOctets(): (s: seq<byte>)
      requires Valid()
      ensures |s| == (match form case Short => 1 case Medium => 3 case Long => 9)
    {
      var maskBit := if key == [] then 0 else 128;
      match form
      case Short => [maskBit + |payload|]
      case Medium => [maskBit + 126] + ToBigEndian(|payload|, 2)
      case Long => [maskBit + 127] + ToBigEndian(|payload|, 8)
    }

    function PayloadOctets(): (s: seq<byte>)
      requires Valid()
      ensures |s| == |payload|
    {
      if key == [] then payload else Masked(key, payload)
    }

    function Wire(): (s: seq<byte>)
      requires Valid()
    {
      [flags] + LengthOctets() + key + PayloadOctets()
    }
  }

  ghost predicate AllValid(frames: seq<Frame>) {
    forall f | f in frames :: f.Valid()
  }

  function WireAll(frames: seq<Frame>): seq<byte>
    requires AllValid(frames)
  {
    if frames == [] then [] else frames[0].Wire() + WireAll(frames[1..])
  }

  // ----- the receiver's step -----

  /** `size == 0` stands for a header that is not there yet. */
  datatype Header = Header(size: nat, keySize: nat, length: nat)

  function ParseHeader(u: seq<byte>): (h: Header)
    ensures h.size > 0 ==> 2 <= h.size && h.keySize < h.size && h.keySize in {0, 4}
  {
    if |u| < 2 then Header(0, 0, 0)
    else
      var len := u[1] % 128;
      var keySize := if u[1] >= 128 then 4 else 0;
      if len < 126 && |u| >= keySize then
        Header(2 + keySize, keySize, len)
      else if len == 126 && |u| >= 4 + keySize then
        Header(4 + keySize, keySize, FromBigEndian(u[2..4]))
      else if |u| >= 10 + keySize then
        Header(10 + keySize, keySize, FromBigEndian(u[2..10]))
      else Header(0, keySize, 0)
  }

  datatype Violation = FragmentedControl | NotContinuation | Overflow

  /** What the unread octets `u` hold, `assembled` octets of a fragmented message having been put together. */
  datatype Look = Waiting | Illegal(why: Violation) | Complete(header: Header)

  function Inspect(assembled: nat, u: seq<byte>): (r: Look)
    ensures r.Complete? ==> 2 <= r.header.size && r.header.size + r.header.length <= |u|
    ensures r.Complete? ==> r.header == ParseHeader(u)
  {
    if u == [] then Waiting
    else if IsFragment(u[0]) && IsControlFrame(u[0]) then Illegal(FragmentedControl)
    else if !IsFragment(u[0]) && !IsControlFrame(u[0]) && assembled > 0 then Illegal(NotContinuation)
    else
      var h := ParseHeader(u);
      if h.size + h.length >= TWO_TO_THE_64 then Illegal(Overflow)
      else if 0 < h.size && h.size + h.length <= |u| then Complete(h)
      else Waiting
  }

  function Payload(h: Header, u: seq<byte>): (s: seq<byte>)
    requires h.keySize in {0, 4} && h.keySize <= h.size && h.size + h.length <= |u|
    ensures |s| == h.length
  {
    var octets := u[h.size..h.size + h.length];
    if h.keySize == 4 then Masked(u[h.size - 4..h.size], octets) else octets
  }

  /**
    What a step shows to the outside: a frame sent in answer, a message given to the application, or a
    message whose size field has wrapped below zero (a lone empty final continuation).
   */
  datatype Effect =
    | Answer(op: nat, payload: seq<byte>)
    | Message(flags: byte, payload: seq<byte>)
    | WrappedMessage

  /** A whole message: Ping is answered by Pong, Close by Close, and every message is handed on. */
  function WholeMessage(flags: byte, payload: seq<byte>): seq<Effect> {
    if Op(flags) == OP_PING then [Answer(OP_PONG, payload), Message(flags, payload)]
    else if Op(flags) == OP_CLOSE then [Answer(OP_CLOSE, payload), Message(flags, payload)]
    else [Message(flags, payload)]
  }

  /** The first octet of what has been put together carries the opcode, the rest is payload. */
  function Reassembled(s: seq<byte>): seq<Effect> {
    if s == [] then [WrappedMessage] else [Message(WithFin(s[0]), s[1..])]
  }

  /**
    One delivery on receive buffer `b`, whose first `assembled` octets are the part of a fragmented
    message that has been put together.
   */
  function ReceiveStep(assembled: nat, b: seq<byte>): Step<nat, Effect> {
    if assembled > |b| then Stuck
    else
      var u := b[assembled..];
      match Inspect(assembled, u)
      case Waiting => Stuck
      case Illegal(_) => Stuck
      case Complete(h) =>
        Advance(b[..assembled], u[0], Payload(h, u), u[h.size + h.length..])
  }

  /** The outcome when a frame with first octet `flags` stands between what was put together and `rest`. */
  function Advance(prefix: seq<byte>, flags: byte, payload: seq<byte>, rest: seq<byte>): (r: Step<nat, Effect>)
    ensures r.Took? && |r.buf| <= |prefix| + 1 + |payload| + |rest|
  {
    if !IsFragment(flags) then
      Took(|prefix|, prefix + rest, WholeMessage(flags, payload))
    else
      // a first fragment leaves its opcode octet in front of its payload
      var b := (if IsFirstFragment(flags) then prefix + [flags] else prefix) + payload + rest;
      var total := (if IsFirstFragment(flags) then 1 else |prefix|) + |payload|;
      if Fin(flags) then Took(0, b[total..], Reassembled(b[..total]))
      else Took(total, b, [])
  }

  /**
    The size below zero arises exactly for a final continuation without payload when nothing has been put together;
    no stream that conforms has one.
   */
  lemma WrapsExactlyWhenEmpty(assembled: nat, b: seq<byte>)
    ensures
      var r := ReceiveStep(assembled, b);
      r.Took? && WrappedMessage in r.effects <==>
        && r.Took? && assembled == 0 && Fin(b[0]) && Op(b[0]) == OP_CONTINUE
        && ParseHeader(b).length == 0
  {
    hide ParseHeader, Masked;
    if ReceiveStep(assembled, b).Took? {
      assert assembled == 0 ==> b[0..] == b;
    }
  }

  /** The frame of the octets 128 and 0, on its own, is such a continuation. */
  lemma LoneContinuation()
    ensures ReceiveStep(0, [128, 0]) == Took(0, [], [WrappedMessage])
  {
    var u: seq<byte> := [128, 0];
    assert u[0..] == u && u[..0] == [];
    assert ParseHeader(u) == Header(2, 0, 0);
    assert Payload(Header(2, 0, 0), u) == [] && u[2..] == [];
  }

  lemma StepShrinks()
    ensures Shrinks(ReceiveStep)
  {
    forall assembled, b | ReceiveStep(assembled, b).Took?
      ensures |ReceiveStep(assembled, b).buf| < |b|
    {
    }
  }

  lemma HeaderExtends(u: seq<byte>, more: seq<byte>)
    requires ParseHeader(u).size > 0 && |u| >= ParseHeader(u).size
    ensures ParseHeader(u + more) == ParseHeader(u)
  {
    if u[1] % 128 == 126 {
      assert (u + more)[2..4] == u[2..4];
    } else if u[1] % 128 == 127 {
      assert (u + more)[2..10] == u[2..10];
    }
  }

  /** Octets that arrive behind a complete frame do not change what the step makes of it. */
  lemma StepExtends()
    ensures Extends(ReceiveStep)
  {
    forall assembled, b, more
      ensures Undisturbed(ReceiveStep, assembled, b, more)
    {
      if ReceiveStep(assembled, b).Took? {
        StepUndisturbed(assembled, b, more);
      }
    }
  }

  lemma StepUndisturbed(assembled: nat, b: seq<byte>, more: seq<byte>)
    requires ReceiveStep(assembled, b).Took?
    ensures Undisturbed(ReceiveStep, assembled, b, more)
  {
    hide ParseHeader, Payload, Advance, WholeMessage, Reassembled;
    var u := b[assembled..];
    assert (b + more)[assembled..] == u + more;
    assert (b + more)[..assembled] == b[..assembled];
    InspectExtends(assembled, u, more);
    var h := Inspect(assembled, u).header;
    AdvanceExtends(b[..assembled], u[0], Payload(h, u), u[h.size + h.length..], more);
  }

  lemma InspectExtends(assembled: nat, u: seq<byte>, more: seq<byte>)
    requires Inspect(assembled, u).Complete?
    ensures Inspect(assembled, u + more) == Inspect(assembled, u)
    ensures
      var h := ParseHeader(u);
      && Payload(h, u + more) == Payload(h, u)
      && (u + more)[h.size + h.length..] == u[h.size + h.length..] + more
  {
    HeaderExtends(u, more);
    hide ParseHeader, Masked;
    var h := ParseHeader(u);
    SliceOfPrefix(u, more, h.size, h.size + h.length);
    if h.keySize == 4 {
      SliceOfPrefix(u, more, h.size - 4, h.size);
    }
  }

  lemma AdvanceExtends(prefix: seq<byte>, flags: byte, payload: seq<byte>, rest: seq<byte>, more: seq<byte>)
    ensures
      var r := Advance(prefix, flags, payload, rest);
      Advance(prefix, flags, payload, rest + more) == Took(r.state, r.buf + more, r.effects)
  {
    if !IsFragment(flags) {
      assert prefix + (rest + more) == (prefix + rest) + more;
    } else {
      var front := (if IsFirstFragment(flags) then prefix + [flags] else prefix) + payload;
      var total := (if IsFirstFragment(flags) then 1 else |prefix|) + |payload|;
      assert front + (rest + more) == (front + rest) + more;
      assert (front + rest + more)[total..] == (front + rest)[total..] + more;
      assert (front + rest + more)[..total] == (front + rest)[..total];
    }
  }

  // ----- one frame read back -----

  function HeaderSize(f: Frame): nat
    requires f.Valid()
  {
    1 + |f.LengthOctets()| + |f.key|
  }

  lemma WireHeader(f: Frame, rest: seq<byte>)
    requires f.Valid()
    ensures ParseHeader(f.Wire() + rest) == Header(HeaderSize(f), |f.key|, |f.payload|)
  {
    hide FromBigEndian, ToBigEndian, Masked;
    var u := f.Wire() + rest;
    assert u[0] == f.flags && u[1..1 + |f.LengthOctets()|] == f.LengthOctets();
    var l := f.LengthOctets();
    assert u[1] == l[0];
    assert u[2..1 + |l|] == u[1..1 + |l|][1..] == l[1..];
    match f.form
    case Short =>
    case Medium =>
      assert l[1..] == ToBigEndian(|f.payload|, 2);
      assert Power256(2) == 0x1_0000;
      BigEndianRoundTrip(|f.payload|, 2);
    case Long =>
      assert l[1..] == ToBigEndian(|f.payload|, 8);
      assert Power256(8) == TWO_TO_THE_64 by { assert Power256(4) == 0x1_0000_0000; }
      BigEndianRoundTrip(|f.payload|, 8);
  }

  /** Any masking key and any fitting length form: the receiver finds the payload that was sent. */
  lemma WirePayload(f: Frame, rest: seq<byte>)
    requires f.Valid()
    ensures
      var h, u := Header(HeaderSize(f), |f.key|, |f.payload|), f.Wire() + rest;
      && |f.Wire()| == h.size + h.length
      && h.keySize in {0, 4} && h.keySize <= h.size && u[0] == f.flags
      && Payload(h, u) == f.payload
      && u[h.size + h.length..] == rest
  {
    hide ToBigEndian, Masked;
    var u, size := f.Wire() + rest, HeaderSize(f);
    assert u[size..size + |f.payload|] == f.PayloadOctets();
    if f.key != [] {
      assert u[size - 4..size] == f.key;
      MaskingTwice(f.key, f.payload);
    }
  }

  // ----- what a stream of frames means -----

  /** A fragmented message in progress: the first octet of its first frame and the payload so far. */
  datatype Partial = Idle | InMessage(first: byte, got: seq<byte>) {
    function Prefix(): seq<byte> {
      if Idle? then [] else [first] + got
    }
  }

  /** RFC 6455, section 5.4, for one frame. */
  predicate Admissible(f: Frame, p: Partial) {
    if IsControlFrame(f.flags) then Fin(f.flags)
    else p.InMessage? <==> Op(f.flags) == OP_CONTINUE
  }

  function FrameMeaning(f: Frame, p: Partial): (r: (seq<Effect>, Partial))
    requires Admissible(f, p)
  {
    if IsControlFrame(f.flags) then (WholeMessage(f.flags, f.payload), p)
    else
      var q := if p.Idle? then InMessage(f.flags, f.payload) else p.(got := p.got + f.payload);
      if Fin(f.flags) then ([Message(WithFin(q.first), q.got)], Idle) else ([], q)
  }

  predicate Conforming(frames: seq<Frame>, p: Partial) {
    frames == [] || (Admissible(frames[0], p) && Conforming(frames[1..], FrameMeaning(frames[0], p).1))
  }

  /** The answers and messages a conforming stream stands for, and the message left open at its end. */
  function StreamMeaning(frames: seq<Frame>, p: Partial): (r: (seq<Effect>, Partial))
    requires Conforming(frames, p)
  {
    if frames == [] then ([], p)
    else
      var (effects, q) := FrameMeaning(frames[0], p);
      var (later, last) := StreamMeaning(frames[1..], q);
      (effects + later, last)
  }

  lemma FrameIsReceived(f: Frame, p: Partial, rest: seq<byte>)
    requires f.Valid() && Admissible(f, p)
    ensures
      var (effects, q) := FrameMeaning(f, p);
      ReceiveStep(|p.Prefix()|, p.Prefix() + (f.Wire() + rest)) == Took(|q.Prefix()|, q.Prefix() + rest, effects)
  {
    hide *;
    var u := f.Wire() + rest;
    FrameIsComplete(f, p, rest);
    WirePayload(f, rest);
    CompleteAdvances(p.Prefix(), u, Header(HeaderSize(f), |f.key|, |f.payload|));
    AdvanceIsMeaning(f, p, rest);
  }

  lemma FrameIsComplete(f: Frame, p: Partial, rest: seq<byte>)
    requires f.Valid() && Admissible(f, p)
    ensures Inspect(|p.Prefix()|, f.Wire() + rest) == Complete(Header(HeaderSize(f), |f.key|, |f.payload|))
  {
    WireHeader(f, rest);
    WirePayload(f, rest);
    FrameIsBounded(f);
    hide ParseHeader, Payload, Frame.Wire, HeaderSize, Frame.Valid;
  }

  lemma CompleteAdvances(prefix: seq<byte>, u: seq<byte>, h: Header)
    requires Inspect(|prefix|, u) == Complete(h)
    ensures
      && 0 < |u| && h.keySize in {0, 4} && h.keySize <= h.size && h.size + h.length <= |u|
      && ReceiveStep(|prefix|, prefix + u) == Advance(prefix, u[0], Payload(h, u), u[h.size + h.length..])
  {
    hide Payload, Advance;
    assert (prefix + u)[|prefix|..] == u && (prefix + u)[..|prefix|] == prefix;
  }

  lemma AdvanceIsMeaning(f: Frame, p: Partial, rest: seq<byte>)
    requires Admissible(f, p)
    ensures
      var (effects, q) := FrameMeaning(f, p);
      Advance(p.Prefix(), f.flags, f.payload, rest) == Took(|q.Prefix()|, q.Prefix() + rest, effects)
  {
    if IsFragment(f.flags) {
      AdvanceFragment(p.Prefix(), f.flags, f.payload, rest);
      var front := (if IsFirstFragment(f.flags) then [f.flags] else p.Prefix()) + f.payload;
      if p.InMessage? {
        assert front == [p.first] + (p.got + f.payload);
      } else {
        assert front == [f.flags] + f.payload;
      }
    } else {
      hide Reassembled;
      assert p.Prefix() + rest == if p.Idle? then rest else p.Prefix() + rest;
    }
  }

  lemma AdvanceFragment(prefix: seq<byte>, flags: byte, payload: seq<byte>, rest: seq<byte>)
    requires IsFragment(flags) && (IsFirstFragment(flags) ==> prefix == [])
    ensures
      var front := (if IsFirstFragment(flags) then [flags] else prefix) + payload;
      Advance(prefix, flags, payload, rest) ==
        if Fin(flags) then Took(0, rest, Reassembled(front)) else Took(|front|, front + rest, [])
  {
    hide Reassembled;
    var front := (if IsFirstFragment(flags) then [flags] else prefix) + payload;
    assert prefix + [flags] == [flags] || prefix != [];
    assert (front + rest)[|front|..] == rest && (front + rest)[..|front|] == front;
  }

  lemma {:induction false} StreamIsReceived(frames: seq<Frame>, p: Partial, rest: seq<byte>)
    requires AllValid(frames) && Conforming(frames, p)
    ensures Shrinks(ReceiveStep)
    ensures
      var (effects, q) := StreamMeaning(frames, p);
      var d := Drain(ReceiveStep, |q.Prefix()|, q.Prefix() + rest);
      Drain(ReceiveStep, |p.Prefix()|, p.Prefix() + (WireAll(frames) + rest)) == d.(effects := effects + d.effects)
    decreases |frames|
  {
    StepShrinks();
    hide ReceiveStep, FrameMeaning, Frame.Wire, Partial.Prefix, Admissible;
    if frames == [] {
      assert WireAll(frames) + rest == rest;
      var d := Drain(ReceiveStep, |p.Prefix()|, p.Prefix() + rest);
      assert [] + d.effects == d.effects;
    } else {
      var (effects, q) := FrameMeaning(frames[0], p);
      FrameIsReceived(frames[0], p, WireAll(frames[1..]) + rest);
      assert WireAll(frames) + rest == frames[0].Wire() + (WireAll(frames[1..]) + rest);
      StreamIsReceived(frames[1..], q, rest);
      var (later, last) := StreamMeaning(frames[1..], q);
      var d := Drain(ReceiveStep, |last.Prefix()|, last.Prefix() + rest);
      assert effects + (later + d.effects) == effects + later + d.effects;
    }
  }

  /** A frame of which the last octets are still missing keeps the receiver waiting. */
  lemma UnfinishedFrameWaits(f: Frame, p: Partial, n: nat)
    requires f.Valid() && Admissible(f, p) && n < |f.Wire()|
    ensures ReceiveStep(|p.Prefix()|, p.Prefix() + f.Wire()[..n]).Stuck?
    ensures Inspect(|p.Prefix()|, f.Wire()[..n]) == Waiting
  {
    var prefix, u := p.Prefix(), f.Wire()[..n];
    assert (prefix + u)[|prefix|..] == u;
    if n > 0 {
      assert u[0] == f.flags;
      UnfinishedHeader(f, n);
    }
  }

  lemma UnfinishedHeader(f: Frame, n: nat)
    requires f.Valid() && n < |f.Wire()|
    ensures
      var h := ParseHeader(f.Wire()[..n]);
      h.size + h.length < TWO_TO_THE_64 && (h.size == 0 || n < h.size + h.length)
  {
    hide *;
    var w, u := f.Wire(), f.Wire()[..n];
    SmallHeader(u);
    var size := ParseHeader(u).size;
    if size != 0 && size <= n {
      HeaderExtends(u, w[n..]);
      assert u + w[n..] == w + [];
      WireHeader(f, []);
      WirePayload(f, []);
      FrameIsBounded(f);
    }
  }

  lemma FrameIsBounded(f: Frame)
    requires f.Valid()
    ensures HeaderSize(f) + |f.payload| < TWO_TO_THE_64
  {
  }

  /** Only the short form has its length before the whole header is there. */
  lemma SmallHeader(u: seq<byte>)
    ensures
      var h := ParseHeader(u);
      h.size == 0 || h.size > |u| ==> h.size <= 6 && h.length < 126 && h.size + h.length < TWO_TO_THE_64
    ensures ParseHeader(u).size == 0 ==> ParseHeader(u).length == 0
  {
    hide FromBigEndian;
  }

  /**
    The receive path on a conforming stream: whatever the masking keys, the fragmentation, the
    interleaved control frames and the cuts between receive events, the application gets exactly the
    messages of the stream in order, and the buffer is what has been put together of the open
    message followed by the octets of the frame that is not complete yet.
   */
  lemma ArrivalsGiveTheMessages(frames: seq<Frame>, unfinished: seq<byte>, next: Frame, arrivals: seq<seq<byte>>)
    requires AllValid(frames) && Conforming(frames, Idle)
    requires next.Valid() && Admissible(next, StreamMeaning(frames, Idle).1)
    requires unfinished < next.Wire()
    requires Concat(arrivals) == WireAll(frames) + unfinished
    ensures Shrinks(ReceiveStep)
    ensures
      var (effects, open) := StreamMeaning(frames, Idle);
      Feed(ReceiveStep, 0, [], arrivals) == Drained(|open.Prefix()|, open.Prefix() + unfinished, effects)
  {
    StepShrinks();
    StepExtends();
    hide ReceiveStep, FrameMeaning, Frame.Wire, Admissible;
    var (effects, open) := StreamMeaning(frames, Idle);
    FeedIsOneDrain(ReceiveStep, 0, [], arrivals);
    StreamIsReceived(frames, Idle, unfinished);
    assert Idle.Prefix() + (WireAll(frames) + unfinished) == [] + Concat(arrivals);
    UnfinishedFrameWaits(next, open, |unfinished|);
    assert next.Wire()[..|unfinished|] == unfinished;
    assert effects + [] == effects;
  }

  /** The same for a stream that stops at the end of a frame. */
  lemma WholeFramesArrive(frames: seq<Frame>, arrivals: seq<seq<byte>>)
    requires AllValid(frames) && Conforming(frames, Idle)
    requires Concat(arrivals) == WireAll(frames)
    ensures Shrinks(ReceiveStep)
    ensures
      var (effects, open) := StreamMeaning(frames, Idle);
      Feed(ReceiveStep, 0, [], arrivals) == Drained(|open.Prefix()|, open.Prefix(), effects)
  {
    var open := StreamMeaning(frames, Idle).1;
    var next := Frame(if open.Idle? then 129 else 128, [], Short, []);
    assert [] < next.Wire();
    assert WireAll(frames) + [] == WireAll(frames);
    assert open.Prefix() + [] == open.Prefix();
    ArrivalsGiveTheMessages(frames, [], next, arrivals);
  }

  /**
    For all octet streams, conforming or not, the cuts between receive events do not matter to what is delivered,
    how messages and control frames are answered, and what waits in the buffer.
   */
  lemma CutsDoNotMatter(arrivals: seq<seq<byte>>)
    ensures Shrinks(ReceiveStep)
    ensures Feed(ReceiveStep, 0, [], arrivals) == Drain(ReceiveStep, 0, Concat(arrivals))
  {
    StepShrinks();
    StepExtends();
    FeedIsOneDrain(ReceiveStep, 0, [], arrivals);
    assert [] + Concat(arrivals) == Concat(arrivals);
  }

  // ----- frames of the standard (RFC 6455, sections 5.5 and 5.7) -----

  lemma OneFrame(f: Frame)
    requires f.Valid() && Fin(f.flags) && Op(f.flags) != OP_CONTINUE
    ensures Shrinks(ReceiveStep)
    ensures
      Feed(ReceiveStep, 0, [], [f.Wire()]) ==
        Drained(0, [], if IsControlFrame(f.flags) then WholeMessage(f.flags, f.payload)
                       else [Message(f.flags, f.payload)])
  {
    var frames, wire := [f], [f.Wire()];
    hide Feed, ReceiveStep, Frame.Wire, Frame.Valid, WholeMessage;
    assert frames[1..] == [] && wire[1..] == [];
    var meaning := FrameMeaning(f, Idle);
    assert Conforming([], Idle) && StreamMeaning([], Idle) == ([], Idle);
    assert WireAll([]) == [] && WireAll(frames) == f.Wire() + [] && Concat<byte>([]) == [];
    assert Concat(wire) == WireAll(frames);
    assert StreamMeaning(frames, Idle) == (meaning.0 + [], Idle);
    WholeFramesArrive(frames, wire);
  }

  lemma OctetsOfShort(flags: byte, key: seq<byte>, payload: seq<byte>)
    requires (key == [] || |key| == 4) && |payload| < 126
    ensures
      var f := Frame(flags, key, Short, payload);
      && f.Valid()
      && f.Wire() == if key == [] then [flags, |payload|] + payload
                     else [flags, 128 + |payload|] + key + Masked(key, payload)
  {
    hide Masked;
    var f := Frame(flags, key, Short, payload);
    assert f.LengthOctets() == [if key == [] then |payload| else 128 + |payload|];
    assert [flags] + f.LengthOctets() == [flags, if key == [] then |payload| else 128 + |payload|];
  }

  /** The two longer forms say 126 and 127 where the short one has the length. */
  lemma OctetsOfLonger(flags: byte, payload: seq<byte>)
    requires |payload| < 0x1_0000
    ensures Frame(flags, [], Medium, payload).Valid() && Frame(flags, [], Long, payload).Valid()
    ensures Frame(flags, [], Medium, payload).Wire() == [flags, 126, |payload| / 256, |payload| % 256] + payload
    ensures
      Frame(flags, [], Long, payload).Wire() ==
        [flags, 127, 0, 0, 0, 0, 0, 0, |payload| / 256, |payload| % 256] + payload
  {
    TwoOctets(|payload|);
    hide ToBigEndian;
    assert [flags] + Frame(flags, [], Medium, payload).LengthOctets() ==
      [flags, 126, |payload| / 256, |payload| % 256];
    assert [flags] + Frame(flags, [], Long, payload).LengthOctets() ==
      [flags, 127, 0, 0, 0, 0, 0, 0, |payload| / 256, |payload| % 256];
  }

  lemma TwoOctets(n: nat)
    requires n < 0x1_0000
    ensures ToBigEndian(n, 2) == [n / 256, n % 256]
    ensures ToBigEndian(n, 8) == [0, 0, 0, 0, 0, 0, n / 256, n % 256]
  {
    assert ToBigEndian(n / 256, 1) == [n / 256];
    assert ToBigEndian(0, 3) == [0, 0, 0];
    assert ToBigEndian(0, 6) == [0, 0, 0, 0, 0, 0];
    assert ToBigEndian(n / 256, 7) == ToBigEndian(0, 6) + [n / 256];
  }

  /** What is handed on and answered: text 0x81, binary 0x82, Close 0x88, Ping 0x89 and Pong 0x8A. */
  function Shown(flags: byte, payload: seq<byte>): seq<Effect> {
    match flags
    case 0x88 => [Answer(8, payload), Message(0x88, payload)]
    case 0x89 => [Answer(10, payload), Message(0x89, payload)]
    case _ => [Message(flags, payload)]
  }

  lemma FrameIsShown(flags: byte, payload: seq<byte>)
    requires flags in {0x81, 0x82, 0x88, 0x89, 0x8A}
    ensures Fin(flags) && Op(flags) != OP_CONTINUE
    ensures
      Shown(flags, payload) == if IsControlFrame(flags) then WholeMessage(flags, payload) else [Message(flags, payload)]
  {
  }

  /** A short frame on its own, masked or not. */
  lemma ShortFrameArrives(flags: byte, key: seq<byte>, payload: seq<byte>)
    requires flags in {0x81, 0x82, 0x88, 0x89, 0x8A} && (key == [] || |key| == 4) && |payload| < 126
    ensures Shrinks(ReceiveStep)
    ensures
      var wire := if key == [] then [flags, |payload|] + payload
                  else [flags, 128 + |payload|] + key + Masked(key, payload);
      Feed(ReceiveStep, 0, [], [wire]) == Drained(0, [], Shown(flags, payload))
  {
    hide *;
    OctetsOfShort(flags, key, payload);
    FrameIsShown(flags, payload);
    OneFrame(Frame(flags, key, Short, payload));
  }

  lemma TwoFrames(f: Frame, g: Frame)
    requires f.Valid() && g.Valid()
    ensures WireAll([f, g]) == f.Wire() + g.Wire() == Concat([f.Wire(), g.Wire()])
  {
    hide Frame.Wire;
    assert [f, g][1..] == [g] && [g][1..] == [] && WireAll([]) == [];
    assert WireAll([g]) == g.Wire() + [] == g.Wire();
    var wire := [f.Wire(), g.Wire()];
    assert wire[1..] == [g.Wire()] && [g.Wire()][1..] == [] && Concat<byte>([]) == [];
    assert Concat([g.Wire()]) == g.Wire() + [] == g.Wire();
  }

  /** A text message (1) or a binary one (2) in two fragments. */
  lemma TwoFragmentsArrive(op: byte, a: seq<byte>, b: seq<byte>)
    requires op in {1, 2} && |a| < 126 && |b| < 126
    ensures Shrinks(ReceiveStep)
    ensures
      Feed(ReceiveStep, 0, [], [[op, |a|] + a, [0x80, |b|] + b]) == Drained(0, [], [Message(op + 128, a + b)])
  {
    var f, g := Frame(op, [], Short, a), Frame(0x80, [], Short, b);
    OctetsOfShort(op, [], a);
    OctetsOfShort(0x80, [], b);
    FragmentsMean(op, a, b);
    hide *;
    TwoFrames(f, g);
    WholeFramesArrive([f, g], [f.Wire(), g.Wire()]);
    NothingIsOpen();
  }

  lemma NothingIsOpen()
    ensures Idle.Prefix() == []
  {
  }

  lemma FragmentsMean(op: byte, a: seq<byte>, b: seq<byte>)
    requires op in {1, 2} && |a| < 126 && |b| < 126
    ensures
      var frames := [Frame(op, [], Short, a), Frame(0x80, [], Short, b)];
      AllValid(frames) && Conforming(frames, Idle) && StreamMeaning(frames, Idle) == ([Message(op + 128, a + b)], Idle)
  {
    var f, g := Frame(op, [], Short, a), Frame(0x80, [], Short, b);
    var q, m := InMessage(op, a), Message(op + 128, a + b);
    assert Admissible(f, Idle) && FrameMeaning(f, Idle) == ([], q);
    assert Admissible(g, q) && FrameMeaning(g, q) == ([m], Idle);
    hide FrameMeaning, Admissible;
    assert [f, g][1..] == [g] && [g][1..] == [];
    assert Conforming([], Idle) && StreamMeaning([], Idle) == ([], Idle);
    assert [m] + [] == [m] && [] + [m] == [m];
    assert StreamMeaning([g], q) == ([m], Idle);
  }
}
