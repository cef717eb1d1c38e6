/** The WebSocket side of a connection: frames are built in the send buffer and taken apart in the receive buffer. */
module WebSocketConnection {
  import opened Bytes
  import opened Incremental
  import opened Mbufs
  import opened WebSocketFrames

  const DONT_FIN: nat := 0x100

  function SentFlags(op: nat): byte {
    (if op / DONT_FIN % 2 == 1 then 0 else 128) + op % 16
  }

  /** An opcode alone ends its message; with 0x100 added, more is to follow. */
  lemma FlagsSent(opcode: nat)
    requires opcode < 16
    ensures SentFlags(opcode) == 128 + opcode && SentFlags(0x100 + opcode) == opcode
  {
  }

  /** The sender writes 65535 octets with the long form, which the standard keeps for longer payloads. */
  function SentForm(length: nat): LengthForm {
    if length < 126 then Short else if length < 65535 then Medium else Long
  }

  /** No length form that fits the payload takes fewer octets. */
  ghost predicate ShortestForm(flags: byte, key: seq<byte>, payload: seq<byte>, form: LengthForm) {
    && Frame(flags, key, form, payload).Valid()
    && forall other: LengthForm | Frame(flags, key, other, payload).Valid() ::
         |Frame(flags, key, form, payload).LengthOctets()| <= |Frame(flags, key, other, payload).LengthOctets()|
  }

  /** The sender uses the shortest form that fits exactly when the payload does not have 65535 octets. */
  lemma ShortestFormSent(flags: byte, key: seq<byte>, payload: seq<byte>)
    requires |key| in {0, 4} && |payload| < 0x8000_0000_0000_0000
    ensures ShortestForm(flags, key, payload, SentForm(|payload|)) <==> |payload| != 65535
  {
    var medium := Frame(flags, key, Medium, payload);
    assert |payload| == 65535 ==> medium.Valid() && |medium.LengthOctets()| == 3;
    hide ToBigEndian;
  }

  function SentFrame(op: nat, key: seq<byte>, payload: seq<byte>): Frame {
    Frame(SentFlags(op), key, SentForm(|payload|), payload)
  }

  /** The octets in front of a payload of `n` octets. */
  function SentHeader(op: nat, key: seq<byte>, n: nat): seq<byte>
    requires n < 0x8000_0000_0000_0000
  {
    var maskBit := if key == [] then 0 else 128;
    [SentFlags(op)] +
    (match SentForm(n)
     case Short => [maskBit + n]
     case Medium => [maskBit + 126] + ToBigEndian(n, 2)
     case Long => [maskBit + 127] + ToBigEndian(n, 8)) + key
  }

  function MaskedIf(key: seq<byte>, payload: seq<byte>): seq<byte>
    requires |key| in {0, 4}
  {
    if key == [] then payload else Masked(key, payload)
  }

  lemma SentWire(op: nat, key: seq<byte>, payload: seq<byte>)
    requires |key| in {0, 4} && |payload| < 0x8000_0000_0000_0000
    ensures
      var f := SentFrame(op, key, payload);
      f.Valid() && f.Wire() == SentHeader(op, key, |payload|) + MaskedIf(key, payload)
  {
    hide ToBigEndian, Masked;
  }

  function Reason(why: Violation): seq<char> {
    match why
    case FragmentedControl => "fragmented control frames are illegal"
    case NotContinuation => "non-continuation in the middle of a fragmented message"
    case Overflow => "overflowed message"
  }

  function Ascii(s: seq<char>): (r: seq<byte>)
    ensures |r| == |s|
  {
    seq(|s|, i requires 0 <= i < |s| => if s[i] as int < 128 then s[i] as int else 63)
  }

  /** What a frame says, its encoding left aside. */
  function Said(f: Frame): (byte, seq<byte>) { (f.flags, f.payload) }

  function SaidAll(frames: seq<Frame>): seq<(byte, seq<byte>)> {
    seq(|frames|, i requires 0 <= i < |frames| => Said(frames[i]))
  }

  function AnswerOf(effect: Effect): seq<(byte, seq<byte>)> {
    match effect
    case Answer(op, payload) => [(SentFlags(op), payload)]
    case _ => []
  }

  /** The frames that go out because of a step. */
  function Answers(effects: seq<Effect>): seq<(byte, seq<byte>)> {
    if effects == [] then [] else AnswerOf(effects[0]) + Answers(effects[1..])
  }

  method TotalLength(parts: seq<seq<byte>>) returns (len: nat)
    ensures len == |Concat(parts)|
  {
    len := 0;
    assert parts[0..] == parts;
    for i := 0 to |parts|
      invariant len + |Concat(parts[i..])| == |Concat(parts)|
    {
      ConcatSuffix(parts, i);
      len := len + |parts[i]|;
    }
  }

  /** Answering a Close frame or complaining about a breach of the rules ends the connection. */
  ghost predicate Closes(effects: seq<Effect>) {
    exists payload :: Answer(OP_CLOSE, payload) in effects
  }

  lemma ClosesAppend(a: seq<Effect>, b: seq<Effect>)
    ensures Closes(a + b) <==> Closes(a) || Closes(b)
  {
    if payload :| Answer(OP_CLOSE, payload) in a + b {
      assert Answer(OP_CLOSE, payload) in a || Answer(OP_CLOSE, payload) in b;
    }
    if payload :| Answer(OP_CLOSE, payload) in a {
      assert Answer(OP_CLOSE, payload) in a + b;
    }
    if payload :| Answer(OP_CLOSE, payload) in b {
      assert Answer(OP_CLOSE, payload) in a + b;
    }
  }

  lemma WholeCloses(flags: byte, payload: seq<byte>)
    ensures Closes(WholeMessage(flags, payload)) <==> Op(flags) == OP_CLOSE
  {
    var effects := WholeMessage(flags, payload);
    if Op(flags) == OP_CLOSE {
      assert Answer(OP_CLOSE, payload) == effects[0];
    }
  }

  lemma SaidAllAppend(frames: seq<Frame>, f: Frame)
    ensures SaidAll(frames + [f]) == SaidAll(frames) + [Said(f)]
  {
  }

  lemma AnswersToWhole(flags: byte, payload: seq<byte>)
    ensures Answers(WholeMessage(flags, payload)) ==
            if Op(flags) == OP_PING then [(SentFlags(OP_PONG), payload)]
            else if Op(flags) == OP_CLOSE then [(SentFlags(OP_CLOSE), payload)]
            else []
  {
    var m := [Message(flags, payload)];
    assert m[1..] == [];
    assert Answers(m) == [];
    forall e: Effect
      ensures ([e] + m)[1..] == m
    {
    }
    assert forall e: Effect :: [e, m[0]][1..] == m;
  }

  /** What a fragment leaves in the buffer once the gap in front of its payload is closed. */
  lemma FragmentTaken(prefix: seq<byte>, flags: byte, header: seq<byte>, payload: seq<byte>, rest: seq<byte>)
    requires IsFragment(flags) && header != [] && header[0] == flags
    ensures
      var b, first := prefix + header + payload + rest, if IsFirstFragment(flags) then 1 else 0;
      var kept := b[..|prefix| + first] + b[|prefix| + |header|..];
      var total := (if IsFirstFragment(flags) then 1 else |prefix|) + |payload|;
      && total <= |kept|
      && Advance(prefix, flags, payload, rest) ==
           if Fin(flags) then Took(0, kept[total..], Reassembled(kept[0..total])) else Took(total, kept, [])
  {
    hide Reassembled;
    var b, first := prefix + header + payload + rest, if IsFirstFragment(flags) then 1 else 0;
    var kept := b[..|prefix| + first] + b[|prefix| + |header|..];
    SameElements(kept, (if IsFirstFragment(flags) then prefix + [flags] else prefix) + payload + rest);
  }

  lemma UnmaskedIs(prefix: seq<byte>, u: seq<byte>, size: nat, length: nat, payload: seq<byte>)
    requires size + length <= |u| && |payload| == length
    ensures
      var b, at := prefix + u, |prefix| + size;
      && b[at..at + length] == u[size..size + length]
      && b[..at] + payload + b[at + length..] == prefix + u[..size] + payload + u[size + length..]
      && (payload == u[size..size + length] ==> b == prefix + u[..size] + payload + u[size + length..])
  {
    InsideSecond(prefix, u, size, size + length);
    UpToSecond(prefix, u, size);
    BehindSecond(prefix, u, size + length);
    ThreeParts(u, size, size + length);
    FourParts(prefix, u[..size], u[size..size + length], u[size + length..]);
  }

  lemma InsideSecond(a: seq<byte>, b: seq<byte>, i: nat, j: nat)
    requires i <= j <= |b|
    ensures (a + b)[|a| + i..|a| + j] == b[i..j]
  {
  }

  lemma UpToSecond(a: seq<byte>, b: seq<byte>, i: nat)
    requires i <= |b|
    ensures (a + b)[..|a| + i] == a + b[..i]
  {
  }

  lemma BehindSecond(a: seq<byte>, b: seq<byte>, i: nat)
    requires i <= |b|
    ensures (a + b)[|a| + i..] == b[i..]
  {
  }

  lemma FourParts(a: seq<byte>, b: seq<byte>, c: seq<byte>, d: seq<byte>)
    ensures a + (b + c + d) == a + b + c + d
  {
  }

  lemma PayloadIs(h: Header, u: seq<byte>)
    requires h.keySize in {0, 4} && h.keySize < h.size && h.size + h.length <= |u|
    ensures
      var octets := u[h.size..h.size + h.length];
      Payload(h, u) == if h.keySize == 4 then Masked(u[h.size - 4..h.size], octets) else octets
  {
    hide Masked;
  }

  lemma KeyIsThere(prefix: seq<byte>, u: seq<byte>, size: nat)
    requires 4 <= size <= |u|
    ensures (prefix + u)[|prefix| + size - 4..|prefix| + size] == u[size - 4..size]
  {
  }

  lemma PayloadInside(prefix: seq<byte>, header: seq<byte>, payload: seq<byte>, rest: seq<byte>)
    ensures
      var at := |prefix| + |header|;
      (prefix + header + payload + rest)[at..at + |payload|] == payload
  {
  }

  class Connection {
    const recv: Mbuf
    const send: Mbuf
    const isClient: bool
    var assembled: nat
    var closing: bool
    /** What the handler has been given and what has been answered, in order. */
    var log: seq<Effect>
    /** The frames of which the send buffer is made. */
    ghost var sent: seq<Frame>

    ghost function Repr(): set<object>
      reads this, recv, send
    {
      {this, recv, recv.buf, send, send.buf}
    }

    ghost predicate Valid()
      reads this, recv, send, recv.buf, send.buf
    {
      && recv != send && recv.buf != send.buf
      && recv.Valid() && send.Valid()
      && assembled <= recv.len
      && AllValid(sent)
      && send.Contents() == WireAll(sent)
    }

    constructor (isClient: bool)
      ensures Valid() && fresh(Repr())
      ensures this.isClient == isClient && assembled == 0 && !closing && log == [] && sent == []
      ensures recv.Contents() == []
    {
      this.isClient := isClient;
      recv := new Mbuf();
      send := new Mbuf();
      assembled, closing, log, sent := 0, false, [], [];
    }

    /** A key nobody can foresee: any four octets. */
    method RandomKey() returns (key: seq<byte>)
      ensures |key| == 4
    {
      var a: byte, b: byte, c: byte, d: byte := *, *, *, *;
      key := [a, b, c, d];
    }

    /**
      Writes the header of a frame for `n` octets of payload. `pos` is where the payload that has to be
      masked starts, zero when there is no masking.
     */
    method SendHeader(op: nat, n: nat) returns (pos: nat, key: seq<byte>)
      requires send.Valid() && n < 0x8000_0000_0000_0000
      modifies send, send.buf
      ensures send.Valid() && (send.buf == old(send.buf) || fresh(send.buf))
      ensures if isClient then |key| == 4 && pos == send.len && pos > 0 else key == [] && pos == 0
      ensures send.Contents() == old(send.Contents()) + SentHeader(op, key, n)
    {
      var maskBit := if isClient then 128 else 0;
      var header := [SentFlags(op)];
      if n < 126 {
        header := header + [maskBit + n];
      } else if n < 65535 {
        header := header + ([maskBit + 126] + ToBigEndian(n, 2));
      } else {
        header := header + ([maskBit + 127] + ToBigEndian(n, 8));
      }
      ghost var before := send.Contents();
      send.Append(header);
      if isClient {
        key := RandomKey();
        send.Append(key);
        pos := send.len;
        assert before + header + key == before + (header + key);
      } else {
        pos, key := 0, [];
        assert header + key == header;
      }
    }

    /** Masks what has been appended to the send buffer since position `pos`, and nothing before it. */
    method MaskFrame(pos: nat, key: seq<byte>)
      requires send.Valid() && pos <= send.len && (pos > 0 ==> |key| == 4)
      modifies send.buf
      ensures send.Valid() && send.len == old(send.len)
      ensures send.Contents() == old(send.Contents()[..pos]) +
                                 if pos == 0 then old(send.Contents()) else Masked(key, old(send.Contents()[pos..]))
    {
      hide Masked;
      if pos == 0 {
        assert send.Contents()[..0] + send.Contents() == send.Contents();
        return;
      }
      ghost var was := send.Contents();
      send.Mask(pos, send.len - pos, key);
      assert was[pos..] == was[pos..pos + (send.len - pos)];
    }

    /** Header, payload and mask together add one frame to what is waiting to be sent. */
    lemma FrameAppended(op: nat, key: seq<byte>, payload: seq<byte>, now: seq<byte>)
      requires |key| in {0, 4} && |payload| < 0x8000_0000_0000_0000 && AllValid(sent)
      requires now == WireAll(sent) + SentHeader(op, key, |payload|) + MaskedIf(key, payload)
      ensures
        var all := sent + [SentFrame(op, key, payload)];
        AllValid(all) && now == WireAll(all)
    {
      hide SentHeader, MaskedIf, Frame.Wire, SentFrame;
      SentWire(op, key, payload);
      WireAllAppend(sent, SentFrame(op, key, payload));
      assert WireAll(sent) + SentHeader(op, key, |payload|) + MaskedIf(key, payload) ==
             WireAll(sent) + (SentHeader(op, key, |payload|) + MaskedIf(key, payload));
    }

    /** The payload is sent in one piece. */
    method SendFrame(op: nat, data: seq<byte>) returns (ghost f: Frame)
      requires Valid() && |data| < 0x8000_0000
      modifies this, send, send.buf
      ensures Valid() && recv.buf == old(recv.buf) && fresh(Repr() - old(Repr()))
      ensures assembled == old(assembled) && log == old(log)
      ensures closing == (old(closing) || op == OP_CLOSE)
      ensures sent == old(sent) + [f] && f == SentFrame(op, f.key, data) && |f.key| == if isClient then 4 else 0
    {
      hide SentHeader, WireAll, SentFlags, SentForm, Masked;
      var pos, key := SendHeader(op, |data|);
      ghost var front := send.Contents();
      send.Append(data);
      MaskFrame(pos, key);
      assert send.Contents() == front + MaskedIf(key, data);
      FrameAppended(op, key, data, send.Contents());
      f := SentFrame(op, key, data);
      sent := sent + [f];
      closing := closing || op == OP_CLOSE;
    }

    /** The payload is sent in several pieces, as one frame. */
    method SendFramev(op: nat, parts: seq<seq<byte>>) returns (ghost f: Frame)
      requires Valid() && |Concat(parts)| < 0x8000_0000
      modifies this, send, send.buf
      ensures Valid() && recv.buf == old(recv.buf) && fresh(Repr() - old(Repr()))
      ensures assembled == old(assembled) && log == old(log)
      ensures closing == (old(closing) || op == OP_CLOSE)
      ensures sent == old(sent) + [f] && f == SentFrame(op, f.key, Concat(parts))
      ensures |f.key| == if isClient then 4 else 0
    {
      hide SentHeader, WireAll, SentFlags, SentForm, Masked, Concat;
      var len := TotalLength(parts);
      var pos, key := SendHeader(op, len);
      ghost var front := send.Contents();
      send.AppendAll(parts);
      assert send.Contents() == front + Concat(parts);
      MaskFrame(pos, key);
      assert send.Contents() == front + MaskedIf(key, Concat(parts));
      FrameAppended(op, key, Concat(parts), send.Contents());
      f := SentFrame(op, key, Concat(parts));
      sent := sent + [f];
      closing := closing || op == OP_CLOSE;
    }

    /** The payload octets, unmasked where they stand; what is in front of them and behind them stays as it is. */
    method Unmask(h: Header, ghost prefix: seq<byte>, ghost u: seq<byte>)
      requires recv.Valid() && recv.Contents() == prefix + u && |prefix| == assembled
      requires h.keySize in {0, 4} && h.keySize < h.size && h.size + h.length <= |u|
      modifies recv.buf
      ensures recv.Valid() && recv.len == old(recv.len)
      ensures recv.Contents() == prefix + u[..h.size] + Payload(h, u) + u[h.size + h.length..]
    {
      hide *;
      var at := assembled + h.size;
      UnmaskedIs(prefix, u, h.size, h.length, Payload(h, u));
      PayloadIs(h, u);
      if h.keySize == 4 {
        KeyIsThere(prefix, u, h.size);
        var key := recv.Slice(at - 4, at);
        recv.Mask(at, h.length, key);
      }
    }

    method UnmaskedPayload(h: Header, ghost prefix: seq<byte>, ghost u: seq<byte>) returns (payload: seq<byte>)
      requires recv.Valid() && recv.Contents() == prefix + u && |prefix| == assembled
      requires h.keySize in {0, 4} && h.keySize < h.size && h.size + h.length <= |u|
      modifies recv.buf
      ensures recv.Valid() && recv.len == old(recv.len)
      ensures payload == Payload(h, u)
      ensures recv.Contents() == prefix + u[..h.size] + payload + u[h.size + h.length..]
    {
      hide *;
      PayloadInside(prefix, u[..h.size], Payload(h, u), u[h.size + h.length..]);
      Unmask(h, prefix, u);
      payload := recv.Slice(assembled + h.size, assembled + h.size + h.length);
    }

    /**
      A fragment: its payload is moved down behind what has been put together so far, the rest of the
      buffer following it; the last fragment completes the message.
     */
    method TakeFragment(flags: byte, h: Header, ghost prefix: seq<byte>, ghost header: seq<byte>,
        ghost payload: seq<byte>, ghost rest: seq<byte>)
      requires Valid() && IsFragment(flags)
      requires |prefix| == assembled && |header| == h.size && |payload| == h.length
      requires h.size >= 2 && header[0] == flags
      requires recv.Contents() == prefix + header + payload + rest
      modifies this, recv, recv.buf
      ensures Valid() && recv.buf == old(recv.buf) && send.buf == old(send.buf)
      ensures sent == old(sent) && closing == old(closing)
      ensures
        var step := Advance(prefix, flags, payload, rest);
        assembled == step.state && recv.Contents() == step.buf && log == old(log) + step.effects
    {
      hide WireAll, AllValid, Reassembled, Advance, IsFirstFragment, IsFragment, Fin, Mbuf.Contents;
      FragmentTaken(prefix, flags, header, payload, rest);
      var data, target := assembled + h.size, assembled;
      if IsFirstFragment(flags) {
        target := target + 1;
        assembled := 1;
      }
      recv.CloseGap(target, data);
      assembled := assembled + h.length;
      if Fin(flags) {
        HandOver();
      }
    }

    /** The last fragment has come: what has been put together is handed on and removed. */
    method HandOver()
      requires Valid()
      modifies this, recv, recv.buf
      ensures Valid() && recv.buf == old(recv.buf) && send.buf == old(send.buf)
      ensures sent == old(sent) && closing == old(closing) && assembled == 0
      ensures recv.Contents() == old(recv.Contents()[assembled..])
      ensures log == old(log) + Reassembled(old(recv.Contents()[0..assembled]))
    {
      hide WireAll, AllValid, Reassembled;
      var message := recv.Slice(0, assembled);
      log := log + Reassembled(message);
      var cleanup := assembled;
      assembled := 0;
      recv.Remove(cleanup);
    }

    /** A whole message: control frames are answered, the frame is handed on and cut out of the buffer. */
    method TakeWhole(flags: byte, h: Header, ghost prefix: seq<byte>, ghost header: seq<byte>, payload: seq<byte>,
        ghost rest: seq<byte>)
      requires Valid() && !IsFragment(flags)
      requires |prefix| == assembled && |header| == h.size && |payload| == h.length < 0x8000_0000
      requires recv.Contents() == prefix + header + payload + rest
      modifies this, recv, recv.buf, send, send.buf
      ensures Valid() && recv.buf == old(recv.buf) && fresh(Repr() - old(Repr()))
      ensures assembled == old(assembled)
      ensures recv.Contents() == prefix + rest && log == old(log) + WholeMessage(flags, payload)
      ensures SaidAll(sent) == SaidAll(old(sent)) + Answers(WholeMessage(flags, payload))
      ensures closing == (old(closing) || Op(flags) == OP_CLOSE)
    {
      hide WireAll, Answers, SaidAll, SentFlags;
      var op := Op(flags);
      ghost var was := sent;
      AnswersToWhole(flags, payload);
      if op == OP_PING {
        ghost var f := SendFrame(OP_PONG, payload);
        SaidAllAppend(was, f);
      } else if op == OP_CLOSE {
        ghost var f := SendFrame(OP_CLOSE, payload);
        SaidAllAppend(was, f);
      }
      log := log + WholeMessage(flags, payload);
      var next := assembled + h.size + h.length;
      recv.CloseGap(assembled, next);
    }

    /** Takes the complete frame that `h` heads. */
    method TakeFrame(h: Header, ghost u: seq<byte>) returns (ghost effects: seq<Effect>)
      requires Valid() && recv.len < 0x8000_0000 && u == recv.Contents()[assembled..]
      requires h == ParseHeader(u) && 2 <= h.size && h.size + h.length <= |u|
      modifies Repr()
      ensures Valid() && recv.buf == old(recv.buf) && fresh(Repr() - old(Repr()))
      ensures
        Advance(old(recv.Contents()[..assembled]), u[0], Payload(h, u), u[h.size + h.length..]) ==
          Took(assembled, recv.Contents(), effects)
      ensures log == old(log) + effects && SaidAll(sent) == SaidAll(old(sent)) + Answers(effects)
      ensures closing == (old(closing) || Closes(effects))
    {
      hide Closes, WireAll, SaidAll, Answers, Advance, WholeMessage, Payload, Masked, ParseHeader;
      var flags := recv.buf[assembled];
      ghost var prefix, header, rest := recv.Contents()[..assembled], u[..h.size], u[h.size + h.length..];
      ghost var before := sent;
      assert recv.Contents() == prefix + u;
      assert flags == u[0];
      var payload := UnmaskedPayload(h, prefix, u);
      if IsFragment(flags) {
        effects := Advance(prefix, flags, payload, rest).effects;
        TakeFragment(flags, h, prefix, header, payload, rest);
        NoAnswers(prefix, flags, payload, rest);
        assert SaidAll(before) + [] == SaidAll(before);
      } else {
        effects := WholeMessage(flags, payload);
        TakeWhole(flags, h, prefix, header, payload, rest);
        WholeAdvance(prefix, flags, payload, rest);
        WholeCloses(flags, payload);
      }
    }

    /**
      Looks at the unread octets and, when they hold a frame, takes it. The sending routine counts octets
      in an int, so the received data must not exceed that.
     */
    method Deliver() returns (ok: bool)
      requires Valid() && recv.len < 0x8000_0000
      modifies Repr()
      ensures Valid() && recv.buf == old(recv.buf) && fresh(Repr() - old(Repr()))
      ensures
        match ReceiveStep(old(assembled), old(recv.Contents()))
        case Stuck =>
          && !ok && assembled == old(assembled) && recv.Contents() == old(recv.Contents()) && log == old(log)
          && SaidAll(sent) == SaidAll(old(sent)) + Complaint(assembled, recv.Contents())
          && closing == (old(closing) || Complaint(assembled, recv.Contents()) != [])
        case Took(a, b, effects) =>
          && ok && assembled == a && recv.Contents() == b && log == old(log) + effects
          && SaidAll(sent) == SaidAll(old(sent)) + Answers(effects)
          && closing == (old(closing) || Closes(effects))
    {
      hide Closes, WireAll, SaidAll, Answers, ParseHeader, Payload, Advance, WholeMessage, Ascii;
      ghost var b, before := recv.Contents(), sent;
      var u := recv.buf[assembled..recv.len];
      assert u == b[assembled..];
      match Inspect(assembled, u) {
        case Waiting =>
          ok := false;
        case Illegal(why) =>
          ok := false;
          ghost var f := SendFrame(OP_CLOSE, Ascii(Reason(why)));
          SaidAllAppend(before, f);
        case Complete(h) =>
          ok := true;
          ghost var effects := TakeFrame(h, u);
      }
    }

    /** A receive event: the octets are appended, then deliveries are made for as long as they succeed. */
    method Receive(data: seq<byte>)
      requires Valid() && recv.len + |data| < 0x8000_0000
      modifies Repr()
      ensures Valid() && fresh(Repr() - old(Repr()))
      ensures Shrinks(ReceiveStep)
      ensures
        var d := Drain(ReceiveStep, old(assembled), old(recv.Contents()) + data);
        && assembled == d.state && recv.Contents() == d.buf && log == old(log) + d.effects
        && SaidAll(sent) == SaidAll(old(sent)) + Answers(d.effects) + Complaint(d.state, d.buf)
        && closing == (old(closing) || Closes(d.effects) || Complaint(d.state, d.buf) != [])
    {
      hide Closes, ReceiveStep, Answers, SaidAll, Complaint, WireAll, Drain, Frame.Valid;
      StepShrinks();
      recv.Append(data);
      ghost var from := Drain(ReceiveStep, assembled, recv.Contents());
      ghost var taken: seq<Effect> := [];
      var ok := true;
      NoAnswersAtAll();
      while ok
        invariant Valid() && fresh(Repr() - old(Repr()))
        invariant recv.len < 0x8000_0000
        invariant log == old(log) + taken
        invariant
          var d := Drain(ReceiveStep, assembled, recv.Contents());
          from == Drained(d.state, d.buf, taken + d.effects)
        invariant ok ==>
          && SaidAll(sent) == SaidAll(old(sent)) + Answers(taken)
          && closing == (old(closing) || Closes(taken))
        invariant !ok ==>
          && SaidAll(sent) == SaidAll(old(sent)) + Answers(taken) + Complaint(assembled, recv.Contents())
          && closing == (old(closing) || Closes(taken) || Complaint(assembled, recv.Contents()) != [])
          && ReceiveStep(assembled, recv.Contents()).Stuck?
        decreases recv.len, ok
      {
        ghost var step := ReceiveStep(assembled, recv.Contents());
        DrainUnfolds(ReceiveStep, assembled, recv.Contents(), taken);
        ok := Deliver();
        if ok {
          AnswersAppend(taken, step.effects);
          ClosesAppend(taken, step.effects);
          taken := taken + step.effects;
        }
      }
      DrainUnfolds(ReceiveStep, assembled, recv.Contents(), taken);
    }

    /** The receive events of a connection, one after the other. */
    method ReceiveAll(arrivals: seq<seq<byte>>)
      requires Valid() && recv.len + |Concat(arrivals)| < 0x8000_0000
      modifies Repr()
      ensures Valid() && fresh(Repr() - old(Repr()))
      ensures Shrinks(ReceiveStep)
      ensures
        var d := Feed(ReceiveStep, old(assembled), old(recv.Contents()), arrivals);
        && assembled == d.state && recv.Contents() == d.buf && log == old(log) + d.effects
        && closing == (old(closing) || ClosesOver(old(assembled), old(recv.Contents()), arrivals))
      ensures SaidAll(sent) == SaidAll(old(sent)) + AnswersOver(old(assembled), old(recv.Contents()), arrivals)
    {
      hide ReceiveStep, Answers, SaidAll, Complaint, WireAll, Drain, Frame.Valid, Closes, Feed, Concat, AnswersOver,
        ClosesOver;
      StepShrinks();
      ghost var a, b := assembled, recv.Contents();
      ghost var taken: seq<Effect> := [];
      ghost var answered: seq<(byte, seq<byte>)> := [];
      assert arrivals[0..] == arrivals;
      for i := 0 to |arrivals|
        invariant Valid() && fresh(Repr() - old(Repr()))
        invariant recv.len + |Concat(arrivals[i..])| < 0x8000_0000
        invariant log == old(log) + taken && SaidAll(sent) == SaidAll(old(sent)) + answered
        invariant
          var d := Feed(ReceiveStep, assembled, recv.Contents(), arrivals[i..]);
          Feed(ReceiveStep, a, b, arrivals) == Drained(d.state, d.buf, taken + d.effects)
        invariant AnswersOver(a, b, arrivals) == answered + AnswersOver(assembled, recv.Contents(), arrivals[i..])
        invariant (old(closing) || ClosesOver(a, b, arrivals)) ==
                  (closing || ClosesOver(assembled, recv.Contents(), arrivals[i..]))
      {
        ConcatSuffix(arrivals, i);
        ghost var first := Drain(ReceiveStep, assembled, recv.Contents() + arrivals[i]);
        ghost var now := Answers(first.effects) + Complaint(first.state, first.buf);
        FeedUnfolds(ReceiveStep, assembled, recv.Contents(), arrivals, i, taken);
        AnswersUnfold(assembled, recv.Contents(), arrivals, i, answered);
        DrainDoesNotGrow(ReceiveStep, assembled, recv.Contents() + arrivals[i]);
        ghost var before := SaidAll(sent);
        Receive(arrivals[i]);
        Joined(SaidAll(old(sent)), answered, Answers(first.effects), Complaint(first.state, first.buf));
        taken := taken + first.effects;
        answered := answered + now;
      }
      FeedUnfolds(ReceiveStep, assembled, recv.Contents(), arrivals, |arrivals|, taken);
      NothingMore(assembled, recv.Contents(), arrivals);
      assert answered + [] == answered;
    }
  }

  /** A breach of the framing rules is answered with a Close frame that says so. */
  function Complaint(assembled: nat, b: seq<byte>): seq<(byte, seq<byte>)> {
    if assembled > |b| then []
    else
      match Inspect(assembled, b[assembled..])
      case Illegal(why) => [(SentFlags(OP_CLOSE), Ascii(Reason(why)))]
      case _ => []
  }

  /** Whether the unread octets break the rules of framing. */
  predicate Broken(assembled: nat, b: seq<byte>) {
    assembled <= |b| && Inspect(assembled, b[assembled..]).Illegal?
  }

  /** The frames that go out over a run of receive events: every event that ends at a breach complains once more. */
  ghost function AnswersOver(assembled: nat, b: seq<byte>, arrivals: seq<seq<byte>>): seq<(byte, seq<byte>)>
    requires Shrinks(ReceiveStep)
    decreases |arrivals|
  {
    if arrivals == [] then []
    else
      var first := Drain(ReceiveStep, assembled, b + arrivals[0]);
      Answers(first.effects) + Complaint(first.state, first.buf) + AnswersOver(first.state, first.buf, arrivals[1..])
  }

  ghost predicate ClosesOver(assembled: nat, b: seq<byte>, arrivals: seq<seq<byte>>)
    requires Shrinks(ReceiveStep)
    decreases |arrivals|
  {
    if arrivals == [] then false
    else
      var first := Drain(ReceiveStep, assembled, b + arrivals[0]);
      || Closes(first.effects) || Complaint(first.state, first.buf) != []
      || ClosesOver(first.state, first.buf, arrivals[1..])
  }

  lemma AnswersUnfold(assembled: nat, b: seq<byte>, arrivals: seq<seq<byte>>, i: nat, answered: seq<(byte, seq<byte>)>)
    requires Shrinks(ReceiveStep) && i < |arrivals|
    ensures
      var first := Drain(ReceiveStep, assembled, b + arrivals[i]);
      var now := Answers(first.effects) + Complaint(first.state, first.buf);
      && answered + AnswersOver(assembled, b, arrivals[i..]) ==
           answered + now + AnswersOver(first.state, first.buf, arrivals[i + 1..])
      && (ClosesOver(assembled, b, arrivals[i..]) <==>
            || Closes(first.effects) || Complaint(first.state, first.buf) != []
            || ClosesOver(first.state, first.buf, arrivals[i + 1..]))
  {
    hide ReceiveStep, Answers, Complaint, Drain, Closes;
    assert arrivals[i..][1..] == arrivals[i + 1..];
  }

  lemma NothingMore(assembled: nat, b: seq<byte>, arrivals: seq<seq<byte>>)
    requires Shrinks(ReceiveStep)
    ensures AnswersOver(assembled, b, arrivals[|arrivals|..]) == [] && !ClosesOver(assembled, b, arrivals[|arrivals|..])
  {
  }

  lemma Joined<T>(a: seq<T>, b: seq<T>, c: seq<T>, d: seq<T>)
    ensures a + b + c + d == a + (b + (c + d))
  {
  }

  /** How many of the events end at a breach of the rules. */
  ghost function Breaches(assembled: nat, b: seq<byte>, arrivals: seq<seq<byte>>): (n: nat)
    requires Shrinks(ReceiveStep)
    ensures n <= |arrivals|
    decreases |arrivals|
  {
    if arrivals == [] then 0
    else
      var first := Drain(ReceiveStep, assembled, b + arrivals[0]);
      (if Broken(first.state, first.buf) then 1 else 0) + Breaches(first.state, first.buf, arrivals[1..])
  }

  function Repeated<T>(s: seq<T>, n: nat): (r: seq<T>)
    ensures |r| == |s| * n
  {
    if n == 0 then [] else s + Repeated(s, n - 1)
  }

  /** A breach stays where it is, whatever arrives behind it. */
  lemma BreachStays(assembled: nat, b: seq<byte>, more: seq<byte>)
    requires Broken(assembled, b)
    ensures Broken(assembled, b + more) && Complaint(assembled, b + more) == Complaint(assembled, b)
    ensures Shrinks(ReceiveStep) && Drain(ReceiveStep, assembled, b + more) == Drained(assembled, b + more, [])
  {
    StepShrinks();
    var u := b[assembled..];
    assert (b + more)[assembled..] == u + more;
    var h := ParseHeader(u);
    if h.size + h.length >= TWO_TO_THE_64 {
      LongHeader(u);
      HeaderExtends(u, more);
    }
    hide ParseHeader, Ascii, Reason;
  }

  /** A length that leaves the 64 bits is announced by a whole header. */
  lemma LongHeader(u: seq<byte>)
    requires ParseHeader(u).size + ParseHeader(u).length >= TWO_TO_THE_64
    ensures 0 < ParseHeader(u).size <= |u|
  {
    hide FromBigEndian;
    if |u| >= 4 {
      BigEndianBound(u[2..4]);
      assert Power256(2) == 0x1_0000;
    }
  }

  /** One event of a run, `d` being what all of them come to. */
  lemma OneEvent(assembled: nat, b: seq<byte>, arrivals: seq<seq<byte>>)
      returns (first: Drained<nat, Effect>, d: Drained<nat, Effect>)
    requires ReceiveStep(assembled, b).Stuck? && arrivals != []
    ensures Shrinks(ReceiveStep)
    ensures first == Drain(ReceiveStep, assembled, b + arrivals[0]) && ReceiveStep(first.state, first.buf).Stuck?
    ensures d == Drain(ReceiveStep, first.state, first.buf + Concat(arrivals[1..]))
    ensures Drain(ReceiveStep, assembled, b + Concat(arrivals)) == Drained(d.state, d.buf, first.effects + d.effects)
    ensures arrivals[1..] == [] ==> d == Drained(first.state, first.buf, [])
    ensures Broken(first.state, first.buf) ==>
              && d == Drained(first.state, first.buf + Concat(arrivals[1..]), []) && Broken(d.state, d.buf)
              && Complaint(d.state, d.buf) == Complaint(first.state, first.buf)
  {
    StepShrinks();
    StepExtends();
    hide ReceiveStep, Broken, Complaint;
    first := Drain(ReceiveStep, assembled, b + arrivals[0]);
    var rest := Concat(arrivals[1..]);
    d := Drain(ReceiveStep, first.state, first.buf + rest);
    DrainIsStuck(ReceiveStep, assembled, b + arrivals[0]);
    DrainSplit(ReceiveStep, assembled, b + arrivals[0], rest);
    assert b + Concat(arrivals) == b + arrivals[0] + rest;
    assert arrivals[1..] == [] ==> first.buf + rest == first.buf;
    if Broken(first.state, first.buf) {
      BreachStays(first.state, first.buf, rest);
    }
  }

  /**
    Over a run of receive events, the frames sent are the answers to what has been received, and then one complaint for
    every event that ends at a breach.
   */
  lemma {:induction false} AnswersOverRun(assembled: nat, b: seq<byte>, arrivals: seq<seq<byte>>)
    requires ReceiveStep(assembled, b).Stuck?
    ensures Shrinks(ReceiveStep)
    ensures
      var d := Drain(ReceiveStep, assembled, b + Concat(arrivals));
      && AnswersOver(assembled, b, arrivals) ==
           Answers(d.effects) + Repeated(Complaint(d.state, d.buf), Breaches(assembled, b, arrivals))
      && (Breaches(assembled, b, arrivals) > 0 ==> Broken(d.state, d.buf))
      && (arrivals != [] && Broken(d.state, d.buf) ==> Breaches(assembled, b, arrivals) > 0)
    decreases |arrivals|
  {
    StepShrinks();
    hide ReceiveStep, Broken, Complaint, Answers, Concat;
    NoAnswersAtAll();
    if arrivals == [] {
      ConcatNone(arrivals);
      assert b + [] == b && arrivals[|arrivals|..] == arrivals;
    } else {
      var first, d := OneEvent(assembled, b, arrivals);
      hide Drain;
      AnswersOverRun(first.state, first.buf, arrivals[1..]);
      AnswersAppend(first.effects, d.effects);
      NoComplaint(first.state, first.buf);
      var c, n := Complaint(d.state, d.buf), Breaches(first.state, first.buf, arrivals[1..]);
      if Broken(first.state, first.buf) {
        OneMore(Answers(first.effects), c, n);
      } else {
        NoneMore(Answers(first.effects), Answers(d.effects), Repeated(c, n));
      }
    }
  }

  /** The connection is closed by the answer to a Close frame or by a breach, never otherwise. */
  lemma {:induction false} ClosesOverRun(assembled: nat, b: seq<byte>, arrivals: seq<seq<byte>>)
    requires ReceiveStep(assembled, b).Stuck?
    ensures Shrinks(ReceiveStep)
    ensures
      var d := Drain(ReceiveStep, assembled, b + Concat(arrivals));
      ClosesOver(assembled, b, arrivals) <==> Closes(d.effects) || Breaches(assembled, b, arrivals) > 0
    decreases |arrivals|
  {
    StepShrinks();
    hide ReceiveStep, Broken, Closes, Complaint, Concat;
    NoAnswersAtAll();
    if arrivals == [] {
      ConcatNone(arrivals);
      assert b + [] == b && arrivals[|arrivals|..] == arrivals;
    } else {
      var first, d := OneEvent(assembled, b, arrivals);
      hide Drain;
      ClosesOverRun(first.state, first.buf, arrivals[1..]);
      ClosesAppend(first.effects, d.effects);
      NoComplaint(first.state, first.buf);
    }
  }

  lemma NoComplaint(assembled: nat, b: seq<byte>)
    ensures Complaint(assembled, b) == [] <==> !Broken(assembled, b)
    ensures |Complaint(assembled, b)| <= 1
  {
  }

  lemma OneMore<T>(a: seq<T>, c: seq<T>, n: nat)
    ensures a + c + ([] + Repeated(c, n)) == a + [] + Repeated(c, n + 1)
  {
    assert a + c + Repeated(c, n) == a + (c + Repeated(c, n));
  }

  lemma NoneMore<T>(a: seq<T>, b: seq<T>, c: seq<T>)
    ensures a + [] + (b + c) == a + b + c
  {
  }

  /**
    From the first event on that ends at a breach, all do: which one that is depends on the octets up to its end only.
   */
  lemma {:induction false} BreachesFromThen(assembled: nat, b: seq<byte>, arrivals: seq<seq<byte>>, i: nat)
    requires ReceiveStep(assembled, b).Stuck? && i < |arrivals|
    ensures Shrinks(ReceiveStep)
    ensures
      var d := Drain(ReceiveStep, assembled, b + Concat(arrivals[..i + 1]));
      Broken(d.state, d.buf) <==> |arrivals| - i <= Breaches(assembled, b, arrivals)
    decreases |arrivals|
  {
    StepShrinks();
    StepExtends();
    hide ReceiveStep, Broken;
    var first := Drain(ReceiveStep, assembled, b + arrivals[0]);
    assert arrivals[..i + 1][1..] == arrivals[1..][..i];
    assert b + Concat(arrivals[..i + 1]) == b + arrivals[0] + Concat(arrivals[1..][..i]);
    if Broken(first.state, first.buf) {
      AllBreaches(first.state, first.buf, arrivals[1..]);
    }
    if i == 0 {
      assert b + arrivals[0] + Concat(arrivals[1..][..i]) == b + arrivals[0];
    } else {
      DrainIsStuck(ReceiveStep, assembled, b + arrivals[0]);
      DrainSplit(ReceiveStep, assembled, b + arrivals[0], Concat(arrivals[1..][..i]));
      BreachesFromThen(first.state, first.buf, arrivals[1..], i - 1);
    }
  }

  lemma {:induction false} AllBreaches(assembled: nat, b: seq<byte>, arrivals: seq<seq<byte>>)
    requires Broken(assembled, b)
    ensures Shrinks(ReceiveStep) && Breaches(assembled, b, arrivals) == |arrivals|
    decreases |arrivals|
  {
    StepShrinks();
    hide ReceiveStep, Broken;
    if arrivals != [] {
      BreachStays(assembled, b, arrivals[0]);
      AllBreaches(assembled, b + arrivals[0], arrivals[1..]);
    }
  }

  /**
    The frames sent do not depend on the cuts exactly when the octets do not end at a breach, or the cuts leave one
    event from the breach on.
   */
  lemma CutsOfAnswers(arrivals: seq<seq<byte>>)
    ensures Shrinks(ReceiveStep)
    ensures
      var d := Drain(ReceiveStep, 0, Concat(arrivals));
      AnswersOver(0, [], arrivals) == AnswersOver(0, [], [Concat(arrivals)]) <==>
        !Broken(d.state, d.buf) || Breaches(0, [], arrivals) == 1
  {
    var all := Concat(arrivals);
    StepShrinks();
    AnswersOverRun(0, [], arrivals);
    AnswersOverRun(0, [], [all]);
    var none: seq<seq<byte>> := [];
    assert [all][1..] == none && Concat([all]) == all + Concat(none) == all && [] + all == all;
    var d := Drain(ReceiveStep, 0, all);
    hide ReceiveStep, Drain, Complaint, Broken, Answers, AnswersOver, Concat;
    NoComplaint(d.state, d.buf);
    var a, c := Answers(d.effects), Complaint(d.state, d.buf);
    var n, m := Breaches(0, [], arrivals), Breaches(0, [], [all]);
    assert |c| == 1 ==> |a + Repeated(c, n)| == |a| + n && |a + Repeated(c, m)| == |a| + m;
  }

  /** The octets 9 and 0, a Ping that is not final, are answered twice when they arrive one by one. */
  lemma BreachTwice()
    ensures Shrinks(ReceiveStep)
    ensures |AnswersOver(0, [], [[9], [0]])| == 2 && |AnswersOver(0, [], [[9, 0]])| == 1
  {
    StepShrinks();
    NoAnswersAtAll();
    var nine: seq<byte> := [9];
    assert nine[0..] == nine && [] + nine == nine;
    BreachStays(0, nine, []);
    BreachStays(0, nine, [0]);
    var none: seq<seq<byte>> := [];
    assert nine + [] == nine && nine + [0] == [9, 0] == [] + [9, 0];
    assert [nine, [0]][1..] == [[0]] && [[0]][1..] == none && [[9, 0]][1..] == none;
    hide Drain, ReceiveStep, Ascii;
  }

  /** A conforming stream is never complained about, however it is cut; what goes out are the answers to its frames. */
  lemma ConformingIsAnswered(frames: seq<Frame>, unfinished: seq<byte>, next: Frame, arrivals: seq<seq<byte>>)
    requires AllValid(frames) && Conforming(frames, Idle)
    requires next.Valid() && Admissible(next, StreamMeaning(frames, Idle).1)
    requires unfinished < next.Wire()
    requires Concat(arrivals) == WireAll(frames) + unfinished
    ensures Shrinks(ReceiveStep)
    ensures Breaches(0, [], arrivals) == 0
    ensures AnswersOver(0, [], arrivals) == Answers(StreamMeaning(frames, Idle).0)
    ensures ClosesOver(0, [], arrivals) <==> Closes(StreamMeaning(frames, Idle).0)
  {
    StepShrinks();
    hide ReceiveStep, Inspect, Answers, Frame.Wire, WireAll, Admissible, Concat, StreamMeaning, Conforming;
    var (effects, open) := StreamMeaning(frames, Idle);
    ArrivalsGiveTheMessages(frames, unfinished, next, arrivals);
    CutsDoNotMatter(arrivals);
    UnfinishedFrameWaits(next, open, |unfinished|);
    assert next.Wire()[..|unfinished|] == unfinished;
    var b := open.Prefix() + unfinished;
    assert b[|open.Prefix()|..] == unfinished;
    WaitingIsStuck(0);
    AnswersOverRun(0, [], arrivals);
    ClosesOverRun(0, [], arrivals);
    assert [] + Concat(arrivals) == Concat(arrivals);
    NoComplaint(|open.Prefix()|, b);
    assert Answers(effects) + [] == Answers(effects);
  }

  lemma WaitingIsStuck(assembled: nat)
    ensures ReceiveStep(assembled, []).Stuck?
  {
  }

  lemma NoAnswersAtAll()
    ensures Answers([]) == [] && !Closes([])
  {
  }

  lemma {:induction false} AnswersAppend(a: seq<Effect>, b: seq<Effect>)
    ensures Answers(a + b) == Answers(a) + Answers(b)
  {
    if a == [] {
      assert a + b == b;
    } else {
      hide AnswerOf;
      assert (a + b)[1..] == a[1..] + b && (a + b)[0] == a[0];
      AnswersAppend(a[1..], b);
      assert AnswerOf(a[0]) + (Answers(a[1..]) + Answers(b)) == AnswerOf(a[0]) + Answers(a[1..]) + Answers(b);
    }
  }

  lemma NoAnswers(prefix: seq<byte>, flags: byte, payload: seq<byte>, rest: seq<byte>)
    requires IsFragment(flags)
    ensures Answers(Advance(prefix, flags, payload, rest).effects) == []
    ensures !Closes(Advance(prefix, flags, payload, rest).effects)
  {
  }

  lemma WholeAdvance(prefix: seq<byte>, flags: byte, payload: seq<byte>, rest: seq<byte>)
    requires !IsFragment(flags)
    ensures Advance(prefix, flags, payload, rest) == Took(|prefix|, prefix + rest, WholeMessage(flags, payload))
  {
  }

  lemma {:induction false} WireAllAppend(frames: seq<Frame>, f: Frame)
    requires AllValid(frames) && f.Valid()
    ensures AllValid(frames + [f])
    ensures WireAll(frames + [f]) == WireAll(frames) + f.Wire()
  {
    hide Frame.Wire;
    if frames == [] {
      assert [f][1..] == [];
      assert WireAll([f]) == f.Wire() + [];
    } else {
      WireAllAppend(frames[1..], f);
      assert (frames + [f])[1..] == frames[1..] + [f];
    }
  }

  // ----- from one end to the other -----

  /** What is asked of the sender: an opcode, with DONT_FIN when more of the message is to follow, key and payload. */
  datatype Outgoing = Outgoing(op: nat, key: seq<byte>, payload: seq<byte>) {
    ghost predicate Valid() {
      |key| in {0, 4} && |payload| < 0x8000_0000
    }

    function Code(): nat { op % 16 }

    predicate Last() { op / DONT_FIN % 2 == 0 }

    predicate IsControl() { Code() == OP_CLOSE || Code() == OP_PING || Code() == OP_PONG }
  }

  function FramesOf(messages: seq<Outgoing>): (frames: seq<Frame>)
    ensures |frames| == |messages|
  {
    seq(|messages|, i requires 0 <= i < |messages| => SentFrame(messages[i].op, messages[i].key, messages[i].payload))
  }

  /** The first piece of a message has its opcode, the others that of a continuation; control frames are whole. */
  predicate InOrder(messages: seq<Outgoing>, open: bool) {
    if messages == [] then true
    else
      var m := messages[0];
      if m.IsControl() then m.Last() && InOrder(messages[1..], open)
      else (open <==> m.Code() == OP_CONTINUE) && InOrder(messages[1..], !m.Last())
  }

  /**
    Every message in order, its pieces put together, with its opcode and the FIN bit; Ping and Close answered where
    they stand, also between pieces. `op` is the opcode of the message whose pieces so far are `got`, zero for none.
   */
  function EffectsOf(messages: seq<Outgoing>, op: nat, got: seq<byte>): seq<Effect>
    requires op < 16
  {
    if messages == [] then []
    else
      var m := messages[0];
      var first, all := if op == 0 then m.Code() else op, got + m.payload;
      if m.IsControl() then WholeMessage(128 + m.Code(), m.payload) + EffectsOf(messages[1..], op, got)
      else if m.Last() then [Message(128 + first, all)] + EffectsOf(messages[1..], 0, [])
      else EffectsOf(messages[1..], first, all)
  }

  /** The message that is still open at the end. */
  function OpenOf(messages: seq<Outgoing>, op: nat, got: seq<byte>): Partial
    requires op < 16
  {
    if messages == [] then (if op == 0 then Idle else InMessage(op, got))
    else
      var m := messages[0];
      var first, all := if op == 0 then m.Code() else op, got + m.payload;
      if m.IsControl() then OpenOf(messages[1..], op, got)
      else if m.Last() then OpenOf(messages[1..], 0, [])
      else OpenOf(messages[1..], first, all)
  }

  lemma {:induction false} SentFramesMean(messages: seq<Outgoing>, op: nat, got: seq<byte>)
    requires (forall m | m in messages :: m.Valid()) && op < 16 && (op == 0 ==> got == []) && InOrder(messages, op != 0)
    ensures
      var p := if op == 0 then Idle else InMessage(op, got);
      && AllValid(FramesOf(messages)) && Conforming(FramesOf(messages), p)
      && StreamMeaning(FramesOf(messages), p) == (EffectsOf(messages, op, got), OpenOf(messages, op, got))
  {
    if messages != [] {
      var m, rest := messages[0], messages[1..];
      assert FramesOf(messages)[1..] == FramesOf(rest);
      SentFrameMeans(m, op, got);
      var first, all := if op == 0 then m.Code() else op, got + m.payload;
      hide WholeMessage, FrameMeaning, Admissible, Frame.Valid, SentFrame;
      if m.IsControl() {
        SentFramesMean(rest, op, got);
      } else if m.Last() {
        SentFramesMean(rest, 0, []);
      } else {
        SentFramesMean(rest, first, all);
        assert [] + EffectsOf(rest, first, all) == EffectsOf(rest, first, all);
      }
    }
  }

  lemma SentFrameMeans(m: Outgoing, op: nat, got: seq<byte>)
    requires m.Valid() && op < 16 && (op == 0 ==> got == [])
    requires if m.IsControl() then m.Last() else op != 0 <==> m.Code() == OP_CONTINUE
    ensures
      var p := if op == 0 then Idle else InMessage(op, got);
      var f := SentFrame(m.op, m.key, m.payload);
      var first, all := if op == 0 then m.Code() else op, got + m.payload;
      && f.Valid() && Admissible(f, p)
      && FrameMeaning(f, p) ==
           if m.IsControl() then (WholeMessage(128 + m.Code(), m.payload), p)
           else if m.Last() then ([Message(128 + first, all)], Idle)
           else ([], InMessage(first, all))
  {
    assert [] + m.payload == m.payload;
    hide WholeMessage;
  }

  /**
    Sending and receiving is the identity on opcodes and payloads: for client and server frames, whole messages and
    messages sent in pieces, all three length forms, every mask and every cut of the octets on their way.
   */
  lemma SentIsReceived(messages: seq<Outgoing>, arrivals: seq<seq<byte>>)
    requires (forall m | m in messages :: m.Valid()) && InOrder(messages, false)
    requires AllValid(FramesOf(messages)) && Concat(arrivals) == WireAll(FramesOf(messages))
    ensures Shrinks(ReceiveStep)
    ensures
      var open := OpenOf(messages, 0, []).Prefix();
      Feed(ReceiveStep, 0, [], arrivals) == Drained(|open|, open, EffectsOf(messages, 0, []))
  {
    SentFramesMean(messages, 0, []);
    hide InOrder, EffectsOf, OpenOf, FramesOf, WireAll, Conforming, StreamMeaning, ReceiveStep;
    WholeFramesArrive(FramesOf(messages), arrivals);
  }
}
