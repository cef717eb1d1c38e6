/** The MQTT side of a connection: packets are taken apart in the receive buffer and put together in the send buffer. */
module MqttSession {
  import opened Bytes
  import opened Incremental
  import opened Mbufs
  import opened MqttPackets
  import opened Wrappers

  const INCOMPLETE_MSG: int := -1
  const MALFORMED_MSG: int := -2

  // ----- receiving -----

  /** The octets of a buffer between two positions. */
  ghost function Range(io: Mbuf, p: nat, end: nat): (s: seq<byte>)
    requires io.Valid() && p <= end <= io.len
    reads io, io.buf
    ensures |s| == end - p
  {
    io.Contents()[p..end]
  }

  lemma RangeParts(io: Mbuf, p: nat, end: nat, k: nat)
    requires io.Valid() && p + k <= end <= io.len
    ensures Range(io, p, end)[..k] == io.buf[p..p + k] && Range(io, p, end)[k..] == Range(io, p + k, end)
  {
    SameElements(Range(io, p, end)[..k], io.buf[p..p + k]);
    SameElements(Range(io, p, end)[k..], Range(io, p + k, end));
  }

  /**
    The string at `p`, and the position behind it, which lies behind the end when the string is not whole. Of a
    length that is itself cut off the code reads octets behind the packet; whatever they are, the position is too far.
   */
  method ScanTo(io: Mbuf, p: nat, end: nat) returns (s: seq<byte>, next: nat)
    requires io.Valid() && p <= end <= io.len
    ensures match TakeString(Range(io, p, end))
      case None => next > end
      case Some(r) => next <= end && s == r.0 && Range(io, next, end) == r.1
  {
    if p + 2 > end {
      return [], p + 2;
    }
    var n := Number16(io.buf[p], io.buf[p + 1]);
    next := p + 2 + n;
    if next <= end {
      s := io.buf[p + 2..next];
      RangeParts(io, p, end, 2);
      RangeParts(io, p, end, 2 + n);
      SameElements(s, Range(io, p, end)[2..2 + n]);
    } else {
      s := [];
    }
  }

  /** What is left up to the end of the packet, unless a string has led beyond it. */
  ghost function Left(io: Mbuf, p: nat, end: nat): Option<seq<byte>>
    requires io.Valid() && end <= io.len
    reads io, io.buf
  {
    if p <= end then Some(Range(io, p, end)) else None
  }

  ghost function TakeNext(present: bool, left: Option<seq<byte>>): Option<(Option<seq<byte>>, seq<byte>)> {
    if left.None? then None else TakeStringIf(present, left.value)
  }

  /** A string that is there only when a flag says so. */
  method ScanIf(present: bool, io: Mbuf, p: nat, end: nat) returns (ok: bool, s: seq<byte>, next: nat)
    requires io.Valid() && end <= io.len
    ensures match TakeNext(present, Left(io, p, end))
      case None => !ok || Left(io, next, end) == None
      case Some(r) => ok && Left(io, next, end) == Some(r.1) && r.0 == if present then Some(s) else None
  {
    if !present {
      return true, [], p;
    }
    if p >= end {
      return false, [], p;
    }
    s, next := ScanTo(io, p, end);
    ok := true;
  }

  /** The remaining length behind the first octet. */
  method DecodeLength(io: Mbuf) returns (r: Length)
    requires io.Valid() && io.len >= 2
    ensures r == ReadLength(io.Contents()[1..], 0, 0)
  {
    ghost var u := io.Contents()[1..];
    var p: nat := 1;
    var length: nat, lengthLength: nat := 0, 0;
    hide AddDigit;
    while p < io.len
      invariant 1 <= p <= io.len && lengthLength == p - 1
      invariant ReadLength(u, 0, 0) == ReadLength(u, lengthLength, length)
    {
      var lc := io.buf[p];
      assert u[p - 1] == lc;
      p := p + 1;
      length := AddDigit(length, lc, lengthLength);
      lengthLength := lengthLength + 1;
      if lc < 128 {
        return Length(length, lengthLength);
      }
      if lengthLength > 4 {
        return LengthTooLong;
      }
    }
    return LengthUnfinished;
  }

  /** One message object is used for all messages of an event; what a message does not set keeps its old value. */
  class MessageFields {
    var command: nat
    var qos: nat
    var protocol: seq<byte>
    var version: byte
    var flags: byte
    var keepAlive: nat
    var clientId: seq<byte>
    var willTopic: seq<byte>
    var willMessage: seq<byte>
    var userName: seq<byte>
    var password: seq<byte>
    var returnCode: byte
    var messageId: nat
    var topic: seq<byte>
    var payload: seq<byte>

    constructor ()
    {
      command, qos, version, flags, keepAlive, returnCode, messageId := 0, 0, 0, 0, 0, 0, 0;
      protocol, clientId, willTopic, willMessage, userName, password, topic, payload := [], [], [], [], [], [], [], [];
    }

    ghost function LoginView(): Login
      reads this
    {
      Login(if Flag(flags, HAS_WILL) then Some(willTopic) else None,
            if Flag(flags, HAS_WILL) then Some(willMessage) else None,
            if Flag(flags, HAS_USER_NAME) then Some(userName) else None,
            if Flag(flags, HAS_PASSWORD) then Some(password) else None)
    }

    /** The fields that mean something for this command. */
    ghost function View(): Message
      reads this
    {
      Message(command, qos,
              if command == CONNECT then Connect(protocol, version, flags, keepAlive, clientId, LoginView())
              else if command == CONNACK then ConnectAck(returnCode)
              else if IsAck(command) then Ack(messageId)
              else if command == PUBLISH then Publish(topic, if qos == 0 then None else Some(messageId), payload)
              else if command == SUBSCRIBE then Subscribe(messageId, payload)
              else Other)
    }

    /** The strings behind the client identifier, of which nothing may be missing and nothing may be left. */
    method ParseLogin(io: Mbuf, start: nat, end: nat) returns (ok: bool)
      requires io.Valid() && start <= end <= io.len
      modifies `willTopic, `willMessage, `userName, `password
      ensures match DecodeLogin(flags, Range(io, start, end))
        case None => !ok
        case Some(login) => ok && LoginView() == login
    {
      hide Flag, TakeStringIf, Range;
      ghost var u := Range(io, start, end);
      var will, user, secret := Flag(flags, HAS_WILL), Flag(flags, HAS_USER_NAME), Flag(flags, HAS_PASSWORD);
      var ok1, topic, p1 := ScanIf(will, io, start, end);
      if !ok1 {
        return false;
      }
      var ok2, message, p2 := ScanIf(will, io, p1, end);
      if !ok2 {
        return false;
      }
      var ok3, name, p3 := ScanIf(user, io, p2, end);
      if !ok3 {
        return false;
      }
      var ok4, key, p4 := ScanIf(secret, io, p3, end);
      if !ok4 || p4 != end {
        return false;
      }
      EmptyRange(io, end);
      assert DecodeLogin(flags, u) ==
        Some(Login(if will then Some(topic) else None, if will then Some(message) else None,
                   if user then Some(name) else None, if secret then Some(key) else None));
      if will {
        willTopic, willMessage := topic, message;
      }
      if user {
        userName := name;
      }
      if secret {
        password := key;
      }
      return true;
    }

    method ParseConnect(io: Mbuf, start: nat, end: nat) returns (ok: bool)
      requires io.Valid() && start <= end <= io.len && command == CONNECT
      modifies this
      ensures command == old(command) && qos == old(qos)
      ensures match DecodeConnect(Range(io, start, end))
        case None => !ok
        case Some(content) => ok && View().content == content
    {
      hide TakeString, Range, DecodeLogin, Flag;
      var name, p := ScanTo(io, start, end);
      if p > end - 4 {
        NoRoom(io, p, end);
        return false;
      }
      RangeParts(io, p, end, 4);
      FourOctets(io, p, end);
      var ofVersion, ofFlags, seconds := io.buf[p], io.buf[p + 1], Number16(io.buf[p + 2], io.buf[p + 3]);
      p := p + 4;
      if p >= end {
        NoRoom(io, p, end);
        return false;
      }
      var id;
      id, p := ScanTo(io, p, end);
      if p > end {
        return false;
      }
      protocol, version, flags, keepAlive, clientId := name, ofVersion, ofFlags, seconds, id;
      ok := ParseLogin(io, p, end);
    }

    method ParsePublish(io: Mbuf, start: nat, end: nat) returns (ok: bool)
      requires io.Valid() && start <= end <= io.len && command == PUBLISH
      modifies `topic, `messageId, `payload
      ensures match DecodePublish(qos, Range(io, start, end))
        case None => !ok
        case Some(content) => ok && View().content == content
    {
      hide TakeString;
      var s, p := ScanTo(io, start, end);
      topic := s;
      if p > end {
        return false;
      }
      NoRoom(io, p, end);
      hide Range;
      if qos > 0 {
        if end - p < 2 {
          return false;
        }
        RangeParts(io, p, end, 2);
        TwoOctets(io, p, end);
        messageId := Number16(io.buf[p], io.buf[p + 1]);
        p := p + 2;
      }
      var rest := io.buf[p..end];
      RestOfRange(io, p, end);
      payload := rest;
      return true;
    }

    method ParseContent(io: Mbuf, p: nat, end: nat) returns (ok: bool)
      requires io.Valid() && p <= end <= io.len
      modifies this
      ensures command == old(command) && qos == old(qos)
      ensures match ContentOf(command, qos, Range(io, p, end))
        case None => !ok
        case Some(content) => ok && View().content == content
    {
      hide DecodeConnect, DecodePublish, Range;
      if command == CONNECT {
        ok := ParseConnect(io, p, end);
      } else if command == CONNACK {
        if end - p < 2 {
          return false;
        }
        TwoOctets(io, p, end);
        returnCode := io.buf[p + 1];
        ok := true;
      } else if IsAck(command) {
        if end - p < 2 {
          return false;
        }
        TwoOctets(io, p, end);
        messageId := Number16(io.buf[p], io.buf[p + 1]);
        ok := true;
      } else if command == PUBLISH {
        ok := ParsePublish(io, p, end);
      } else if command == SUBSCRIBE {
        if end - p < 2 {
          return false;
        }
        TwoOctets(io, p, end);
        RangeParts(io, p, end, 2);
        RestOfRange(io, p + 2, end);
        var id, rest := Number16(io.buf[p], io.buf[p + 1]), io.buf[p + 2..end];
        messageId, payload := id, rest;
        ok := true;
      } else {
        ok := true;
      }
    }

    /** The length of the packet at the start of the buffer, or why there is none. */
    method Parse(io: Mbuf) returns (r: int)
      requires io.Valid()
      modifies this
      ensures match Inspect(io.Contents())
        case NotYet => r == INCOMPLETE_MSG
        case Malformed => r == MALFORMED_MSG
        case Arrived(m, size) => r == size && View() == m
    {
      hide ReadLength, DecodeContent, ContentOf;
      if io.len < 2 {
        return INCOMPLETE_MSG;
      }
      ghost var u := io.Contents();
      var header := io.buf[0];
      var length := DecodeLength(io);
      if length.LengthTooLong? {
        return MALFORMED_MSG;
      }
      if length.LengthUnfinished? || 1 + length.octets + length.value > io.len {
        return INCOMPLETE_MSG;
      }
      var p := 1 + length.octets;
      var end := p + length.value;
      command, qos := header / 16, Qos(header);
      ContentOfHeader(header, Range(io, p, end));
      var ok := ParseContent(io, p, end);
      r := if ok then end else MALFORMED_MSG;
    }
  }

  /** The topic of a subscription at `position` of the payload, and where the next one starts; -1 when there is none. */
  method NextSubscribeTopic(payload: seq<byte>, position: nat) returns (next: int, topic: seq<byte>, qos: byte)
    ensures match NextTopic(payload, position)
      case None => next == -1
      case Some(r) => next == r.1 && Topic(topic, qos) == r.0
  {
    topic, qos := [], 0;
    if position >= |payload| {
      return -1, topic, qos;
    }
    if position + 1 == |payload| {
      return -1, topic, qos;
    }
    var n := Number16(payload[position], payload[position + 1]);
    next := position + 2 + n + 1;
    if next > |payload| {
      return -1, topic, qos;
    }
    topic := payload[position + 2..position + 2 + n];
    qos := payload[position + 2 + n];
  }

  lemma NoRoom(io: Mbuf, p: nat, end: nat)
    requires io.Valid() && end <= io.len
    ensures p <= end ==> |Range(io, p, end)| == end - p
    ensures p == end ==> TakeString(Range(io, p, end)) == None
  {
  }

  lemma EmptyRange(io: Mbuf, end: nat)
    requires io.Valid() && end <= io.len
    ensures Range(io, end, end) == []
  {
  }

  lemma RestOfRange(io: Mbuf, p: nat, end: nat)
    requires io.Valid() && p <= end <= io.len
    ensures io.buf[p..end] == Range(io, p, end)
  {
    SameElements(io.buf[p..end], Range(io, p, end));
  }

  lemma TwoOctets(io: Mbuf, p: nat, end: nat)
    requires io.Valid() && p + 2 <= end <= io.len
    ensures |Range(io, p, end)| == end - p
    ensures Range(io, p, end)[0] == io.buf[p] && Range(io, p, end)[1] == io.buf[p + 1]
  {
  }

  lemma FourOctets(io: Mbuf, p: nat, end: nat)
    requires io.Valid() && p + 4 <= end <= io.len
    ensures |Range(io, p, end)| == end - p
    ensures Range(io, p, end)[0] == io.buf[p] && Range(io, p, end)[1] == io.buf[p + 1]
    ensures Range(io, p, end)[2] == io.buf[p + 2] && Range(io, p, end)[3] == io.buf[p + 3]
  {
  }

  lemma ContentOfHeader(header: byte, u: seq<byte>)
    ensures ContentOf(header / 16, Qos(header), u) == DecodeContent(header, u)
  {
  }

  // ----- the handler -----

  class Session {
    const recv: Mbuf
    /** How much may wait for the rest of a packet; zero for no limit. */
    const limit: nat
    var pingPending: bool
    var closing: bool
    /** The messages the handler has been called with. */
    ghost var seen: seq<Message>

    ghost predicate Valid()
      reads this, recv
    {
      recv.Valid()
    }

    constructor (limit: nat)
      ensures Valid() && fresh(recv) && fresh(recv.buf) && recv.Contents() == []
      ensures this.limit == limit && !pingPending && !closing && seen == []
    {
      recv := new Mbuf();
      this.limit := limit;
      pingPending, closing, seen := false, false, [];
    }

    /** What is left after an event closes the connection when it is malformed, or unfinished and too long. */
    ghost predicate Hopeless(left: seq<byte>)
      reads this
    {
      HopelessAt(limit, left)
    }

    /** One turn of the loop: the next packet is handed over and removed, or the connection is judged. */
    method HandleNext(fields: MessageFields) returns (more: bool)
      requires Valid()
      modifies `pingPending, `closing, `seen, recv, recv.buf, fields
      ensures Valid() && recv.buf == old(recv.buf)
      ensures
        match MessageStep(old(pingPending), old(recv.Contents()))
        case Took(pending, left, messages) =>
          && more && pingPending == pending && recv.Contents() == left && seen == old(seen) + messages
          && closing == old(closing) && recv.len < old(recv.len)
        case Stuck =>
          && !more && pingPending == old(pingPending) && recv.Contents() == old(recv.Contents()) && seen == old(seen)
          && closing == (old(closing) || Hopeless(recv.Contents()))
    {
      hide Inspect;
      var length := fields.Parse(recv);
      if length < 0 {
        if length == MALFORMED_MSG || (limit > 0 && recv.len >= limit) {
          closing := true;
        }
        return false;
      }
      if fields.command == PINGRESP {
        pingPending := false;
      }
      seen := seen + [fields.View()];
      recv.Remove(length);
      return true;
    }

    /** One receive event: all whole packets are handed to the handler and removed from the buffer. */
    method Receive(data: seq<byte>)
      requires Valid() && recv.len + |data| < 0x8000_0000
      modifies this, recv, recv.buf
      ensures Valid() && (recv.buf == old(recv.buf) || fresh(recv.buf))
      ensures Shrinks(MessageStep)
      ensures
        var d := Drain(MessageStep, old(pingPending), old(recv.Contents()) + data);
        && recv.Contents() == d.buf && pingPending == d.state && seen == old(seen) + d.effects
        && closing == (old(closing) || Hopeless(d.buf))
    {
      StepsGoOn();
      hide Inspect, Drain, MessageStep;
      recv.Append(data);
      ghost var whole := Drain(MessageStep, pingPending, recv.Contents());
      var fields := new MessageFields();
      ghost var taken: seq<Message> := [];
      var more := true;
      while more
        invariant Valid() && fresh(fields) && (recv.buf == old(recv.buf) || fresh(recv.buf))
        invariant seen == old(seen) + taken
        invariant
          var d := Drain(MessageStep, pingPending, recv.Contents());
          Drained(d.state, d.buf, taken + d.effects) == whole
        invariant if more then closing == old(closing)
                  else closing == (old(closing) || Hopeless(recv.Contents())) && taken == whole.effects &&
                       recv.Contents() == whole.buf && pingPending == whole.state
        decreases recv.len, more
      {
        DrainUnfolds(MessageStep, pingPending, recv.Contents(), taken);
        ghost var step := MessageStep(pingPending, recv.Contents());
        more := HandleNext(fields);
        if more {
          taken := taken + step.effects;
        }
      }
    }

    /** The receive events of a connection, one after the other. */
    method ReceiveAll(arrivals: seq<seq<byte>>)
      requires Valid() && recv.len + |Concat(arrivals)| < 0x8000_0000
      modifies this, recv, recv.buf
      ensures Valid() && (recv.buf == old(recv.buf) || fresh(recv.buf))
      ensures Shrinks(MessageStep)
      ensures
        var d := Feed(MessageStep, old(pingPending), old(recv.Contents()), arrivals);
        recv.Contents() == d.buf && pingPending == d.state && seen == old(seen) + d.effects
      ensures closing == (old(closing) || HopelessOver(limit, old(pingPending), old(recv.Contents()), arrivals))
    {
      StepsGoOn();
      hide MessageStep, Drain, Feed, Concat, Inspect, HopelessAt, HopelessOver;
      ghost var first, b := pingPending, recv.Contents();
      ghost var whole := Feed(MessageStep, pingPending, recv.Contents(), arrivals);
      ghost var taken: seq<Message> := [];
      assert arrivals[0..] == arrivals;
      for i := 0 to |arrivals|
        invariant Valid() && (recv.buf == old(recv.buf) || fresh(recv.buf))
        invariant recv.len + |Concat(arrivals[i..])| < 0x8000_0000
        invariant seen == old(seen) + taken
        invariant
          var d := Feed(MessageStep, pingPending, recv.Contents(), arrivals[i..]);
          whole == Drained(d.state, d.buf, taken + d.effects)
        invariant (old(closing) || HopelessOver(limit, first, b, arrivals)) ==
                  (closing || HopelessOver(limit, pingPending, recv.Contents(), arrivals[i..]))
      {
        ConcatSuffix(arrivals, i);
        HopelessUnfolds(limit, pingPending, recv.Contents(), arrivals, i);
        ghost var first := Drain(MessageStep, pingPending, recv.Contents() + arrivals[i]);
        FeedUnfolds(MessageStep, pingPending, recv.Contents(), arrivals, i, taken);
        DrainDoesNotGrow(MessageStep, pingPending, recv.Contents() + arrivals[i]);
        Receive(arrivals[i]);
        taken := taken + first.effects;
      }
      FeedUnfolds(MessageStep, pingPending, recv.Contents(), arrivals, |arrivals|, taken);
      NoMoreEvents(limit, pingPending, recv.Contents(), arrivals);
    }
  }

  // ----- when the connection is closed -----

  predicate HopelessAt(limit: nat, left: seq<byte>) {
    Inspect(left) == Malformed || (Inspect(left) == NotYet && 0 < limit <= |left|)
  }

  /** Whether one of the events of a run leaves something hopeless. */
  ghost predicate HopelessOver(limit: nat, pending: bool, b: seq<byte>, arrivals: seq<seq<byte>>)
    decreases |arrivals|
  {
    if arrivals == [] then false
    else
      StepsGoOn();
      var first := Drain(MessageStep, pending, b + arrivals[0]);
      HopelessAt(limit, first.buf) || HopelessOver(limit, first.state, first.buf, arrivals[1..])
  }

  lemma HopelessUnfolds(limit: nat, pending: bool, b: seq<byte>, arrivals: seq<seq<byte>>, i: nat)
    requires i < |arrivals|
    ensures Shrinks(MessageStep)
    ensures
      var first := Drain(MessageStep, pending, b + arrivals[i]);
      HopelessOver(limit, pending, b, arrivals[i..]) <==>
        HopelessAt(limit, first.buf) || HopelessOver(limit, first.state, first.buf, arrivals[i + 1..])
  {
    StepsGoOn();
    hide MessageStep, HopelessAt, Drain;
    assert arrivals[i..][1..] == arrivals[i + 1..];
  }

  lemma NoMoreEvents(limit: nat, pending: bool, b: seq<byte>, arrivals: seq<seq<byte>>)
    ensures !HopelessOver(limit, pending, b, arrivals[|arrivals|..])
  {
  }

  /** What is left behind the octets of the events up to number `i`, taken together. */
  ghost function LeftAt(pending: bool, b: seq<byte>, arrivals: seq<seq<byte>>, i: nat): seq<byte>
    requires i < |arrivals|
  {
    StepsGoOn();
    Drain(MessageStep, pending, b + Concat(arrivals[..i + 1])).buf
  }

  /** The connection is closed when the octets up to the end of some event leave something hopeless. */
  lemma {:induction false} ClosedAtSomeEvent(limit: nat, pending: bool, b: seq<byte>, arrivals: seq<seq<byte>>)
    requires MessageStep(pending, b).Stuck?
    ensures
      HopelessOver(limit, pending, b, arrivals) <==>
        exists i | 0 <= i < |arrivals| :: HopelessAt(limit, LeftAt(pending, b, arrivals, i))
    decreases |arrivals|
  {
    StepsGoOn();
    hide MessageStep, HopelessAt, LeftAt, Concat;
    if arrivals != [] {
      var first, rest := Drain(MessageStep, pending, b + arrivals[0]), arrivals[1..];
      DrainIsStuck(MessageStep, pending, b + arrivals[0]);
      ClosedAtSomeEvent(limit, first.state, first.buf, rest);
      FirstEvent(pending, b, arrivals);
      forall i | 0 <= i < |rest|
        ensures LeftAt(pending, b, arrivals, i + 1) == LeftAt(first.state, first.buf, rest, i)
      {
        LaterEvent(pending, b, arrivals, i);
      }
      if i :| 0 <= i < |rest| && HopelessAt(limit, LeftAt(first.state, first.buf, rest, i)) {
        assert HopelessAt(limit, LeftAt(pending, b, arrivals, i + 1));
      }
      if i :| 0 <= i < |arrivals| && HopelessAt(limit, LeftAt(pending, b, arrivals, i)) {
        assert i > 0 ==> LeftAt(pending, b, arrivals, (i - 1) + 1) == LeftAt(first.state, first.buf, rest, i - 1);
      }
    }
  }

  lemma FirstEvent(pending: bool, b: seq<byte>, arrivals: seq<seq<byte>>)
    requires arrivals != []
    ensures Shrinks(MessageStep)
    ensures LeftAt(pending, b, arrivals, 0) == Drain(MessageStep, pending, b + arrivals[0]).buf
  {
    StepsGoOn();
    hide MessageStep, Drain;
    assert arrivals[..1] == [arrivals[0]] && b + Concat(arrivals[..1]) == b + arrivals[0];
  }

  lemma LaterEvent(pending: bool, b: seq<byte>, arrivals: seq<seq<byte>>, i: nat)
    requires i + 1 < |arrivals|
    ensures Shrinks(MessageStep)
    ensures
      var first := Drain(MessageStep, pending, b + arrivals[0]);
      LeftAt(pending, b, arrivals, i + 1) == LeftAt(first.state, first.buf, arrivals[1..], i)
  {
    StepsGoOn();
    hide MessageStep, Drain;
    assert arrivals[..i + 1 + 1][1..] == arrivals[1..][..i + 1];
    assert b + Concat(arrivals[..i + 1 + 1]) == b + arrivals[0] + Concat(arrivals[1..][..i + 1]);
    DrainSplit(MessageStep, pending, b + arrivals[0], Concat(arrivals[1..][..i + 1]));
  }

  /** Where the first `n` octets of some packets and a part of the next end: inside packet number `k`. */
  lemma {:induction false} InsidePacket(packets: seq<Packet>, next: Packet, part: nat, n: nat) returns (k: nat, j: nat)
    requires AllReadable(packets) && next.Readable() && part < |next.Wire()|
    requires n <= |WireAll(packets) + next.Wire()[..part]|
    ensures k <= |packets|
    ensures
      var all := packets + [next];
      && all[k].Readable() && j < |all[k].Wire()| && AllReadable(packets[..k])
      && (WireAll(packets) + next.Wire()[..part])[..n] == WireAll(packets[..k]) + all[k].Wire()[..j]
    decreases |packets|
  {
    hide Packet.Wire, Packet.Readable;
    var all := packets + [next];
    var whole := WireAll(packets) + next.Wire()[..part];
    if packets == [] {
      k, j := 0, n;
      assert whole == next.Wire()[..part] && next.Wire()[..part][..n] == next.Wire()[..n];
      assert WireAll([]) + next.Wire()[..n] == next.Wire()[..n];
    } else {
      var w, later := packets[0].Wire(), WireAll(packets[1..]) + next.Wire()[..part];
      assert whole == w + later;
      if n < |w| {
        k, j := 0, n;
        assert whole[..n] == w[..n] && WireAll([]) + w[..n] == w[..n];
      } else {
        k, j := InsidePacket(packets[1..], next, part, n - |w|);
        assert whole[..n] == w + later[..n - |w|];
        assert (packets[1..] + [next])[k] == all[k + 1];
        assert packets[..k + 1][1..] == packets[1..][..k];
        assert w + (WireAll(packets[1..][..k]) + all[k + 1].Wire()[..j]) ==
               w + WireAll(packets[1..][..k]) + all[k + 1].Wire()[..j];
        k := k + 1;
      }
    }
  }

  /** Readable packets that fit under the limit never close the connection, however their octets are cut. */
  lemma ShortPacketsStayOpen(
    limit: nat, pending: bool, packets: seq<Packet>, next: Packet, part: nat, arrivals: seq<seq<byte>>)
    requires AllReadable(packets) && next.Readable() && part < |next.Wire()|
    requires forall i | 0 <= i < |packets + [next]| :: limit == 0 || |(packets + [next])[i].Wire()| <= limit
    requires Concat(arrivals) == WireAll(packets) + next.Wire()[..part]
    ensures !HopelessOver(limit, pending, [], arrivals)
  {
    hide Packet.Wire, Packet.Readable, LeftAt, HopelessOver, Concat, WireAll;
    NothingIsStuck(pending);
    ClosedAtSomeEvent(limit, pending, [], arrivals);
    forall i | 0 <= i < |arrivals|
      ensures !HopelessAt(limit, LeftAt(pending, [], arrivals, i))
    {
      var sofar := Concat(arrivals[..i + 1]);
      PartOfConcat(arrivals, i + 1);
      var k, j := InsidePacket(packets, next, part, |sofar|);
      LeftInside(limit, pending, packets[..k], (packets + [next])[k], j, arrivals, i);
    }
  }

  lemma {:induction false} PartOfConcat(arrivals: seq<seq<byte>>, i: nat)
    requires i <= |arrivals|
    ensures Concat(arrivals[..i]) <= Concat(arrivals)
  {
    if i > 0 {
      PartOfConcat(arrivals[1..], i - 1);
      assert arrivals[..i][1..] == arrivals[1..][..i - 1];
    }
  }

  lemma NothingIsStuck(pending: bool)
    ensures MessageStep(pending, []).Stuck?
  {
  }

  lemma LeftInside(
    limit: nat, pending: bool, packets: seq<Packet>, p: Packet, j: nat, arrivals: seq<seq<byte>>, i: nat)
    requires AllReadable(packets) && p.Readable() && j < |p.Wire()| && (limit == 0 || |p.Wire()| <= limit)
    requires i < |arrivals| && Concat(arrivals[..i + 1]) == WireAll(packets) + p.Wire()[..j]
    ensures !HopelessAt(limit, LeftAt(pending, [], arrivals, i))
  {
    UnfinishedPacketWaits(p.command, p.flags, p.body, j);
    hide Frame, Packet.Meaning, WireAll, Concat, WritePacket, DecodeContent, Drain, Meanings, PingAnswered;
    assert [] + Concat(arrivals[..i + 1]) == Concat(arrivals[..i + 1]);
    PacketsAreTaken(pending, packets, p.Wire()[..j]);
  }

  // ----- sending -----

  ghost predicate Digits(n: nat, k: nat) {
    |WriteLength(n)| <= k
  }

  lemma {:induction false} DigitsBound(n: nat, k: nat)
    requires k > 0 && n < Power128(k)
    ensures Digits(n, k)
    decreases k
  {
    if n >= 128 {
      assert Power128(k) == 128 * Power128(k - 1);
      DigitsBound(n / 128, k - 1);
    }
  }

  /** What fits into eight octets of seven bits. */
  const TWO_TO_THE_56: nat := 0x100_0000_0000_0000

  lemma AllDigits(n: nat)
    requires n < TWO_TO_THE_56
    ensures Digits(n, 8)
  {
    assert Power128(8) == TWO_TO_THE_56 by {
      assert Power128(3) == 0x20_0000;
      assert Power128(6) == 0x400_0000_0000;
    }
    DigitsBound(n, 8);
  }

  method TotalLength(topics: seq<Topic>) returns (total: nat)
    ensures total == 2 + AnnouncedTopics(topics)
  {
    hide AnnouncedTopics;
    total := 2;
    NoTopics(topics);
    for i := 0 to |topics|
      invariant total + AnnouncedTopics(topics[i..]) == 2 + AnnouncedTopics(topics)
    {
      TopicsUnfold(topics, i);
      total := total + 2 + |topics[i].name| + 1;
    }
  }

  lemma FirstDigit(n: nat)
    ensures WriteLength(n) == if n < 128 then [n] else [128 + n % 128] + WriteLength(n / 128)
    ensures n >= 128 <==> n / 128 > 0
    ensures n >= 128 ==> n / 128 < n
  {
  }

  lemma DigitIsPut(front: seq<byte>, n: nat, digit: byte)
    requires digit == n % 128 + if n / 128 > 0 then 128 else 0
    ensures
      front + WriteLength(n) == front + [digit] + if n / 128 > 0 then WriteLength(n / 128) else []
    ensures |WriteLength(n)| == 1 + if n / 128 > 0 then |WriteLength(n / 128)| else 0
  {
    FirstDigit(n);
    hide WriteLength;
    if n / 128 > 0 {
      assert front + ([digit] + WriteLength(n / 128)) == front + [digit] + WriteLength(n / 128);
    }
  }

  /** The remaining length, digit after digit, behind the first octet of `buf`. */
  method PutLength(buf: array<byte>, length: nat) returns (v: nat)
    requires buf.Length == 9 && length < TWO_TO_THE_56
    modifies buf
    ensures 1 <= v <= 9 && buf[..v] == old(buf[..1]) + WriteLength(length)
  {
    AllDigits(length);
    hide WriteLength;
    v := 1;
    var n, more := length, true;
    while more
      invariant 1 <= v <= 9 && (more ==> v + |WriteLength(n)| <= 9)
      invariant old(buf[..1]) + WriteLength(length) == buf[..v] + if more then WriteLength(n) else []
      decreases more, n
    {
      ghost var was, m := buf[..v], n;
      FirstDigit(n);
      buf[v] := n % 128;
      n := n / 128;
      more := n > 0;
      if more {
        buf[v] := buf[v] + 128;
      }
      DigitIsPut(was, m, buf[v]);
      assert buf[..v + 1] == was + [buf[v]];
      v := v + 1;
    }
  }

  lemma StringInParts(s: seq<byte>, text: seq<byte>, rest: seq<byte>)
    requires text == s[..|s| % 0x1_0000]
    ensures |text| < 0x1_0000
    ensures WriteString(s) + rest == WriteNumber16(|text|) + (text + rest)
  {
    assert text == Cut(s);
    hide WriteNumber16, Cut;
    assert WriteNumber16(|text|) + text + rest == WriteNumber16(|text|) + (text + rest);
  }

  class Sender {
    const send: Mbuf

    ghost predicate Valid()
      reads this, send
    {
      send.Valid()
    }

    constructor ()
      ensures Valid() && fresh(send) && fresh(send.buf) && send.Contents() == []
    {
      send := new Mbuf();
    }

    /** The first octet and the remaining length, put together in a small array. */
    method SendHeader(command: nat, flags: nat, length: nat)
      requires Valid() && command < 16 && flags < 16 && length < TWO_TO_THE_56
      modifies send, send.buf
      ensures Valid() && (send.buf == old(send.buf) || fresh(send.buf))
      ensures send.Contents() == old(send.Contents()) + ([command * 16 + flags] + WriteLength(length))
    {
      var buf := new byte[9];
      buf[0] := command * 16 + flags;
      assert buf[..1] == [buf[0]];
      hide WriteLength;
      var v := PutLength(buf, length);
      send.Append(buf[..v]);
    }

    /** Sends the next part of what is to go out as a whole; `rest` is still to come. */
    method SendPart(data: seq<byte>, ghost rest: seq<byte>, ghost whole: seq<byte>)
      requires Valid() && send.Contents() + (data + rest) == whole
      modifies send, send.buf
      ensures Valid() && (send.buf == old(send.buf) || fresh(send.buf))
      ensures send.Contents() + rest == whole
    {
      ghost var was := send.Contents();
      send.Append(data);
      assert was + data + rest == was + (data + rest);
    }

    /** The length of a string, in sixteen bits, and so much of the string as that says. */
    method SendString(s: seq<byte>, ghost rest: seq<byte>, ghost whole: seq<byte>)
      requires Valid() && send.Contents() + (WriteString(s) + rest) == whole
      modifies send, send.buf
      ensures Valid() && (send.buf == old(send.buf) || fresh(send.buf))
      ensures send.Contents() + rest == whole
    {
      hide *;
      var text := s[..|s| % 0x1_0000];
      StringInParts(s, text, rest);
      SendPart(WriteNumber16(|text|), text + rest, whole);
      SendPart(text, rest, whole);
    }

    method SendStringIf(present: bool, s: seq<byte>, ghost rest: seq<byte>, ghost whole: seq<byte>)
      requires Valid() && send.Contents() + (WriteStringIf(present, s) + rest) == whole
      modifies send, send.buf
      ensures Valid() && (send.buf == old(send.buf) || fresh(send.buf))
      ensures send.Contents() + rest == whole
    {
      if present {
        SendString(s, rest, whole);
      } else {
        assert [] + rest == rest;
      }
    }

    method SendLogin(o: ConnectOptions, ghost whole: seq<byte>)
      requires Valid() && o.Acceptable() && send.Contents() + WriteLogin(o) == whole
      modifies send, send.buf
      ensures Valid() && (send.buf == old(send.buf) || fresh(send.buf))
      ensures send.Contents() == whole
    {
      var will := Flag(o.SentFlags(), HAS_WILL);
      hide WriteStringIf;
      ghost var w2 := WriteStringIf(will, o.Will(o.willMessage));
      ghost var w3 := WriteStringIf(o.userName.Some?, o.userName.GetOr([]));
      ghost var w4 := WriteStringIf(o.password.Some?, o.password.GetOr([]));
      assert w4 + [] == w4;
      SendStringIf(will, o.Will(o.willTopic), w2 + (w3 + w4), whole);
      SendStringIf(will, o.Will(o.willMessage), w3 + w4, whole);
      SendStringIf(o.userName.Some?, o.userName.GetOr([]), w4, whole);
      SendStringIf(o.password.Some?, o.password.GetOr([]), [], whole);
      assert send.Contents() + [] == send.Contents();
    }

    method SendFixed(o: ConnectOptions, ghost rest: seq<byte>, ghost whole: seq<byte>)
      requires Valid() && o.Acceptable()
      requires
        send.Contents() + (ProtocolHead() + ([o.SentFlags()] + (WriteNumber16(o.SentKeepAlive()) + rest))) == whole
      modifies send, send.buf
      ensures Valid() && (send.buf == old(send.buf) || fresh(send.buf))
      ensures send.Contents() + rest == whole
    {
      var flags, keepAlive := o.SentFlags(), WriteNumber16(o.SentKeepAlive());
      hide WriteNumber16, ProtocolHead, ConnectOptions.SentFlags, ConnectOptions.SentKeepAlive;
      SendPart(ProtocolHead(), [flags] + (keepAlive + rest), whole);
      SendPart([flags], keepAlive + rest, whole);
      SendPart(keepAlive, rest, whole);
    }

    method Handshake(clientId: Option<seq<byte>>, o: ConnectOptions)
      requires Valid() && o.Acceptable()
      modifies send, send.buf
      ensures Valid() && (send.buf == old(send.buf) || fresh(send.buf))
      ensures send.Contents() == old(send.Contents()) + WritePacket(CONNECT, 0, ConnectBody(clientId, o))
    {
      hide WriteLength, ConnectBody, WriteString, WriteLogin, WritePacket, ConnectLength, WriteNumber16, ProtocolHead,
        ConnectOptions.SentFlags, ConnectOptions.SentKeepAlive, ConnectOptions.Acceptable, Option.GetOr;
      ConnectIsShort(clientId, o);
      ghost var body := ConnectBody(clientId, o);
      ConnectInOrder(clientId, o);
      PacketInOrder(send.Contents(), CONNECT, 0, body);
      ghost var whole := send.Contents() + WritePacket(CONNECT, 0, body);
      SendHeader(CONNECT, 0, ConnectLength(clientId, o));
      SendFixed(o, WriteString(clientId.GetOr([])) + WriteLogin(o), whole);
      SendString(clientId.GetOr([]), WriteLogin(o), whole);
      SendLogin(o, whole);
    }

    method Publish(topic: seq<byte>, messageId: nat, flags: nat, data: seq<byte>)
      requires Valid() && messageId < 0x1_0000 && flags < 16 && |data| < 0x7FFF_0000
      modifies send, send.buf
      ensures Valid() && (send.buf == old(send.buf) || fresh(send.buf))
      ensures send.Contents() == old(send.Contents()) +
        WritePacket(PUBLISH, flags, PublishBody(topic, messageId, flags, data))
    {
      ghost var body := PublishBody(topic, messageId, flags, data);
      ghost var whole := send.Contents() + WritePacket(PUBLISH, flags, body);
      var total := 2 + |topic| % 0x1_0000 + |data|;
      if flags / 2 % 4 > 0 {
        total := total + 2;
      }
      assert total == |body|;
      ghost var id := if flags / 2 % 4 > 0 then WriteNumber16(messageId) else [];
      assert body == WriteString(topic) + (id + data);
      hide WriteLength, PublishBody, WriteString, WritePacket;
      PacketInOrder(send.Contents(), PUBLISH, flags, body);
      SendHeader(PUBLISH, flags, total);
      SendString(topic, id + data, whole);
      if flags / 2 % 4 > 0 {
        SendPart(WriteNumber16(messageId), data, whole);
      } else {
        assert id + data == data;
      }
      assert data + [] == data;
      SendPart(data, [], whole);
      assert send.Contents() + [] == send.Contents();
    }

    method Subscribe(topics: seq<Topic>, messageId: nat)
      requires Valid() && messageId < 0x1_0000 && AnnouncedTopics(topics) < 0x7FFF_0000
      modifies send, send.buf
      ensures Valid() && (send.buf == old(send.buf) || fresh(send.buf))
      ensures send.Contents() == old(send.Contents()) + SubscribePacket(topics, messageId)
    {
      hide WriteLength, WriteTopics, AnnouncedTopics, WriteString;
      var total := TotalLength(topics);
      NoTopics(topics);
      ghost var whole := send.Contents() + SubscribePacket(topics, messageId);
      SubscribeInOrder(send.Contents(), topics, messageId);
      SendHeader(SUBSCRIBE, 2, total);
      SendPart(WriteNumber16(messageId), WriteTopics(topics), whole);
      for i := 0 to |topics|
        invariant Valid() && (send.buf == old(send.buf) || fresh(send.buf))
        invariant send.Contents() + WriteTopics(topics[i..]) == whole
      {
        TopicsUnfold(topics, i);
        ghost var later := WriteTopics(topics[i + 1..]);
        SendString(topics[i].name, [topics[i].qos] + later, whole);
        SendPart([topics[i].qos], later, whole);
      }
      assert send.Contents() + [] == send.Contents();
    }

    method ConnectAck(returnCode: byte)
      requires Valid()
      modifies send, send.buf
      ensures Valid() && (send.buf == old(send.buf) || fresh(send.buf))
      ensures send.Contents() == old(send.Contents()) + WritePacket(CONNACK, 0, [0, returnCode])
    {
      ghost var body := [0, returnCode];
      ghost var whole := send.Contents() + WritePacket(CONNACK, 0, body);
      hide WriteLength, WritePacket;
      PacketInOrder(send.Contents(), CONNACK, 0, body);
      SendHeader(CONNACK, 0, 2);
      assert body == [0] + [returnCode] && [returnCode] + [] == [returnCode];
      SendPart([0], [returnCode], whole);
      SendPart([returnCode], [], whole);
      assert send.Contents() + [] == send.Contents();
    }

    /** What is granted for each topic of a subscription, octet by octet. */
    method SubscribeAck(granted: seq<byte>, messageId: nat)
      requires Valid() && messageId < 0x1_0000 && |granted| < 0x7FFF_0000
      modifies send, send.buf
      ensures Valid() && (send.buf == old(send.buf) || fresh(send.buf))
      ensures
        send.Contents() == old(send.Contents()) + WritePacket(SUBACK, 2, WriteNumber16(messageId) + granted)
    {
      ghost var body := WriteNumber16(messageId) + granted;
      ghost var whole := send.Contents() + WritePacket(SUBACK, 2, body);
      hide WriteLength, WritePacket;
      PacketInOrder(send.Contents(), SUBACK, 2, body);
      SendHeader(SUBACK, 2, 2 + |granted|);
      SendPart(WriteNumber16(messageId), granted, whole);
      for i := 0 to |granted|
        invariant Valid() && (send.buf == old(send.buf) || fresh(send.buf))
        invariant send.Contents() + granted[i..] == whole
      {
        assert granted[i..] == [granted[i]] + granted[i + 1..];
        SendPart([granted[i]], granted[i + 1..], whole);
      }
      assert send.Contents() + [] == send.Contents();
    }

    /** A packet of nothing but a message identifier. */
    method ShortCommand(command: nat, messageId: nat)
      requires Valid() && messageId < 0x1_0000 && command in {PUBACK, PUBREC, PUBREL, PUBCOMP}
      modifies send, send.buf
      ensures Valid() && (send.buf == old(send.buf) || fresh(send.buf))
      ensures
        send.Contents() ==
          old(send.Contents()) + WritePacket(command, if command == PUBREL then 2 else 0, WriteNumber16(messageId))
    {
      var flags := if command == PUBREL then 2 else 0;
      ghost var body := WriteNumber16(messageId);
      ghost var whole := send.Contents() + WritePacket(command, flags, body);
      hide WriteLength, WritePacket;
      PacketInOrder(send.Contents(), command, flags, body);
      SendHeader(command, flags, 2);
      assert body + [] == body;
      SendPart(WriteNumber16(messageId), [], whole);
      assert send.Contents() + [] == send.Contents();
    }
  }

  lemma PacketInOrder(was: seq<byte>, command: nat, flags: nat, body: seq<byte>)
    requires command < 16 && flags < 16
    ensures
      was + ([command * 16 + flags] + WriteLength(|body|)) + body == was + WritePacket(command, flags, body)
  {
    hide WriteLength;
  }

  lemma ConnectInOrder(clientId: Option<seq<byte>>, o: ConnectOptions)
    requires o.Acceptable()
    ensures
      var id := WriteString(clientId.GetOr([]));
      ConnectBody(clientId, o) ==
        ProtocolHead() +
        ([o.SentFlags()] + (WriteNumber16(o.SentKeepAlive()) + (id + WriteLogin(o))))
  {
    ProtocolOctets();
    hide WriteString, WriteLogin, ConnectOptions.SentFlags;
    var later := WriteString(clientId.GetOr([])) + WriteLogin(o);
    HeadInOrder(WriteString(PROTOCOL), [o.SentFlags()], WriteNumber16(o.SentKeepAlive()), later);
    assert [4, o.SentFlags()] == [4] + [o.SentFlags()];
  }

  /** The protocol's name and level. */
  function ProtocolHead(): seq<byte> {
    [0, 4, 77, 81, 84, 84, 4]
  }

  lemma ProtocolOctets()
    ensures WriteString(PROTOCOL) + [4] == ProtocolHead()
  {
    ShortIsNotCut(PROTOCOL);
  }

  lemma HeadInOrder(p: seq<byte>, f: seq<byte>, k: seq<byte>, later: seq<byte>)
    ensures p + ([4] + f + k + later) == p + [4] + (f + (k + later))
  {
  }

  lemma SubscribeInOrder(was: seq<byte>, topics: seq<Topic>, messageId: nat)
    requires messageId < 0x1_0000
    ensures
      was + ([SUBSCRIBE * 16 + 2] + WriteLength(2 + AnnouncedTopics(topics))) +
      (WriteNumber16(messageId) + WriteTopics(topics)) == was + SubscribePacket(topics, messageId)
  {
    hide WriteLength, WriteTopics, AnnouncedTopics;
  }

  lemma TopicsUnfold(topics: seq<Topic>, i: nat)
    requires i < |topics|
    ensures AnnouncedTopics(topics[i..]) == 2 + |topics[i].name| + 1 + AnnouncedTopics(topics[i + 1..])
    ensures WriteTopics(topics[i..]) == WriteString(topics[i].name) + ([topics[i].qos] + WriteTopics(topics[i + 1..]))
  {
    hide WriteString;
    assert topics[i..][1..] == topics[i + 1..];
  }

  lemma NoTopics(topics: seq<Topic>)
    ensures topics[0..] == topics && AnnouncedTopics(topics[|topics|..]) == 0 && WriteTopics(topics[|topics|..]) == []
  {
  }
}
