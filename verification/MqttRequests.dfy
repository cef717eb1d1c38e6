/** From one end to the other: what is asked of the senders is what the handler sees. */
module MqttRequests {
  import opened Bytes
  import opened Incremental
  import opened MqttPackets
  import opened MqttSession
  import opened Wrappers

  /**
    What an application asks for: one of these for each routine that sends. Acknowledgements are PUBACK (4), PUBREC (5),
    PUBREL (6) and PUBCOMP (7); PINGREQ (12), PINGRESP (13) and DISCONNECT (14) are bare.
   */
  datatype Request =
    | AskConnect(clientId: Option<seq<byte>>, options: ConnectOptions)
    | AskPublish(topic: seq<byte>, messageId: nat, flags: nat, data: seq<byte>)
    | AskSubscribe(topics: seq<Topic>, messageId: nat)
    | AskConnectAck(returnCode: byte)
    | AskSubscribeAck(granted: seq<byte>, messageId: nat)
    | AskAck(command: nat, messageId: nat)
    | AskBare(command: nat)
  {
    /** Topics of a subscription are short enough for sixteen bits of length; packets stay below 2^31 octets. */
    ghost predicate Valid() {
      match this
      case AskConnect(_, o) => o.Acceptable()
      case AskPublish(_, id, flags, data) => id < 0x1_0000 && flags < 16 && |data| < 0x7FFF_0000
      case AskSubscribe(topics, id) => id < 0x1_0000 && AnnouncedTopics(topics) < 0x7FFF_0000 && AllShort(topics)
      case AskConnectAck(_) => true
      case AskSubscribeAck(granted, id) => id < 0x1_0000 && |granted| < 0x7FFF_0000
      case AskAck(command, id) => id < 0x1_0000 && 4 <= command <= 7
      case AskBare(command) => 12 <= command <= 14
    }

    ghost function AsPacket(): Packet
      requires Valid()
    {
      match this
      case AskConnect(clientId, o) => Packet(CONNECT, 0, ConnectBody(clientId, o))
      case AskPublish(topic, id, flags, data) => Packet(PUBLISH, flags, PublishBody(topic, id, flags, data))
      case AskSubscribe(topics, id) => Packet(SUBSCRIBE, 2, WriteNumber16(id) + WriteTopics(topics))
      case AskConnectAck(code) => Packet(CONNACK, 0, [0, code])
      case AskSubscribeAck(granted, id) => Packet(SUBACK, 2, WriteNumber16(id) + granted)
      case AskAck(command, id) => Packet(command, if command == PUBREL then 2 else 0, WriteNumber16(id))
      case AskBare(command) => Packet(command, 0, [])
    }

    /**
      What the handler is to be shown; strings that are longer than 65535 octets are cut, and what has been granted for
      a subscription is not looked at.
     */
    ghost function Shown(): Message
      requires Valid()
    {
      match this
      case AskConnect(clientId, o) =>
        Message(CONNECT, 0,
                Connect(PROTOCOL, 4, o.SentFlags(), o.SentKeepAlive(), Cut(clientId.GetOr([])), o.SentLogin()))
      case AskPublish(topic, id, flags, data) =>
        var qos := flags / 2 % 4;
        Message(PUBLISH, qos, Publish(Cut(topic), if qos > 0 then Some(id) else None, data))
      case AskSubscribe(topics, id) => Message(SUBSCRIBE, 1, Subscribe(id, WriteTopics(topics)))
      case AskConnectAck(code) => Message(CONNACK, 0, ConnectAck(code))
      case AskSubscribeAck(_, id) => Message(SUBACK, 1, Ack(id))
      case AskAck(command, id) => Message(command, if command == PUBREL then 1 else 0, Ack(id))
      case AskBare(command) => Message(command, 0, Other)
    }
  }

  ghost predicate AllValid(requests: seq<Request>) {
    forall i | 0 <= i < |requests| :: requests[i].Valid()
  }

  /** The octets the senders queue for a request. */
  ghost function Octets(r: Request): seq<byte>
    requires r.Valid()
  {
    WritePacket(r.AsPacket().command, r.AsPacket().flags, r.AsPacket().body)
  }

  ghost function OctetsOf(requests: seq<Request>): seq<byte>
    requires AllValid(requests)
  {
    if requests == [] then [] else Octets(requests[0]) + OctetsOf(requests[1..])
  }

  ghost function ShownOf(requests: seq<Request>): (shown: seq<Message>)
    requires AllValid(requests)
    ensures |shown| == |requests| && forall i | 0 <= i < |requests| :: shown[i] == requests[i].Shown()
  {
    seq(|requests|, i requires 0 <= i < |requests| => requests[i].Shown())
  }

  ghost function PacketsOf(requests: seq<Request>): (packets: seq<Packet>)
    requires AllValid(requests)
    ensures |packets| == |requests| && forall i | 0 <= i < |requests| :: packets[i] == requests[i].AsPacket()
  {
    seq(|requests|, i requires 0 <= i < |requests| => requests[i].AsPacket())
  }

  // ----- a request is a packet that says the same -----

  lemma AckIsReadable(command: nat, flags: nat, messageId: nat, more: seq<byte>)
    requires IsAck(command) && flags < 16 && messageId < 0x1_0000 && |more| < 0x7FFF_0000
    ensures
      var p := Packet(command, flags, WriteNumber16(messageId) + more);
      p.Readable() && p.Meaning() == Message(command, flags / 2 % 4, Ack(messageId))
  {
    HeaderParts(command, flags);
    hide Qos;
  }

  lemma ShortAckIsReadable(command: nat, flags: nat, messageId: nat)
    requires 4 <= command <= 7 && flags < 16 && messageId < 0x1_0000
    ensures
      var p := Packet(command, flags, WriteNumber16(messageId));
      p.Readable() && p.Meaning() == Message(command, flags / 2 % 4, Ack(messageId))
  {
    AckIsReadable(command, flags, messageId, []);
    hide *;
    assert WriteNumber16(messageId) + [] == WriteNumber16(messageId);
  }

  lemma OthersAreReadable(command: nat, returnCode: byte)
    requires 12 <= command <= 14
    ensures Packet(command, 0, []).Readable() && Packet(command, 0, []).Meaning() == Message(command, 0, Other)
    ensures
      var p := Packet(CONNACK, 0, [0, returnCode]);
      p.Readable() && p.Meaning() == Message(CONNACK, 0, ConnectAck(returnCode))
  {
    HeaderParts(command, 0);
    HeaderParts(CONNACK, 0);
    hide Qos;
  }

  lemma RequestIsReadable(r: Request)
    requires r.Valid()
    ensures r.AsPacket().Readable() && r.AsPacket().Wire() == Octets(r) && r.AsPacket().Meaning() == r.Shown()
  {
    hide Packet.Readable, Packet.Meaning, WritePacket, ConnectBody, PublishBody, WriteTopics, AnnouncedTopics, AllShort;
    match r
    case AskConnect(clientId, o) =>
      ConnectIsReadable(clientId, o);
    case AskPublish(topic, id, flags, data) =>
      PublishIsShort(topic, id, flags, data);
      PublishIsReadable(topic, id, flags, data);
    case AskSubscribe(topics, id) =>
      SubscribeIsReadable(topics, id);
    case AskConnectAck(code) =>
      OthersAreReadable(12, code);
    case AskSubscribeAck(granted, id) =>
      AckIsReadable(SUBACK, 2, id, granted);
    case AskAck(command, id) =>
      ShortAckIsReadable(command, if command == PUBREL then 2 else 0, id);
    case AskBare(command) =>
      OthersAreReadable(command, 0);
  }

  lemma PublishIsShort(topic: seq<byte>, messageId: nat, flags: nat, data: seq<byte>)
    requires messageId < 0x1_0000 && flags < 16 && |data| < 0x7FFF_0000
    ensures |PublishBody(topic, messageId, flags, data)| < TWO_TO_THE_32
  {
    hide Cut;
  }

  lemma {:induction false} RequestsArePackets(requests: seq<Request>)
    requires AllValid(requests)
    ensures
      var packets := PacketsOf(requests);
      && AllReadable(packets) && WireAll(packets) == OctetsOf(requests) && Meanings(packets) == ShownOf(requests)
    decreases |requests|
  {
    hide Request.Valid, Request.AsPacket, Request.Shown, Octets, Packet.Readable, Packet.Wire, Packet.Meaning;
    if requests != [] {
      RequestIsReadable(requests[0]);
      RequestsArePackets(requests[1..]);
      var packets, later := PacketsOf(requests), PacketsOf(requests[1..]);
      SameElements(packets[1..], later);
      SameElements([requests[0].Shown()] + ShownOf(requests[1..]), ShownOf(requests));
      AllOfThem(packets);
    }
  }

  lemma AllOfThem(packets: seq<Packet>)
    requires packets != [] && packets[0].Readable() && AllReadable(packets[1..])
    ensures AllReadable(packets)
  {
    hide Packet.Readable;
    forall i | 0 <= i < |packets|
      ensures packets[i].Readable()
    {
      assert i > 0 ==> packets[1..][i - 1].Readable();
    }
  }

  /**
    Whatever is asked of the senders, and however the octets they queue are cut into receive events: the handler sees
    exactly what has been asked, in order, and a part of the next packet waits. A ping is answered by a pong only, and
    the connection stays open when no packet is longer than the limit there may be.
   */
  lemma RequestsArrive(
    pending: bool, limit: nat, requests: seq<Request>, next: Request, part: nat, arrivals: seq<seq<byte>>)
    requires AllValid(requests) && next.Valid() && part < |Octets(next)|
    requires Concat(arrivals) == OctetsOf(requests) + Octets(next)[..part]
    ensures Shrinks(MessageStep)
    ensures
      Feed(MessageStep, pending, [], arrivals) ==
        Drained(pending && !(AskBare(13) in requests), Octets(next)[..part], ShownOf(requests))
    ensures FitsAll(limit, requests + [next]) ==> !HopelessOver(limit, pending, [], arrivals)
  {
    hide MessageStep, Octets, OctetsOf, Request.Shown, Packet.Wire, Packet.Readable, WireAll, Meanings, Concat;
    var packets, p := PacketsOf(requests), next.AsPacket();
    RequestsArePackets(requests);
    RequestIsReadable(next);
    MessagesArrive(pending, packets, p, part, arrivals);
    PongIsAsked(requests);
    if FitsAll(limit, requests + [next]) {
      forall i | 0 <= i < |packets + [p]|
        ensures limit == 0 || |(packets + [p])[i].Wire()| <= limit
      {
        assert (requests + [next])[i].AsPacket() == (packets + [p])[i];
        RequestIsReadable((requests + [next])[i]);
      }
      ShortPacketsStayOpen(limit, pending, packets, p, part, arrivals);
    }
  }

  ghost predicate FitsAll(limit: nat, requests: seq<Request>) {
    AllValid(requests) && forall i | 0 <= i < |requests| :: limit == 0 || |Octets(requests[i])| <= limit
  }

  lemma PongIsAsked(requests: seq<Request>)
    requires AllValid(requests)
    ensures PingAnswered(PacketsOf(requests)) <==> AskBare(13) in requests
  {
    hide ConnectBody, PublishBody, WriteTopics;
    var packets := PacketsOf(requests);
    forall i | 0 <= i < |requests|
      ensures packets[i].command == PINGRESP <==> requests[i] == AskBare(13)
    {
      assert requests[i].Valid();
    }
  }

  // ----- the octets of short requests, as the standard has them (MQTT 3.1.1, section 3) -----

  /** The example of section 2.2.3. */
  lemma LengthOfStandard()
    ensures WriteLength(321) == [193, 2]
  {
  }

  lemma ShortPacket(command: nat, flags: nat, body: seq<byte>)
    requires command < 16 && flags < 16 && |body| < 128
    ensures WritePacket(command, flags, body) == [command * 16 + flags, |body|] + body
  {
    assert WriteLength(|body|) == [|body|];
  }

  lemma ShortString(s: seq<byte>)
    requires |s| < 128
    ensures WriteString(s) == [0, |s|] + s
  {
    ShortIsNotCut(s);
    hide Cut;
  }

  lemma OctetsOfBare(command: nat)
    requires AskBare(command).Valid()
    ensures Octets(AskBare(command)) == [if command == 12 then 0xC0 else if command == 13 then 0xD0 else 0xE0, 0]
  {
    ShortPacket(command, 0, []);
    hide WritePacket;
  }

  lemma OctetsOfAck(command: nat, messageId: nat)
    requires AskAck(command, messageId).Valid()
    ensures
      Octets(AskAck(command, messageId)) ==
        [match command case 4 => 0x40 case 5 => 0x50 case 6 => 0x62 case _ => 0x70, 2,
         messageId / 256, messageId % 256]
  {
    var flags, body := if command == 6 then 2 else 0, WriteNumber16(messageId);
    ShortPacket(command, flags, body);
    hide WritePacket;
    assert [command * 16 + flags, 2] + body == [command * 16 + flags, 2, body[0], body[1]];
  }

  lemma OctetsOfConnectAck(returnCode: byte)
    ensures Octets(AskConnectAck(returnCode)) == [0x20, 2, 0, returnCode]
  {
    ShortPacket(2, 0, [0, returnCode]);
    hide WritePacket;
    assert [0x20, 2] + [0, returnCode] == [0x20, 2, 0, returnCode];
  }

  /** The first octet says 0x92; the standard has 0x90 (section 3.9.1, with its reserved flags zero). */
  lemma OctetsOfSubscribeAck(granted: seq<byte>, messageId: nat)
    requires messageId < 0x1_0000 && |granted| < 126
    ensures
      Octets(AskSubscribeAck(granted, messageId)) ==
        [0x92, 2 + |granted|, messageId / 256, messageId % 256] + granted
  {
    var body := [messageId / 256, messageId % 256] + granted;
    ShortPacket(9, 2, body);
    hide WritePacket;
    assert [0x92, |body|] + body == [0x92, |body|, messageId / 256, messageId % 256] + granted;
  }

  /** A SUBACK packet with its flags as in the standard is shown as an acknowledgement as well. */
  lemma GrantIsShown(high: byte, low: byte, granted: byte)
    ensures Inspect([0x90, 3, high, low, granted]) == Arrived(Message(9, 0, Ack(high * 256 + low)), 5)
  {
    var u, body := [0x90, 3, high, low, granted], [high, low, granted];
    GrantIsFramed(u, body);
    assert DecodeContent(0x90, body) == Some(Ack(high * 256 + low)) && Qos(0x90) == 0;
    hide Frame, DecodeContent, Qos;
  }

  lemma GrantIsFramed(u: seq<byte>, body: seq<byte>)
    requires |body| == 3 && u == [0x90, 3] + body
    ensures Frame(u) == Framed(0x90, body, 5)
  {
    ShortPacket(9, 0, body);
    hide *;
    assert u + [] == u;
    PacketIsFound(9, 0, body, []);
  }

  lemma PublishBodyIs(topic: seq<byte>, messageId: nat, flags: nat, data: seq<byte>)
    requires messageId < 0x1_0000 && flags < 16 && |topic| < 128
    ensures
      var id := if flags in {0, 1, 8, 9} then [] else [messageId / 256, messageId % 256];
      PublishBody(topic, messageId, flags, data) == [0, |topic|] + topic + (id + data)
  {
    assert flags / 2 % 4 == 0 <==> flags in {0, 1, 8, 9};
    ShortString(topic);
    hide WriteString;
  }

  lemma OctetsOfPublish(topic: seq<byte>, messageId: nat, flags: nat, data: seq<byte>)
    requires messageId < 0x1_0000 && flags < 16 && |topic| + |data| < 124
    ensures
      var id := if flags in {0, 1, 8, 9} then [] else [messageId / 256, messageId % 256];
      Octets(AskPublish(topic, messageId, flags, data)) ==
        [0x30 + flags, 2 + |topic| + |id| + |data|, 0, |topic|] + topic + id + data
  {
    var id := if flags in {0, 1, 8, 9} then [] else [messageId / 256, messageId % 256];
    PublishBodyIs(topic, messageId, flags, data);
    hide WritePacket, PublishBody;
    var body := [0, |topic|] + topic + (id + data);
    ShortPacket(3, flags, body);
    InLine([0x30 + flags, |body|], [0, |topic|], topic, id, data);
    assert [0x30 + flags, |body|] + [0, |topic|] == [0x30 + flags, |body|, 0, |topic|];
  }

  lemma InLine(a: seq<byte>, b: seq<byte>, c: seq<byte>, d: seq<byte>, e: seq<byte>)
    ensures a + (b + c + (d + e)) == a + b + c + d + e
  {
  }

  lemma OctetsOfSubscribe(name: seq<byte>, qos: byte, messageId: nat)
    requires messageId < 0x1_0000 && |name| < 122
    ensures
      var s := AskSubscribe([Topic(name, qos)], messageId);
      && s.Valid()
      && Octets(s) == [0x82, 5 + |name|, messageId / 256, messageId % 256, 0, |name|] + name + [qos]
  {
    var topics, id := [Topic(name, qos)], [messageId / 256, messageId % 256];
    ShortString(name);
    assert topics[1..] == [] && WriteTopics([]) == [] && AnnouncedTopics([]) == 0;
    hide WriteString;
    assert WriteTopics(topics) == [0, |name|] + name + [qos];
    var body := id + ([0, |name|] + name + [qos]);
    ShortPacket(8, 2, body);
    hide WritePacket, WriteTopics;
    assert [0x82, |body|] + body == [0x82, |body|, messageId / 256, messageId % 256, 0, |name|] + name + [qos];
  }

  /** A user and a password are announced by the flags 0x80 and 0x40; how long to stay is a minute unless said. */
  lemma OctetsOfConnect(clientId: seq<byte>, user: seq<byte>, password: seq<byte>)
    requires |clientId| + |user| + |password| < 100
    ensures
      var o := ConnectOptions(2, 0, None, None, Some(user), Some(password));
      && AskConnect(Some(clientId), o).Valid()
      && Octets(AskConnect(Some(clientId), o)) ==
           [0x10, 16 + |clientId| + |user| + |password|, 0, 4, 77, 81, 84, 84, 4, 0xC2, 0, 60, 0, |clientId|] +
           clientId + [0, |user|] + user + [0, |password|] + password
  {
    var o := ConnectOptions(2, 0, None, None, Some(user), Some(password));
    ConnectBodyIs(clientId, user, password);
    var r, body := AskConnect(Some(clientId), o), ConnectBody(Some(clientId), o);
    assert r.Valid() && Octets(r) == WritePacket(1, 0, body);
    hide *;
    ShortPacket(1, 0, body);
    ConnectInLine(|body|, clientId, user, password);
  }

  lemma ConnectBodyIs(clientId: seq<byte>, user: seq<byte>, password: seq<byte>)
    requires |clientId| + |user| + |password| < 100
    ensures
      var o := ConnectOptions(2, 0, None, None, Some(user), Some(password));
      var login := [0, |user|] + user + ([0, |password|] + password);
      && o.Acceptable()
      && ConnectBody(Some(clientId), o) ==
           [0, 4, 77, 81, 84, 84] + ([4, 0xC2] + [0, 60] + ([0, |clientId|] + clientId + login))
  {
    var o := ConnectOptions(2, 0, None, None, Some(user), Some(password));
    FlagsOfLogin(user, password);
    ShortString(PROTOCOL);
    ShortString(clientId);
    ShortString(user);
    ShortString(password);
    hide WriteString, ConnectOptions.SentFlags, Flag;
    assert WriteLogin(o) == [0, |user|] + user + ([0, |password|] + password);
    hide WriteLogin;
  }

  lemma ConnectInLine(n: byte, id: seq<byte>, user: seq<byte>, password: seq<byte>)
    requires |id| + |user| + |password| < 100
    ensures
      var login := [0, |user|] + user + ([0, |password|] + password);
      [0x10, n] + ([0, 4, 77, 81, 84, 84] + ([4, 0xC2] + [0, 60] + ([0, |id|] + id + login))) ==
        [0x10, n, 0, 4, 77, 81, 84, 84, 4, 0xC2, 0, 60, 0, |id|] +
        id + [0, |user|] + user + [0, |password|] + password
  {
    var login := [0, |user|] + user + ([0, |password|] + password);
    var start := [0x10, n, 0, 4, 77, 81, 84, 84, 4, 0xC2, 0, 60, 0, |id|];
    assert [0x10, n] + ([0, 4, 77, 81, 84, 84] + ([4, 0xC2] + [0, 60] + ([0, |id|] + id + login))) ==
      start + (id + login) by {
      assert start == [0x10, n] + [0, 4, 77, 81, 84, 84] + [4, 0xC2] + [0, 60] + [0, |id|];
    }
    assert id + login == id + [0, |user|] + user + [0, |password|] + password;
  }

  /** The flags of a CONNECT packet: a will is announced by 0x04. */
  lemma FlagsOfWill(will: seq<byte>, user: seq<byte>, password: seq<byte>)
    ensures ConnectOptions(2, 0, Some(will), Some(will), Some(user), Some(password)).SentFlags() == 0xC6
    ensures ConnectOptions(2, 0, Some(will), Some(will), None, None).SentFlags() == 0x06
    ensures ConnectOptions(2, 0, Some(will), None, None, None).SentFlags() == 0x02
  {
  }

  lemma FlagsOfLogin(user: seq<byte>, password: seq<byte>)
    ensures
      var o := ConnectOptions(2, 0, None, None, Some(user), Some(password));
      o.Acceptable() && o.SentFlags() == 0xC2 && !Flag(0xC2, HAS_WILL)
  {
  }

  /** The topics of a subscription are recovered from what the handler is shown. */
  lemma TopicsAreShown(r: Request)
    requires r.Valid() && r.AskSubscribe?
    ensures r.Shown().content.Subscribe? && AllTopics(r.Shown().content.topics, 0) == r.topics
  {
    TopicsAreRead([], r.topics);
    assert [] + WriteTopics(r.topics) == WriteTopics(r.topics);
  }

  // ----- the same of the objects -----

  /** A request goes to the routine that sends it, which queues its octets behind those that wait. */
  method Ask(sender: Sender, r: Request)
    requires sender.Valid() && r.Valid()
    modifies sender.send, sender.send.buf
    ensures sender.Valid() && (sender.send.buf == old(sender.send.buf) || fresh(sender.send.buf))
    ensures sender.send.Contents() == old(sender.send.Contents()) + Octets(r)
  {
    hide ConnectBody, PublishBody, WriteTopics, AnnouncedTopics, WriteLength, AllShort, ConnectOptions.Acceptable;
    ghost var was := sender.send.Contents();
    match r
    case AskConnect(clientId, o) =>
      sender.Handshake(clientId, o);
    case AskPublish(topic, id, flags, data) =>
      sender.Publish(topic, id, flags, data);
    case AskSubscribe(topics, id) =>
      SubscribeIsReadable(topics, id);
      sender.Subscribe(topics, id);
    case AskConnectAck(code) =>
      sender.ConnectAck(code);
    case AskSubscribeAck(granted, id) =>
      sender.SubscribeAck(granted, id);
    case AskAck(command, id) =>
      sender.ShortCommand(command, id);
    case AskBare(command) =>
      sender.SendHeader(command, 0, 0);
      assert [command * 16] + WriteLength(0) + [] == [command * 16] + WriteLength(0);
  }

  /** A session that receives what has been queued for some requests has seen these requests. */
  method Hear(session: Session, arrivals: seq<seq<byte>>, ghost requests: seq<Request>, ghost next: Request,
      ghost part: nat)
    requires session.Valid() && session.recv.Contents() == [] && |Concat(arrivals)| < 0x8000_0000
    requires AllValid(requests) && next.Valid() && part < |Octets(next)|
    requires Concat(arrivals) == OctetsOf(requests) + Octets(next)[..part]
    modifies session, session.recv, session.recv.buf
    ensures session.Valid()
    ensures session.seen == old(session.seen) + ShownOf(requests) && session.recv.Contents() == Octets(next)[..part]
    ensures session.pingPending == (old(session.pingPending) && !(AskBare(13) in requests))
    ensures FitsAll(session.limit, requests + [next]) ==> session.closing == old(session.closing)
  {
    hide MessageStep, Octets, OctetsOf, ShownOf, Concat, FitsAll, HopelessOver, Feed, Request.Valid;
    RequestsArrive(session.pingPending, session.limit, requests, next, part, arrivals);
    session.ReceiveAll(arrivals);
  }
}
