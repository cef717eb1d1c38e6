/**
  MQTT 3.1.1 packets: the fixed header with its remaining length, and the contents of the packets that are looked at.
 */
module MqttPackets {
  import opened Bytes
  import opened Incremental
  import opened Wrappers

  const TWO_TO_THE_32: nat := 0x1_0000_0000

  // ----- remaining length (section 2.2.3) -----

  /** Seven bits to an octet, the lowest first; the top bit says that another octet follows. */
  function WriteLength(n: nat): (s: seq<byte>)
    ensures s != []
  {
    if n < 128 then [n] else [128 + n % 128] + WriteLength(n / 128)
  }

  function Power128(n: nat): (p: nat)
    ensures p >= 1
  {
    if n == 0 then 1 else 128 * Power128(n - 1)
  }

  datatype Length = LengthUnfinished | LengthTooLong | Length(value: nat, octets: nat)

  /** `i` octets have been read and add up to `sum`; the sum has 32 bits, and a fifth octet must be the last. */
  function ReadLength(u: seq<byte>, i: nat, sum: nat): (r: Length)
    ensures r.Length? ==> i < r.octets <= |u|
    decreases |u| - i
  {
    if i >= |u| then LengthUnfinished
    else
      var total := AddDigit(sum, u[i], i);
      if u[i] < 128 then Length(total, i + 1)
      else if i + 1 > 4 then LengthTooLong
      else ReadLength(u, i + 1, total)
  }

  function AddDigit(sum: nat, octet: byte, i: nat): (r: nat)
    ensures r < TWO_TO_THE_32
  {
    (sum + octet % 128 * Power128(i)) % TWO_TO_THE_32
  }

  lemma DigitAdds(sum: nat, n: nat, i: nat)
    requires sum + n * Power128(i) < TWO_TO_THE_32
    ensures n < 128 ==> AddDigit(sum, n, i) == sum + n * Power128(i)
    ensures n >= 128 ==>
              var total := AddDigit(sum, 128 + n % 128, i);
              total + n / 128 * Power128(i + 1) == sum + n * Power128(i)
  {
    var p, q, r := Power128(i), n / 128, n % 128;
    TwoDigits(q, r, p);
    SevenBits(n);
    assert Power128(i + 1) == 128 * p;
    hide *;
    if n < 128 {
      AddDigitIs(sum, n, i);
    } else {
      AddDigitIs(sum, 128 + r, i);
    }
  }

  lemma SevenBits(n: nat)
    ensures n == 128 * (n / 128) + n % 128 && (128 + n % 128) % 128 == n % 128 && (n < 128 ==> n % 128 == n)
  {
  }

  lemma AddDigitIs(sum: nat, octet: byte, i: nat)
    requires sum + octet % 128 * Power128(i) < TWO_TO_THE_32
    ensures AddDigit(sum, octet, i) == sum + octet % 128 * Power128(i)
  {
    hide Power128;
    Small(sum + octet % 128 * Power128(i));
  }

  lemma TwoDigits(q: nat, r: nat, p: nat)
    ensures (128 * q + r) * p == q * (128 * p) + r * p && q * (128 * p) >= 0
  {
    assert (128 * q + r) * p == 128 * q * p + r * p;
    assert 128 * q * p == q * (128 * p);
  }

  lemma Small(n: nat)
    requires n < TWO_TO_THE_32
    ensures n % TWO_TO_THE_32 == n
  {
  }

  /** A number of 32 bits has at most five digits of seven bits. */
  lemma DigitsAreFew(n: nat, i: nat)
    requires n >= 128 && n * Power128(i) < TWO_TO_THE_32
    ensures i < 4
  {
    if i >= 4 {
      FiveDigitsAreMany(n, i);
    }
  }

  lemma FiveDigitsAreMany(n: nat, i: nat)
    requires n >= 128 && i >= 4
    ensures n * Power128(i) >= TWO_TO_THE_32
  {
    Power128Grows(4, i);
    assert Power128(4) == 0x1000_0000 by { assert Power128(2) == 0x4000; }
    assert n * Power128(i) >= 128 * 0x1000_0000;
  }

  lemma {:induction false} Power128Grows(a: nat, b: nat)
    requires a <= b
    ensures Power128(a) <= Power128(b)
    decreases b
  {
    if a < b {
      Power128Grows(a, b - 1);
    }
  }

  lemma {:induction false} LengthIsRead(done: seq<byte>, n: nat, rest: seq<byte>, sum: nat)
    requires sum + n * Power128(|done|) < TWO_TO_THE_32
    ensures
      ReadLength(done + WriteLength(n) + rest, |done|, sum) ==
        Length(sum + n * Power128(|done|), |done| + |WriteLength(n)|)
    decreases n
  {
    var u, i := done + WriteLength(n) + rest, |done|;
    DigitAdds(sum, n, i);
    if n >= 128 {
      var d: byte := 128 + n % 128;
      DigitsAreFew(n, i);
      assert u == done + [d] + WriteLength(n / 128) + rest;
      hide Power128, AddDigit;
      LengthIsRead(done + [d], n / 128, rest, AddDigit(sum, d, i));
      assert u[i] == d;
    } else {
      hide Power128, AddDigit;
      assert u[i] == n;
    }
  }

  lemma {:induction false} UnfinishedLengthWaits(done: seq<byte>, n: nat, k: nat, sum: nat)
    requires sum + n * Power128(|done|) < TWO_TO_THE_32 && k < |WriteLength(n)|
    ensures ReadLength(done + WriteLength(n)[..k], |done|, sum) == LengthUnfinished
    decreases n
  {
    var u, i := done + WriteLength(n)[..k], |done|;
    if k > 0 {
      DigitAdds(sum, n, i);
      DigitsAreFew(n, i);
      var d: byte := 128 + n % 128;
      assert u == done + [d] + WriteLength(n / 128)[..k - 1];
      hide Power128, AddDigit;
      UnfinishedLengthWaits(done + [d], n / 128, k - 1, AddDigit(sum, d, i));
      assert u[i] == d;
    }
  }

  lemma {:induction false} LengthExtends(u: seq<byte>, i: nat, sum: nat, more: seq<byte>)
    requires ReadLength(u, i, sum).Length?
    ensures ReadLength(u + more, i, sum) == ReadLength(u, i, sum)
    decreases |u| - i
  {
    hide AddDigit;
    if u[i] >= 128 {
      LengthExtends(u, i + 1, AddDigit(sum, u[i], i), more);
    }
  }

  /** The length read back is the one written exactly when it has 32 bits. */
  lemma LengthRoundTrip(n: nat, rest: seq<byte>)
    ensures ReadLength(WriteLength(n) + rest, 0, 0) == Length(n, |WriteLength(n)|) <==> n < 0x1_0000_0000
  {
    if n < TWO_TO_THE_32 {
      LengthIsRead([], n, rest, 0);
      assert [] + WriteLength(n) + rest == WriteLength(n) + rest;
    } else {
      LengthStaysSmall(WriteLength(n) + rest, 0, 0);
    }
  }

  /** Five octets that all say that another one follows are too many; four are not. */
  lemma TooManyOctets(u: seq<byte>)
    requires |u| >= 4 && forall i | 0 <= i < 4 :: u[i] >= 128
    ensures |u| == 4 ==> ReadLength(u, 0, 0) == LengthUnfinished
    ensures |u| > 4 ==> (ReadLength(u, 0, 0) == LengthTooLong <==> u[4] >= 128)
  {
    hide AddDigit;
    assert u[0] >= 128 && u[1] >= 128 && u[2] >= 128 && u[3] >= 128;
    var s1 := AddDigit(0, u[0], 0);
    var s2 := AddDigit(s1, u[1], 1);
    var s3 := AddDigit(s2, u[2], 2);
    var s4 := AddDigit(s3, u[3], 3);
    assert ReadLength(u, 3, s3) == ReadLength(u, 4, s4);
    assert ReadLength(u, 1, s1) == ReadLength(u, 2, s2) == ReadLength(u, 3, s3);
  }

  /** 2^28 takes a fifth octet, which the standard does not allow; it is read back. */
  lemma FifthOctet(rest: seq<byte>)
    ensures WriteLength(0x1000_0000) == [128, 128, 128, 128, 1]
    ensures ReadLength([128, 128, 128, 128, 1] + rest, 0, 0) == Length(0x1000_0000, 5)
  {
    assert WriteLength(0x8000) == [128, 128, 2];
    assert WriteLength(0x20_0000) == [128] + WriteLength(0x4000) == [128, 128, 128, 1];
    LengthRoundTrip(0x1000_0000, rest);
    hide ReadLength;
  }

  lemma {:induction false} LengthStaysSmall(u: seq<byte>, i: nat, sum: nat)
    ensures var r := ReadLength(u, i, sum); r.Length? ==> r.value < TWO_TO_THE_32
    decreases |u| - i
  {
    if i < |u| && u[i] >= 128 {
      LengthStaysSmall(u, i + 1, AddDigit(sum, u[i], i));
    }
  }

  // ----- packets -----

  datatype Framing = Unfinished | Broken | Framed(header: byte, body: seq<byte>, size: nat)

  /** The packet at the start of the buffer, when all of it is there. */
  function Frame(u: seq<byte>): (r: Framing)
    ensures r.Framed? ==> 2 <= r.size <= |u|
  {
    if |u| < 2 then Unfinished
    else
      match ReadLength(u[1..], 0, 0)
      case LengthUnfinished => Unfinished
      case LengthTooLong => Broken
      case Length(n, k) => if 1 + k + n > |u| then Unfinished else Framed(u[0], u[1 + k..1 + k + n], 1 + k + n)
  }

  function WritePacket(command: nat, flags: nat, body: seq<byte>): seq<byte>
    requires command < 16 && flags < 16
  {
    [command * 16 + flags] + WriteLength(|body|) + body
  }

  /** A packet is found whatever follows it. */
  lemma PacketIsFound(command: nat, flags: nat, body: seq<byte>, rest: seq<byte>)
    requires command < 16 && flags < 16 && |body| < TWO_TO_THE_32
    ensures
      var w := WritePacket(command, flags, body);
      Frame(w + rest) == Framed(command * 16 + flags, body, |w|) && (w + rest)[|w|..] == rest
  {
    var w, l := WritePacket(command, flags, body), WriteLength(|body|);
    hide WriteLength, ReadLength;
    var u := w + rest;
    assert u[1..] == l + (body + rest);
    LengthRoundTrip(|body|, body + rest);
    assert u[1 + |l|..1 + |l| + |body|] == body;
  }

  /** A packet of which octets are missing is waited for. */
  lemma UnfinishedPacketWaits(command: nat, flags: nat, body: seq<byte>, n: nat)
    requires command < 16 && flags < 16 && |body| < TWO_TO_THE_32
    requires n < |WritePacket(command, flags, body)|
    ensures Frame(WritePacket(command, flags, body)[..n]) == Unfinished
  {
    var w, l := WritePacket(command, flags, body), WriteLength(|body|);
    hide WriteLength, ReadLength;
    var u := w[..n];
    if 2 <= n <= |l| {
      assert u[1..] == [] + l[..n - 1];
      UnfinishedLengthWaits([], |body|, n - 1, 0);
    } else if n > |l| {
      BehindFirst(w[0], l, body, n);
      assert w == [w[0]] + l + body;
      LengthRoundTrip(|body|, body[..n - 1 - |l|]);
    }
  }

  lemma BehindFirst(first: byte, l: seq<byte>, body: seq<byte>, n: nat)
    requires |l| < n <= 1 + |l| + |body|
    ensures ([first] + l + body)[..n][1..] == l + body[..n - 1 - |l|]
  {
    SameElements(([first] + l + body)[..n][1..], l + body[..n - 1 - |l|]);
  }

  lemma FrameExtends(u: seq<byte>, more: seq<byte>)
    requires Frame(u).Framed?
    ensures Frame(u + more) == Frame(u)
  {
    hide ReadLength;
    assert (u + more)[1..] == u[1..] + more;
    LengthExtends(u[1..], 0, 0, more);
    var k, n := ReadLength(u[1..], 0, 0).octets, ReadLength(u[1..], 0, 0).value;
    SliceOfPrefix(u, more, 1 + k, 1 + k + n);
  }

  // ----- what the packets hold -----

  const CONNECT: nat := 1
  const CONNACK: nat := 2
  const PUBLISH: nat := 3
  const PUBACK: nat := 4
  const PUBREC: nat := 5
  const PUBREL: nat := 6
  const PUBCOMP: nat := 7
  const SUBSCRIBE: nat := 8
  const SUBACK: nat := 9
  const PINGRESP: nat := 13

  const HAS_WILL: nat := 0x04
  const HAS_PASSWORD: nat := 0x40
  const HAS_USER_NAME: nat := 0x80

  datatype Login = Login(
    willTopic: Option<seq<byte>>, willMessage: Option<seq<byte>>,
    userName: Option<seq<byte>>, password: Option<seq<byte>>)

  datatype Content =
    | Connect(protocol: seq<byte>, version: byte, flags: byte, keepAlive: nat, clientId: seq<byte>, login: Login)
    | ConnectAck(returnCode: byte)
    | Ack(messageId: nat)
    | Publish(topic: seq<byte>, publishId: Option<nat>, payload: seq<byte>)
    | Subscribe(subscribeId: nat, topics: seq<byte>)
    | Other

  datatype Message = Message(command: nat, qos: nat, content: Content)

  function Flag(flags: byte, bit: nat): bool
    requires bit > 0
  {
    flags / bit % 2 == 1
  }

  /** A string with its length in two octets, and what follows it. */
  function TakeString(u: seq<byte>): (r: Option<(seq<byte>, seq<byte>)>)
    ensures r.Some? ==> |r.value.1| < |u|
  {
    if |u| < 2 || 2 + Number16(u[0], u[1]) > |u| then None
    else
      var n := 2 + Number16(u[0], u[1]);
      Some((u[2..n], u[n..]))
  }

  function TakeStringIf(present: bool, u: seq<byte>): Option<(Option<seq<byte>>, seq<byte>)> {
    if !present then Some((None, u))
    else
      match TakeString(u)
      case None => None
      case Some((s, rest)) => Some((Some(s), rest))
  }

  /** What may follow the client identifier; nothing may be left. */
  function DecodeLogin(flags: byte, u: seq<byte>): Option<Login> {
    match TakeStringIf(Flag(flags, HAS_WILL), u)
    case None => None
    case Some((topic, u1)) =>
      match TakeStringIf(Flag(flags, HAS_WILL), u1)
      case None => None
      case Some((message, u2)) =>
        match TakeStringIf(Flag(flags, HAS_USER_NAME), u2)
        case None => None
        case Some((user, u3)) =>
          match TakeStringIf(Flag(flags, HAS_PASSWORD), u3)
          case None => None
          case Some((password, u4)) => if u4 == [] then Some(Login(topic, message, user, password)) else None
  }

  function DecodeConnect(u: seq<byte>): Option<Content> {
    match TakeString(u)
    case None => None
    case Some((protocol, u1)) =>
      if |u1| < 4 then None
      else
        match TakeString(u1[4..])
        case None => None
        case Some((clientId, u2)) =>
          match DecodeLogin(u1[1], u2)
          case None => None
          case Some(login) => Some(Connect(protocol, u1[0], u1[1], Number16(u1[2], u1[3]), clientId, login))
  }

  function DecodePublish(qos: nat, u: seq<byte>): Option<Content> {
    match TakeString(u)
    case None => None
    case Some((topic, u1)) =>
      if qos == 0 then Some(Publish(topic, None, u1))
      else if |u1| < 2 then None
      else Some(Publish(topic, Some(Number16(u1[0], u1[1])), u1[2..]))
  }

  function Qos(header: byte): nat {
    header / 2 % 4
  }

  predicate IsAck(command: nat) {
    command in {PUBACK, PUBREC, PUBREL, PUBCOMP, SUBACK}
  }

  function ContentOf(command: nat, qos: nat, u: seq<byte>): Option<Content> {
    if command == CONNECT then DecodeConnect(u)
    else if command == CONNACK then (if |u| < 2 then None else Some(ConnectAck(u[1])))
    else if IsAck(command) then (if |u| < 2 then None else Some(Ack(Number16(u[0], u[1]))))
    else if command == PUBLISH then DecodePublish(qos, u)
    else if command == SUBSCRIBE then (if |u| < 2 then None else Some(Subscribe(Number16(u[0], u[1]), u[2..])))
    else Some(Other)
  }

  function DecodeContent(header: byte, u: seq<byte>): Option<Content> {
    ContentOf(header / 16, Qos(header), u)
  }

  /** What a buffer means: nothing yet, a protocol error, or a message of `size` octets. */
  datatype Inspection = NotYet | Malformed | Arrived(message: Message, size: nat)

  function Inspect(u: seq<byte>): (r: Inspection)
    ensures r.Arrived? ==> 2 <= r.size <= |u|
  {
    match Frame(u)
    case Unfinished => NotYet
    case Broken => Malformed
    case Framed(header, body, size) =>
      match DecodeContent(header, body)
      case None => Malformed
      case Some(content) => Arrived(Message(header / 16, Qos(header), content), size)
  }

  // ----- what the senders write -----

  /** The length of a string is kept in sixteen bits; only so much of it is sent. */
  function Cut(s: seq<byte>): (r: seq<byte>)
    ensures |r| < 0x1_0000
    ensures r == s <==> |s| < 0x1_0000
  {
    s[..|s| % 0x1_0000]
  }

  function WriteNumber16(n: nat): (s: seq<byte>)
    requires n < 0x1_0000
    ensures |s| == 2 && Number16(s[0], s[1]) == n
  {
    [n / 256, n % 256]
  }

  function WriteString(s: seq<byte>): (w: seq<byte>)
    ensures |w| == 2 + |Cut(s)|
  {
    WriteNumber16(|Cut(s)|) + Cut(s)
  }

  lemma StringIsRead(s: seq<byte>, rest: seq<byte>)
    ensures TakeString(WriteString(s) + rest) == Some((Cut(s), rest))
  {
    var w := WriteString(s);
    var u := w + rest;
    hide Cut;
    assert u[0] == w[0] && u[1] == w[1];
    assert u[2..|w|] == Cut(s) && u[|w|..] == rest;
  }

  function SetFlag(flags: byte, bit: nat): (r: byte)
    requires bit in {HAS_WILL, HAS_PASSWORD, HAS_USER_NAME}
    ensures Flag(r, HAS_WILL) <==> bit == HAS_WILL || Flag(flags, HAS_WILL)
    ensures Flag(r, HAS_PASSWORD) <==> bit == HAS_PASSWORD || Flag(flags, HAS_PASSWORD)
    ensures Flag(r, HAS_USER_NAME) <==> bit == HAS_USER_NAME || Flag(flags, HAS_USER_NAME)
  {
    if Flag(flags, bit) then flags
    else
      FlagIsRoom(flags, bit);
      OneFlagChanges(flags, bit, HAS_WILL);
      OneFlagChanges(flags, bit, HAS_PASSWORD);
      OneFlagChanges(flags, bit, HAS_USER_NAME);
      hide Flag;
      flags + bit
  }

  lemma FlagIsRoom(flags: byte, bit: nat)
    requires bit in {HAS_WILL, HAS_PASSWORD, HAS_USER_NAME} && !Flag(flags, bit)
    ensures flags + bit < 256
  {
    if bit == HAS_WILL {
    } else if bit == HAS_PASSWORD {
    } else {
    }
  }

  /** Adding a power of two where its bit is clear changes this bit and no other. */
  lemma OneFlagChanges(flags: byte, bit: nat, other: nat)
    requires bit in {HAS_WILL, HAS_PASSWORD, HAS_USER_NAME} && other in {HAS_WILL, HAS_PASSWORD, HAS_USER_NAME}
    requires !Flag(flags, bit) && flags + bit < 256
    ensures Flag(flags + bit, other) <==> bit == other || Flag(flags, other)
  {
    if bit == HAS_WILL {
      WillChanges(flags, other);
    } else if bit == HAS_PASSWORD {
      PasswordChanges(flags, other);
    } else {
      UserNameChanges(flags, other);
    }
  }

  lemma WillChanges(flags: byte, other: nat)
    requires other in {HAS_WILL, HAS_PASSWORD, HAS_USER_NAME} && !Flag(flags, HAS_WILL) && flags + HAS_WILL < 256
    ensures Flag(flags + HAS_WILL, other) <==> HAS_WILL == other || Flag(flags, other)
  {
    assert (flags + 4) / 4 == flags / 4 + 1;
    assert other == HAS_PASSWORD ==> (flags + 4) / 64 == flags / 64;
    assert other == HAS_USER_NAME ==> (flags + 4) / 128 == flags / 128;
  }

  lemma PasswordChanges(flags: byte, other: nat)
    requires other in {HAS_WILL, HAS_PASSWORD, HAS_USER_NAME} && !Flag(flags, HAS_PASSWORD) &&
      flags + HAS_PASSWORD < 256
    ensures Flag(flags + HAS_PASSWORD, other) <==> HAS_PASSWORD == other || Flag(flags, other)
  {
    assert (flags + 64) / 64 == flags / 64 + 1;
    assert other == HAS_WILL ==> (flags + 64) / 4 == flags / 4 + 16;
    assert other == HAS_USER_NAME ==> (flags + 64) / 128 == flags / 128;
  }

  lemma UserNameChanges(flags: byte, other: nat)
    requires other in {HAS_WILL, HAS_PASSWORD, HAS_USER_NAME} && !Flag(flags, HAS_USER_NAME) &&
      flags + HAS_USER_NAME < 256
    ensures Flag(flags + HAS_USER_NAME, other) <==> HAS_USER_NAME == other || Flag(flags, other)
  {
    assert (flags + 128) / 128 == flags / 128 + 1;
    assert other == HAS_WILL ==> (flags + 128) / 4 == flags / 4 + 32;
    assert other == HAS_PASSWORD ==> (flags + 128) / 64 == flags / 64 + 2;
  }

  datatype ConnectOptions = ConnectOptions(
    flags: byte, keepAlive: nat, willTopic: Option<seq<byte>>, willMessage: Option<seq<byte>>,
    userName: Option<seq<byte>>, password: Option<seq<byte>>)
  {
    /** A flag for a name or password that is not given would have the sender follow a null pointer. */
    predicate Acceptable() {
      && keepAlive < 0x1_0000
      && (Flag(flags, HAS_USER_NAME) ==> userName.Some?) && (Flag(flags, HAS_PASSWORD) ==> password.Some?)
    }

    predicate GivesWill() {
      willTopic.Some? && willMessage.Some?
    }

    function SentFlags(): (r: byte)
      requires Acceptable()
      ensures Flag(r, HAS_USER_NAME) <==> userName.Some?
      ensures Flag(r, HAS_PASSWORD) <==> password.Some?
      ensures Flag(r, HAS_WILL) <==> GivesWill() || Flag(flags, HAS_WILL)
    {
      hide Flag, SetFlag;
      var f1 := if userName.Some? then SetFlag(flags, HAS_USER_NAME) else flags;
      var f2 := if password.Some? then SetFlag(f1, HAS_PASSWORD) else f1;
      if GivesWill() then SetFlag(f2, HAS_WILL) else f2
    }

    function SentKeepAlive(): nat {
      if keepAlive == 0 then 60 else keepAlive
    }

    /** A will that is announced by the flag alone is sent as two empty strings. */
    function Will(part: Option<seq<byte>>): seq<byte> {
      if GivesWill() && part.Some? then part.value else []
    }

    function SentLogin(): Login
      requires Acceptable()
    {
      var will := Flag(SentFlags(), HAS_WILL);
      Login(if will then Some(Cut(Will(willTopic))) else None, if will then Some(Cut(Will(willMessage))) else None,
            if userName.Some? then Some(Cut(userName.value)) else None,
            if password.Some? then Some(Cut(password.value)) else None)
    }
  }

  const PROTOCOL: seq<byte> := [77, 81, 84, 84]

  function WriteStringIf(present: bool, s: seq<byte>): seq<byte> {
    if present then WriteString(s) else []
  }

  function WriteLogin(o: ConnectOptions): seq<byte>
    requires o.Acceptable()
  {
    var will := Flag(o.SentFlags(), HAS_WILL);
    WriteStringIf(will, o.Will(o.willTopic)) +
    (WriteStringIf(will, o.Will(o.willMessage)) +
     (WriteStringIf(o.userName.Some?, o.userName.GetOr([])) +
      WriteStringIf(o.password.Some?, o.password.GetOr([]))))
  }

  function ConnectBody(clientId: Option<seq<byte>>, o: ConnectOptions): seq<byte>
    requires o.Acceptable()
  {
    WriteString(PROTOCOL) + ([4, o.SentFlags()] + WriteNumber16(o.SentKeepAlive()) +
                             (WriteString(clientId.GetOr([])) + WriteLogin(o)))
  }

  lemma StringIfIsRead(present: bool, s: seq<byte>, rest: seq<byte>)
    ensures
      TakeStringIf(present, WriteStringIf(present, s) + rest) == Some((if present then Some(Cut(s)) else None, rest))
  {
    StringIsRead(s, rest);
    assert [] + rest == rest;
  }

  lemma LoginIsRead(o: ConnectOptions)
    requires o.Acceptable()
    ensures DecodeLogin(o.SentFlags(), WriteLogin(o)) == Some(o.SentLogin())
  {
    hide TakeStringIf, WriteStringIf, Flag, Cut;
    var f := o.SentFlags();
    var will := Flag(f, HAS_WILL);
    var w1, w2 := WriteStringIf(will, o.Will(o.willTopic)), WriteStringIf(will, o.Will(o.willMessage));
    var w3 := WriteStringIf(o.userName.Some?, o.userName.GetOr([]));
    var w4 := WriteStringIf(o.password.Some?, o.password.GetOr([]));
    StringIfIsRead(will, o.Will(o.willTopic), w2 + (w3 + w4));
    StringIfIsRead(will, o.Will(o.willMessage), w3 + w4);
    StringIfIsRead(o.userName.Some?, o.userName.GetOr([]), w4);
    StringIfIsRead(o.password.Some?, o.password.GetOr([]), []);
    assert w4 + [] == w4;
  }

  /** The receiver of a CONNECT packet finds what the sender was given, each string cut to sixteen bits of length. */
  lemma ConnectIsRead(clientId: Option<seq<byte>>, o: ConnectOptions)
    requires o.Acceptable()
    ensures
      DecodeContent(CONNECT * 16, ConnectBody(clientId, o)) ==
        Some(Connect(PROTOCOL, 4, o.SentFlags(), o.SentKeepAlive(), Cut(clientId.GetOr([])), o.SentLogin()))
  {
    hide TakeString, WriteString, WriteLogin, DecodeLogin, Cut, Flag;
    var later := WriteString(clientId.GetOr([])) + WriteLogin(o);
    var u1 := [4, o.SentFlags()] + WriteNumber16(o.SentKeepAlive()) + later;
    StringIsRead(PROTOCOL, u1);
    ShortIsNotCut(PROTOCOL);
    assert u1[4..] == later;
    var k := WriteNumber16(o.SentKeepAlive());
    assert u1[2] == k[0] && u1[3] == k[1];
    StringIsRead(clientId.GetOr([]), WriteLogin(o));
    LoginIsRead(o);
  }

  lemma ShortIsNotCut(s: seq<byte>)
    requires |s| < 0x1_0000
    ensures Cut(s) == s
  {
  }

  function PublishBody(topic: seq<byte>, messageId: nat, flags: nat, data: seq<byte>): seq<byte>
    requires messageId < 0x1_0000 && flags < 16
  {
    WriteString(topic) + ((if flags / 2 % 4 > 0 then WriteNumber16(messageId) else []) + data)
  }

  lemma PublishIsRead(topic: seq<byte>, messageId: nat, flags: nat, data: seq<byte>)
    requires messageId < 0x1_0000 && flags < 16
    ensures
      DecodeContent(PUBLISH * 16 + flags, PublishBody(topic, messageId, flags, data)) ==
        Some(Publish(Cut(topic), if flags / 2 % 4 > 0 then Some(messageId) else None, data))
  {
    hide TakeString, WriteString, Cut;
    var id := WriteNumber16(messageId);
    assert Qos(PUBLISH * 16 + flags) == flags / 2 % 4;
    if flags / 2 % 4 > 0 {
      StringIsRead(topic, id + data);
      assert (id + data)[0] == id[0] && (id + data)[1] == id[1] && (id + data)[2..] == data;
    } else {
      StringIsRead(topic, [] + data);
      assert [] + data == data;
    }
  }

  // ----- subscriptions -----

  datatype Topic = Topic(name: seq<byte>, qos: byte)

  function WriteTopics(topics: seq<Topic>): seq<byte> {
    if topics == [] then [] else WriteString(topics[0].name) + [topics[0].qos] + WriteTopics(topics[1..])
  }

  /** The remaining length that is announced is computed from the lengths before they are cut. */
  function AnnouncedTopics(topics: seq<Topic>): nat {
    if topics == [] then 0 else 2 + |topics[0].name| + 1 + AnnouncedTopics(topics[1..])
  }

  ghost predicate AllShort(topics: seq<Topic>) {
    forall t | t in topics :: |t.name| < 0x1_0000
  }

  function SubscribePacket(topics: seq<Topic>, messageId: nat): seq<byte>
    requires messageId < 0x1_0000
  {
    [SUBSCRIBE * 16 + 2] + WriteLength(2 + AnnouncedTopics(topics)) + (WriteNumber16(messageId) + WriteTopics(topics))
  }

  lemma {:induction false} AnnouncedRightly(topics: seq<Topic>)
    ensures AnnouncedTopics(topics) >= |WriteTopics(topics)|
    ensures AnnouncedTopics(topics) == |WriteTopics(topics)| <==> AllShort(topics)
  {
    hide Cut;
    if topics != [] {
      var name := topics[0].name;
      AnnouncedRightly(topics[1..]);
      CutLength(name);
      assert topics[0] in topics && forall t | t in topics[1..] :: t in topics;
      HeadAndTail(topics);
    }
  }

  lemma CutLength(s: seq<byte>)
    ensures |Cut(s)| <= |s| && (|Cut(s)| == |s| <==> |s| < 0x1_0000)
  {
  }

  /** A SUBSCRIBE packet is a whole packet exactly when no topic is too long for its sixteen bits of length. */
  lemma SubscribeIsWhole(topics: seq<Topic>, messageId: nat)
    requires messageId < 0x1_0000 && 2 + AnnouncedTopics(topics) < TWO_TO_THE_32
    ensures
      Inspect(SubscribePacket(topics, messageId)) ==
        Arrived(Message(SUBSCRIBE, 1, Subscribe(messageId, WriteTopics(topics))), |SubscribePacket(topics, messageId)|)
      <==> AllShort(topics)
    ensures !AllShort(topics) ==> Inspect(SubscribePacket(topics, messageId)) == NotYet
  {
    var body := WriteNumber16(messageId) + WriteTopics(topics);
    AnnouncedRightly(topics);
    AnnouncedPacket(SUBSCRIBE * 16 + 2, 2 + AnnouncedTopics(topics), body);
    SubscriptionIsRead(messageId, WriteTopics(topics));
    hide Frame, DecodeContent, WriteTopics, AnnouncedTopics, WriteLength, AllShort, WriteNumber16;
  }

  lemma AnnouncedPacket(header: byte, n: nat, body: seq<byte>)
    requires |body| <= n < TWO_TO_THE_32
    ensures
      var w := [header] + WriteLength(n) + body;
      Frame(w) == if n == |body| then Framed(header, body, |w|) else Unfinished
  {
    hide WriteLength, ReadLength;
    var w := [header] + WriteLength(n) + body;
    assert w[1..] == WriteLength(n) + body;
    LengthRoundTrip(n, body);
    if n == |body| {
      var k := 1 + |WriteLength(n)|;
      assert w[k..k + n] == body;
    }
  }

  lemma SubscriptionIsRead(messageId: nat, topics: seq<byte>)
    requires messageId < 0x1_0000
    ensures DecodeContent(SUBSCRIBE * 16 + 2, WriteNumber16(messageId) + topics) == Some(Subscribe(messageId, topics))
    ensures Qos(SUBSCRIBE * 16 + 2) == 1
  {
    var body := WriteNumber16(messageId) + topics;
    assert body[0] == WriteNumber16(messageId)[0] && body[1] == WriteNumber16(messageId)[1];
    assert body[2..] == topics;
  }

  /** The topic at `position` of a subscription's payload, and where the next one starts. */
  function NextTopic(payload: seq<byte>, position: nat): (r: Option<(Topic, nat)>)
    ensures r.Some? ==> position < r.value.1 <= |payload|
  {
    if position + 2 > |payload| then None
    else
      var end := position + 2 + Number16(payload[position], payload[position + 1]);
      if end + 1 > |payload| then None else Some((Topic(payload[position + 2..end], payload[end]), end + 1))
  }

  /** All topics that are found one after the other. */
  function AllTopics(payload: seq<byte>, position: nat): seq<Topic>
    decreases |payload| - position
  {
    match NextTopic(payload, position)
    case None => []
    case Some((topic, next)) => [topic] + AllTopics(payload, next)
  }

  lemma NextTopicIsRead(done: seq<byte>, t: Topic, rest: seq<byte>)
    ensures
      var w := WriteString(t.name) + [t.qos];
      NextTopic(done + (w + rest), |done|) == Some((Topic(Cut(t.name), t.qos), |done| + |w|))
  {
    var s := WriteString(t.name);
    var u, i := done + (s + [t.qos] + rest), |done|;
    assert u[i] == s[0] && u[i + 1] == s[1];
    hide Cut;
    assert u[i + 2..i + |s|] == Cut(t.name);
    assert u[i + |s|] == t.qos;
  }

  /** The receiver of a subscription recovers the topics in order. */
  lemma {:induction false} TopicsAreRead(done: seq<byte>, topics: seq<Topic>)
    requires AllShort(topics)
    ensures AllTopics(done + WriteTopics(topics), |done|) == topics
    decreases |topics|
  {
    hide NextTopic, WriteString, Cut;
    if topics == [] {
      assert done + WriteTopics(topics) == done;
      NothingBehind(done);
    } else {
      var t := topics[0];
      var w := WriteString(t.name) + [t.qos];
      NextTopicIsRead(done, t, WriteTopics(topics[1..]));
      FirstIsShort(topics);
      assert done + (w + WriteTopics(topics[1..])) == done + w + WriteTopics(topics[1..]);
      TopicsAreRead(done + w, topics[1..]);
    }
  }

  lemma FirstIsShort(topics: seq<Topic>)
    requires topics != [] && AllShort(topics)
    ensures Topic(Cut(topics[0].name), topics[0].qos) == topics[0] && AllShort(topics[1..])
  {
    assert topics[0] in topics && forall t | t in topics[1..] :: t in topics;
  }

  lemma NothingBehind(u: seq<byte>)
    ensures NextTopic(u, |u|) == None
  {
  }

  // ----- a stream of packets -----

  datatype Packet = Packet(command: nat, flags: nat, body: seq<byte>)
  {
    /** A packet that can be sent and that the receiver makes sense of. */
    predicate Readable() {
      && command < 16 && flags < 16 && |body| < TWO_TO_THE_32
      && DecodeContent(command * 16 + flags, body).Some?
    }

    function Wire(): seq<byte>
      requires Readable()
    {
      WritePacket(command, flags, body)
    }

    function Meaning(): Message
      requires Readable()
    {
      Message(command, flags / 2 % 4, DecodeContent(command * 16 + flags, body).value)
    }
  }

  lemma SubscribeIsReadable(topics: seq<Topic>, messageId: nat)
    requires messageId < 0x1_0000 && 2 + AnnouncedTopics(topics) < TWO_TO_THE_32 && AllShort(topics)
    ensures
      var p := Packet(SUBSCRIBE, 2, WriteNumber16(messageId) + WriteTopics(topics));
      && p.Readable() && p.Wire() == SubscribePacket(topics, messageId)
      && p.Meaning() == Message(SUBSCRIBE, 1, Subscribe(messageId, WriteTopics(topics)))
  {
    AnnouncedRightly(topics);
    hide WriteTopics, AnnouncedTopics, WriteLength, AllShort;
    var body := WriteNumber16(messageId) + WriteTopics(topics);
    assert body[2..] == WriteTopics(topics);
    assert body[0] == WriteNumber16(messageId)[0] && body[1] == WriteNumber16(messageId)[1];
  }

  lemma ConnectIsReadable(clientId: Option<seq<byte>>, o: ConnectOptions)
    requires o.Acceptable()
    ensures
      var p := Packet(CONNECT, 0, ConnectBody(clientId, o));
      && p.Readable()
      && p.Meaning() == Message(CONNECT, 0, Connect(PROTOCOL, 4, o.SentFlags(), o.SentKeepAlive(),
                                                    Cut(clientId.GetOr([])), o.SentLogin()))
  {
    hide DecodeContent, ConnectBody, ConnectLength, Cut, Packet.Readable, Packet.Meaning, Option.GetOr,
      ConnectOptions.SentFlags, ConnectOptions.SentLogin, ConnectOptions.SentKeepAlive, ConnectOptions.Acceptable;
    ConnectIsRead(clientId, o);
    ConnectIsShort(clientId, o);
    ContentMakesReadable(CONNECT, 0, ConnectBody(clientId, o));
  }

  lemma ContentMakesReadable(command: nat, flags: nat, body: seq<byte>)
    requires command < 16 && flags < 16 && |body| < TWO_TO_THE_32 && DecodeContent(command * 16 + flags, body).Some?
    ensures
      var p := Packet(command, flags, body);
      && p.Readable()
      && p.Meaning() == Message(command, flags / 2 % 4, DecodeContent(command * 16 + flags, body).value)
  {
    hide DecodeContent;
  }

  lemma ConnectIsShort(clientId: Option<seq<byte>>, o: ConnectOptions)
    requires o.Acceptable()
    ensures |ConnectBody(clientId, o)| == ConnectLength(clientId, o) < 0x10_0000
  {
    hide Cut, Flag;
    var will := Flag(o.SentFlags(), HAS_WILL);
    assert |WriteLogin(o)| ==
      (if will then 2 + |Cut(o.Will(o.willTopic))| + 2 + |Cut(o.Will(o.willMessage))| else 0) +
      (if o.userName.Some? then 2 + |Cut(o.userName.value)| else 0) +
      (if o.password.Some? then 2 + |Cut(o.password.value)| else 0);
    ShortIsNotCut(PROTOCOL);
  }

  /** The remaining length as the sender of a CONNECT packet adds it up. */
  function ConnectLength(clientId: Option<seq<byte>>, o: ConnectOptions): nat
    requires o.Acceptable()
  {
    var will := Flag(o.SentFlags(), HAS_WILL);
    7 + 1 + 2 + 2 + |Cut(clientId.GetOr([]))| +
    (if will then 2 + |Cut(o.Will(o.willTopic))| + 2 + |Cut(o.Will(o.willMessage))| else 0) +
    (if o.userName.Some? then 2 + |Cut(o.userName.value)| else 0) +
    (if o.password.Some? then 2 + |Cut(o.password.value)| else 0)
  }

  lemma PublishIsReadable(topic: seq<byte>, messageId: nat, flags: nat, data: seq<byte>)
    requires messageId < 0x1_0000 && flags < 16 && |PublishBody(topic, messageId, flags, data)| < TWO_TO_THE_32
    ensures
      var p := Packet(PUBLISH, flags, PublishBody(topic, messageId, flags, data));
      && p.Readable()
      && p.Meaning() == Message(PUBLISH, flags / 2 % 4,
                                Publish(Cut(topic), if flags / 2 % 4 > 0 then Some(messageId) else None, data))
  {
    PublishIsRead(topic, messageId, flags, data);
    hide PublishBody, DecodeContent;
  }

  /** One turn of the handler's loop; the flag is that of a ping that waits for its answer. */
  function MessageStep(pingPending: bool, u: seq<byte>): Step<bool, Message> {
    match Inspect(u)
    case Arrived(m, size) => Took(pingPending && m.command != PINGRESP, u[size..], [m])
    case _ => Stuck
  }

  lemma StepsGoOn()
    ensures Shrinks(MessageStep) && Extends(MessageStep)
  {
    hide DecodeContent, Frame;
    forall pending, u: seq<byte>, more
      ensures Undisturbed(MessageStep, pending, u, more)
    {
      if Frame(u).Framed? {
        FrameExtends(u, more);
        SliceOfPrefix(u, more, 0, Frame(u).size);
      }
    }
  }

  lemma PacketIsTaken(pending: bool, p: Packet, rest: seq<byte>)
    requires p.Readable()
    ensures MessageStep(pending, p.Wire() + rest) == Took(pending && p.command != PINGRESP, rest, [p.Meaning()])
  {
    hide DecodeContent, Frame;
    PacketIsFound(p.command, p.flags, p.body, rest);
    HeaderParts(p.command, p.flags);
  }

  lemma HeaderParts(command: nat, flags: nat)
    requires command < 16 && flags < 16
    ensures (command * 16 + flags) / 16 == command && Qos(command * 16 + flags) == flags / 2 % 4
  {
  }

  ghost predicate AllReadable(packets: seq<Packet>) {
    forall i | 0 <= i < |packets| :: packets[i].Readable()
  }

  ghost function WireAll(packets: seq<Packet>): seq<byte>
    requires AllReadable(packets)
  {
    if packets == [] then [] else packets[0].Wire() + WireAll(packets[1..])
  }

  ghost function Meanings(packets: seq<Packet>): seq<Message>
    requires AllReadable(packets)
  {
    if packets == [] then [] else [packets[0].Meaning()] + Meanings(packets[1..])
  }

  ghost predicate PingAnswered(packets: seq<Packet>) {
    exists i :: 0 <= i < |packets| && packets[i].command == PINGRESP
  }

  lemma {:induction false} PacketsAreTaken(pending: bool, packets: seq<Packet>, rest: seq<byte>)
    requires AllReadable(packets) && MessageStep(pending && !PingAnswered(packets), rest).Stuck?
    ensures Shrinks(MessageStep)
    ensures
      Drain(MessageStep, pending, WireAll(packets) + rest) ==
        Drained(pending && !PingAnswered(packets), rest, Meanings(packets))
    decreases |packets|
  {
    StepsGoOn();
    hide MessageStep, Packet.Wire, Packet.Meaning, Packet.Readable;
    if packets == [] {
      assert WireAll(packets) + rest == rest;
    } else {
      var p, later := packets[0], WireAll(packets[1..]) + rest;
      assert p.Readable();
      PacketIsTaken(pending, p, later);
      assert WireAll(packets) + rest == p.Wire() + later;
      AnsweredInParts(packets);
      PacketsAreTaken(pending && p.command != PINGRESP, packets[1..], rest);
    }
  }

  lemma AnsweredInParts(packets: seq<Packet>)
    requires packets != []
    ensures PingAnswered(packets) <==> packets[0].command == PINGRESP || PingAnswered(packets[1..])
  {
    if PingAnswered(packets[1..]) {
      var i :| 0 <= i < |packets[1..]| && packets[1..][i].command == PINGRESP;
      assert packets[i + 1].command == PINGRESP;
    }
    if PingAnswered(packets) && packets[0].command != PINGRESP {
      var i :| 0 <= i < |packets| && packets[i].command == PINGRESP;
      assert packets[1..][i - 1].command == PINGRESP;
    }
  }

  /**
    However the octets of some packets and a part of the next are cut into receive events, the handler sees
    the messages of the whole packets in order, and the part waits.
   */
  lemma MessagesArrive(pending: bool, packets: seq<Packet>, next: Packet, part: nat, arrivals: seq<seq<byte>>)
    requires AllReadable(packets) && next.Readable() && part < |next.Wire()|
    requires Concat(arrivals) == WireAll(packets) + next.Wire()[..part]
    ensures Shrinks(MessageStep)
    ensures
      Feed(MessageStep, pending, [], arrivals) ==
        Drained(pending && !PingAnswered(packets), next.Wire()[..part], Meanings(packets))
  {
    StepsGoOn();
    UnfinishedPacketWaits(next.command, next.flags, next.body, part);
    hide Packet.Wire, Packet.Meaning, Packet.Readable, Frame, WireAll, Meanings, PingAnswered, WritePacket;
    FeedIsOneDrain(MessageStep, pending, [], arrivals);
    assert [] + Concat(arrivals) == Concat(arrivals);
    PacketsAreTaken(pending, packets, next.Wire()[..part]);
  }
}
