/** Building, composing and parsing CoAP messages in place: a linked list of options and a growable buffer. */
module CoapCodec {
  import opened Bytes
  import opened CoapMessages
  import opened Mbufs

  datatype Verdict = Accepted | WrongKind | WrongToken | WrongClass | WrongDetail | WrongOptions

  datatype Outcome = Parsed | Failed(why: Failure)

  /** The first field that keeps a message from being composed. */
  function Check(m: Message): (v: Verdict)
    requires m.id < 0x1_0000
    ensures v == Accepted <==> Writable(m)
  {
    if m.kind > KIND_MAX then WrongKind
    else if |m.token| > 8 then WrongToken
    else if m.codeClass > 7 then WrongClass
    else if m.codeDetail > 31 then WrongDetail
    else if !OptionsFit(m.options, 0) then WrongOptions
    else Accepted
  }

  function ExtensionSize(v: nat): (n: nat)
    ensures n == |Extension(v)|
  {
    if 13 <= v <= 0xFF + 13 then 1 else if 0xFF + 13 < v <= EXT_MAX then 2 else 0
  }

  /** How long a message is without its options. */
  function PlainSize(m: Message): nat {
    4 + |m.token| + if m.payload == [] then 0 else |m.payload| + 1
  }

  class OptionNode {
    const number: nat
    const value: seq<byte>
    var next: OptionNode?

    constructor (number: nat, value: seq<byte>)
      ensures this.number == number && this.value == value && next == null
    {
      this.number, this.value, next := number, value, null;
    }
  }

  function ValueOf(nodes: seq<OptionNode>): (options: seq<CoapOption>)
    ensures |options| == |nodes|
  {
    seq(|nodes|, i requires 0 <= i < |nodes| => CoapOption(nodes[i].number, nodes[i].value))
  }

  lemma FirstGreaterIs(options: seq<CoapOption>, number: nat, k: nat)
    requires k < |options| && options[k].number > number
    requires forall i | 0 <= i < k :: options[i].number <= number
    ensures FirstGreater(options, number) == k
  {
  }

  lemma InsertedInValues(nodes: seq<OptionNode>, added: OptionNode, k: nat)
    requires k < |nodes| && nodes[|nodes| - 1].number > added.number && k == FirstGreater(ValueOf(nodes), added.number)
    ensures
      ValueOf(nodes[..k] + [added] + nodes[k..]) == AddOption(ValueOf(nodes), CoapOption(added.number, added.value))
  {
    hide FirstGreater;
    var options, o := ValueOf(nodes), CoapOption(added.number, added.value);
    SameElements(ValueOf(nodes[..k] + [added] + nodes[k..]), options[..k] + [o] + options[k..]);
  }

  lemma InsertedAt<T>(s: seq<T>, added: T, k: nat, i: nat)
    requires k <= |s| && i <= |s|
    ensures (s[..k] + [added] + s[k..])[i] == if i < k then s[i] else if i == k then added else s[i - 1]
  {
  }

  lemma AppendedToValues(nodes: seq<OptionNode>, added: OptionNode)
    requires nodes == [] || nodes[|nodes| - 1].number <= added.number
    ensures ValueOf(nodes + [added]) == AddOption(ValueOf(nodes), CoapOption(added.number, added.value))
  {
    hide FirstGreater;
    SameElements(ValueOf(nodes + [added]), ValueOf(nodes) + [CoapOption(added.number, added.value)]);
  }

  lemma SizeOfRest(options: seq<CoapOption>, previous: nat)
    requires options != [] && previous <= options[0].number
    ensures
      var o := options[0];
      var fits := o.number - previous <= EXT_MAX && |o.value| <= EXT_MAX && OptionsFit(options[1..], o.number);
      && (OptionsFit(options, previous) <==> fits)
      && (fits ==>
            |WriteOptions(options, previous)| ==
              1 + |Extension(o.number - previous)| + |Extension(|o.value|)| + |o.value| +
                |WriteOptions(options[1..], o.number)|)
  {
    hide Extension, Nibble;
  }

  lemma SizeOfMessage(m: Message)
    requires Writable(m)
    ensures |Write(m)| == PlainSize(m) + |WriteOptions(m.options, 0)|
  {
    hide WriteOptions;
  }

  lemma OutOfOrder(options: seq<CoapOption>, previous: nat)
    requires |options| > 1 && options[0].number > options[1].number
    ensures !OptionsFit(options, previous)
  {
  }

  ghost predicate Followed(nodes: seq<OptionNode>, i: nat)
    requires i < |nodes|
    reads nodes
  {
    nodes[i].next == if i + 1 < |nodes| then nodes[i + 1] else null
  }

  // ----- filling the room made for a message -----

  /** What has been written up to `at`, followed by `rest`, is the whole; and there is room for just that. */
  ghost predicate Filled(io: Mbuf, at: nat, rest: seq<byte>, whole: seq<byte>)
    requires io.Valid()
    reads io, io.buf
  {
    at <= io.len == |whole| && io.Contents()[..at] + rest == whole
  }

  method Emit(io: Mbuf, at: nat, data: seq<byte>, ghost rest: seq<byte>, ghost whole: seq<byte>) returns (next: nat)
    requires io.Valid() && Filled(io, at, data + rest, whole)
    modifies io.buf
    ensures io.Valid() && Filled(io, next, rest, whole)
  {
    ghost var done := io.Contents()[..at];
    assert |done + (data + rest)| == at + |data| + |rest|;
    io.Put(at, data);
    next := at + |data|;
    assert done + data + rest == done + (data + rest);
  }

  method EmitOption(io: Mbuf, at: nat, option: OptionNode, previous: nat, ghost rest: seq<byte>, ghost whole: seq<byte>)
    returns (next: nat)
    requires io.Valid() && previous <= option.number
    requires Filled(io, at, WriteOption(CoapOption(option.number, option.value), previous) + rest, whole)
    modifies io.buf
    ensures io.Valid() && Filled(io, next, rest, whole)
  {
    OptionInOrder(CoapOption(option.number, option.value), previous, rest);
    hide Nibble, Extension, WriteOption, Filled;
    var delta := option.number - previous;
    var first := [Nibble(delta) * 16 + Nibble(|option.value|)];
    ghost var d, l, v := Extension(delta), Extension(|option.value|), option.value;
    next := Emit(io, at, first, d + (l + (v + rest)), whole);
    next := Emit(io, next, Extension(delta), l + (v + rest), whole);
    next := Emit(io, next, Extension(|option.value|), v + rest, whole);
    next := Emit(io, next, option.value, rest, whole);
  }

  lemma OptionInOrder(o: CoapOption, previous: nat, rest: seq<byte>)
    requires previous <= o.number
    ensures
      var delta := o.number - previous;
      WriteOption(o, previous) + rest ==
        [Nibble(delta) * 16 + Nibble(|o.value|)] + (Extension(delta) + (Extension(|o.value|) + (o.value + rest)))
  {
    hide Nibble, Extension;
  }

  lemma FilledUp(io: Mbuf, at: nat, whole: seq<byte>)
    requires io.Valid() && Filled(io, at, [], whole)
    ensures io.Contents() == whole
  {
    assert |io.Contents()[..at] + []| == at;
  }

  lemma WrittenInOrder(m: Message, before: seq<byte>)
    requires Writable(m)
    ensures before + (WriteHeader(m) + m.token + (WriteOptions(m.options, 0) + WritePayload(m))) == before + Write(m)
  {
    hide WriteOptions, WritePayload, OptionsFit, WriteHeader;
  }

  lemma HeaderInOrder(m: Message, rest: seq<byte>)
    requires Writable(m)
    ensures
      WriteHeader(m) + m.token + rest ==
        [64 + m.kind * 16 + |m.token|] +
        ([m.codeClass * 32 + m.codeDetail] + ([m.id / 256, m.id % 256] + (m.token + rest)))
  {
    hide OptionsFit;
  }

  class CoapMessage {
    var kind: nat
    var codeClass: nat
    var codeDetail: nat
    var id: nat
    var token: seq<byte>
    var head: OptionNode?
    var tail: OptionNode?
    var payload: seq<byte>
    ghost var nodes: seq<OptionNode>

    /** The list runs through `nodes`, and the tail is its last node. */
    ghost predicate Valid()
      reads this, nodes
    {
      && id < 0x1_0000
      && (forall i, j | 0 <= i < j < |nodes| :: nodes[i] != nodes[j])
      && (forall i | 0 <= i < |nodes| :: Followed(nodes, i))
      && head == (if nodes == [] then null else nodes[0])
      && (nodes != [] ==> tail == nodes[|nodes| - 1])
    }

    ghost function Options(): seq<CoapOption>
      reads this
    {
      ValueOf(nodes)
    }

    ghost function Value(): Message
      reads this
    {
      Message(kind, codeClass, codeDetail, id, token, Options(), payload)
    }

    constructor ()
      ensures Valid() && Value() == Message(0, 0, 0, 0, [], [], [])
    {
      kind, codeClass, codeDetail, id, token, payload := 0, 0, 0, 0, [], [];
      head, tail, nodes := null, null, [];
    }

    method Clear()
      modifies this
      ensures Valid() && Value() == Message(0, 0, 0, 0, [], [], []) && nodes == []
    {
      kind, codeClass, codeDetail, id, token, payload := 0, 0, 0, 0, [], [];
      head, tail, nodes := null, null, [];
    }

    /** The first option with a greater number, and the one in front of it. */
    method Locate(number: nat) returns (current: OptionNode?, previous: OptionNode?, ghost k: nat)
      requires Valid() && nodes != [] && tail.number > number
      ensures k < |nodes| && k == FirstGreater(Options(), number)
      ensures current == nodes[k] && previous == if k == 0 then null else nodes[k - 1]
    {
      current, previous, k := head, null, 0;
      while current != null
        invariant k <= |nodes|
        invariant current == if k < |nodes| then nodes[k] else null
        invariant previous == if k == 0 then null else nodes[k - 1]
        invariant forall i | 0 <= i < k :: nodes[i].number <= number
        decreases |nodes| - k
      {
        if current.number > number {
          break;
        }
        assert Followed(nodes, k);
        previous, current := current, current.next;
        k := k + 1;
      }
      FirstGreaterIs(Options(), number, k);
    }

    /** Links a new node in front of node `k`, which is not the end of the list. */
    method Link(added: OptionNode, current: OptionNode, previous: OptionNode?, ghost k: nat)
      requires Valid() && k < |nodes| && added !in nodes
      requires current == nodes[k] && previous == if k == 0 then null else nodes[k - 1]
      modifies this`head, this`nodes, nodes, added
      ensures Valid() && nodes == old(nodes[..k] + [added] + nodes[k..])
    {
      ghost var was := nodes;
      label Before:
      if previous != null {
        previous.next := added;
        added.next := current;
      } else {
        added.next := head;
        head := added;
      }
      ghost var now := was[..k] + [added] + was[k..];
      nodes := now;
      forall i | 0 <= i < |now|
        ensures Followed(now, i)
      {
        InsertedAt(was, added, k, i);
        if i + 1 < |now| {
          InsertedAt(was, added, k, i + 1);
        }
        if i < k {
          assert old@Before(Followed(was, i)) && (i < k - 1 ==> was[i] != was[k - 1]);
        } else if i > k {
          assert old@Before(Followed(was, i - 1)) && (k > 0 ==> was[k - 1] != was[i - 1]);
        }
      }
    }

    /** Links a new node behind the last one, if there is any. */
    method LinkLast(added: OptionNode)
      requires Valid() && added !in nodes && added.next == null
      modifies this`head, this`tail, this`nodes, nodes
      ensures Valid() && nodes == old(nodes) + [added]
    {
      ghost var was := nodes;
      label Before:
      if head == null {
        head, tail := added, added;
      } else {
        tail.next := added;
        tail := added;
      }
      nodes := nodes + [added];
      forall i | 0 <= i < |nodes|
        ensures Followed(nodes, i)
      {
        if i < |was| {
          assert old@Before(Followed(was, i)) && (i < |was| - 1 ==> was[i] != was[|was| - 1]);
        }
      }
    }

    method AddOption(number: nat, value: seq<byte>)
      requires Valid()
      modifies this`head, this`tail, this`nodes, nodes
      ensures Valid() && (forall n | n in nodes :: n in old(nodes) || fresh(n))
      ensures Options() == CoapMessages.AddOption(old(Options()), CoapOption(number, value))
    {
      var added := new OptionNode(number, value);
      hide CoapMessages.AddOption, FirstGreater, ValueOf;
      if head == null || tail.number <= number {
        AppendedToValues(nodes, added);
        LinkLast(added);
      } else {
        var current, previous, k := Locate(number);
        InsertedInValues(nodes, added, k);
        Link(added, current, previous, k);
      }
    }

    /** What follows the option at node `i`. */
    lemma NextNode(i: nat)
      requires Valid() && i < |nodes|
      ensures nodes[i].next == if i + 1 < |nodes| then nodes[i + 1] else null
      ensures Options()[i] == CoapOption(nodes[i].number, nodes[i].value)
    {
      assert Followed(nodes, i);
    }

    /** Adds up what the options take; stops at the first one that is out of order or out of reach. */
    method CalculateOptions() returns (fit: bool, size: nat)
      requires Valid()
      ensures fit <==> OptionsFit(Options(), 0)
      ensures fit ==> size == |WriteOptions(Options(), 0)|
    {
      size, fit := 0, true;
      var option := head;
      var previous: nat := 0;
      ghost var options := Options();
      ghost var i: nat := 0;
      assert options[0..] == options;
      hide OptionsFit, WriteOptions, Write, Extension, Nibble, ValueOf;
      while option != null
        invariant i <= |nodes| == |options| && option == if i < |nodes| then nodes[i] else null
        invariant i < |nodes| ==> previous <= options[i].number
        invariant OptionsFit(options, 0) <==> OptionsFit(options[i..], previous)
        invariant OptionsFit(options, 0) ==>
                    size + |WriteOptions(options[i..], previous)| == |WriteOptions(options, 0)|
        decreases |nodes| - i
      {
        NextNode(i);
        SizeOfRest(options[i..], previous);
        assert options[i..][1..] == options[i + 1..];
        size := size + 1 + ExtensionSize(option.number - previous) + ExtensionSize(|option.value|);
        if option.next != null && option.number > option.next.number {
          NextNode(i + 1);
          OutOfOrder(options[i..], previous);
          return false, size;
        }
        if |option.value| > EXT_MAX || option.number - previous > EXT_MAX {
          return false, size;
        }
        size := size + |option.value|;
        previous := option.number;
        option := option.next;
        i := i + 1;
      }
      NoOptions(previous);
      assert options[i..] == [];
    }

    /** Finds the first wrong field, or computes how many octets the message takes. */
    method CalculateSize() returns (v: Verdict, size: nat)
      requires Valid()
      ensures v == Check(Value())
      ensures v == Accepted ==> size == |Write(Value())|
    {
      size := 4;
      if kind > KIND_MAX {
        return WrongKind, size;
      }
      if |token| > 8 {
        return WrongToken, size;
      }
      if codeClass > 7 {
        return WrongClass, size;
      }
      if codeDetail > 31 {
        return WrongDetail, size;
      }
      size := size + |token|;
      if |payload| != 0 {
        size := size + |payload| + 1;
      }
      var fit, taken := CalculateOptions();
      hide OptionsFit, WriteOptions, Write;
      if !fit {
        return WrongOptions, size;
      }
      SizeOfMessage(Value());
      return Accepted, size + taken;
    }

    method EmitHeader(io: Mbuf, at: nat, ghost rest: seq<byte>, ghost whole: seq<byte>) returns (next: nat)
      requires Valid() && io.Valid() && Writable(Value())
      requires Filled(io, at, WriteHeader(Value()) + token + rest, whole)
      modifies io.buf
      ensures io.Valid() && Filled(io, next, rest, whole)
    {
      HeaderInOrder(Value(), rest);
      hide OptionsFit;
      next := Emit(io, at, [64 + kind * 16 + |token|],
                   [codeClass * 32 + codeDetail] + ([id / 256, id % 256] + (token + rest)), whole);
      next := Emit(io, next, [codeClass * 32 + codeDetail], [id / 256, id % 256] + (token + rest), whole);
      next := Emit(io, next, [id / 256, id % 256], token + rest, whole);
      next := Emit(io, next, token, rest, whole);
    }

    method EmitOptions(io: Mbuf, at: nat, ghost end: seq<byte>, ghost whole: seq<byte>) returns (next: nat)
      requires Valid() && io.Valid() && OptionsFit(Options(), 0)
      requires Filled(io, at, WriteOptions(Options(), 0) + end, whole)
      modifies io.buf
      ensures io.Valid() && Filled(io, next, end, whole)
    {
      next := at;
      var option := head;
      var previous: nat := 0;
      ghost var options := Options();
      ghost var i: nat := 0;
      assert options[0..] == options;
      hide OptionsFit, WriteOptions, ValueOf, WriteOption, Filled;
      while option != null
        invariant i <= |nodes| == |options| && option == if i < |nodes| then nodes[i] else null
        invariant io.Valid() && OptionsFit(options[i..], previous)
        invariant Filled(io, next, WriteOptions(options[i..], previous) + end, whole)
        decreases |nodes| - i
      {
        NextNode(i);
        FitsUnfolds(options[i..], previous);
        WriteOptionsUnfolds(options[i..], previous, end);
        assert options[i..][1..] == options[i + 1..];
        next := EmitOption(io, next, option, previous, WriteOptions(options[i + 1..], option.number) + end, whole);
        previous := option.number;
        option := option.next;
        i := i + 1;
      }
      NoOptions(previous);
      assert options[i..] == [] && [] + end == end;
    }

    method EmitPayload(io: Mbuf, at: nat, ghost whole: seq<byte>)
      requires Valid() && io.Valid() && Filled(io, at, WritePayload(Value()), whole)
      modifies io.buf
      ensures io.Valid() && io.Contents() == whole
    {
      var next := at;
      if |payload| != 0 {
        next := Emit(io, at, [0xFF], payload, whole);
        assert payload + [] == payload;
        next := Emit(io, next, payload, [], whole);
      }
      FilledUp(io, next, whole);
    }

    /**
      Appends the octets of the message, or nothing when a field is wrong; the room made beforehand is filled exactly.
     */
    method Compose(io: Mbuf) returns (v: Verdict)
      requires Valid() && io.Valid()
      modifies io, io.buf
      ensures io.Valid() && (io.buf == old(io.buf) || fresh(io.buf))
      ensures v == Check(Value())
      ensures io.Contents() == old(io.Contents()) + if v == Accepted then Write(Value()) else []
    {
      ghost var before, m := io.Contents(), Value();
      var size;
      v, size := CalculateSize();
      if v != Accepted {
        assert before + [] == before;
        return;
      }
      ghost var body := WriteOptions(m.options, 0) + WritePayload(m);
      ghost var whole := before + Write(m);
      WrittenInOrder(m, before);
      hide WriteOptions, Write, ValueOf, WritePayload, WriteHeader;
      var at := io.len;
      io.Extend(size);
      at := EmitHeader(io, at, body, whole);
      at := EmitOptions(io, at, WritePayload(m), whole);
      EmitPayload(io, at, whole);
    }
  
    method ParseHeader(io: Mbuf) returns (o: Outcome)
      requires io.Valid() && Valid() && nodes == [] && payload == []
      modifies this`kind, this`codeClass, this`codeDetail, this`id, this`token
      ensures Valid()
      ensures match ReadHeader(io.Contents())
        case Ok(m) => o == Parsed && Value() == m
        case Fail(why) => o == Failed(why)
    {
      if io.len < 4 {
        return Failed(NotEnoughData);
      }
      var first := io.buf[0];
      if first / 64 != 1 {
        return Failed(Ignored);
      }
      kind := first / 16 % 4;
      var n: nat := first % 16;
      if n > 8 {
        return Failed(FormatError);
      }
      codeClass, codeDetail := io.buf[1] / 32, io.buf[1] % 32;
      id := Number16(io.buf[2], io.buf[3]);
      if 4 + n > io.len {
        return Failed(NotEnoughData);
      }
      token := io.buf[4..4 + n];
      SameElements(token, io.Contents()[4..4 + n]);
      return Parsed;
    }

    /** Takes the option at `at` into the list: its number and where the next one starts. */
    method TakeOption(io: Mbuf, at: nat, previous: nat, ghost result: Result<(seq<CoapOption>, seq<byte>)>)
      returns (o: Outcome, number: nat, next: nat)
      requires Valid() && io.Valid() && at < io.len && io.buf[at] != 0xFF
      requires OnTrack(io.Contents(), at, previous, Options(), result)
      modifies this`head, this`tail, this`nodes, nodes
      ensures Valid() && (forall n | n in nodes :: n in old(nodes) || fresh(n))
      ensures o == Parsed ==> at < next <= io.len && OnTrack(io.Contents(), next, number, Options(), result)
      ensures o.Failed? ==> result == Fail(o.why)
    {
      hide NumberAfter, CoapMessages.AddOption, ReadOption, ValueOf, OnTrack;
      TrackGoesOn(io.Contents(), at, previous, Options(), result);
      var r := ParseOption(io, at);
      if r.Fail? {
        return Failed(r.why), 0, 0;
      }
      number := NumberAfter(previous, r.value.0);
      AddOption(number, r.value.1);
      return Parsed, number, at + r.value.2;
    }

    method DropOptions()
      requires Valid()
      modifies this`head, this`tail, this`nodes
      ensures Valid() && nodes == []
    {
      head, tail, nodes := null, null, [];
    }

    /** Adds the options from `start` on up to the payload marker or the end of the packet. */
    method ParseOptions(io: Mbuf, start: nat) returns (o: Outcome, at: nat)
      requires Valid() && io.Valid() && start <= io.len && nodes == []
      modifies this`head, this`tail, this`nodes
      ensures Valid() && (forall n | n in nodes :: fresh(n))
      ensures at <= io.len
      ensures match ReadOptions(io.Contents()[start..], 0, [])
        case Ok(r) => o == Parsed && Options() == r.0 && r.1 == io.Contents()[at..]
        case Fail(why) => o == Failed(why) && nodes == []
    {
      ghost var u := io.Contents();
      ghost var result := ReadOptions(u[start..], 0, []);
      at := start;
      var previous: nat := 0;
      assert Options() == [];
      hide NumberAfter, ReadOptions, ReadOption, CoapMessage.Options, CoapMessage.Valid, CoapMessages.AddOption,
        OnTrack;
      TrackBegins(u, start);
      while at < io.len && io.buf[at] != 0xFF
        invariant Valid() && (forall n | n in nodes :: fresh(n)) && at <= io.len
        invariant OnTrack(u, at, previous, Options(), result)
        decreases io.len - at
      {
        assert forall i | 0 <= i < |nodes| :: nodes[i] in nodes;
        o, previous, at := TakeOption(io, at, previous, result);
        if o != Parsed {
          DropOptions();
          return o, start;
        }
      }
      TrackEnds(u, at, previous, Options(), result);
      o := Parsed;
    }

    /** Reads a packet into this message, whatever it held before; when the packet is refused, no option is kept. */
    method Parse(io: Mbuf) returns (o: Outcome)
      requires io.Valid()
      modifies this
      ensures Valid() && (forall n | n in nodes :: fresh(n))
      ensures match Read(io.Contents())
        case Ok(m) => o == Parsed && Value() == m
        case Fail(why) => o == Failed(why) && nodes == []
    {
      hide ReadOptions, ReadHeader, ValueOf;
      Clear();
      o := ParseHeader(io);
      if o != Parsed {
        return;
      }
      var at;
      o, at := ParseOptions(io, 4 + |token|);
      if o != Parsed {
        return;
      }
      if at != io.len {
        at := at + 1;
        payload := io.buf[at..io.len];
        SameElements(payload, io.Contents()[at - 1..][1..]);
      }
    }
  }

  method ParseExtension(io: Mbuf, at: nat, nibble: nat) returns (r: Result<(nat, nat)>)
    requires io.Valid() && at <= io.len
    ensures r == ReadExtension(nibble, io.Contents()[at..])
  {
    if nibble == 13 {
      if at < io.len {
        return Ok(((io.buf[at] as int) + 13, 1));
      }
      return Fail(NotEnoughData);
    } else if nibble == 14 {
      if at + 1 < io.len {
        return Ok(((Number16(io.buf[at], io.buf[at + 1]) + 269) % 0x1_0000, 2));
      }
      return Fail(NotEnoughData);
    }
    return Ok((nibble, 0));
  }

  /** One option at `at`: its delta, its value, and how many octets it takes. */
  method ParseOption(io: Mbuf, at: nat) returns (r: Result<(nat, seq<byte>, nat)>)
    requires io.Valid() && at < io.len
    ensures r == ReadOption(io.Contents()[at..])
  {
    ghost var s := io.Contents();
    hide ReadExtension, ReadOption;
    assert s[at] == io.buf[at];
    var d: nat, l: nat := io.buf[at] / 16, io.buf[at] % 16;
    ReservedNibble(s, at);
    if d == 15 || l == 15 {
      return Fail(FormatError);
    }
    var p := at + 1;
    var delta := ParseExtension(io, p, d);
    OptionDelta(s, at, delta);
    if delta.Fail? {
      return Fail(delta.why);
    }
    p := p + delta.value.1;
    var length := ParseExtension(io, p, l);
    OptionValue(s, at, delta.value.0, p, length);
    if length.Fail? {
      return Fail(length.why);
    }
    p := p + length.value.1;
    if p + length.value.0 > io.len {
      return Fail(NotEnoughData);
    }
    var value := io.buf[p..p + length.value.0];
    SameElements(value, s[p..p + length.value.0]);
    return Ok((delta.value.0, value, p + length.value.0 - at));
  }

  lemma ReservedNibble(s: seq<byte>, at: nat)
    requires at < |s|
    ensures s[at] / 16 == 15 || s[at] % 16 == 15 ==> ReadOption(s[at..]) == Fail(FormatError)
  {
    hide ReadExtension;
  }

  lemma OptionDelta(s: seq<byte>, at: nat, delta: Result<(nat, nat)>)
    requires at < |s| && s[at] / 16 != 15 && s[at] % 16 != 15
    requires delta == ReadExtension(s[at] / 16, s[at + 1..])
    ensures delta.Fail? ==> ReadOption(s[at..]) == Fail(delta.why)
    ensures delta.Ok? ==> at + 1 + delta.value.1 <= |s|
  {
    SuffixOfSuffix(s, at, 1);
    if delta.Ok? {
      ExtensionFits(s[at] / 16, s[at + 1..]);
    }
    hide ReadExtension;
  }

  /** With the delta read up to `p`, the rest of the option is its length and its value. */
  lemma OptionValue(s: seq<byte>, at: nat, delta: nat, p: nat, length: Result<(nat, nat)>)
    requires at < p <= |s| && s[at] / 16 != 15 && s[at] % 16 != 15
    requires ReadExtension(s[at] / 16, s[at + 1..]) == Ok((delta, p - at - 1))
    requires length == ReadExtension(s[at] % 16, s[p..])
    ensures length.Fail? ==> ReadOption(s[at..]) == Fail(length.why)
    ensures length.Ok? ==>
      var start: nat := p + length.value.1;
      var end: nat := start + length.value.0;
      var size: nat := end - at;
      ReadOption(s[at..]) == if end > |s| then Fail(NotEnoughData) else Ok((delta, s[start..end], size))
  {
    hide ReadExtension;
    SuffixOfSuffix(s, at, 1);
    SuffixOfSuffix(s, at, p - at);
    if length.Ok? && p + length.value.1 + length.value.0 <= |s| {
      var start := p + length.value.1;
      SliceOfSuffix(s, at, start - at, start + length.value.0 - at);
    }
  }

  lemma SuffixOfSuffix(s: seq<byte>, i: nat, j: nat)
    requires i + j <= |s|
    ensures s[i..][j..] == s[i + j..]
  {
  }

  lemma ExtensionFits(nibble: nat, u: seq<byte>)
    requires ReadExtension(nibble, u).Ok?
    ensures ReadExtension(nibble, u).value.1 <= |u|
  {
  }

  /** What is left to read from `at` on leads to the same result as the whole. */
  ghost predicate OnTrack(
    u: seq<byte>, at: nat, previous: nat, options: seq<CoapOption>, result: Result<(seq<CoapOption>, seq<byte>)>)
  {
    at <= |u| && ReadOptions(u[at..], previous, options) == result
  }

  lemma TrackBegins(u: seq<byte>, start: nat)
    requires start <= |u|
    ensures OnTrack(u, start, 0, [], ReadOptions(u[start..], 0, []))
  {
  }

  lemma TrackGoesOn(
    u: seq<byte>, at: nat, previous: nat, options: seq<CoapOption>, result: Result<(seq<CoapOption>, seq<byte>)>)
    requires OnTrack(u, at, previous, options, result) && at < |u| && u[at] != 0xFF
    ensures match ReadOption(u[at..])
      case Fail(why) => result == Fail(why)
      case Ok(o) =>
        var number := NumberAfter(previous, o.0);
        at + o.2 <= |u| && OnTrack(u, at + o.2, number, AddOption(options, CoapOption(number, o.1)), result)
  {
    hide ReadOption, AddOption;
    var r := ReadOption(u[at..]);
    if r.Ok? {
      SuffixOfSuffix(u, at, r.value.2);
    }
  }

  lemma TrackEnds(
    u: seq<byte>, at: nat, previous: nat, options: seq<CoapOption>, result: Result<(seq<CoapOption>, seq<byte>)>)
    requires OnTrack(u, at, previous, options, result) && (at == |u| || u[at] == 0xFF)
    ensures result == Ok((options, u[at..]))
  {
  }

  lemma NoOptions(previous: nat)
    ensures OptionsFit([], previous) && WriteOptions([], previous) == []
  {
  }
}
