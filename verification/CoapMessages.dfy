/** CoAP messages (RFC 7252, section 3): the list of options, the octets of a message, and reading them. */
module CoapMessages {
  import opened Bytes

  datatype CoapOption = CoapOption(number: nat, value: seq<byte>)

  datatype Message = Message(
    kind: nat, codeClass: nat, codeDetail: nat, id: nat, token: seq<byte>, options: seq<CoapOption>, payload: seq<byte>)

  // ----- the list of options -----

  ghost predicate Sorted(options: seq<CoapOption>) {
    forall i, j | 0 <= i < j < |options| :: options[i].number <= options[j].number
  }

  /** The first place whose number is greater. */
  function FirstGreater(options: seq<CoapOption>, number: nat): (k: nat)
    ensures k <= |options| && (k < |options| ==> options[k].number > number)
    ensures forall i | 0 <= i < k :: options[i].number <= number
  {
    if options == [] || options[0].number > number then 0 else 1 + FirstGreater(options[1..], number)
  }

  /** Behind the last option when that is not greater, otherwise in front of the first greater one. */
  function AddOption(options: seq<CoapOption>, o: CoapOption): (r: seq<CoapOption>)
    ensures |r| == |options| + 1
  {
    if options == [] || options[|options| - 1].number <= o.number then options + [o]
    else
      var k := FirstGreater(options, o.number);
      options[..k] + [o] + options[k..]
  }

  function AddAll(options: seq<CoapOption>, added: seq<CoapOption>): seq<CoapOption>
    decreases |added|
  {
    if added == [] then options else AddAll(AddOption(options, added[0]), added[1..])
  }

  /** The options of one number, in order. */
  function Numbered(options: seq<CoapOption>, number: nat): seq<CoapOption> {
    if options == [] then []
    else Numbered(options[..|options| - 1], number) +
         if options[|options| - 1].number == number then [options[|options| - 1]] else []
  }

  lemma {:induction false} NumberedAppend(a: seq<CoapOption>, b: seq<CoapOption>, number: nat)
    ensures Numbered(a + b, number) == Numbered(a, number) + Numbered(b, number)
  {
    if b == [] {
      assert a + b == a;
    } else {
      var last := b[|b| - 1];
      assert (a + b)[..|a + b| - 1] == a + b[..|b| - 1];
      NumberedAppend(a, b[..|b| - 1], number);
    }
  }

  lemma {:induction false} NumberedNone(options: seq<CoapOption>, number: nat)
    requires forall i | 0 <= i < |options| :: options[i].number != number
    ensures Numbered(options, number) == []
  {
    if options != [] {
      NumberedNone(options[..|options| - 1], number);
    }
  }

  lemma AddKeepsSorted(options: seq<CoapOption>, o: CoapOption)
    requires Sorted(options)
    ensures Sorted(AddOption(options, o))
  {
    var k := FirstGreater(options, o.number);
    if options != [] && options[|options| - 1].number > o.number {
      forall i | k <= i < |options|
        ensures options[i].number > o.number
      {
      }
    }
  }

  lemma NumberedOne(o: CoapOption, number: nat)
    ensures Numbered([o], number) == if o.number == number then [o] else []
  {
    assert [o][..0] == [];
  }

  /** The new option comes behind those of its own number; nothing else moves. */
  lemma AddIsStable(options: seq<CoapOption>, o: CoapOption, number: nat)
    requires Sorted(options)
    ensures Numbered(AddOption(options, o), number) == Numbered(options, number) + Numbered([o], number)
  {
    hide Numbered, Sorted;
    if options == [] || options[|options| - 1].number <= o.number {
      NumberedAppend(options, [o], number);
    } else {
      InsertIsStable(options, o, number);
    }
  }

  lemma InsertIsStable(options: seq<CoapOption>, o: CoapOption, number: nat)
    requires Sorted(options)
    ensures
      var k := FirstGreater(options, o.number);
      Numbered(options[..k] + [o] + options[k..], number) == Numbered(options, number) + Numbered([o], number)
  {
    var k := FirstGreater(options, o.number);
    var front, back := options[..k], options[k..];
    NothingMoves(options, o.number, o, number);
    hide *;
    assert options == front + back;
    NumberedAppend(front, back, number);
    NumberedAppend(front + [o], back, number);
    NumberedAppend(front, [o], number);
    OneIsEmpty(Numbered(front, number), Numbered([o], number), Numbered(back, number));
  }

  lemma OneIsEmpty<T>(f: seq<T>, n: seq<T>, b: seq<T>)
    requires n == [] || b == []
    ensures f + n + b == f + b + n
  {
    if n == [] {
      SameElements(f + n + b, f + b);
    } else {
      SameElements(f + n + b, f + n);
      SameElements(f + b, f);
    }
  }

  lemma NothingMoves(options: seq<CoapOption>, bound: nat, o: CoapOption, number: nat)
    requires Sorted(options) && o.number == bound
    ensures Numbered(options[FirstGreater(options, bound)..], number) == [] || Numbered([o], number) == []
  {
    hide Numbered, Sorted;
    NumberedOne(o, number);
    if o.number == number {
      NothingAtOrBelow(options, bound, number);
    }
  }

  lemma NothingAtOrBelow(options: seq<CoapOption>, bound: nat, number: nat)
    requires Sorted(options) && number <= bound
    ensures Numbered(options[FirstGreater(options, bound)..], number) == []
  {
    hide Numbered;
    var k := FirstGreater(options, bound);
    var back := options[k..];
    forall i | 0 <= i < |back|
      ensures back[i].number != number
    {
      assert back[i] == options[k + i];
      assert options[k].number <= options[k + i].number;
    }
    NumberedNone(back, number);
  }

  /** Options added in any order stand sorted by number, those of one number in the order they were added. */
  lemma {:induction false} AddingSortsStably(options: seq<CoapOption>, added: seq<CoapOption>, number: nat)
    requires Sorted(options)
    ensures Sorted(AddAll(options, added))
    ensures |AddAll(options, added)| == |options| + |added|
    ensures Numbered(AddAll(options, added), number) == Numbered(options, number) + Numbered(added, number)
    decreases |added|
  {
    hide Numbered, AddOption, Sorted;
    if added == [] {
      NumberedNone(added, number);
      assert Numbered(options, number) + [] == Numbered(options, number);
    } else {
      var o := added[0];
      AddKeepsSorted(options, o);
      AddIsStable(options, o, number);
      AddingSortsStably(AddOption(options, o), added[1..], number);
      HeadAndTail(added);
      NumberedAppend([o], added[1..], number);
      var one := Numbered([o], number);
      var before, later := Numbered(options, number), Numbered(added[1..], number);
      assert before + one + later == before + (one + later);
    }
  }

  /** There is only one such list: it is the stable sort. */
  lemma {:induction false} StableSortIsUnique(a: seq<CoapOption>, b: seq<CoapOption>)
    requires Sorted(a) && Sorted(b) && |a| == |b|
    requires forall n :: Numbered(a, n) == Numbered(b, n)
    ensures a == b
    decreases |a|
  {
    if a != [] {
      var i := |a| - 1;
      GreatestIsShared(a, b);
      GreatestIsShared(b, a);
      var top := a[i].number;
      NumberedLast(a, top);
      NumberedLast(b, top);
      assert a[i] == Numbered(a, top)[|Numbered(a, top)| - 1] == b[i];
      forall n
        ensures Numbered(a[..i], n) == Numbered(b[..i], n)
      {
        NumberedLast(a, n);
        NumberedLast(b, n);
      }
      StableSortIsUnique(a[..i], b[..i]);
      assert a == a[..i] + [a[i]] && b == b[..i] + [b[i]];
    }
  }

  lemma NumberedLast(a: seq<CoapOption>, n: nat)
    requires a != []
    ensures
      var i := |a| - 1;
      var all := Numbered(a, n);
      if a[i].number == n then all != [] && all[|all| - 1] == a[i] && all[..|all| - 1] == Numbered(a[..i], n)
      else all == Numbered(a[..i], n)
  {
  }

  lemma {:induction false} NumberedIsMember(a: seq<CoapOption>, n: nat) returns (i: nat)
    requires Numbered(a, n) != []
    ensures i < |a| && a[i].number == n
    decreases |a|
  {
    i := |a| - 1;
    if a[i].number != n {
      i := NumberedIsMember(a[..i], n);
    }
  }

  lemma GreatestIsShared(a: seq<CoapOption>, b: seq<CoapOption>)
    requires a != [] && Sorted(b) && |a| == |b|
    requires forall n :: Numbered(a, n) == Numbered(b, n)
    ensures a[|a| - 1].number <= b[|b| - 1].number
  {
    hide Numbered, Sorted;
    var top := a[|a| - 1].number;
    NumberedLast(a, top);
    assert Numbered(b, top) == Numbered(a, top);
    var i := NumberedIsMember(b, top);
    LastIsGreatest(b, i);
  }

  lemma LastIsGreatest(b: seq<CoapOption>, i: nat)
    requires Sorted(b) && i < |b|
    ensures b[i].number <= b[|b| - 1].number
  {
  }

  // ----- writing -----

  const KIND_MAX: nat := 3
  const EXT_MAX: nat := 0xFFFF + 269

  /** The four bits that stand for a delta or a length, and the octets that extend them. */
  function Nibble(v: nat): (n: nat)
    ensures n < 15
  {
    if v < 13 then v else if v <= 0xFF + 13 then 13 else if v <= EXT_MAX then 14 else 0
  }

  function Extension(v: nat): (s: seq<byte>)
    ensures |s| <= 2
  {
    if v < 13 then [] else if v <= 0xFF + 13 then [v - 13] else if v <= EXT_MAX then ToBigEndian(v - 269, 2) else []
  }

  function WriteOption(o: CoapOption, previous: nat): seq<byte>
    requires previous <= o.number
  {
    var delta := o.number - previous;
    [Nibble(delta) * 16 + Nibble(|o.value|)] + Extension(delta) + Extension(|o.value|) + o.value
  }

  /** Options can be written when they are in order and no delta or length is out of reach. */
  predicate OptionsFit(options: seq<CoapOption>, previous: nat) {
    options == [] ||
    (&& previous <= options[0].number && options[0].number - previous <= EXT_MAX && |options[0].value| <= EXT_MAX
     && OptionsFit(options[1..], options[0].number))
  }

  function WriteOptions(options: seq<CoapOption>, previous: nat): seq<byte>
    requires OptionsFit(options, previous)
  {
    if options == [] then [] else WriteOption(options[0], previous) + WriteOptions(options[1..], options[0].number)
  }

  predicate Writable(m: Message) {
    && m.kind <= KIND_MAX && |m.token| <= 8 && m.codeClass <= 7 && m.codeDetail <= 31 && m.id < 0x1_0000
    && OptionsFit(m.options, 0)
  }

  function WriteHeader(m: Message): (s: seq<byte>)
    requires Writable(m)
    ensures |s| == 4
  {
    [64 + m.kind * 16 + |m.token|, m.codeClass * 32 + m.codeDetail, m.id / 256, m.id % 256]
  }

  function WritePayload(m: Message): seq<byte> {
    if m.payload == [] then [] else [0xFF] + m.payload
  }

  function Write(m: Message): seq<byte>
    requires Writable(m)
  {
    WriteHeader(m) + m.token + WriteOptions(m.options, 0) + WritePayload(m)
  }

  // ----- reading -----

  datatype Failure = NotEnoughData | Ignored | FormatError

  datatype Result<T> = Ok(value: T) | Fail(why: Failure)

  /** A delta or length with its extension: the value, in sixteen bits, and how many octets it takes. */
  function ReadExtension(nibble: nat, u: seq<byte>): Result<(nat, nat)> {
    if nibble == 13 then (if |u| >= 1 then Ok(((u[0] as int) + 13, 1)) else Fail(NotEnoughData))
    else if nibble == 14 then
      (if |u| >= 2 then Ok(((Number16(u[0], u[1]) + 269) % 0x1_0000, 2)) else Fail(NotEnoughData))
    else Ok((nibble, 0))
  }

  /** The option at the start: its delta, its value, and how many octets it takes. */
  function ReadOption(u: seq<byte>): (r: Result<(nat, seq<byte>, nat)>)
    requires u != []
    ensures r.Ok? ==> 0 < r.value.2 <= |u|
  {
    var d, l := u[0] / 16, u[0] % 16;
    if d == 15 || l == 15 then Fail(FormatError)
    else
      match ReadExtension(d, u[1..])
      case Fail(why) => Fail(why)
      case Ok((delta, n)) =>
        match ReadExtension(l, u[1 + n..])
        case Fail(why) => Fail(why)
        case Ok((length, k)) =>
          var start := 1 + n + k;
          if start + length > |u| then Fail(NotEnoughData)
          else Ok((delta, u[start..start + length], start + length))
  }

  /** The sum of the deltas so far, kept in sixteen bits. */
  function NumberAfter(previous: nat, delta: nat): (number: nat)
    ensures number < 0x1_0000
  {
    (delta + previous) % 0x1_0000
  }

  /** Options up to the payload marker or the end; numbers are kept in sixteen bits. */
  function ReadOptions(u: seq<byte>, previous: nat, options: seq<CoapOption>): (r: Result<(seq<CoapOption>, seq<byte>)>)
    decreases |u|
  {
    if u == [] || u[0] == 0xFF then Ok((options, u))
    else
      match ReadOption(u)
      case Fail(why) => Fail(why)
      case Ok((delta, value, n)) =>
        var number := NumberAfter(previous, delta);
        ReadOptions(u[n..], number, AddOption(options, CoapOption(number, value)))
  }

  /** The message without its options and payload, of which the first octet is then at `4 + |token|`. */
  function ReadHeader(u: seq<byte>): (r: Result<Message>)
    ensures r.Ok? ==> 4 + |r.value.token| <= |u|
  {
    if |u| < 4 then Fail(NotEnoughData)
    else if u[0] / 64 != 1 then Fail(Ignored)
    else if u[0] % 16 > 8 then Fail(FormatError)
    else
      var n := u[0] % 16;
      if 4 + n > |u| then Fail(NotEnoughData)
      else Ok(Message(u[0] / 16 % 4, u[1] / 32, u[1] % 32, Number16(u[2], u[3]), u[4..4 + n], [], []))
  }

  function Read(u: seq<byte>): Result<Message> {
    var h := ReadHeader(u);
    if h.Fail? then h
    else
      match ReadOptions(u[4 + |h.value.token|..], 0, [])
      case Fail(why) => Fail(why)
      case Ok((options, rest)) => Ok(h.value.(options := options, payload := if rest == [] then [] else rest[1..]))
  }

  // ----- reading what was written -----

  lemma ExtensionIsRead(v: nat, rest: seq<byte>)
    requires v < 0x1_0000
    ensures ReadExtension(Nibble(v), Extension(v) + rest) == Ok((v, |Extension(v)|))
  {
    if v > 0xFF + 13 {
      var e := ToBigEndian(v - 269, 2);
      assert Power256(2) == 0x1_0000;
      BigEndianRoundTrip(v - 269, 2);
      FromBigEndian2(e);
      assert (e + rest)[0] == e[0] && (e + rest)[1] == e[1];
    }
  }

  lemma OptionIsRead(o: CoapOption, previous: nat, rest: seq<byte>)
    requires previous <= o.number < 0x1_0000 && |o.value| < 0x1_0000
    ensures
      var w := WriteOption(o, previous);
      && w[0] != 0xFF
      && ReadOption(w + rest) == Ok((o.number - previous, o.value, |w|))
      && (w + rest)[|w|..] == rest
  {
    hide Nibble, Extension, ReadExtension;
    var delta, w := o.number - previous, WriteOption(o, previous);
    var u := w + rest;
    var d, l := Extension(delta), Extension(|o.value|);
    ExtensionIsRead(delta, l + o.value + rest);
    ExtensionIsRead(|o.value|, o.value + rest);
    assert u[1..] == d + (l + o.value + rest);
    assert u[1 + |d|..] == l + (o.value + rest);
    assert u[0] / 16 == Nibble(delta) && u[0] % 16 == Nibble(|o.value|);
    var start := 1 + |d| + |l|;
    assert u[start..start + |o.value|] == o.value;
  }

  ghost predicate AllInSixteenBits(options: seq<CoapOption>) {
    forall o | o in options :: o.number < 0x1_0000 && |o.value| < 0x1_0000
  }

  lemma OneOptionIsRead(o: CoapOption, previous: nat, before: seq<CoapOption>, later: seq<byte>)
    requires previous <= o.number < 0x1_0000 && |o.value| < 0x1_0000
    requires before == [] || before[|before| - 1].number <= previous
    ensures
      ReadOptions(WriteOption(o, previous) + later, previous, before) == ReadOptions(later, o.number, before + [o])
  {
    hide WriteOption, ReadOptions, AddOption, ReadOption;
    var w := WriteOption(o, previous);
    OptionIsRead(o, previous, later);
    SliceOfPrefix(w, later, 0, 1);
    assert (w + later)[0] == w[0];
    AddBehind(before, o);
    ReadOptionsUnfolds(w + later, previous, before);
  }

  lemma {:induction false} OptionsAreRead(options: seq<CoapOption>, previous: nat, before: seq<CoapOption>,
      rest: seq<byte>)
    requires OptionsFit(options, previous) && (rest == [] || rest[0] == 0xFF)
    requires AllInSixteenBits(options)
    requires before == [] || before[|before| - 1].number <= previous
    ensures ReadOptions(WriteOptions(options, previous) + rest, previous, before) == Ok((before + options, rest))
    decreases |options|
  {
    hide *;
    if options == [] {
      NoOptionIsRead(previous, before, rest);
      assert before + options == before;
    } else {
      var o := options[0];
      HeadInSixteenBits(options);
      FitsUnfolds(options, previous);
      WriteOptionsUnfolds(options, previous, rest);
      OneOptionIsRead(o, previous, before, WriteOptions(options[1..], o.number) + rest);
      OptionsAreRead(options[1..], o.number, before + [o], rest);
      AddedOneByOne(before, options);
    }
  }

  lemma AddedOneByOne(before: seq<CoapOption>, options: seq<CoapOption>)
    requires options != []
    ensures before + [options[0]] + options[1..] == before + options
  {
  }

  lemma NoOptionIsRead(previous: nat, before: seq<CoapOption>, rest: seq<byte>)
    requires rest == [] || rest[0] == 0xFF
    ensures OptionsFit([], previous) &&
      ReadOptions(WriteOptions([], previous) + rest, previous, before) == Ok((before, rest))
  {
    assert WriteOptions([], previous) + rest == rest;
  }

  lemma HeadInSixteenBits(options: seq<CoapOption>)
    requires AllInSixteenBits(options) && options != []
    ensures options[0].number < 0x1_0000 && |options[0].value| < 0x1_0000 && AllInSixteenBits(options[1..])
  {
    assert options[0] in options;
    assert forall o | o in options[1..] :: o in options;
  }

  lemma FitsUnfolds(options: seq<CoapOption>, previous: nat)
    requires OptionsFit(options, previous) && options != []
    ensures previous <= options[0].number && OptionsFit(options[1..], options[0].number)
  {
  }

  lemma WriteOptionsUnfolds(options: seq<CoapOption>, previous: nat, rest: seq<byte>)
    requires OptionsFit(options, previous) && options != []
    ensures
      WriteOptions(options, previous) + rest ==
        WriteOption(options[0], previous) + (WriteOptions(options[1..], options[0].number) + rest)
  {
    hide WriteOption;
  }

  lemma AddBehind(before: seq<CoapOption>, o: CoapOption)
    requires before == [] || before[|before| - 1].number <= o.number
    ensures AddOption(before, o) == before + [o]
  {
  }

  lemma ReadOptionsUnfolds(u: seq<byte>, previous: nat, options: seq<CoapOption>)
    requires u != [] && u[0] != 0xFF && ReadOption(u).Ok?
    ensures
      var (delta, value, n) := ReadOption(u).value;
      var number := NumberAfter(previous, delta);
      ReadOptions(u, previous, options) == ReadOptions(u[n..], number, AddOption(options, CoapOption(number, value)))
  {
    hide ReadOption, AddOption;
  }

  /** What is read never has a number or a length of more than sixteen bits. */
  lemma {:induction false} ReadStaysInBounds(u: seq<byte>, previous: nat, before: seq<CoapOption>)
    requires AllInSixteenBits(before)
    ensures
      var r := ReadOptions(u, previous, before);
      r.Ok? ==> AllInSixteenBits(r.value.0)
    decreases |u|
  {
    hide ReadOption, AddOption, AllInSixteenBits;
    if u != [] && u[0] != 0xFF {
      var o := ReadOption(u);
      if o.Ok? {
        var (delta, value, n) := o.value;
        var number := NumberAfter(previous, delta);
        OptionInBounds(u);
        AddKeepsBounds(before, CoapOption(number, value));
        ReadStaysInBounds(u[n..], number, AddOption(before, CoapOption(number, value)));
      }
    }
  }

  lemma OptionInBounds(u: seq<byte>)
    requires u != [] && ReadOption(u).Ok?
    ensures |ReadOption(u).value.1| < 0x1_0000
  {
  }

  lemma AddKeepsBounds(options: seq<CoapOption>, o: CoapOption)
    requires AllInSixteenBits(options) && o.number < 0x1_0000 && |o.value| < 0x1_0000
    ensures AllInSixteenBits(AddOption(options, o))
  {
    forall p | p in AddOption(options, o)
      ensures p == o || p in options
    {
    }
  }

  /**
    A message that can be composed is read back the same exactly when no option number and no option length needs more
    than sixteen bits, although the writer lets lengths, and differences between neighbouring numbers, go up to 65804.
   */
  lemma MessageRoundTrip(m: Message)
    requires Writable(m)
    ensures Read(Write(m)) == Ok(m) <==> AllInSixteenBits(m.options)
  {
    var body := WriteOptions(m.options, 0) + WritePayload(m);
    HeaderIsRead(m);
    hide WriteOptions, ReadOptions, WritePayload, Write, ReadHeader, OptionsFit;
    if AllInSixteenBits(m.options) {
      PayloadMark(m);
      OptionsAreRead(m.options, 0, [], WritePayload(m));
      assert [] + m.options == m.options;
    } else {
      ReadStaysInBounds(body, 0, []);
    }
  }

  /** The option number 65536, without a value: what is composed is not read back the same. */
  lemma NumberTooLong()
    ensures
      var m := Message(0, 0, 1, 0, [], [CoapOption(65536, [])], []);
      Writable(m) && Read(Write(m)) != Ok(m)
  {
    var options := [CoapOption(65536, [])];
    NoOptionsFit(65536);
    assert options[1..] == [] && OptionsFit(options, 0);
    var m := Message(0, 0, 1, 0, [], options, []);
    hide Read, Write, OptionsFit;
    MessageRoundTrip(m);
    assert options[0] in m.options;
  }

  lemma NoOptionsFit(previous: nat)
    ensures OptionsFit([], previous)
  {
  }

  lemma WriteParts(m: Message)
    requires Writable(m)
    ensures
      var u, n, h := Write(m), |m.token|, WriteHeader(m);
      && 4 + n <= |u| && u[4 + n..] == WriteOptions(m.options, 0) + WritePayload(m) && u[4..4 + n] == m.token
      && u[0] == h[0] && u[1] == h[1] && u[2] == h[2] && u[3] == h[3]
  {
    hide WriteOptions, WritePayload, WriteHeader;
    var u, n, h := Write(m), |m.token|, WriteHeader(m);
    var body := WriteOptions(m.options, 0) + WritePayload(m);
    assert u == h + m.token + body;
  }

  lemma HeaderIsRead(m: Message)
    requires Writable(m)
    ensures
      && ReadHeader(Write(m)) == Ok(m.(options := [], payload := []))
      && 4 + |m.token| <= |Write(m)|
      && Write(m)[4 + |m.token|..] == WriteOptions(m.options, 0) + WritePayload(m)
  {
    WriteParts(m);
    HeaderOctets(m);
    hide Write, WriteHeader, WriteOptions, WritePayload, OptionsFit;
  }

  lemma HeaderOctets(m: Message)
    requires Writable(m)
    ensures
      var h := WriteHeader(m);
      && h[0] / 64 == 1 && h[0] / 16 % 4 == m.kind && h[0] % 16 == |m.token|
      && h[1] / 32 == m.codeClass && h[1] % 32 == m.codeDetail && Number16(h[2], h[3]) == m.id
  {
    hide OptionsFit;
  }

  lemma PayloadMark(m: Message)
    ensures
      var p := WritePayload(m);
      (p == [] || p[0] == 0xFF) && (if p == [] then [] else p[1..]) == m.payload
  {
  }

  // ----- options added in any order -----

  lemma {:induction false} AddAllKeepsBounds(options: seq<CoapOption>, added: seq<CoapOption>)
    requires AllInSixteenBits(options) && AllInSixteenBits(added)
    ensures AllInSixteenBits(AddAll(options, added))
    decreases |added|
  {
    hide AllInSixteenBits, AddOption;
    if added != [] {
      HeadInSixteenBits(added);
      AddKeepsBounds(options, added[0]);
      AddAllKeepsBounds(AddOption(options, added[0]), added[1..]);
    }
  }

  lemma {:induction false} SortedFits(options: seq<CoapOption>, previous: nat)
    requires Sorted(options) && AllInSixteenBits(options) && (options == [] || previous <= options[0].number)
    ensures OptionsFit(options, previous)
    decreases |options|
  {
    if options != [] {
      HeadInSixteenBits(options);
      assert |options| > 1 ==> options[0].number <= options[1].number;
      SortedFits(options[1..], options[0].number);
    }
  }

  /**
    In whatever order options of at most sixteen bits are added, the message can be composed, and what is read
    back has them in the stable order.
   */
  lemma AnyOrderCanBeSent(m: Message, added: seq<CoapOption>)
    requires m.kind <= KIND_MAX && |m.token| <= 8 && m.codeClass <= 7 && m.codeDetail <= 31 && m.id < 0x1_0000
    requires AllInSixteenBits(added) && m.options == AddAll([], added)
    ensures Writable(m) && Read(Write(m)) == Ok(m)
    ensures Sorted(m.options) && |m.options| == |added|
    ensures forall n :: Numbered(m.options, n) == Numbered(added, n)
  {
    hide *;
    CanBeSentInOrder(m, added);
    forall n
      ensures Numbered(m.options, n) == Numbered(added, n)
    {
      NumberedFromNothing(added, n);
    }
  }

  lemma NumberedFromNothing(added: seq<CoapOption>, n: nat)
    ensures Numbered(AddAll([], added), n) == Numbered(added, n)
  {
    AddingSortsStably([], added, n);
    assert [] + Numbered(added, n) == Numbered(added, n);
  }

  lemma CanBeSentInOrder(m: Message, added: seq<CoapOption>)
    requires m.kind <= KIND_MAX && |m.token| <= 8 && m.codeClass <= 7 && m.codeDetail <= 31 && m.id < 0x1_0000
    requires AllInSixteenBits(added) && m.options == AddAll([], added)
    ensures Writable(m) && Read(Write(m)) == Ok(m)
    ensures Sorted(m.options) && |m.options| == |added|
  {
    hide *;
    NoneInSixteenBits();
    AddAllKeepsBounds([], added);
    AddingSortsStably([], added, 0);
    SortedFits(m.options, 0);
    FittingIsWritable(m);
    MessageRoundTrip(m);
  }

  lemma NoneInSixteenBits()
    ensures AllInSixteenBits([]) && Sorted([])
  {
  }

  lemma FittingIsWritable(m: Message)
    requires m.kind <= KIND_MAX && |m.token| <= 8 && m.codeClass <= 7 && m.codeDetail <= 31 && m.id < 0x1_0000
    ensures Writable(m) <==> OptionsFit(m.options, 0)
  {
    hide OptionsFit;
  }

  // ----- the octets of options and messages (RFC 7252, sections 3 and 3.1) -----

  /** A delta or a length below 13 stands for itself; from 13 on one octet follows, from 269 on there are two. */
  lemma FormsOfNumbers(v: nat)
    requires v <= 65804
    ensures v < 13 ==> Nibble(v) == v && Extension(v) == []
    ensures 13 <= v < 269 ==> Nibble(v) == 13 && Extension(v) == [v - 13]
    ensures v >= 269 ==> Nibble(v) == 14 && |Extension(v)| == 2
    ensures v >= 269 ==> Extension(v)[0] as int * 256 + Extension(v)[1] == v - 269
  {
    if v >= 269 {
      assert Power256(2) == 0x1_0000;
      BigEndianRoundTrip(v - 269, 2);
      FromBigEndian2(Extension(v));
    }
  }

  /** A message with one short option, behind which the payload is marked: version 1, type, code and identifier. */
  lemma OctetsOfMessage(m: Message)
    requires m.kind <= 3 && |m.token| <= 8 && m.codeClass <= 7 && m.codeDetail <= 31 && m.id < 0x1_0000
    requires |m.options| == 1 && m.options[0].number < 13 && |m.options[0].value| < 13 && m.payload != []
    ensures
      Writable(m) &&
      Write(m) ==
        [0x40 + m.kind * 16 + |m.token|, m.codeClass * 32 + m.codeDetail, m.id / 256, m.id % 256] + m.token +
        ([m.options[0].number * 16 + |m.options[0].value|] + m.options[0].value) + ([0xFF] + m.payload)
  {
    var o := m.options[0];
    assert m.options[1..] == [];
    NoOptionsFit(o.number);
    FormsOfNumbers(o.number);
    FormsOfNumbers(|o.value|);
    hide Nibble, Extension;
    assert WriteOption(o, 0) == [o.number * 16 + |o.value|] + o.value;
    hide WriteOption;
    assert WriteOptions([], o.number) == [];
    assert WriteOptions(m.options, 0) == WriteOption(o, 0) + [] == WriteOption(o, 0);
  }

  /** What is refused: fewer than four octets, another version than 1, a token of more than eight octets. */
  lemma RefusedHeaders(u: seq<byte>)
    ensures |u| < 4 ==> Read(u) == Fail(NotEnoughData)
    ensures |u| >= 4 && !(0x40 <= u[0] < 0x80) ==> Read(u) == Fail(Ignored)
    ensures |u| >= 4 && 0x40 <= u[0] < 0x80 && u[0] % 16 > 8 ==> Read(u) == Fail(FormatError)
    ensures |u| >= 4 && 0x40 <= u[0] < 0x80 && u[0] % 16 <= 8 && 4 + u[0] as int % 16 > |u| ==>
              Read(u) == Fail(NotEnoughData)
    ensures |u| >= 4 && 0x40 <= u[0] < 0x80 && u[0] % 16 <= 8 && 4 + u[0] as int % 16 <= |u| ==>
              ReadHeader(u) == Ok(Message(u[0] / 16 % 4, u[1] / 32, u[1] % 32, u[2] as int * 256 + u[3],
                                          u[4..4 + u[0] as int % 16], [], []))
  {
    hide ReadOptions;
  }

  /** In an option, 15 is reserved for the payload marker: as a delta or a length it is a format error. */
  lemma ReservedNibble(u: seq<byte>)
    requires u != []
    ensures ReadOption(u) == Fail(FormatError) <==> u[0] >= 0xF0 || u[0] % 16 == 15
  {
  }

  /** An option has room for differences of numbers and for lengths up to 65804. */
  lemma RoomOfOption(m: Message, o: CoapOption)
    requires m.kind <= 3 && |m.token| <= 8 && m.codeClass <= 7 && m.codeDetail <= 31 && m.id < 0x1_0000
    requires m.options == [o]
    ensures Writable(m) <==> o.number <= 65804 && |o.value| <= 65804
  {
    assert m.options[1..] == [];
    NoOptionsFit(o.number);
  }
}
