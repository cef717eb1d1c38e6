/** Domain names in DNS packets (RFC 1035, sections 3.1 and 4.1.4): labels, compression pointers, and dotted text. */
module DnsNames {
  import opened Bytes
  import opened Wrappers

  const DOT: byte := 46
  const MAX_POINTERS: nat := 15

  // ----- what a packet says -----

  predicate IsPointer(length: byte) {
    length >= 192
  }

  function Target(u: seq<byte>, at: nat): nat
    requires at + 1 < |u|
  {
    Number16(u[at] % 64, u[at + 1])
  }

  /**
    The labels of the name at `at`, following at most `hops` pointers; nothing when the packet is cut short or a
    length is none. Pointers that go round in circles run out of hops.
   */
  function Labels(u: seq<byte>, at: nat, hops: nat): Option<seq<seq<byte>>>
    requires at < |u|
    decreases hops, |u| - at
  {
    if u[at] == 0 then Some([])
    else if at + 1 >= |u| then None
    else if IsPointer(u[at]) then
      if Target(u, at) >= |u| || hops == 0 then None else Labels(u, Target(u, at), hops - 1)
    else if u[at] > 63 || at + 1 + u[at] >= |u| then None
    else
      match Labels(u, at + 1 + u[at], hops)
      case None => None
      case Some(rest) => Some(InFront(u[at + 1..at + 1 + u[at]], rest))
  }

  function InFront(first: seq<byte>, rest: seq<seq<byte>>): seq<seq<byte>> {
    [first] + rest
  }

  /** Each label with a dot behind it. */
  function Dotted(labels: seq<seq<byte>>): seq<byte> {
    if labels == [] then [] else labels[0] + [DOT] + Dotted(labels[1..])
  }

  /** The labels with dots between them. */
  function Text(labels: seq<seq<byte>>): seq<byte> {
    if labels == [] then [] else Dotted(labels)[..|Dotted(labels)| - 1]
  }

  lemma DottedEndsWithDot(labels: seq<seq<byte>>)
    requires labels != []
    ensures Dotted(labels) != [] && Dotted(labels) == Text(labels) + [DOT]
  {
    var d := Dotted(labels);
    LastIsDot(labels);
    assert d == d[..|d| - 1] + [d[|d| - 1]];
  }

  lemma {:induction false} LastIsDot(labels: seq<seq<byte>>)
    requires labels != []
    ensures Dotted(labels) != [] && Dotted(labels)[|Dotted(labels)| - 1] == DOT
  {
    if |labels| > 1 {
      LastIsDot(labels[1..]);
    }
  }

  // ----- what the code makes of it -----

  /** Octets written, a dot behind each label, unless the room for them has been filled up. */
  datatype Expansion = Nothing | Expansion(octets: seq<byte>, full: bool)

  function Min(a: nat, b: nat): nat {
    if a < b then a else b
  }

  function Expand(u: seq<byte>, at: nat, hops: nat, room: nat): (e: Expansion)
    requires at < |u|
    ensures e.Expansion? ==> |e.octets| <= room
    decreases hops, |u| - at
  {
    if u[at] == 0 then Expansion([], false)
    else if at + 1 >= |u| then Nothing
    else if IsPointer(u[at]) then
      if Target(u, at) >= |u| || hops == 0 then Nothing else Expand(u, Target(u, at), hops - 1, room)
    else
      var n := Min(u[at], room);
      if u[at] > 63 || at + 1 + n >= |u| then Nothing
      else if n == room then Expansion(u[at + 1..at + 1 + n], true)
      else
        match Expand(u, at + 1 + n, hops, room - n - 1)
        case Nothing => Nothing
        case Expansion(rest, full) => Expansion(u[at + 1..at + 1 + n] + [DOT] + rest, full)
  }

  function Uncompressed(u: seq<byte>, at: nat, room: nat): (s: seq<byte>)
    ensures |s| <= room
  {
    if at >= |u| then []
    else
      match Expand(u, at, MAX_POINTERS, room)
      case Nothing => []
      case Expansion(octets, full) => if full || octets == [] then octets else octets[..|octets| - 1]
  }

  /** Expanding a name gives its dotted labels, cut off where the room ends. */
  lemma {:induction false} ExpandsToLabels(u: seq<byte>, at: nat, hops: nat, room: nat)
    requires at < |u| && Labels(u, at, hops).Some?
    ensures
      var d := Dotted(Labels(u, at, hops).value);
      Expand(u, at, hops, room) == if room < |d| then Expansion(d[..room], true) else Expansion(d, false)
    decreases hops, |u| - at
  {
    if u[at] == 0 {
    } else if IsPointer(u[at]) {
      ExpandsToLabels(u, Target(u, at), hops - 1, room);
    } else {
      hide Dotted, InFront, Labels, Expand;
      LabelUnfolds(u, at, hops, room);
      var n: nat := u[at];
      var first, next := u[at + 1..at + 1 + n], at + 1 + n;
      var rest := Labels(u, next, hops).value;
      DottedUnfolds(first, rest);
      var more := Dotted(rest);
      if room <= n {
        CutInLabel(u, at, n, room, more);
      } else {
        ExpandsToLabels(u, next, hops, room - n - 1);
        if room < |first + [DOT] + more| {
          CutBehindLabel(first, more, room);
        }
      }
    }
  }

  lemma LabelUnfolds(u: seq<byte>, at: nat, hops: nat, room: nat)
    requires at < |u| && Labels(u, at, hops).Some? && u[at] != 0 && !IsPointer(u[at])
    ensures
      var n: nat := u[at];
      var first, next := u[at + 1..at + 1 + n], at + 1 + n;
      && n < 64 && next < |u| && Labels(u, next, hops).Some?
      && Labels(u, at, hops).value == InFront(first, Labels(u, next, hops).value)
      && (room <= n ==> Expand(u, at, hops, room) == Expansion(u[at + 1..at + 1 + room], true))
      && (room > n && Expand(u, next, hops, room - n - 1).Expansion? ==>
            var e := Expand(u, next, hops, room - n - 1);
            Expand(u, at, hops, room) == Expansion(first + [DOT] + e.octets, e.full))
  {
    hide InFront;
  }

  lemma CutInLabel(u: seq<byte>, at: nat, n: nat, room: nat, more: seq<byte>)
    requires at + 1 + n <= |u| && room <= n
    ensures (u[at + 1..at + 1 + n] + [DOT] + more)[..room] == u[at + 1..at + 1 + room]
  {
    var first := u[at + 1..at + 1 + n];
    SameElements((first + [DOT] + more)[..room], u[at + 1..at + 1 + room]);
  }

  lemma CutBehindLabel(first: seq<byte>, more: seq<byte>, room: nat)
    requires |first| < room < |first + [DOT] + more|
    ensures (first + [DOT] + more)[..room] == first + [DOT] + more[..room - |first| - 1]
  {
    SameElements((first + [DOT] + more)[..room], first + [DOT] + more[..room - |first| - 1]);
  }

  lemma DottedUnfolds(first: seq<byte>, rest: seq<seq<byte>>)
    ensures Dotted(InFront(first, rest)) == first + [DOT] + Dotted(rest)
  {
    assert ([first] + rest)[1..] == rest;
  }

  /** The text of a well-formed name, as far as there is room for it. */
  lemma UncompressedIsText(u: seq<byte>, at: nat, room: nat)
    requires at < |u| && Labels(u, at, MAX_POINTERS).Some?
    ensures
      var text := Text(Labels(u, at, MAX_POINTERS).value);
      Uncompressed(u, at, room) == if room < |text| then text[..room] else text
  {
    var labels := Labels(u, at, MAX_POINTERS).value;
    ExpandsToLabels(u, at, MAX_POINTERS, room);
    if labels != [] {
      DottedEndsWithDot(labels);
    }
  }

  // ----- writing names -----

  /** The first label. */
  function First(name: seq<byte>): (s: seq<byte>)
    ensures |s| == IndexOf(name, DOT)
  {
    name[..IndexOf(name, DOT)]
  }

  /** What is left behind the first label and its dot. */
  function Behind(name: seq<byte>): (s: seq<byte>)
    ensures name != [] ==> |s| < |name|
  {
    if IndexOf(name, DOT) < |name| then name[IndexOf(name, DOT) + 1..] else []
  }

  /** What is appended for a name, and whether it was given up because of a label that is too long. */
  datatype Encoding = Encoding(octets: seq<byte>, ok: bool)

  function Encode(name: seq<byte>): Encoding
    decreases |name|
  {
    var n := IndexOf(name, DOT);
    if n > 127 then Encoding([], false)
    else if Behind(name) == [] then Encoding([n] + First(name) + [0], true)
    else
      var rest := Encode(Behind(name));
      Encoding([n] + First(name) + rest.octets, rest.ok)
  }

  /** Every label has 1 to 63 octets, and there is no dot at the end. */
  predicate Proper(name: seq<byte>)
    decreases |name|
  {
    0 < IndexOf(name, DOT) < 64 && (IndexOf(name, DOT) == |name| || (Behind(name) != [] && Proper(Behind(name))))
  }

  /** The labels between the dots. */
  function Split(name: seq<byte>): seq<seq<byte>>
    decreases |name|
  {
    InFront(First(name), if Behind(name) == [] then [] else Split(Behind(name)))
  }

  lemma {:induction false} ProperEncodes(name: seq<byte>)
    requires Proper(name)
    ensures Encode(name).ok
    decreases |name|
  {
    if Behind(name) != [] {
      ProperEncodes(Behind(name));
    }
  }

  /** A name in parts: its first label, and what is left behind the dot if there is one. */
  lemma NameInParts(name: seq<byte>)
    ensures name == First(name) + if IndexOf(name, DOT) == |name| then [] else [DOT] + Behind(name)
  {
    var n := IndexOf(name, DOT);
    hide IndexOf;
    if n == |name| {
      assert name[..n] + [] == name;
    } else {
      HeadAndTail(name[n..]);
      assert name == name[..n] + name[n..];
    }
  }

  lemma {:induction false} SplitIsDotted(name: seq<byte>)
    requires Proper(name)
    ensures Dotted(Split(name)) == name + [DOT]
    decreases |name|
  {
    var n, first := IndexOf(name, DOT), First(name);
    NameInParts(name);
    if Behind(name) == [] {
      DottedUnfolds(first, []);
    } else {
      SplitIsDotted(Behind(name));
      DottedUnfolds(first, Split(Behind(name)));
      hide *;
      DotsBetween(first, Behind(name));
    }
  }

  lemma DotsBetween(first: seq<byte>, rest: seq<byte>)
    ensures first + [DOT] + (rest + [DOT]) == first + ([DOT] + rest) + [DOT]
  {
  }

  lemma SplitIsText(name: seq<byte>)
    requires Proper(name)
    ensures Text(Split(name)) == name
  {
    hide Proper, Dotted;
    SplitIsDotted(name);
    assert (name + [DOT])[..|name|] == name;
  }

  /** What is written behind the first label. */
  function Tail(name: seq<byte>): seq<byte> {
    if Behind(name) == [] then [0] else Encode(Behind(name)).octets
  }

  lemma EncodeUnfolds(name: seq<byte>)
    requires Encode(name).ok
    ensures IndexOf(name, DOT) <= 127 && Encode(name).octets == [IndexOf(name, DOT)] + First(name) + Tail(name)
    ensures Behind(name) != [] ==> Encode(Behind(name)).ok
    ensures Tail(name) != []
    decreases |name|
  {
    if Behind(name) != [] {
      EncodeUnfolds(Behind(name));
    }
  }

  /** The packet has these octets at `at`. */
  ghost predicate Holds(u: seq<byte>, at: nat, s: seq<byte>) {
    at + |s| <= |u| && Part(u, at, at + |s|) == s
  }

  lemma LabelIsHeld(u: seq<byte>, at: nat, n: byte, first: seq<byte>, tail: seq<byte>)
    requires |first| == n && tail != [] && Holds(u, at, [n] + first + tail)
    ensures at + 1 + n < |u| && u[at] == n && u[at + 1 + n] == tail[0]
    ensures Part(u, at + 1, at + 1 + n) == first && Holds(u, at + 1 + n, tail)
  {
    var w := [n] + first + tail;
    forall i | 0 <= i < |w|
      ensures u[at + i] == w[i]
    {
      assert u[at..at + |w|][i] == u[at + i];
    }
    forall i | 0 <= i < |first|
      ensures u[at + 1 + i] == first[i]
    {
      assert u[at + (1 + i)] == w[1 + i];
    }
    forall i | 0 <= i < |tail|
      ensures u[at + 1 + n + i] == tail[i]
    {
      assert u[at + (1 + n + i)] == w[1 + n + i];
    }
    SameElements(u[at + 1..at + 1 + n], first);
    SameElements(u[at + 1 + n..at + 1 + n + |tail|], tail);
  }

  /** Where a name has been written, its first label is there, and what is left of it behind that. */
  lemma NameIsHeld(u: seq<byte>, at: nat, name: seq<byte>)
    requires Encode(name).ok && Holds(u, at, Encode(name).octets)
    ensures
      var n := IndexOf(name, DOT);
      && at + 1 + n < |u| && u[at] == n && Part(u, at + 1, at + 1 + n) == First(name)
      && (if Behind(name) == [] then u[at + 1 + n] == 0
          else Encode(Behind(name)).ok && Holds(u, at + 1 + n, Encode(Behind(name)).octets))
  {
    hide *;
    EncodeUnfolds(name);
    TailIs(name);
    LabelIsHeld(u, at, IndexOf(name, DOT), First(name), Tail(name));
  }

  /** The name at `at` has these labels. */
  ghost predicate Reads(u: seq<byte>, at: nat, hops: nat, labels: seq<seq<byte>>) {
    at < |u| && Labels(u, at, hops).Some? && Labels(u, at, hops).value == labels
  }

  lemma ReadsOneMore(u: seq<byte>, at: nat, n: nat, hops: nat, rest: seq<seq<byte>>)
    requires 0 < n < 64 && at + 1 + n < |u| && u[at] == n && Reads(u, at + 1 + n, hops, rest)
    ensures Reads(u, at, hops, InFront(Part(u, at + 1, at + 1 + n), rest))
  {
  }

  lemma ReadsEnd(u: seq<byte>, at: nat, hops: nat)
    requires at < |u| && u[at] == 0
    ensures Reads(u, at, hops, [])
  {
  }

  /** A proper name that has been written is found again, wherever it stands and however many pointers led to it. */
  lemma {:induction false} EncodedHasLabels(u: seq<byte>, at: nat, name: seq<byte>, hops: nat)
    requires Proper(name) && Holds(u, at, Encode(name).octets)
    ensures Reads(u, at, hops, Split(name))
    decreases |name|
  {
    hide *;
    ProperEncodes(name);
    ProperParts(name);
    SplitUnfolds(name);
    NameIsHeld(u, at, name);
    var n, rest := IndexOf(name, DOT), Behind(name);
    if rest == [] {
      ReadsEnd(u, at + 1 + n, hops);
      ReadsOneMore(u, at, n, hops, []);
    } else {
      EncodedHasLabels(u, at + 1 + n, rest, hops);
      ReadsOneMore(u, at, n, hops, Split(rest));
    }
  }

  lemma TailIs(name: seq<byte>)
    ensures Tail(name) == if Behind(name) == [] then [0] else Encode(Behind(name)).octets
  {
  }

  lemma ProperParts(name: seq<byte>)
    requires Proper(name)
    ensures 0 < IndexOf(name, DOT) < 64
    ensures Behind(name) != [] ==> Proper(Behind(name))
  {
  }

  lemma SplitUnfolds(name: seq<byte>)
    ensures Behind(name) == [] ==> Split(name) == InFront(First(name), [])
    ensures Behind(name) != [] ==> Split(name) == InFront(First(name), Split(Behind(name)))
  {
  }

  lemma ExpandUnfolds(u: seq<byte>, at: nat, n: nat, hops: nat, room: nat)
    requires 0 < n < 64 && at + 1 + n < |u| && u[at] == n && room > n
    ensures
      var e, rest := Expand(u, at, hops, room), Expand(u, at + 1 + n, hops, room - n - 1);
      if rest.Nothing? then e.Nothing?
      else e.Expansion? && e.full == rest.full && |e.octets| == n + 1 + |rest.octets|
  {
  }

  /** What is read at `at` is nothing, or shorter than `length` without the dot behind it. */
  ghost predicate Lost(u: seq<byte>, at: nat, hops: nat, room: nat, length: nat) {
    at < |u| && var e := Expand(u, at, hops, room); e.Nothing? || (!e.full && |e.octets| <= length)
  }

  ghost predicate Improper(name: seq<byte>) {
    name != [] && !Proper(name) && Encode(name).ok
  }

  /** Its first label is wrong, or it ends with a dot, or what is left is improper as well. */
  lemma ImproperParts(name: seq<byte>)
    requires Improper(name)
    ensures Encode(name).ok
    ensures
      || IndexOf(name, DOT) == 0 || 63 < IndexOf(name, DOT) < 128
      || (IndexOf(name, DOT) < 64 && IndexOf(name, DOT) + 1 + |Behind(name)| == |name| &&
        (Behind(name) == [] || Improper(Behind(name))))
  {
    EncodeUnfolds(name);
  }

  /** A length that ends the name, or that is none. */
  predicate Stops(length: byte) {
    length == 0 || 63 < length < 128
  }

  /** The same, of an improper name that has been written. */
  lemma ImproperIsHeld(u: seq<byte>, at: nat, name: seq<byte>) returns (n: nat, rest: seq<byte>)
    requires Improper(name) && Holds(u, at, Encode(name).octets)
    ensures at + 1 < |u|
    ensures Stops(u[at]) || (0 < n < 64 && at + 1 + n < |u| && u[at] == n && n + 1 + |rest| == |name|)
    ensures Stops(u[at]) || (if |rest| == 0 then u[at + 1 + n] == 0
                             else Improper(rest) && Holds(u, at + 1 + n, Encode(rest).octets))
  {
    hide IndexOf, Behind, Holds, Encode, Improper, Part, First, Proper;
    ImproperParts(name);
    NameIsHeld(u, at, name);
    n, rest := IndexOf(name, DOT), Behind(name);
  }

  /** A name with an empty or an overlong label, or a dot at its end, comes out shorter or not at all. */
  lemma {:induction false} ImproperIsLost(u: seq<byte>, at: nat, name: seq<byte>, hops: nat, room: nat)
    requires Improper(name) && room >= |name| && Holds(u, at, Encode(name).octets)
    ensures Lost(u, at, hops, room, |name|)
    decreases |name|
  {
    hide *;
    var n, rest := ImproperIsHeld(u, at, name);
    if Stops(u[at]) {
      LostAtOnce(u, at, hops, room, |name|);
    } else {
      if |rest| == 0 {
        LostAtEnd(u, at + 1 + n, hops, room - n - 1);
      } else {
        ImproperIsLost(u, at + 1 + n, rest, hops, room - n - 1);
      }
      LostBehindLabel(u, at, n, hops, room, |rest|, |name|);
    }
  }

  lemma LostAtOnce(u: seq<byte>, at: nat, hops: nat, room: nat, length: nat)
    requires at + 1 < |u| && Stops(u[at])
    ensures Lost(u, at, hops, room, length)
  {
  }

  lemma LostAtEnd(u: seq<byte>, at: nat, hops: nat, room: nat)
    requires at < |u| && u[at] == 0
    ensures Lost(u, at, hops, room, 0)
  {
  }

  lemma LostBehindLabel(u: seq<byte>, at: nat, n: nat, hops: nat, room: nat, restLength: nat, length: nat)
    requires 0 < n < 64 && at + 1 + n < |u| && u[at] == n && room > n && n + 1 + restLength == length
    requires Lost(u, at + 1 + n, hops, room - n - 1, restLength)
    ensures Lost(u, at, hops, room, length)
  {
    hide Expand;
    ExpandUnfolds(u, at, n, hops, room);
  }

  lemma ExpandsToNothing(u: seq<byte>, at: nat, hops: nat, room: nat)
    requires at < |u| && u[at] == 0
    ensures Expand(u, at, hops, room) == Expansion([], false)
  {
  }

  /** A name that has been written is read back the same exactly when it is proper, or empty. */
  lemma NameRoundTrip(u: seq<byte>, at: nat, name: seq<byte>, room: nat)
    requires Encode(name).ok && Holds(u, at, Encode(name).octets) && room >= |name|
    ensures Uncompressed(u, at, room) == name <==> name == [] || Proper(name)
  {
    hide Encode, Expand, Proper, Holds;
    if Proper(name) {
      ProperRoundTrip(u, at, name, room);
    } else if name == [] {
      EmptyIsHeld(u, at);
      ExpandsToNothing(u, at, MAX_POINTERS, room);
    } else {
      ImproperIsLost(u, at, name, MAX_POINTERS, room);
    }
  }

  /** "a." is written as "a" is, and read back as that. */
  lemma FinalDotIsLost(room: nat)
    requires room >= 2
    ensures Encode([97, DOT]) == Encode([97]) == Encoding([1, 97, 0], true)
    ensures Uncompressed([1, 97, 0], 0, room) == [97]
  {
    var a: seq<byte> := [97];
    OneLetter();
    assert Part([1, 97, 0], 0, 3) == [1, 97, 0];
    hide Encode, Uncompressed;
    NameRoundTrip([1, 97, 0], 0, a, room);
  }

  lemma OneLetter()
    ensures Encode([97, DOT]) == Encode([97]) == Encoding([1, 97, 0], true) && Proper([97])
  {
    var a: seq<byte>, dotted: seq<byte> := [97], [97, DOT];
    var none: seq<byte> := [];
    assert a[1..] == none && dotted[1..] == [DOT] && dotted[2..] == none;
    assert IndexOf(a, DOT) == 1;
    assert IndexOf(dotted, DOT) == 1;
    assert dotted[..1] == a && a[..1] == a;
  }

  lemma EmptyIsHeld(u: seq<byte>, at: nat)
    requires Holds(u, at, Encode([]).octets)
    ensures at < |u| && u[at] == 0
  {
    NameIsHeld(u, at, []);
    hide Encode, Holds;
  }

  /** With too little room for it, a name is cut off. */
  lemma ProperRoundTrip(u: seq<byte>, at: nat, name: seq<byte>, room: nat)
    requires Proper(name) && Holds(u, at, Encode(name).octets)
    ensures Uncompressed(u, at, room) == if room < |name| then name[..room] else name
  {
    hide Proper, Encode, Labels, Uncompressed, Holds;
    EncodedHasLabels(u, at, name, MAX_POINTERS);
    SplitIsText(name);
    UncompressedIsText(u, at, room);
  }

  // ----- pointers -----

  /** `k` pointers, one after the other, lead from `at` to `goal`. */
  ghost predicate LeadsTo(u: seq<byte>, at: nat, k: nat, goal: nat)
    decreases k
  {
    if k == 0 then at == goal
    else at + 1 < |u| && IsPointer(u[at]) && Target(u, at) < |u| && LeadsTo(u, Target(u, at), k - 1, goal)
  }

  lemma {:induction false} PointersAreFollowed(u: seq<byte>, at: nat, k: nat, goal: nat, hops: nat)
    requires LeadsTo(u, at, k, goal) && goal < |u| && k <= hops
    ensures at < |u| && Labels(u, at, hops) == Labels(u, goal, hops - k)
    decreases k
  {
    if k > 0 {
      PointersAreFollowed(u, Target(u, at), k - 1, goal, hops - 1);
    }
  }

  lemma {:induction false} TooManyPointers(u: seq<byte>, at: nat, k: nat, goal: nat, hops: nat, room: nat)
    requires LeadsTo(u, at, k, goal) && k > hops
    ensures at < |u| && Expand(u, at, hops, room).Nothing?
    decreases k
  {
    if hops > 0 {
      TooManyPointers(u, Target(u, at), k - 1, goal, hops - 1, room);
    }
  }

  /** A name behind pointers is read exactly when there are no more than fifteen of them. */
  lemma NameBehindPointers(u: seq<byte>, at: nat, k: nat, goal: nat, name: seq<byte>, room: nat)
    requires Proper(name) && Holds(u, goal, Encode(name).octets) && LeadsTo(u, at, k, goal) && room >= |name|
    ensures Uncompressed(u, at, room) == if k <= 15 then name else []
  {
    hide Proper, Encode, Labels, Expand, LeadsTo, Holds;
    EncodedHasLabels(u, goal, name, if k <= MAX_POINTERS then MAX_POINTERS - k else 0);
    if k <= MAX_POINTERS {
      PointersAreFollowed(u, at, k, goal, MAX_POINTERS);
      SplitIsText(name);
      UncompressedIsText(u, at, room);
    } else {
      TooManyPointers(u, at, k, goal, MAX_POINTERS, room);
    }
  }

  // ----- examples (RFC 1035, section 4.1.4) -----

  /** The two octets of a pointer have the form 11xxxxxx xxxxxxxx and say where to go on. */
  lemma PointerTarget(u: seq<byte>, at: nat)
    requires at + 1 < |u|
    ensures IsPointer(u[at]) <==> u[at] / 64 == 3
    ensures IsPointer(u[at]) ==> Target(u, at) == u[at] as int * 256 + u[at + 1] - 0xC000
  {
  }

  /** "a.bc" */
  lemma OctetsOfName()
    ensures Encode([97, 46, 98, 99]) == Encoding([1, 97, 2, 98, 99, 0], true)
  {
    var name: seq<byte> := [97, 46, 98, 99];
    var last: seq<byte> := [98, 99];
    assert IndexOf(last[2..], DOT) == 0 && IndexOf(last[1..], DOT) == 1 && IndexOf(last, DOT) == 2;
    assert IndexOf(name[1..], DOT) == 0 && IndexOf(name, DOT) == 1;
    assert name[2..] == last && First(last) == last;
    assert Encode(last) == Encoding([2, 98, 99, 0], true);
  }

  /** A name is given up exactly when one of its labels has more than 127 octets. */
  lemma {:induction false} LongLabels(name: seq<byte>)
    ensures Encode(name).ok <==> forall part | part in Split(name) :: |part| <= 127
    decreases |name|
  {
    var rest := if Behind(name) == [] then [] else Split(Behind(name));
    FirstLength(name);
    if Behind(name) != [] {
      LongLabels(Behind(name));
    }
    hide First, Behind, Split;
    InEither(First(name), rest);
  }

  lemma FirstLength(name: seq<byte>)
    ensures |First(name)| == IndexOf(name, DOT)
    ensures Split(name) == [First(name)] + if Behind(name) == [] then [] else Split(Behind(name))
  {
  }

  lemma InEither(first: seq<byte>, rest: seq<seq<byte>>)
    ensures forall part | part in [first] + rest :: part == first || part in rest
    ensures forall part | part == first || part in rest :: part in [first] + rest
  {
  }
}
