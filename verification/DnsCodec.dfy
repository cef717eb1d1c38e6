/** Writing names into a buffer and reading them out of a packet into memory of limited size. */
module DnsCodec {
  import opened Bytes
  import opened DnsNames
  import opened Mbufs

  lemma EncodeSteps(left: seq<byte>)
    ensures IndexOf(left, DOT) > 127 ==> !Encode(left).ok && Encode(left).octets == []
    ensures IndexOf(left, DOT) <= 127 && Behind(left) == [] ==>
              Encode(left).ok && Encode(left).octets == [IndexOf(left, DOT)] + First(left) + [0]
    ensures IndexOf(left, DOT) <= 127 && Behind(left) != [] ==>
              && Encode(left).ok == Encode(Behind(left)).ok
              && Encode(left).octets == [IndexOf(left, DOT)] + First(left) + Encode(Behind(left)).octets
  {
  }

  method FindDot(name: seq<byte>) returns (n: nat)
    ensures n == IndexOf(name, DOT)
  {
    n := 0;
    while n < |name|
      invariant n <= |name| && forall i | 0 <= i < n :: name[i] != DOT
    {
      if name[n] == DOT {
        break;
      }
      n := n + 1;
    }
    IndexIs(name, DOT, n);
  }

  /** Appends the name in labels; what has been appended stays when a label turns out to be too long. */
  method EncodeName(io: Mbuf, name: seq<byte>) returns (r: int)
    requires io.Valid()
    modifies io, io.buf
    ensures io.Valid() && (io.buf == old(io.buf) || fresh(io.buf))
    ensures io.Contents() == old(io.Contents()) + Encode(name).octets
    ensures r == if Encode(name).ok then |Encode(name).octets| else -1
  {
    hide Encode, IndexOf, Behind, First;
    var pos, left, more := io.len, name, true;
    ghost var whole := io.Contents() + Encode(name).octets;
    while more
      invariant io.Valid() && (io.buf == old(io.buf) || fresh(io.buf))
      invariant io.Contents() + (if more then Encode(left).octets else [0]) == whole
      invariant if more then Encode(left).ok == Encode(name).ok else Encode(name).ok
      decreases more, |left|
    {
      EncodeSteps(left);
      var n := FindDot(left);
      if n > 127 {
        assert io.Contents() + [] == io.Contents();
        return -1;
      }
      LabelOf(left);
      ghost var was, rest := io.Contents(), if Behind(left) == [] then [0] else Encode(Behind(left)).octets;
      io.Append([n]);
      io.Append(left[..n]);
      Appended(was, n, left[..n], rest);
      left := if n < |left| then left[n + 1..] else [];
      more := left != [];
    }
    io.Append([0]);
    return io.len - pos;
  }

  lemma LabelOf(left: seq<byte>)
    ensures First(left) == left[..IndexOf(left, DOT)]
    ensures Behind(left) == if IndexOf(left, DOT) < |left| then left[IndexOf(left, DOT) + 1..] else []
    ensures Behind(left) != [] ==> |Behind(left)| < |left|
  {
  }

  lemma Appended(was: seq<byte>, n: byte, first: seq<byte>, rest: seq<byte>)
    ensures was + [n] + first + rest == was + ([n] + first + rest)
  {
  }

  // ----- reading -----

  /** What has been written, and what is still to be read from `d` on, make up the whole expansion. */
  ghost predicate Going(u: seq<byte>, whole: Expansion, room: nat, written: seq<byte>, d: nat, hops: nat) {
    && d < |u| && |written| <= room
    && (written != [] ==> written[|written| - 1] == DOT)
    && var e := Expand(u, d, hops, room - |written|);
       if e.Nothing? then whole == Nothing else whole == Expansion(written + e.octets, e.full)
  }

  lemma GoingBegins(u: seq<byte>, at: nat, room: nat)
    requires at < |u|
    ensures Going(u, Expand(u, at, MAX_POINTERS, room), room, [], at, MAX_POINTERS)
  {
    hide Expand;
    var e := Expand(u, at, MAX_POINTERS, room);
    if e.Expansion? {
      assert [] + e.octets == e.octets;
    }
  }

  /** The end of the name: the dot behind the last label is taken back. */
  lemma GoingEnds(u: seq<byte>, whole: Expansion, room: nat, written: seq<byte>, d: nat, hops: nat)
    requires Going(u, whole, room, written, d, hops) && u[d] == 0
    ensures whole == Expansion(written, false)
  {
    assert written + [] == written;
  }

  /** Octets that do not make a name. */
  predicate Fails(u: seq<byte>, d: nat, hops: nat, room: nat)
    requires d < |u|
  {
    u[d] != 0 &&
    (|| d + 1 >= |u|
     || (IsPointer(u[d]) && (Target(u, d) >= |u| || hops == 0))
     || (!IsPointer(u[d]) && (u[d] > 63 || d + 1 + Min(u[d], room) >= |u|)))
  }

  lemma GoingFails(u: seq<byte>, whole: Expansion, room: nat, written: seq<byte>, d: nat, hops: nat)
    requires Going(u, whole, room, written, d, hops) && Fails(u, d, hops, room - |written|)
    ensures whole == Nothing
  {
  }

  lemma GoingJumps(u: seq<byte>, whole: Expansion, room: nat, written: seq<byte>, d: nat, hops: nat)
    requires Going(u, whole, room, written, d, hops) && u[d] != 0 && IsPointer(u[d])
    requires !Fails(u, d, hops, room - |written|)
    ensures hops > 0 && Going(u, whole, room, written, Target(u, d), hops - 1)
  {
  }

  /** The label that fills the room up. */
  lemma GoingFills(u: seq<byte>, whole: Expansion, room: nat, written: seq<byte>, d: nat, hops: nat)
    requires Going(u, whole, room, written, d, hops) && u[d] != 0 && !IsPointer(u[d])
    requires !Fails(u, d, hops, room - |written|) && u[d] >= room - |written|
    ensures whole == Expansion(written + u[d + 1..d + 1 + (room - |written|)], true)
  {
  }

  lemma GoingOn(u: seq<byte>, whole: Expansion, room: nat, written: seq<byte>, d: nat, hops: nat)
    requires Going(u, whole, room, written, d, hops) && u[d] != 0 && !IsPointer(u[d])
    requires !Fails(u, d, hops, room - |written|) && u[d] < room - |written|
    ensures Going(u, whole, room, written + u[d + 1..d + 1 + u[d]] + [DOT], d + 1 + u[d], hops)
  {
    var n: nat := u[d];
    var first := u[d + 1..d + 1 + n];
    var e := Expand(u, d + 1 + n, hops, room - |written| - n - 1);
    if e.Expansion? {
      assert written + (first + [DOT] + e.octets) == written + first + [DOT] + e.octets;
    }
  }

  /** memcpy into the destination. */
  method Copy(dst: array<byte>, at: nat, data: seq<byte>, ghost room: nat)
    requires at + |data| <= room <= dst.Length
    modifies dst
    ensures dst[..at + |data|] == old(dst[..at]) + data
    ensures dst[room..] == old(dst[room..])
  {
    ghost var was := dst[..];
    forall i | 0 <= i < |data| {
      dst[at + i] := data[i];
    }
    SameElements(dst[..at + |data|], was[..at] + data);
    SameElements(dst[room..], was[room..]);
  }

  datatype Turn = Refused | Filled(n: nat) | Next(d: nat, hops: nat, n: nat)

  /** One turn of the loop, at an octet that is not zero: follows a pointer or copies a label. */
  method TakeNext(u: seq<byte>, d: nat, dst: array<byte>, room: nat, w: nat, hops: nat, ghost whole: Expansion)
    returns (t: Turn)
    requires w <= room <= dst.Length && Going(u, whole, room, dst[..w], d, hops) && d < |u| && u[d] != 0
    modifies dst
    ensures dst[room..] == old(dst[room..])
    ensures match t
      case Refused => whole.Nothing?
      case Filled(n) => n <= room && whole == Expansion(dst[..n], true)
      case Next(next, left, n) =>
        && n <= room && Going(u, whole, room, dst[..n], next, left)
        && (left < hops || (left == hops && d < next < |u|))
  {
    hide Going;
    ghost var written := dst[..w];
    if Fails(u, d, hops, room - w) {
      GoingFails(u, whole, room, written, d, hops);
    }
    var length: nat, p := u[d], d + 1;
    if p >= |u| {
      return Refused;
    }
    if length >= 192 {
      var offset := Number16(length % 64, u[p]);
      if offset >= |u| || hops == 0 {
        return Refused;
      }
      GoingJumps(u, whole, room, written, d, hops);
      return Next(offset, hops - 1, w);
    }
    if length > 63 {
      return Refused;
    }
    var chunk := if length > room - w then room - w else length;
    if p + chunk >= |u| {
      return Refused;
    }
    hide Fails;
    Copy(dst, w, u[p..p + chunk], room);
    if chunk == room - w {
      GoingFills(u, whole, room, written, d, hops);
      return Filled(w + chunk);
    }
    GoingOn(u, whole, room, written, d, hops);
    Copy(dst, w + chunk, [DOT], room);
    return Next(p + chunk, hops, w + chunk + 1);
  }

  /**
    Writes the dotted text of the name at `at` to `dst`, no more than `room` octets, and gives its length, zero when
    there is no name. Nothing outside the packet is read, and pointers that go in circles are given up.
   */
  method UncompressName(u: seq<byte>, at: nat, dst: array<byte>, room: nat) returns (n: nat)
    requires room <= dst.Length
    modifies dst
    ensures n <= room && dst[..n] == Uncompressed(u, at, room)
    ensures dst[room..] == old(dst[room..])
  {
    if at >= |u| {
      return 0;
    }
    ghost var whole := Expand(u, at, MAX_POINTERS, room);
    var d: nat, hops: nat := at, MAX_POINTERS;
    n := 0;
    GoingBegins(u, at, room);
    assert dst[..0] == [];
    hide Going, Expand;
    while u[d] != 0
      invariant d < |u| && n <= room && Going(u, whole, room, dst[..n], d, hops)
      invariant dst[room..] == old(dst[room..])
      decreases hops, |u| - d
    {
      var t := TakeNext(u, d, dst, room, n, hops, whole);
      if t.Refused? {
        return 0;
      }
      if t.Filled? {
        return t.n;
      }
      GoingInside(u, whole, room, dst[..t.n], t.d, t.hops);
      d, hops, n := t.d, t.hops, t.n;
    }
    GoingEnds(u, whole, room, dst[..n], d, hops);
    if n > 0 {
      ghost var text := dst[..n];
      assert text[..n - 1] == dst[..n - 1];
      n := n - 1;
      Copy(dst, n, [0], room);
      assert dst[..n + 1][..n] == text[..n];
      assert dst[..n] == dst[..n + 1][..n];
    }
  }

  lemma GoingInside(u: seq<byte>, whole: Expansion, room: nat, written: seq<byte>, d: nat, hops: nat)
    requires Going(u, whole, room, written, d, hops)
    ensures d < |u|
  {
  }
}
