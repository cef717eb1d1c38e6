/** The growable octet buffer in which connections keep what they received and what they have to send. */
module Mbufs {
  import opened Bytes

  const MAX_HEADROOM := 1024

  /** memmove: the source range is read completely before the destination range is written. */
  method Move(a: array<byte>, dst: nat, src: nat, n: nat)
    requires dst + n <= a.Length && src + n <= a.Length
    modifies a
    ensures a[..] == old(a[..dst] + a[src..src + n] + a[dst + n..])
  {
    forall i | 0 <= i < n {
      a[dst + i] := a[src + i];
    }
  }

  lemma MovedDown(was: seq<byte>, now: seq<byte>, dst: nat, src: nat, n: nat, len: nat)
    requires dst <= src && src + n <= len <= |was|
    requires now == was[..dst] + was[src..src + n] + was[dst + n..]
    ensures now[..len][..dst + n] == was[..len][..dst] + was[..len][src..src + n]
    ensures now[..len][src + n..] == was[..len][src + n..]
  {
    SliceOfTake(was, len, 0, dst);
    SliceOfTake(was, len, src, src + n);
    SliceOfTake(now, len, 0, dst + n);
    assert now[..dst + n] == was[..dst] + was[src..src + n];
    SliceOfTake(was, len, src + n, len);
    SliceOfTake(now, len, src + n, len);
    assert now[dst + n..] == was[dst + n..];
    forall k | src + n <= k < len
      ensures now[k] == was[k]
    {
      assert now[dst + n..][k - dst - n] == was[dst + n..][k - dst - n];
    }
    SameElements(now[src + n..len], was[src + n..len]);
  }

  lemma SliceOfTake(s: seq<byte>, len: nat, i: nat, j: nat)
    requires i <= j <= len <= |s|
    ensures s[..len][i..j] == s[i..j]
  {
    SameElements(s[..len][i..j], s[i..j]);
  }

  lemma ConcatNone<T>(parts: seq<seq<T>>)
    ensures Concat(parts[|parts|..]) == []
  {
  }

  /** memmove to a higher place: octets in front of the source stay as they are. */
  method MoveUp(a: array<byte>, src: nat, n: nat, gap: nat)
    requires src + n + gap <= a.Length
    modifies a
    ensures forall i | 0 <= i < src :: a[i] == old(a[i])
    ensures forall i | src <= i < src + n :: a[i + gap] == old(a[i])
  {
    forall i | src <= i < src + n {
      a[i + gap] := a[i];
    }
  }

  lemma Inserted(was: seq<byte>, now: seq<byte>, off: nat, data: seq<byte>)
    requires off <= |was| && |now| == |was| + |data|
    requires forall i | 0 <= i < off :: now[i] == was[i]
    requires forall i | 0 <= i < |data| :: now[off + i] == data[i]
    requires forall i | off <= i < |was| :: now[i + |data|] == was[i]
    ensures now == was[..off] + data + was[off..]
  {
    SameElements(now[..off], was[..off]);
    SameElements(now[off..off + |data|], data);
    forall i | 0 <= i < |was| - off
      ensures now[off + |data|..][i] == was[off..][i]
    {
      assert now[(off + i) + |data|] == was[off + i];
    }
    SameElements(now[off + |data|..], was[off..]);
    ThreeParts(now, off, off + |data|);
  }

  class Mbuf {
    var buf: array<byte>
    var len: nat

    ghost predicate Valid()
      reads this
    {
      len <= buf.Length
    }

    ghost function Contents(): (s: seq<byte>)
      requires Valid()
      reads this, buf
      ensures |s| == len
    {
      buf[..len]
    }

    constructor ()
      ensures Valid() && fresh(buf) && Contents() == []
    {
      buf := new byte[0];
      len := 0;
    }

    /** Makes room for `n` more octets, with some headroom when the storage has to be reallocated. */
    method Reserve(n: nat)
      requires Valid()
      modifies this
      ensures Valid() && len == old(len) && len + n <= buf.Length && (buf == old(buf) || fresh(buf))
      ensures Contents() == old(Contents())
    {
      if len + n > buf.Length {
        var minSize := len + n;
        var newSize := minSize + minSize / 2;
        if newSize - minSize > MAX_HEADROOM {
          newSize := minSize + MAX_HEADROOM;
        }
        var p := new byte[newSize];
        forall i | 0 <= i < len {
          p[i] := buf[i];
        }
        assert p[..len] == buf[..len];
        buf := p;
      }
    }

    /** Insertion: what stands from `off` on moves up, into new storage when there is no room. */
    method Insert(off: nat, data: seq<byte>)
      requires Valid() && off <= len
      modifies this, buf
      ensures Valid() && (buf == old(buf) || fresh(buf))
      ensures Contents() == old(Contents())[..off] + data + old(Contents())[off..]
    {
      ghost var was := Contents();
      Reserve(|data|);
      MoveUp(buf, off, len - off, |data|);
      forall i | 0 <= i < |data| {
        buf[off + i] := data[i];
      }
      len := len + |data|;
      Inserted(was, buf[..len], off, data);
    }

    method Append(data: seq<byte>)
      requires Valid()
      modifies this, buf
      ensures Valid() && (buf == old(buf) || fresh(buf))
      ensures Contents() == old(Contents()) + data
    {
      ghost var was := Contents();
      Insert(len, data);
      assert was[..|was|] + data + was[|was|..] == was + data;
    }

    /** Octets read out of the buffer. */
    method Slice(from: nat, to: nat) returns (s: seq<byte>)
      requires Valid() && from <= to <= len
      ensures s == Contents()[from..to]
    {
      s := buf[from..to];
      SameElements(s, Contents()[from..to]);
    }

    /** Appending from no source: the buffer is longer, what the new octets are is not said. */
    method Extend(n: nat)
      requires Valid()
      modifies this
      ensures Valid() && len == old(len) + n && (buf == old(buf) || fresh(buf))
      ensures Contents()[..old(len)] == old(Contents())
    {
      ghost var was := Contents();
      Reserve(n);
      len := len + n;
      SameElements(buf[..len][..old(len)], was);
    }

    /** Overwrites octets where they stand. */
    method Put(at: nat, data: seq<byte>)
      requires Valid() && at + |data| <= len
      modifies buf
      ensures Valid()
      ensures Contents()[..at + |data|] == old(Contents())[..at] + data
      ensures Contents()[at + |data|..] == old(Contents())[at + |data|..]
    {
      ghost var was := Contents();
      forall i | 0 <= i < |data| {
        buf[at + i] := data[i];
      }
      SameElements(Contents()[..at + |data|], was[..at] + data);
      SameElements(Contents()[at + |data|..], was[at + |data|..]);
    }

    method AppendAll(parts: seq<seq<byte>>)
      requires Valid()
      modifies this, buf
      ensures Valid() && (buf == old(buf) || fresh(buf))
      ensures Contents() == old(Contents()) + Concat(parts)
    {
      hide Concat;
      ghost var was := Contents();
      assert was + Concat(parts[0..]) == was + Concat(parts);
      for i := 0 to |parts|
        invariant Valid() && (buf == old(buf) || fresh(buf))
        invariant Contents() + Concat(parts[i..]) == was + Concat(parts)
      {
        ConcatSuffix(parts, i);
        ghost var before, rest := Contents(), Concat(parts[i + 1..]);
        Append(parts[i]);
        assert before + parts[i] + rest == before + (parts[i] + rest);
      }
      ConcatNone(parts);
    }

    /** Moves `n` octets down inside the buffer; what lies in front of them and behind them stays. */
    method MoveDown(dst: nat, src: nat, n: nat)
      requires Valid() && dst <= src && src + n <= len
      modifies buf
      ensures Valid() && len == old(len)
      ensures Contents()[..dst + n] == old(Contents())[..dst] + old(Contents())[src..src + n]
      ensures Contents()[src + n..] == old(Contents())[src + n..]
    {
      ghost var was := buf[..];
      Move(buf, dst, src, n);
      MovedDown(was, buf[..], dst, src, n, len);
    }

    /** Moves everything from `src` on down to `dst` and shortens the buffer accordingly. */
    method CloseGap(dst: nat, src: nat)
      requires Valid() && dst <= src <= len
      modifies this, buf
      ensures Valid() && buf == old(buf)
      ensures Contents() == old(Contents())[..dst] + old(Contents())[src..]
    {
      Move(buf, dst, src, len - src);
      len := len - (src - dst);
    }

    /** Drops the first `n` octets; asking for more than there are does nothing. */
    method Remove(n: nat)
      requires Valid()
      modifies this, buf
      ensures Valid() && buf == old(buf)
      ensures Contents() == if n <= old(len) then old(Contents())[n..] else old(Contents())
    {
      if 0 < n <= len {
        CloseGap(0, n);
      }
    }

    /** Masks or unmasks `n` octets where they stand. */
    method Mask(at: nat, n: nat, key: seq<byte>)
      requires Valid() && at + n <= len && |key| == 4
      modifies buf
      ensures Valid()
      ensures Contents() == old(Contents())[..at] + Masked(key, old(Contents())[at..at + n]) + old(Contents())[at + n..]
    {
      ghost var was := Contents();
      for i := 0 to n
        invariant forall k | 0 <= k < len ::
                    buf[k] == if at <= k < at + i then Xor(was[k], key[(k - at) % 4]) else was[k]
      {
        buf[at + i] := Xor(buf[at + i], key[i % 4]);
      }
      var masked := Masked(key, was[at..at + n]);
      forall k | 0 <= k < len
        ensures buf[..len][k] == (was[..at] + masked + was[at + n..])[k]
      {
        if at <= k < at + n {
          assert masked[k - at] == Xor(was[at..at + n][k - at], key[(k - at) % 4]);
        }
      }
      SameElements(buf[..len], was[..at] + masked + was[at + n..]);
    }
  }
}
