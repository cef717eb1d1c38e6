/** The code of the Base64 encoders and decoders. */
module Base64Codec {
  import opened Base64
  import opened Bytes

  // ----- the streaming encoder -----

  /** Whole groups of three octets have been handed out, the rest waits. */
  ghost predicate Keeps(message: seq<byte>, out: seq<byte>, waiting: seq<byte>) {
    && |waiting| < 3 && |waiting| <= |message| && (|message| - |waiting|) % 3 == 0
    && out == Encode(message[..|message| - |waiting|]) && waiting == message[|message| - |waiting|..]
  }

  lemma Waits(message: seq<byte>, out: seq<byte>, waiting: seq<byte>, c: byte)
    requires Keeps(message, out, waiting) && |waiting| < 2
    ensures Keeps(message + [c], out, waiting + [c])
  {
    hide Encode;
    var n := |message| - |waiting|;
    assert (message + [c])[..n] == message[..n] && (message + [c])[n..] == waiting + [c];
  }

  lemma OneGroup(a: byte, b: byte, c: byte)
    ensures Encode([a, b, c]) == Group(a, b, c, 3) == Group(a, b, c, 3)[..4]
  {
    hide Group;
    assert Encode([a, b, c][3..]) == [];
    assert Group(a, b, c, 3) + [] == Group(a, b, c, 3);
  }

  lemma HandsOut(message: seq<byte>, out: seq<byte>, waiting: seq<byte>, c: byte)
    requires Keeps(message, out, waiting) && |waiting| == 2
    ensures Keeps(message + [c], out + Group(waiting[0], waiting[1], c, 3)[..4], [])
  {
    hide Encode, Group;
    var n := |message| - 2;
    var all := message + [c];
    EncodeSplits(message[..n], waiting + [c]);
    OneGroup(waiting[0], waiting[1], c);
    assert waiting + [c] == [waiting[0], waiting[1], c];
    assert message[..n] + (waiting + [c]) == all && all[..|all|] == all;
  }

  lemma Finishes(message: seq<byte>, out: seq<byte>, waiting: seq<byte>)
    requires Keeps(message, out, waiting)
    ensures Encode(message) == out + Encode(waiting)
  {
    hide Encode;
    var n := |message| - |waiting|;
    EncodeSplits(message[..n], waiting);
    assert message[..n] + waiting == message;
  }

  /** Hands out characters one by one; `out` is what the receiver of them has got. */
  class Encoder {
    const chunk: array<byte>
    var size: nat
    var out: seq<byte>
    ghost var message: seq<byte>

    ghost predicate Valid()
      reads this, chunk
    {
      chunk.Length == 3 && size < 3 && Keeps(message, out, chunk[..size])
    }

    constructor ()
      ensures Valid() && message == [] && fresh(chunk)
    {
      chunk := new byte[3];
      size, out, message := 0, [], [];
    }

    /** The characters of a chunk, without padding. */
    method EmitChunk(n: nat)
      requires chunk.Length == 3 && 1 <= n <= 3
      modifies `out
      ensures out == old(out) + Group(chunk[0], chunk[1], chunk[2], n)[..n + 1]
    {
      var a, b, c := chunk[0], chunk[1], chunk[2];
      out := out + [Code(a / 4)];
      out := out + [Code(a % 4 * 16 + b / 16)];
      if n > 1 {
        out := out + [Code(b % 16 * 4 + c / 64)];
      }
      if n > 2 {
        out := out + [Code(c % 64)];
      }
    }

    method TakeOctet(c: byte)
      requires Valid()
      modifies this, chunk
      ensures Valid() && message == old(message) + [c]
    {
      hide Keeps, Group;
      ghost var m, waiting := message, chunk[..size];
      message := message + [c];
      if size < 2 {
        Waits(m, out, waiting, c);
      } else {
        HandsOut(m, out, waiting, c);
      }
      chunk[size] := c;
      size := size + 1;
      assert chunk[..size] == waiting + [c];
      if size == 3 {
        assert waiting[0] == chunk[0] && waiting[1] == chunk[1];
        EmitChunk(3);
        size := 0;
        assert chunk[..0] == [];
      }
    }

    method Update(data: seq<byte>)
      requires Valid()
      modifies this, chunk
      ensures Valid() && message == old(message) + data
    {
      hide Keeps;
      ghost var m := message;
      assert m + data[..0] == m;
      for i := 0 to |data|
        invariant Valid() && message == m + data[..i]
      {
        TakeOctet(data[i]);
        assert m + data[..i] + [data[i]] == m + data[..i + 1];
      }
      assert data[..|data|] == data;
    }

    /** The last, incomplete group with its padding: everything handed out is the message encoded at once. */
    method Finish()
      requires Valid()
      modifies this, chunk
      ensures out == Encode(old(message))
    {
      Finishes(message, out, chunk[..size]);
      hide Keeps;
      ghost var was, waiting := out, chunk[..size];
      if size > 0 {
        for i := size to 3
          invariant chunk[..size] == waiting && (forall k | size <= k < i :: chunk[k] == 0)
          modifies chunk
        {
          chunk[i] := 0;
          assert chunk[..size] == waiting;
        }
        LastGroup(waiting);
        assert waiting[0] == chunk[0] && (size > 1 ==> waiting[1] == chunk[1]);
        hide Encode, Group;
        EmitChunk(size);
        ghost var g := Group(chunk[0], chunk[1], chunk[2], size);
        for i := 0 to 3 - size
          invariant out == was + g[..size + 1 + i]
          modifies `out
        {
          out := out + [PAD];
          assert g[size + 1 + i] == PAD;
          assert g[..size + 1 + i] + [PAD] == g[..size + 2 + i];
        }
        assert g[..4] == g;
      } else {
        assert waiting == [] && out + [] == out;
      }
    }
  }

  lemma LastGroup(waiting: seq<byte>)
    requires 0 < |waiting| < 3
    ensures
      var g := Group(waiting[0], if |waiting| > 1 then waiting[1] else 0, 0, |waiting|);
      Encode(waiting) == g && forall i | |waiting| < i < 4 :: g[i] == PAD
  {
    hide Code;
  }

  /** However the data is cut into pieces, the streaming encoder hands out what encoding it at once gives. */
  method EncodePieces(pieces: seq<seq<byte>>) returns (out: seq<byte>)
    ensures out == Encode(Concat(pieces))
  {
    hide Encode, Concat, Encoder.Valid;
    var encoder := new Encoder();
    Pieces(pieces);
    for i := 0 to |pieces|
      invariant encoder.Valid() && fresh(encoder) && fresh(encoder.chunk)
      invariant encoder.message + Concat(pieces[i..]) == Concat(pieces)
    {
      ConcatSuffix(pieces, i);
      ghost var was, later := encoder.message, Concat(pieces[i + 1..]);
      encoder.Update(pieces[i]);
      assert was + (pieces[i] + later) == was + pieces[i] + later;
    }
    assert encoder.message + [] == encoder.message;
    encoder.Finish();
    return encoder.out;
  }

  lemma Pieces(pieces: seq<seq<byte>>)
    ensures [] + Concat(pieces[0..]) == Concat(pieces) && Concat(pieces[|pieces|..]) == []
  {
    assert pieces[0..] == pieces;
  }

  // ----- encoding at once -----

  /** What is still to come: groups of the rest, or padding up to a whole group. */
  ghost predicate Coming(src: seq<byte>, done: seq<byte>, i: nat) {
    && |done| <= |Encode(src)|
    && if i <= |src| then done + Encode(src[i..]) == Encode(src)
       else |Encode(src)| - |done| < 4 && done + Pads(|Encode(src)| - |done|) == Encode(src)
  }

  function Pads(n: nat): (s: seq<byte>)
    ensures |s| == n
  {
    seq(n, i => PAD)
  }

  lemma GroupComes(src: seq<byte>, done: seq<byte>, i: nat)
    requires Coming(src, done, i) && i < |src|
    ensures
      var a, b, c := src[i], if i + 1 < |src| then src[i + 1] else 0, if i + 2 < |src| then src[i + 2] else 0;
      var n := if |src| - i < 3 then |src| - i else 3;
      |done| + 4 <= |Encode(src)| && Coming(src, done + Group(a, b, c, n)[..n + 1], i + 3)
  {
    var rest := src[i..];
    var a, b, c := src[i], if i + 1 < |src| then src[i + 1] else 0, if i + 2 < |src| then src[i + 2] else 0;
    var n := if |rest| < 3 then |rest| else 3;
    var g := Group(a, b, c, n);
    if n < 3 {
      LastGroup(rest);
      hide Encode, Group;
      assert g == g[..n + 1] + Pads(3 - n);
      assert done + (g[..n + 1] + Pads(3 - n)) == done + g[..n + 1] + Pads(3 - n);
      assert |Encode(src)| == |done| + 4;
    } else {
      assert rest[3..] == src[i + 3..];
      hide Encode, Group;
      GroupFirst(rest);
      assert g[..4] == g;
      assert done + (g + Encode(src[i + 3..])) == done + g + Encode(src[i + 3..]);
    }
  }

  lemma GroupFirst(rest: seq<byte>)
    requires |rest| >= 3
    ensures Encode(rest) == Group(rest[0], rest[1], rest[2], 3) + Encode(rest[3..])
  {
    hide Group;
  }

  /** BASE64_OUT: one character more. */
  method Put(dst: array<byte>, j: nat, c: byte) returns (next: nat)
    requires j < dst.Length
    modifies dst
    ensures next == j + 1 && dst[..next] == old(dst[..j]) + [c]
  {
    ghost var was := dst[..j];
    dst[j] := c;
    next := j + 1;
    SameElements(dst[..next], was + [c]);
  }

  method PutGroup(dst: array<byte>, start: nat, a: byte, b: byte, c: byte, n: nat) returns (j: nat)
    requires 1 <= n <= 3 && start + 4 <= dst.Length
    modifies dst
    ensures j == start + n + 1 && dst[..j] == old(dst[..start]) + Group(a, b, c, n)[..n + 1]
  {
    ghost var was := dst[..start];
    hide Code;
    j := Put(dst, start, Code(a / 4));
    j := Put(dst, j, Code(a % 4 * 16 + b / 16));
    assert dst[..j] == was + [Code(a / 4), Code(a % 4 * 16 + b / 16)];
    if n > 1 {
      j := Put(dst, j, Code(b % 16 * 4 + c / 64));
    }
    if n > 2 {
      j := Put(dst, j, Code(c % 64));
    }
    SameElements(dst[..j], was + Group(a, b, c, n)[..n + 1]);
  }

  /** The groups of the text, the last one without padding. */
  method PutGroups(src: seq<byte>, dst: array<byte>) returns (j: nat)
    requires dst.Length > |Encode(src)|
    modifies dst
    ensures j <= |Encode(src)| < j + 4 && dst[..j] + Pads(|Encode(src)| - j) == Encode(src)
  {
    hide Encode, Group, Coming;
    var i: nat := 0;
    j := 0;
    assert dst[..0] == [];
    ComingBegins(src);
    while i < |src|
      invariant j <= dst.Length && Coming(src, dst[..j], i)
    {
      var a := src[i];
      var b := if i + 1 >= |src| then 0 else src[i + 1];
      var c := if i + 2 >= |src| then 0 else src[i + 2];
      var n := if |src| - i < 3 then |src| - i else 3;
      GroupComes(src, dst[..j], i);
      j := PutGroup(dst, j, a, b, c, n);
      i := i + 3;
    }
    PaddingComes(src, dst[..j], i);
  }

  lemma ComingBegins(src: seq<byte>)
    ensures Coming(src, [], 0)
  {
    hide Encode;
    assert src[0..] == src && [] + Encode(src) == Encode(src);
  }

  /** Encodes into memory and ends the text with a zero octet. */
  method EncodeInto(src: seq<byte>, dst: array<byte>) returns (j: nat)
    requires dst.Length > |Encode(src)|
    modifies dst
    ensures j == |Encode(src)| && dst[..j] == Encode(src) && dst[j] == 0
  {
    j := PutGroups(src, dst);
    ghost var text := Encode(src);
    hide Encode;
    while j % 4 != 0
      invariant j <= |text| < j + 4 && dst[..j] + Pads(|text| - j) == text
      decreases |text| - j
    {
      ghost var was := dst[..j];
      PadComes(was, |text| - j);
      j := Put(dst, j, PAD);
    }
    assert dst[..j] + Pads(0) == dst[..j];
    dst[j] := 0;
  }

  lemma PadComes(done: seq<byte>, n: nat)
    requires n > 0
    ensures done + Pads(n) == done + [PAD] + Pads(n - 1)
  {
    assert Pads(n) == [PAD] + Pads(n - 1);
  }

  lemma PaddingComes(src: seq<byte>, done: seq<byte>, i: nat)
    requires Coming(src, done, i) && i >= |src|
    ensures |done| <= |Encode(src)| < |done| + 4 && done + Pads(|Encode(src)| - |done|) == Encode(src)
  {
    if i == |src| {
      assert src[i..] == [] && done + [] == done;
      assert done + Pads(0) == done;
    }
  }

  // ----- decoding -----

  /** What has been decoded, and what the rest decodes to, make up the whole. */
  ghost predicate Decoding(s: seq<byte>, done: seq<byte>, p: nat) {
    p <= |s| && Decode(s) == (done + Decode(s[p..]).0, p + Decode(s[p..]).1)
  }

  lemma DecodingBegins(s: seq<byte>)
    ensures Decoding(s, [], 0)
  {
    hide Decode;
    assert s[0..] == s && [] + Decode(s).0 == Decode(s).0;
  }

  predicate Readable(s: seq<byte>, p: nat) {
    p + 4 <= |s| && Value(s[p]) != 255 && Value(s[p + 1]) != 255 && Value(s[p + 2]) != 255 && Value(s[p + 3]) != 255
  }

  lemma DecodingStops(s: seq<byte>, done: seq<byte>, p: nat)
    requires Decoding(s, done, p) && !Readable(s, p)
    ensures Decode(s) == (done, p)
  {
    assert Decode(s[p..]) == ([], 0);
    hide Decode;
    assert done + [] == done;
  }

  /** The octets of four characters, and whether there is a reason to go on. */
  function Quad(a: nat, b: nat, c: nat, d: nat): (seq<byte>, bool) {
    if a == 200 || b == 200 then ([], false)
    else if c == 200 then ([FirstOctet(a, b)], false)
    else if d == 200 then ([FirstOctet(a, b), SecondOctet(b, c)], false)
    else ([FirstOctet(a, b), SecondOctet(b, c), ThirdOctet(c, d)], true)
  }

  lemma DecodingGoesOn(s: seq<byte>, done: seq<byte>, p: nat)
    requires Decoding(s, done, p) && Readable(s, p)
    ensures
      var (octets, more) := Quad(Value(s[p]), Value(s[p + 1]), Value(s[p + 2]), Value(s[p + 3]));
      && |done| + |octets| <= |Decode(s).0|
      && if more then Decoding(s, done + octets, p + 4) else Decode(s) == (done + octets, p + 4)
  {
    hide Value, FirstOctet, SecondOctet, ThirdOctet;
    var rest := s[p..];
    assert rest[4..] == s[p + 4..];
    var (octets, more) := Quad(Value(s[p]), Value(s[p + 1]), Value(s[p + 2]), Value(s[p + 3]));
    if more {
      assert Decode(rest) == (octets + Decode(s[p + 4..]).0, 4 + Decode(s[p + 4..]).1);
      assert done + (octets + Decode(s[p + 4..]).0) == done + octets + Decode(s[p + 4..]).0;
    } else {
      assert Decode(rest) == (octets, 4);
    }
  }

  /** Decodes into memory, puts a zero octet behind, and tells how much has been read and written. */
  method DecodeInto(s: seq<byte>, dst: array<byte>) returns (taken: nat, n: nat)
    requires dst.Length > |Decode(s).0|
    modifies dst
    ensures n < dst.Length && (dst[..n], taken) == Decode(s) && dst[n] == 0
  {
    ghost var whole := Decode(s);
    hide Decode, Value, FirstOctet, SecondOctet, ThirdOctet, Decoding;
    taken, n := 0, 0;
    assert dst[..0] == [];
    DecodingBegins(s);
    while Readable(s, taken)
      invariant taken <= |s| && n <= |whole.0| && Decoding(s, dst[..n], taken)
      decreases |s| - taken
    {
      DecodingGoesOn(s, dst[..n], taken);
      var (octets, more) := Quad(Value(s[taken]), Value(s[taken + 1]), Value(s[taken + 2]), Value(s[taken + 3]));
      ghost var was := dst[..n];
      forall k | 0 <= k < |octets| {
        dst[n + k] := octets[k];
      }
      n, taken := n + |octets|, taken + 4;
      SameElements(dst[..n], was + octets);
      if !more {
        n := Ended(dst, n);
        return;
      }
    }
    DecodingStops(s, dst[..n], taken);
    n := Ended(dst, n);
  }

  method Ended(dst: array<byte>, n: nat) returns (m: nat)
    requires n < dst.Length
    modifies dst
    ensures m == n && dst[..n] == old(dst[..n]) && dst[n] == 0
  {
    ghost var was := dst[..n];
    dst[n] := 0;
    m := n;
    SameElements(dst[..n], was);
  }

  // ----- decoding in place -----

  /** The characters up to `m`, of which those from `i` on are still as they were. */
  ghost predicate InPlace(u: seq<byte>, m: nat, z: seq<byte>, i: nat, j: nat) {
    && j <= i <= m <= |u| == |z| && z[i..] == u[i..]
    && z[..j] + Lenient(u[i..m]) == Lenient(u[..m])
  }

  lemma LenientUnfolds(s: seq<byte>)
    ensures |s| >= 4 ==>
              Lenient(s) ==
                [FirstOctet(LenientValue(s[0]), LenientValue(s[1])),
                  SecondOctet(LenientValue(s[1]), LenientValue(s[2])),
                 ThirdOctet(LenientValue(s[2]), LenientValue(s[3]))] + Lenient(s[4..])
    ensures |s| == 3 ==>
              Lenient(s) ==
                [FirstOctet(LenientValue(s[0]), LenientValue(s[1])),
                  SecondOctet(LenientValue(s[1]), LenientValue(s[2]))]
    ensures |s| == 2 ==> Lenient(s) == [FirstOctet(LenientValue(s[0]), LenientValue(s[1]))]
    ensures |s| < 2 ==> Lenient(s) == []
  {
  }

  /** `z` with some octets overwritten. */
  function Overwritten(z: seq<byte>, at: nat, octets: seq<byte>): (r: seq<byte>)
    requires at + |octets| <= |z|
    ensures |r| == |z|
  {
    z[..at] + octets + z[at + |octets|..]
  }

  lemma OverwrittenParts(z: seq<byte>, at: nat, octets: seq<byte>, i: nat)
    requires at + |octets| <= i <= |z|
    ensures
      var r := Overwritten(z, at, octets);
      r[..at + |octets|] == z[..at] + octets && r[i..] == z[i..]
  {
    SameElements(Overwritten(z, at, octets)[i..], z[i..]);
  }

  /** The octets of up to four characters, as many as the group has but one. */
  function LenientQuad(s: seq<byte>, n: nat): (r: seq<byte>)
    requires 2 <= n <= 4 && n <= |s|
    ensures |r| == n - 1
  {
    var a, b := LenientValue(s[0]), LenientValue(s[1]);
    if n == 2 then [FirstOctet(a, b)]
    else
      var c := LenientValue(s[2]);
      if n == 3 then [FirstOctet(a, b), SecondOctet(b, c)]
      else [FirstOctet(a, b), SecondOctet(b, c), ThirdOctet(c, LenientValue(s[3]))]
  }

  lemma QuadOfRest(u: seq<byte>, m: nat, z: seq<byte>, i: nat)
    requires i + 4 <= m <= |u| == |z| && z[i..] == u[i..]
    ensures LenientQuad(z[i..], 4) + Lenient(u[i + 4..m]) == Lenient(u[i..m])
  {
    var rest := u[i..m];
    LenientUnfolds(rest);
    assert forall k | 0 <= k < 4 :: z[i..][k] == rest[k];
    assert rest[4..] == u[i + 4..m];
    hide Lenient, LenientValue, FirstOctet, SecondOctet, ThirdOctet;
  }

  lemma StillTheSame(u: seq<byte>, z: seq<byte>, i: nat, k: nat)
    requires i <= k <= |u| == |z| && z[i..] == u[i..]
    ensures z[k..] == u[k..]
  {
    assert z[k..] == z[i..][k - i..];
    assert u[k..] == u[i..][k - i..];
  }

  lemma InPlaceGoesOn(u: seq<byte>, m: nat, z: seq<byte>, i: nat, j: nat)
    requires InPlace(u, m, z, i, j) && i + 4 <= m
    ensures InPlace(u, m, Overwritten(z, j, LenientQuad(z[i..], 4)), i + 4, j + 3)
  {
    hide Lenient, Overwritten, LenientQuad;
    var octets, more := LenientQuad(z[i..], 4), Lenient(u[i + 4..m]);
    QuadOfRest(u, m, z, i);
    OverwrittenParts(z, j, octets, i + 4);
    StillTheSame(u, z, i, i + 4);
    assert z[..j] + (octets + more) == z[..j] + octets + more;
  }

  lemma InPlaceEnds(u: seq<byte>, m: nat, z: seq<byte>, i: nat, j: nat)
    requires InPlace(u, m, z, i, j) && m - i < 4
    ensures
      if m - i < 2 then z[..j] == Lenient(u[..m])
      else Overwritten(z, j, LenientQuad(z[i..], m - i))[..j + m - i - 1] == Lenient(u[..m])
  {
    var rest := u[i..m];
    LenientUnfolds(rest);
    assert forall k | 0 <= k < m - i :: z[i..][k] == rest[k];
    hide Lenient, LenientValue, FirstOctet, SecondOctet, ThirdOctet, Overwritten;
    if m - i < 2 {
      assert z[..j] + [] == z[..j];
    } else {
      OverwrittenParts(z, j, LenientQuad(z[i..], m - i), m);
    }
  }

  method Overwrite(z: array<byte>, at: nat, octets: seq<byte>)
    requires at + |octets| <= z.Length
    modifies z
    ensures z[..] == Overwritten(old(z[..]), at, octets)
  {
    forall k | 0 <= k < |octets| {
      z[at + k] := octets[k];
    }
  }

  /** Decodes the text of `n` characters where it stands, and puts a zero octet behind what it has become. */
  method Decode64(z: array<byte>, n: nat) returns (j: nat)
    requires n < z.Length
    modifies z
    ensures j <= n && z[..j] == Lenient(Stripped(old(z[..n]))) && z[j] == 0
    ensures z[n + 1..] == old(z[n + 1..])
  {
    ghost var u := z[..];
    var m := StrippedLength(z, n);
    assert u[..m] == Stripped(z[..n]);
    var i: nat := 0;
    j := 0;
    InPlaceBegins(u, m);
    hide Lenient, Stripped, InPlace, Overwritten, LenientQuad;
    while i + 3 < m
      invariant j <= i <= m && InPlace(u, m, z[..], i, j)
      invariant z[n + 1..] == u[n + 1..]
    {
      InPlaceGoesOn(u, m, z[..], i, j);
      OverwrittenParts(z[..], j, LenientQuad(z[i..], 4), n + 1);
      Overwrite(z, j, LenientQuad(z[i..], 4));
      i, j := i + 4, j + 3;
    }
    InPlaceEnds(u, m, z[..], i, j);
    if i + 1 < m {
      OverwrittenParts(z[..], j, LenientQuad(z[i..], m - i), n + 1);
      Overwrite(z, j, LenientQuad(z[i..], m - i));
      j := j + (m - i - 1);
    }
    ghost var text := z[..j];
    z[j] := 0;
    SameElements(z[..j], text);
  }

  /** The length without the padding at the end. */
  method StrippedLength(z: array<byte>, n: nat) returns (m: nat)
    requires n <= z.Length
    ensures m <= n && z[..m] == Stripped(z[..n])
  {
    m := n;
    while m > 0 && z[m - 1] == PAD
      invariant m <= n && Stripped(z[..m]) == Stripped(z[..n])
    {
      assert z[..m][..m - 1] == z[..m - 1] && z[..m][m - 1] == z[m - 1];
      m := m - 1;
    }
    assert m > 0 ==> z[..m][m - 1] == z[m - 1];
  }

  lemma InPlaceBegins(u: seq<byte>, m: nat)
    requires m <= |u|
    ensures InPlace(u, m, u, 0, 0)
  {
    hide Lenient;
    assert u[..0] + Lenient(u[0..m]) == Lenient(u[..m]);
  }
}
