/** Octets, the bit operations the protocol code applies to them, and network byte order. */
module Bytes {

  type byte = x: int | 0 <= x < 256

  const TWO_TO_THE_64: int := 0x1_0000_0000_0000_0000

  /** Exclusive or of the low `width` bits. */
  function XorBits(a: nat, b: nat, width: nat): nat {
    if width == 0 then 0 else (a % 2 + b % 2) % 2 + 2 * XorBits(a / 2, b / 2, width - 1)
  }

  function Power2(n: nat): (p: nat)
    ensures p > 0
  {
    if n == 0 then 1 else 2 * Power2(n - 1)
  }

  lemma {:induction false} XorBitsBound(a: nat, b: nat, width: nat)
    ensures XorBits(a, b, width) < Power2(width)
  {
    if width > 0 {
      XorBitsBound(a / 2, b / 2, width - 1);
    }
  }

  function Xor(a: byte, b: byte): byte {
    XorBitsBound(a, b, 8);
    assert Power2(8) == 256 by { assert Power2(4) == 16; }
    XorBits(a, b, 8)
  }

  lemma {:induction false} XorBitsCancels(a: nat, b: nat, width: nat)
    requires a < Power2(width)
    ensures XorBits(XorBits(a, b, width), b, width) == a
  {
    if width > 0 {
      var rest := XorBits(a / 2, b / 2, width - 1);
      var low := (a % 2 + b % 2) % 2;
      XorBitsCancels(a / 2, b / 2, width - 1);
      HalfAndParity(low, rest);
      BitCancels(a, b);
      hide *;
      FirstBit(low + 2 * rest, b, width);
      FirstBit(a, b, width);
    }
  }

  lemma FirstBit(a: nat, b: nat, width: nat)
    requires width > 0
    ensures XorBits(a, b, width) == (a % 2 + b % 2) % 2 + 2 * XorBits(a / 2, b / 2, width - 1)
  {
  }

  lemma BitCancels(a: nat, b: nat)
    ensures ((a % 2 + b % 2) % 2 + b % 2) % 2 == a % 2 && a == a % 2 + 2 * (a / 2)
  {
  }

  lemma HalfAndParity(low: nat, rest: nat)
    requires low < 2
    ensures (low + 2 * rest) % 2 == low && (low + 2 * rest) / 2 == rest
  {
  }

  /** Masking twice with the same key octet restores the octet. */
  lemma XorCancels(a: byte, b: byte)
    ensures Xor(Xor(a, b), b) == a
  {
    assert Power2(8) == 256 by { assert Power2(4) == 16; }
    XorBitsCancels(a, b, 8);
  }

  /** The bit of weight 2^i. */
  predicate Bit(n: nat, i: nat) {
    n / Power2(i) % 2 == 1
  }

  lemma HalfOfBit(n: nat, i: nat)
    requires i > 0
    ensures Bit(n, i) <==> Bit(n / 2, i - 1)
  {
    HalvesFirst(n, Power2(i - 1));
  }

  lemma HalvesFirst(n: nat, p: nat)
    requires p > 0
    ensures n / (2 * p) == n / 2 / p
  {
    var q, r := n / 2 / p, n / 2 % p;
    assert n / 2 == q * p + r;
    assert n == q * (2 * p) + (2 * r + n % 2) by {
      assert 2 * (q * p) == q * (2 * p);
    }
    QuotientIs(n, 2 * p, q, 2 * r + n % 2);
  }

  lemma QuotientIs(n: nat, d: nat, q: nat, r: nat)
    requires r < d && n == q * d + r
    ensures n / d == q
  {
    var k := n / d;
    Multiples(k, q, d);
    Multiples(q, k, d);
  }

  lemma Multiples(a: nat, b: nat, d: nat)
    ensures a < b ==> a * d + d <= b * d
  {
    if a < b {
      var more := b - a - 1;
      assert more * d >= 0;
      assert b * d == (a + 1 + more) * d == a * d + d + more * d;
    }
  }

  lemma {:induction false} XorBitsBitwise(a: nat, b: nat, width: nat, i: nat)
    requires i < width
    ensures Bit(XorBits(a, b, width), i) <==> Bit(a, i) != Bit(b, i)
    decreases width
  {
    var low, rest := (a % 2 + b % 2) % 2, XorBits(a / 2, b / 2, width - 1);
    HalfAndParity(low, rest);
    if i == 0 {
      LowBits(a, b);
    } else {
      XorBitsBitwise(a / 2, b / 2, width - 1, i - 1);
      HalfOfBit(low + 2 * rest, i);
      HalfOfBit(a, i);
      HalfOfBit(b, i);
    }
  }

  lemma LowBits(a: nat, b: nat)
    ensures Power2(0) == 1
    ensures (a % 2 + b % 2) % 2 == 1 <==> (a % 2 == 1) != (b % 2 == 1)
    ensures Bit(a, 0) <==> a % 2 == 1
    ensures Bit(b, 0) <==> b % 2 == 1
  {
  }

  /** A bit of the exclusive or is set exactly when it is set in one of the two octets and not in the other. */
  lemma XorIsBitwise(a: byte, b: byte, i: nat)
    requires i < 8
    ensures Bit(Xor(a, b), i) <==> Bit(a, i) != Bit(b, i)
  {
    hide Bit, XorBits;
    XorBitsBitwise(a, b, 8, i);
  }

  /** The octets xor the key, the key repeating every four octets. */
  function Masked(key: seq<byte>, data: seq<byte>): (s: seq<byte>)
    requires |key| == 4
    ensures |s| == |data|
  {
    seq(|data|, i requires 0 <= i < |data| => Xor(data[i], key[i % 4]))
  }

  lemma MaskingTwice(key: seq<byte>, data: seq<byte>)
    requires |key| == 4
    ensures Masked(key, Masked(key, data)) == data
  {
    var m := Masked(key, data);
    forall i | 0 <= i < |data|
      ensures Masked(key, m)[i] == data[i]
    {
      XorCancels(data[i], key[i % 4]);
    }
  }

  /** Bit by bit, octet i of the payload meets octet i modulo four of the key. */
  lemma MaskedIsBitwise(key: seq<byte>, data: seq<byte>, i: nat, bit: nat)
    requires |key| == 4 && i < |data| && bit < 8
    ensures Bit(Masked(key, data)[i], bit) <==> Bit(data[i], bit) != Bit(key[i % 4], bit)
  {
    hide Bit, Xor;
    XorIsBitwise(data[i], key[i % 4], bit);
  }

  /** The number a big-endian octet string stands for. */
  function FromBigEndian(s: seq<byte>): nat {
    if s == [] then 0 else FromBigEndian(s[..|s| - 1]) * 256 + s[|s| - 1]
  }

  function ToBigEndian(n: nat, width: nat): (s: seq<byte>)
    ensures |s| == width
  {
    if width == 0 then [] else ToBigEndian(n / 256, width - 1) + [n % 256]
  }

  function Power256(n: nat): (p: nat)
    ensures p > 0
  {
    if n == 0 then 1 else 256 * Power256(n - 1)
  }

  lemma {:induction false} BigEndianRoundTrip(n: nat, width: nat)
    requires n < Power256(width)
    ensures FromBigEndian(ToBigEndian(n, width)) == n
  {
    if width > 0 {
      BigEndianRoundTrip(n / 256, width - 1);
      var s := ToBigEndian(n, width);
      assert s[..|s| - 1] == ToBigEndian(n / 256, width - 1);
    }
  }

  /** Octet i of a number in network order is its digit of weight 256^(width - 1 - i). */
  lemma {:induction false} BigEndianOctet(n: nat, width: nat, i: nat)
    requires i < width
    ensures ToBigEndian(n, width)[i] == n / Power256(width - 1 - i) % 256
    decreases width
  {
    if i == width - 1 {
      assert Power256(0) == 1;
    } else {
      BigEndianOctet(n / 256, width - 1, i);
      DividesTwice(n, Power256(width - 2 - i));
    }
  }

  lemma DividesTwice(n: nat, p: nat)
    requires p > 0
    ensures n / (256 * p) == n / 256 / p
  {
    var q, r := n / 256 / p, n / 256 % p;
    assert n / 256 == q * p + r;
    assert n == q * (256 * p) + (256 * r + n % 256) by {
      assert 256 * (q * p) == q * (256 * p);
    }
    QuotientIs(n, 256 * p, q, 256 * r + n % 256);
  }

  lemma {:induction false} BigEndianBound(s: seq<byte>)
    ensures FromBigEndian(s) < Power256(|s|)
  {
    if s != [] {
      BigEndianBound(s[..|s| - 1]);
    }
  }

  /** Two octets in network order as a number. */
  function Number16(hi: byte, lo: byte): (n: nat)
    ensures n < 0x1_0000
  {
    (hi as int) * 256 + (lo as int)
  }

  /** Two octets in network order, as ntohs reads them. */
  lemma FromBigEndian2(s: seq<byte>)
    requires |s| == 2
    ensures FromBigEndian(s) == 256 * (s[0] as int) + s[1]
  {
    assert s[..1] == [s[0]];
    assert s[..1][..0] == [];
    assert FromBigEndian(s[..1]) == s[0];
  }

  function Concat<T>(parts: seq<seq<T>>): seq<T> {
    if parts == [] then [] else parts[0] + Concat(parts[1..])
  }

  /** Equality of sequences, element by element. */
  lemma SameElements<T>(s: seq<T>, t: seq<T>)
    requires |s| == |t|
    requires forall i | 0 <= i < |s| :: s[i] == t[i]
    ensures s == t
  {
  }

  /** The first place of an element, or the length. */
  function IndexOf<T(==)>(s: seq<T>, c: T): (n: nat)
    ensures n <= |s| && (n < |s| ==> s[n] == c) && forall i | 0 <= i < n :: s[i] != c
  {
    if s == [] || s[0] == c then 0 else 1 + IndexOf(s[1..], c)
  }

  lemma IndexIs<T>(s: seq<T>, c: T, n: nat)
    requires n <= |s| && (n < |s| ==> s[n] == c) && forall i | 0 <= i < n :: s[i] != c
    ensures IndexOf(s, c) == n
  {
  }

  /** A slice under a name, so that proofs about positions do not take every slice apart. */
  function Part<T>(s: seq<T>, i: nat, j: nat): (r: seq<T>)
    requires i <= j <= |s|
    ensures |r| == j - i
  {
    s[i..j]
  }

  lemma PartOfPart<T>(s: seq<T>, i: nat, j: nat, k: nat, m: nat)
    requires i <= j <= |s| && k <= m <= j - i
    ensures Part(Part(s, i, j), k, m) == Part(s, i + k, i + m)
  {
    forall n | 0 <= n < m - k
      ensures s[i..j][k..m][n] == s[i + k..i + m][n]
    {
      assert s[i..j][k + n] == s[i + (k + n)];
    }
    SameElements(s[i..j][k..m], s[i + k..i + m]);
  }

  lemma HeadAndTail<T>(s: seq<T>)
    requires s != []
    ensures s == [s[0]] + s[1..]
  {
  }

  lemma SliceOfPrefix<T>(s: seq<T>, more: seq<T>, i: nat, j: nat)
    requires i <= j <= |s|
    ensures (s + more)[i..j] == s[i..j] && (s + more)[j..] == s[j..] + more
  {
    SameElements((s + more)[i..j], s[i..j]);
    SameElements((s + more)[j..], s[j..] + more);
  }

  lemma ThreeParts<T>(s: seq<T>, i: nat, j: nat)
    requires i <= j <= |s|
    ensures s == s[..i] + s[i..j] + s[j..]
  {
    SameElements(s, s[..i] + s[i..j] + s[j..]);
  }

  lemma SliceOfSuffix<T>(s: seq<T>, a: nat, i: nat, j: nat)
    requires a <= |s| && i <= j <= |s| - a
    ensures s[a..][i..j] == s[a + i..a + j]
  {
    SameElements(s[a..][i..j], s[a + i..a + j]);
  }

  lemma ConcatSuffix<T>(parts: seq<seq<T>>, i: nat)
    requires i < |parts|
    ensures Concat(parts[i..]) == parts[i] + Concat(parts[i + 1..])
  {
    assert parts[i..][1..] == parts[i + 1..];
  }
}
