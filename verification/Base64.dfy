/** Base64 (RFC 4648, section 4): two encoders and two decoders. */
module Base64 {
  import opened Bytes

  const PAD: byte := 61

  // ----- the alphabet -----

  /** The character for six bits, as the streaming encoder works it out. */
  function Code(v: nat): (c: byte)
    requires v < 64
    ensures c != PAD && c < 128
  {
    if v < 26 then v + 65
    else if v < 52 then v - 26 + 97
    else if v < 62 then v - 52 + 48
    else if v == 62 then 43
    else 47
  }

  /** The inverse, as the table of the decoder gives it: 200 for the padding character, 255 for any other. */
  function Value(c: byte): (v: nat)
    ensures v < 64 || v == 200 || v == 255
  {
    var k := c % 128;
    if 65 <= k <= 90 then k - 65
    else if 97 <= k <= 122 then k - 97 + 26
    else if 48 <= k <= 57 then k - 48 + 52
    else if k == 43 then 62
    else if k == 47 then 63
    else if k == PAD then 200
    else 255
  }

  lemma CodeHasValue(v: nat)
    requires v < 64
    ensures Value(Code(v)) == v
  {
    if v < 26 {
    } else if v < 52 {
    } else {
    }
  }

  // ----- encoding -----

  /** Up to three octets, the missing ones zero, in four characters, the missing ones padding. */
  function Group(a: byte, b: byte, c: byte, n: nat): (s: seq<byte>)
    requires 1 <= n <= 3
    ensures |s| == 4
  {
    [Code(a / 4), Code(a % 4 * 16 + b / 16),
     if n > 1 then Code(b % 16 * 4 + c / 64) else PAD,
     if n > 2 then Code(c % 64) else PAD]
  }

  function Encode(data: seq<byte>): (s: seq<byte>)
    ensures |s| % 4 == 0 && |s| == (|data| + 2) / 3 * 4
  {
    if data == [] then []
    else if |data| == 1 then Group(data[0], 0, 0, 1)
    else if |data| == 2 then Group(data[0], data[1], 0, 2)
    else
      OneGroupMore(|data|);
      Group(data[0], data[1], data[2], 3) + Encode(data[3..])
  }

  lemma OneGroupMore(n: nat)
    requires n >= 3
    ensures (n + 2) / 3 * 4 == 4 + (n - 3 + 2) / 3 * 4
  {
  }

  // ----- decoding -----

  function FirstOctet(a: nat, b: nat): byte {
    a % 64 * 4 + b / 16 % 4
  }

  function SecondOctet(b: nat, c: nat): byte {
    b % 16 * 16 + c / 4 % 16
  }

  function ThirdOctet(c: nat, d: nat): byte {
    c % 4 * 64 + d % 64
  }

  /** What is decoded, and how many characters that has taken. */
  function Decode(s: seq<byte>): (r: (seq<byte>, nat))
    ensures r.1 <= |s|
    decreases |s|
  {
    if |s| < 4 then ([], 0)
    else
      var a, b, c, d := Value(s[0]), Value(s[1]), Value(s[2]), Value(s[3]);
      if a == 255 || b == 255 || c == 255 || d == 255 then ([], 0)
      else if a == 200 || b == 200 then ([], 4)
      else if c == 200 then ([FirstOctet(a, b)], 4)
      else if d == 200 then ([FirstOctet(a, b), SecondOctet(b, c)], 4)
      else
        var rest := Decode(s[4..]);
        ([FirstOctet(a, b), SecondOctet(b, c), ThirdOctet(c, d)] + rest.0, 4 + rest.1)
  }

  lemma GroupRoundTrip(a: byte, b: byte, c: byte)
    ensures
      var p, q, r, s := a / 4, a % 4 * 16 + b / 16, b % 16 * 4 + c / 64, c % 64;
      && p < 64 && q < 64 && r < 64 && s < 64
      && FirstOctet(p, q) == a && SecondOctet(q, r) == b && ThirdOctet(r, s) == c
  {
  }

  lemma GroupValues(a: byte, b: byte, c: byte, n: nat)
    requires 1 <= n <= 3
    ensures
      var g := Group(a, b, c, n);
      && Value(g[0]) == a / 4 && Value(g[1]) == a % 4 * 16 + b / 16
      && Value(g[2]) == (if n > 1 then b % 16 * 4 + c / 64 else 200)
      && Value(g[3]) == (if n > 2 then c % 64 else 200)
  {
    CodeHasValue(a / 4);
    CodeHasValue(a % 4 * 16 + b / 16);
    CodeHasValue(b % 16 * 4 + c / 64);
    CodeHasValue(c % 64);
    assert Value(PAD) == 200;
    hide Code, Value;
  }

  lemma DecodeUnfolds(g: seq<byte>, rest: seq<byte>)
    requires |g| == 4 && Value(g[0]) < 64 && Value(g[1]) < 64
    ensures
      var a, b, c, d := Value(g[0]), Value(g[1]), Value(g[2]), Value(g[3]);
      && (c == 200 && d == 200 ==> Decode(g + rest) == ([FirstOctet(a, b)], 4))
      && (c < 64 && d == 200 ==> Decode(g + rest) == ([FirstOctet(a, b), SecondOctet(b, c)], 4))
      && (c < 64 && d < 64 ==>
            var r := Decode(rest);
            Decode(g + rest) == ([FirstOctet(a, b), SecondOctet(b, c), ThirdOctet(c, d)] + r.0, 4 + r.1))
  {
    hide Value, FirstOctet, SecondOctet, ThirdOctet;
    assert (g + rest)[4..] == rest;
  }

  /** Decoding what has been encoded gives it back, and takes all of it. */
  lemma {:induction false} DecodeEncode(data: seq<byte>)
    ensures Decode(Encode(data)) == (data, |Encode(data)|)
    decreases |data|
  {
    hide Value, Group, FirstOctet, SecondOctet, ThirdOctet, Decode;
    if data == [] {
      NothingToDecode();
    } else if |data| < 3 {
      LastGroupRoundTrip(data);
    } else {
      DecodeEncode(data[3..]);
      GroupIsDecoded(data[0], data[1], data[2], 3, Encode(data[3..]));
      assert data == [data[0], data[1], data[2]] + data[3..];
    }
  }

  lemma NothingToDecode()
    ensures Decode([]) == ([], 0)
  {
  }

  lemma GroupIsDecoded(a: byte, b: byte, c: byte, n: nat, rest: seq<byte>)
    requires 1 <= n <= 3
    ensures
      var r := Decode(Group(a, b, c, n) + rest);
      if n == 1 then r == ([a], 4) else if n == 2 then r == ([a, b], 4)
      else r == ([a, b, c] + Decode(rest).0, 4 + Decode(rest).1)
  {
    GroupValues(a, b, c, n);
    GroupRoundTrip(a, b, c);
    hide Value, Group, FirstOctet, SecondOctet, ThirdOctet, Decode;
    DecodeUnfolds(Group(a, b, c, n), rest);
  }

  lemma LastGroupRoundTrip(data: seq<byte>)
    requires 1 <= |data| < 3
    ensures Decode(Encode(data)) == (data, |Encode(data)|)
  {
    hide Group, Decode;
    var b := if |data| == 2 then data[1] else 0;
    var g := Group(data[0], b, 0, |data|);
    GroupIsDecoded(data[0], b, 0, |data|, []);
    assert g + [] == g;
    assert data == if |data| == 1 then [data[0]] else [data[0], data[1]];
  }

  /** Whole groups of three are encoded on their own. */
  lemma {:induction false} EncodeSplits(whole: seq<byte>, more: seq<byte>)
    requires |whole| % 3 == 0
    ensures Encode(whole + more) == Encode(whole) + Encode(more)
    decreases |whole|
  {
    hide Group;
    if whole == [] {
      assert whole + more == more && [] + Encode(more) == Encode(more);
    } else {
      EncodeSplits(whole[3..], more);
      assert (whole + more)[3..] == whole[3..] + more;
      var g := Group(whole[0], whole[1], whole[2], 3);
      assert g + (Encode(whole[3..]) + Encode(more)) == g + Encode(whole[3..]) + Encode(more);
    }
  }

  // ----- the other decoder -----

  /** Without the padding at the end. */
  function Stripped(s: seq<byte>): (r: seq<byte>)
    ensures |r| <= |s|
    decreases |s|
  {
    if s != [] && s[|s| - 1] == PAD then Stripped(s[..|s| - 1]) else s
  }

  /** Six bits, zero for a character that is not of the alphabet. */
  function LenientValue(c: byte): (v: nat)
    ensures v < 64
  {
    if Value(c) < 64 then Value(c) else 0
  }

  /** Groups of four characters without padding; of a last group, as many octets as it makes. */
  function Lenient(s: seq<byte>): (r: seq<byte>)
    ensures |r| <= |s|
    decreases |s|
  {
    if |s| < 2 then []
    else
      var a, b := LenientValue(s[0]), LenientValue(s[1]);
      if |s| == 2 then [FirstOctet(a, b)]
      else
        var c := LenientValue(s[2]);
        if |s| == 3 then [FirstOctet(a, b), SecondOctet(b, c)]
        else [FirstOctet(a, b), SecondOctet(b, c), ThirdOctet(c, LenientValue(s[3]))] + Lenient(s[4..])
  }

  lemma {:induction false} StrippedBehind(front: seq<byte>, s: seq<byte>)
    requires Stripped(s) != []
    ensures Stripped(front + s) == front + Stripped(s)
    decreases |s|
  {
    var all := front + s;
    assert all[|all| - 1] == s[|s| - 1];
    if s[|s| - 1] == PAD {
      assert all[..|all| - 1] == front + s[..|s| - 1];
      StrippedBehind(front, s[..|s| - 1]);
    }
  }

  lemma StrippedGroup(a: byte, b: byte, c: byte, n: nat)
    requires 1 <= n <= 3
    ensures Stripped(Group(a, b, c, n)) == Group(a, b, c, n)[..n + 1]
  {
    var g := Group(a, b, c, n);
    hide Code;
    assert g[..4] == g && g[..4][..3] == g[..3] && g[..3][..2] == g[..2];
    assert Stripped(g[..2]) == g[..2];
    assert n < 3 ==> Stripped(g) == Stripped(g[..3]);
    assert n < 2 ==> Stripped(g[..3]) == Stripped(g[..2]);
    assert n == 2 ==> Stripped(g[..3]) == g[..3];
  }

  lemma LenientGroup(a: byte, b: byte, c: byte, n: nat)
    requires 1 <= n <= 3
    ensures Lenient(Group(a, b, c, n)[..n + 1]) == [a, b, c][..n]
  {
    var g := Group(a, b, c, n);
    GroupValues(a, b, c, n);
    GroupRoundTrip(a, b, c);
    hide Value, Group, FirstOctet, SecondOctet, ThirdOctet;
    assert n == 3 ==> Lenient(g[..4][4..]) == [];
  }

  lemma LenientWhole(a: byte, b: byte, c: byte, rest: seq<byte>)
    ensures Lenient(Group(a, b, c, 3) + rest) == [a, b, c] + Lenient(rest)
  {
    var g := Group(a, b, c, 3);
    GroupValues(a, b, c, 3);
    GroupRoundTrip(a, b, c);
    hide Value, Group, FirstOctet, SecondOctet, ThirdOctet;
    assert (g + rest)[4..] == rest;
  }

  /** The decoder that works in place gives the same octets as the other one, of whatever has been encoded. */
  lemma {:induction false} LenientDecodes(data: seq<byte>)
    ensures Lenient(Stripped(Encode(data))) == data
    ensures data != [] ==> Stripped(Encode(data)) != []
    decreases |data|
  {
    hide Group, Lenient, Stripped;
    if data == [] {
      NothingIsDecoded();
    } else {
      var n := if |data| < 3 then |data| else 3;
      var a, b, c := data[0], if n > 1 then data[1] else 0, if n > 2 then data[2] else 0;
      var rest := if |data| <= 3 then [] else data[3..];
      StrippedGroup(a, b, c, n);
      LenientGroup(a, b, c, n);
      assert [a, b, c][..n] + rest == data;
      if rest == [] {
        assert Encode(data) == Group(a, b, c, n) by {
          assert |data| == 3 ==> data[3..] == [] && Group(a, b, c, n) + [] == Group(a, b, c, n);
        }
        assert Group(a, b, c, n)[..n + 1] != [];
      } else {
        LenientDecodes(rest);
        StrippedBehind(Group(a, b, c, 3), Encode(rest));
        LenientWhole(a, b, c, Stripped(Encode(rest)));
      }
    }
  }

  lemma NothingIsDecoded()
    ensures Stripped(Encode([])) == [] && Lenient([]) == []
  {
  }

  // ----- what the characters say (RFC 4648, section 4) -----

  lemma AlphabetIs(v: nat)
    requires v < 64
    ensures
      var c := Code(v) as char;
      if v < 26 then c - 'A' == v as char else if v < 52 then c - 'a' == (v - 26) as char
      else if v < 62 then c - '0' == (v - 52) as char else c == if v == 62 then '+' else '/'
  {
  }

  /** Four characters are the digits, to the base 64, of the number that three octets are to the base 256. */
  lemma GroupIsNumber(a: byte, b: byte, c: byte)
    ensures
      var s := Encode([a, b, c]);
      && |s| == 4 && (forall i | 0 <= i < 4 :: Value(s[i]) < 64)
      && Value(s[0]) * 0x4_0000 + Value(s[1]) * 0x1000 + Value(s[2]) * 64 + Value(s[3]) ==
           a as int * 0x1_0000 + b as int * 256 + c as int
  {
    GroupValues(a, b, c, 3);
    var data := [a, b, c];
    assert data[3..] == [] && Encode([]) == [];
    assert Encode(data) == Group(a, b, c, 3);
    hide Value, Group;
  }

  /** One octet or two are encoded as if zeros followed, and the characters that say nothing are replaced by "=". */
  lemma LastGroups(a: byte, b: byte)
    ensures Encode([a]) == Encode([a, 0, 0])[..2] + [61, 61]
    ensures Encode([a, b]) == Encode([a, b, 0])[..3] + [61]
  {
    var one, two := [a, 0, 0], [a, b, 0];
    assert one[3..] == [] && two[3..] == [] && Encode([]) == [];
    assert Encode(one) == Group(a, 0, 0, 3) && Encode(two) == Group(a, b, 0, 3);
    hide Code;
  }

  /** What the decoder takes: octets are looked up without their top bit; "=" has a value of its own. */
  lemma ValueIs(c: byte)
    ensures Value(c) < 64 ==> Code(Value(c)) == c % 128
    ensures Value(c) >= 64 ==> forall v | 0 <= v < 64 :: Code(v) != c % 128
    ensures Value(c) == 200 <==> c % 128 == 61
  {
  }

  /** A character of the alphabet, whatever its top bit. */
  predicate InAlphabet(c: byte) {
    var k := c % 128;
    65 <= k <= 90 || 97 <= k <= 122 || 48 <= k <= 57 || k == 43 || k == 47
  }

  lemma KindsOfCharacters(c: byte)
    ensures InAlphabet(c) <==> Value(c) < 64
    ensures c % 128 == 61 <==> Value(c) == 200
  {
  }

  /** A foreign character ends the decoding in front of its group. */
  lemma ForeignEnds(s: seq<byte>, i: nat)
    requires i < 4 <= |s| && !InAlphabet(s[i]) && s[i] % 128 != 61
    ensures Decode(s) == ([], 0)
  {
    KindsOfCharacters(s[i]);
    hide Value, InAlphabet;
  }

  /** Padding ends it behind its group: it is taken for what stands in front of the first "=". */
  lemma PaddingEnds(s: seq<byte>, i: nat)
    requires i < 4 <= |s| && s[i] % 128 == 61 && forall k | 0 <= k < i :: InAlphabet(s[k])
    requires forall k | i < k < 4 :: InAlphabet(s[k]) || s[k] % 128 == 61
    ensures Decode(s).1 == 4 && |Decode(s).0| == if i < 2 then 0 else i - 1
  {
    KindsOfCharacters(s[0]);
    KindsOfCharacters(s[1]);
    KindsOfCharacters(s[2]);
    KindsOfCharacters(s[3]);
    hide Value, InAlphabet;
  }

  lemma WholeGroup(s: seq<byte>)
    requires |s| >= 4 && InAlphabet(s[0]) && InAlphabet(s[1]) && InAlphabet(s[2]) && InAlphabet(s[3])
    ensures Decode(s).1 == 4 + Decode(s[4..]).1 && |Decode(s).0| == 3 + |Decode(s[4..]).0|
    ensures Decode(s).0[3..] == Decode(s[4..]).0
  {
    KindsOfCharacters(s[0]);
    KindsOfCharacters(s[1]);
    KindsOfCharacters(s[2]);
    KindsOfCharacters(s[3]);
    hide Value, InAlphabet, FirstOctet, SecondOctet, ThirdOctet;
  }

  /** To the server's decoder, a foreign character is the same as "A". */
  lemma ForeignIsA(c: byte)
    ensures Value(c) >= 64 ==> LenientValue(c) == LenientValue(65) == 0
    ensures Value(c) < 64 ==> LenientValue(c) == Value(c)
  {
  }
}
