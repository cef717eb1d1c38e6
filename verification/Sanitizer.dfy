/** What the web server does to a path before it looks for a file: odd characters are replaced, hidden names refused. */
module Sanitizer {
  import opened Bytes

  const SLASH: byte := 47
  const DOT: byte := 46
  const MINUS: byte := 45
  const PERCENT: byte := 37
  const UNDERSCORE: byte := 95

  /** The characters that are permitted in a name, as they are listed beside the table. */
  predicate IsListed(c: char) {
    c in {
      '0', '1', '2', '3', '4', '5', '6', '7', '8', '9',
      'a', 'b', 'c', 'd', 'e', 'f', 'g', 'h', 'i', 'j', 'k', 'l', 'm', 'n', 'o', 'p', 'q', 'r', 's',
      't', 'u', 'v', 'w', 'x', 'y', 'z',
      'A', 'B', 'C', 'D', 'E', 'F', 'G', 'H', 'I', 'J', 'K', 'L', 'M', 'N', 'O', 'P', 'Q', 'R', 'S',
      'T', 'U', 'V', 'W', 'X', 'Y', 'Z',
      ',', '-', '.', '/', ':', '_', '~'}
  }

  /** The table: letters, digits, and a few marks. */
  predicate Allowed(c: byte): (r: bool)
    ensures r <==> IsListed(c as char)
  {
    var n := (c as char) as int;
    assert n == c;
    44 <= c <= 58 || 65 <= c <= 90 || c == 95 || 97 <= c <= 122 || c == 126
  }

  /** What a disallowed character, with the two behind it, turns into. */
  function Replacement(a: byte, b: byte): (c: byte)
    ensures Allowed(c)
  {
    if a == 50 && (b == 101 || b == 69) then DOT
    else if a == 50 && (b == 102 || b == 70) then SLASH
    else UNDERSCORE
  }

  predicate IsEscape(z: seq<byte>) {
    |z| >= 3 && z[0] == PERCENT
  }

  function Sanitized(z: seq<byte>): (r: seq<byte>)
    ensures |r| <= |z|
    decreases |z|
  {
    if z == [] then []
    else if Allowed(z[0]) then [z[0]] + Sanitized(z[1..])
    else if IsEscape(z) then [Replacement(z[1], z[2])] + Sanitized(z[3..])
    else [UNDERSCORE] + Sanitized(z[1..])
  }

  /** How many characters are converted, an escape counting once. */
  function Changes(z: seq<byte>): nat
    decreases |z|
  {
    if z == [] then 0
    else if Allowed(z[0]) then Changes(z[1..])
    else if IsEscape(z) then 1 + Changes(z[3..])
    else 1 + Changes(z[1..])
  }

  ghost predicate AllAllowed(z: seq<byte>) {
    forall i | 0 <= i < |z| :: IsListed(z[i] as char)
  }

  lemma {:induction false} SanitizedIsAllowed(z: seq<byte>)
    ensures AllAllowed(Sanitized(z))
    decreases |z|
  {
    hide Allowed, IsListed, Replacement;
    if z != [] {
      if Allowed(z[0]) {
        SanitizedIsAllowed(z[1..]);
      } else if IsEscape(z) {
        SanitizedIsAllowed(z[3..]);
      } else {
        SanitizedIsAllowed(z[1..]);
        assert Allowed(UNDERSCORE) by { UnderscoreIsAllowed(); }
      }
    }
  }

  lemma UnderscoreIsAllowed()
    ensures Allowed(UNDERSCORE)
  {
  }

  /** Nothing is converted exactly when nothing has to be, and then the path stays as it is. */
  lemma {:induction false} NoChangeNeeded(z: seq<byte>)
    ensures Changes(z) == 0 <==> AllAllowed(z)
    ensures AllAllowed(z) ==> Sanitized(z) == z
    decreases |z|
  {
    hide Allowed, IsListed, Replacement;
    if z != [] {
      NoChangeNeeded(z[1..]);
      HeadAndTail(z);
      assert AllAllowed(z) <==> Allowed(z[0]) && AllAllowed(z[1..]) by {
        if Allowed(z[0]) && AllAllowed(z[1..]) {
          forall i | 0 <= i < |z|
            ensures Allowed(z[i])
          {
            assert i > 0 ==> z[i] == z[1..][i - 1];
          }
        }
      }
    }
  }

  /** How many characters of a text are not in the table. */
  function Foreign(z: seq<byte>): nat {
    if z == [] then 0 else Foreign(z[..|z| - 1]) + if IsListed(z[|z| - 1] as char) then 0 else 1
  }

  lemma {:induction false} ForeignFromFront(z: seq<byte>)
    requires z != []
    ensures Foreign(z) == (if IsListed(z[0] as char) then 0 else 1) + Foreign(z[1..])
    decreases |z|
  {
    hide IsListed;
    if |z| > 1 {
      var front := z[..|z| - 1];
      ForeignFromFront(front);
      assert z[1..][..|z| - 2] == front[1..];
    } else {
      assert z[..0] == [] && z[1..] == [];
    }
  }

  /** Every foreign character counts once, and so does an escape as a whole. */
  lemma {:induction false} ChangesAdd(z: seq<byte>, more: seq<byte>)
    requires 37 !in z
    ensures Changes(z + more) == Foreign(z) + Changes(more)
    ensures |more| >= 2 ==> Changes(z + [37] + more) == Foreign(z) + 1 + Changes(more[2..])
    decreases |z|
  {
    hide Allowed, IsListed, Foreign;
    if z == [] {
      assert z + more == more && z + [37] + more == [37] + more;
      assert Foreign([]) == 0 by { NothingForeign(); }
      PercentIsNotAllowed();
      assert |more| >= 2 ==> ([37] + more)[3..] == more[2..];
    } else {
      ForeignFromFront(z);
      assert (z + more)[1..] == z[1..] + more && (z + [37] + more)[1..] == z[1..] + [37] + more;
      assert z[0] in z;
      ChangesAdd(z[1..], more);
    }
  }

  lemma NothingForeign()
    ensures Foreign([]) == 0
  {
  }

  /** Sanitising a second time converts nothing. */
  lemma SanitizingTwice(z: seq<byte>)
    ensures Sanitized(Sanitized(z)) == Sanitized(z) && Changes(Sanitized(z)) == 0
  {
    SanitizedIsAllowed(z);
    NoChangeNeeded(Sanitized(z));
  }

  // ----- what the documentation promises -----

  /** The conversion as the function's own comment has it: an escape becomes one underscore like any other character. */
  function Documented(z: seq<byte>): (r: seq<byte>)
    ensures |r| <= |z|
    decreases |z|
  {
    if z == [] then []
    else if IsListed(z[0] as char) then [z[0]] + Documented(z[1..])
    else if IsEscape(z) then [UNDERSCORE] + Documented(z[3..])
    else [UNDERSCORE] + Documented(z[1..])
  }

  /** An escape of a dot or a slash: "%2e" or "%2f", in either case. */
  predicate EscapesDotOrSlash(z: seq<byte>) {
    IsEscape(z) && z[1] == 50 && z[2] in {101, 69, 102, 70}
  }

  /** Whether such an escape is read; inside another escape it is not, as in "%%2e". */
  predicate ReadsDotOrSlash(z: seq<byte>)
    decreases |z|
  {
    if z == [] then false
    else if !IsEscape(z) then ReadsDotOrSlash(z[1..])
    else EscapesDotOrSlash(z) || ReadsDotOrSlash(z[3..])
  }

  /** The code does what is documented exactly when it reads no escape of a dot or a slash. */
  lemma {:induction false} ConvertsAsDocumented(z: seq<byte>)
    ensures Sanitized(z) == Documented(z) <==> !ReadsDotOrSlash(z)
    decreases |z|
  {
    if z != [] {
      var n := if IsEscape(z) then 3 else 1;
      ConvertsAsDocumented(z[n..]);
      var c, d := Sanitized(z)[0], Documented(z)[0];
      assert Sanitized(z) == [c] + Sanitized(z[n..]) && Documented(z) == [d] + Documented(z[n..]);
      assert c == d <==> !EscapesDotOrSlash(z);
      assert Sanitized(z)[1..] == Sanitized(z[n..]) && Documented(z)[1..] == Documented(z[n..]);
    }
  }

  /** The conversion as the documentation of the server has it: character by character. */
  function OneByOne(z: seq<byte>): (r: seq<byte>)
    ensures |r| == |z|
  {
    seq(|z|, i requires 0 <= i < |z| => if IsListed(z[i] as char) then z[i] else UNDERSCORE)
  }

  /** The code converts character by character exactly when no percent sign has two characters behind it. */
  lemma {:induction false} ConvertsOneByOne(z: seq<byte>)
    ensures Sanitized(z) == OneByOne(z) <==> forall i | 0 <= i < |z| - 2 :: z[i] != PERCENT
    decreases |z|
  {
    hide Allowed, IsListed, Replacement;
    if z != [] {
      var one := if Allowed(z[0]) then z[0] else UNDERSCORE;
      assert OneByOne(z) == [one] + OneByOne(z[1..]);
      assert OneByOne(z)[1..] == OneByOne(z[1..]);
      PercentIsNotAllowed();
      if IsEscape(z) {
        assert |Sanitized(z)| == 1 + |Sanitized(z[3..])| < |z|;
      } else {
        ConvertsOneByOne(z[1..]);
        assert Sanitized(z) == [one] + Sanitized(z[1..]) && Sanitized(z)[1..] == Sanitized(z[1..]);
        PercentBehind(z);
      }
    }
  }

  lemma PercentIsNotAllowed()
    ensures !Allowed(PERCENT)
  {
  }

  lemma PercentBehind(z: seq<byte>)
    requires z != [] && !IsEscape(z)
    ensures (forall i | 0 <= i < |z| - 2 :: z[i] != PERCENT) <==>
            (forall i | 0 <= i < |z[1..]| - 2 :: z[1..][i] != PERCENT)
  {
    if forall i | 0 <= i < |z[1..]| - 2 :: z[1..][i] != PERCENT {
      forall i | 0 <= i < |z| - 2
        ensures z[i] != PERCENT
      {
        assert i > 0 ==> z[1..][i - 1] != PERCENT;
      }
    }
  }

  /** The escapes that are read: a dot or a slash in front of what follows, where an underscore is documented. */
  lemma EscapedDot(letter: byte, z: seq<byte>)
    requires letter in {101, 69, 102, 70}
    ensures Sanitized([37, 50, letter] + z) == [if letter in {101, 69} then 46 else 47] + Sanitized(z)
    ensures Documented([37, 50, letter] + z) == [95] + Documented(z)
  {
    var x: seq<byte> := [37, 50, letter] + z;
    assert x[3..] == z && x[0] == 37 && x[1] == 50 && x[2] == letter;
    PercentIsNotAllowed();
    hide IsListed, Allowed;
  }

  /** Such an escape inside another one is not read. */
  lemma EscapedInside(z: seq<byte>)
    ensures Sanitized([37, 37, 50] + z) == [95] + Sanitized(z) && Documented([37, 37, 50] + z) == [95] + Documented(z)
  {
    var x: seq<byte> := [37, 37, 50] + z;
    assert x[3..] == z && x[0] == 37 && x[1] == 37 && x[2] == 50;
    PercentIsNotAllowed();
    hide IsListed, Allowed;
  }

  // ----- names that are refused -----

  /** "/.well-known/" */
  const WELL_KNOWN: seq<byte> := [47, 46, 119, 101, 108, 108, 45, 107, 110, 111, 119, 110, 47]

  predicate Exempt(path: seq<byte>) {
    |path| >= 13 && path[..13] == WELL_KNOWN
  }

  function At(z: seq<byte>, i: nat): byte {
    if i < |z| then z[i] else 0
  }

  /** What the scan refuses at a slash at `i`. */
  predicate Refused(path: seq<byte>, i: nat, exempt: bool) {
    && At(path, i) == SLASH && (At(path, i + 1) == DOT || At(path, i + 1) == MINUS)
    && !(exempt && (At(path, i + 1) != DOT || At(path, i + 2) != DOT))
  }

  ghost predicate Accepted(path: seq<byte>) {
    forall i | 0 <= i < |path| :: !Refused(path, i, Exempt(path))
  }

  /** The components of a path, each behind its slash. */
  function Components(path: seq<byte>): seq<seq<byte>>
    decreases |path|
  {
    if path == [] then []
    else if path[0] == SLASH then [path[1..1 + IndexOf(path[1..], SLASH)]] + Components(path[1..])
    else Components(path[1..])
  }

  /** A name that does not start with a dot or a minus; under "/.well-known/", one that does not start with two dots. */
  predicate Harmless(name: seq<byte>, exempt: bool) {
    if exempt then !(At(name, 0) == DOT && At(name, 1) == DOT) else At(name, 0) != DOT && At(name, 0) != MINUS
  }

  /** The scan looks at the slash, the components at what is behind it; both see the same. */
  lemma RefusedIsHarmful(path: seq<byte>, exempt: bool)
    requires path != [] && path[0] == SLASH
    ensures Refused(path, 0, exempt) <==> !Harmless(path[1..1 + IndexOf(path[1..], SLASH)], exempt)
  {
    var rest := path[1..];
    var name := rest[..IndexOf(rest, SLASH)];
    assert name == path[1..1 + IndexOf(rest, SLASH)];
    assert forall i | 0 <= i < |rest| :: rest[i] == path[1 + i];
    hide IndexOf;
  }

  /** A path is accepted exactly when every component behind a slash is harmless. */
  lemma AcceptedMeansHarmless(path: seq<byte>)
    ensures Accepted(path) <==> forall c | c in Components(path) :: Harmless(c, Exempt(path))
  {
    ScanMeansHarmless(path, Exempt(path));
  }

  /** A name in the root directory is refused exactly when it starts with a minus or a dot. */
  lemma NameInRoot(name: seq<byte>)
    requires 47 !in name
    ensures Accepted([47] + name) <==> name == [] || name[0] !in {45, 46}
  {
    var path := [47] + name;
    assert |path| >= 13 ==> path[..13][12] == name[11] != WELL_KNOWN[12];
    assert forall i | 0 < i < |path| :: path[i] == name[i - 1];
    assert !Exempt(path);
    if name != [] {
      assert Refused(path, 0, false) <==> name[0] in {45, 46};
    }
  }

  /** Below "/.well-known/", only a name that starts with two dots is. */
  lemma NameInWellKnown(name: seq<byte>)
    requires 47 !in name
    ensures
      Accepted([47, 46, 119, 101, 108, 108, 45, 107, 110, 111, 119, 110, 47] + name) <==> !([46, 46] <= name)
  {
    var front: seq<byte> := [47, 46, 119, 101, 108, 108, 45, 107, 110, 111, 119, 110, 47];
    var path := front + name;
    assert path[..13] == front == WELL_KNOWN;
    assert Exempt(path);
    assert forall i | 0 <= i < 13 :: path[i] == front[i];
    assert forall i | 13 <= i < |path| :: path[i] == name[i - 13];
    assert Refused(path, 12, true) <==> [46, 46] <= name;
    assert front[1..12] == [46, 119, 101, 108, 108, 45, 107, 110, 111, 119, 110];
    assert 47 !in front[1..12];
    forall i | 0 <= i < |path| && i != 12
      ensures !Refused(path, i, true)
    {
      if 0 < i < 12 {
        assert front[i] == front[1..12][i - 1];
      }
    }
  }

  lemma {:induction false} ScanMeansHarmless(path: seq<byte>, exempt: bool)
    ensures (forall i | 0 <= i < |path| :: !Refused(path, i, exempt)) <==>
            (forall c | c in Components(path) :: Harmless(c, exempt))
    decreases |path|
  {
    if path != [] {
      var rest := path[1..];
      ScanMeansHarmless(rest, exempt);
      ScanInParts(path, exempt);
      if path[0] == SLASH {
        RefusedIsHarmful(path, exempt);
      }
      hide Refused, Harmless, IndexOf;
    }
  }

  lemma ScanInParts(path: seq<byte>, exempt: bool)
    requires path != []
    ensures (forall i | 0 <= i < |path| :: !Refused(path, i, exempt)) <==>
            !Refused(path, 0, exempt) && forall i | 0 <= i < |path[1..]| :: !Refused(path[1..], i, exempt)
    ensures path[0] != SLASH ==> !Refused(path, 0, exempt)
  {
    var rest := path[1..];
    forall i | 0 <= i < |rest|
      ensures Refused(rest, i, exempt) == Refused(path, i + 1, exempt)
    {
      assert At(rest, i) == At(path, i + 1) && At(rest, i + 1) == At(path, i + 2) && At(rest, i + 2) == At(path, i + 3);
    }
    if !Refused(path, 0, exempt) && forall i | 0 <= i < |rest| :: !Refused(rest, i, exempt) {
      forall i | 0 <= i < |path|
        ensures !Refused(path, i, exempt)
      {
        assert i > 0 ==> !Refused(rest, i - 1, exempt);
      }
    }
    if forall i | 0 <= i < |path| :: !Refused(path, i, exempt) {
      forall i | 0 <= i < |rest|
        ensures !Refused(rest, i, exempt)
      {
        assert !Refused(path, i + 1, exempt);
      }
    }
  }

  // ----- the code -----

  ghost predicate NoZero(t: seq<byte>) {
    forall i | 0 <= i < |t| :: t[i] != 0
  }

  /** The text of `n` octets, up to the zero octet that ends it. */
  ghost predicate IsText(z: seq<byte>, n: nat) {
    n < |z| && z[n] == 0 && NoZero(z[..n])
  }

  lemma TextEnds(z: seq<byte>, n: nat, i: nat)
    requires IsText(z, n) && i <= n
    ensures z[i] == 0 <==> i == n
  {
    assert i < n ==> z[..n][i] == z[i];
  }

  /** The shift that closes the gap of two octets behind `p`, up to the zero octet at `n`. */
  method CloseGap(z: array<byte>, p: nat, ghost n: nat, ghost length: nat)
    requires p + 3 <= n <= length < z.Length && IsText(z[..], n)
    modifies z
    ensures z[..n - 2] == old(z[..p + 1]) + old(z[p + 3..n]) && z[n - 2] == 0
    ensures z[length + 1..] == old(z[length + 1..])
  {
    ghost var u := z[..];
    TextEnds(u, n, n);
    TextEnds(u, n, p + 3);
    hide IsText;
    var i := p + 3;
    z[i - 2] := z[i];
    while z[i - 2] != 0
      invariant p + 3 <= i <= n && z[i - 2] == u[i] && (u[i] == 0 <==> i == n)
      invariant forall k | p + 1 <= k <= i - 2 :: z[k] == u[k + 2]
      invariant forall k | 0 <= k <= p || i - 2 < k < z.Length :: z[k] == u[k]
      decreases n - i
    {
      i := i + 1;
      TextEnds(u, n, i);
      z[i - 2] := z[i];
    }
    SameElements(z[..n - 2], u[..p + 1] + u[p + 3..n]);
    SameElements(z[length + 1..], u[length + 1..]);
  }

  /** What is done, and what sanitising the rest gives, make up the whole. */
  ghost predicate Sanitizing(u: seq<byte>, t: seq<byte>, p: nat, changed: nat) {
    p <= |t| && t[..p] + Sanitized(t[p..]) == Sanitized(u) && changed + Changes(t[p..]) == Changes(u)
  }

  lemma SanitizingBegins(u: seq<byte>)
    ensures Sanitizing(u, u, 0, 0)
  {
    hide Sanitized, Changes;
    assert u[0..] == u && [] + Sanitized(u) == Sanitized(u);
  }

  lemma KeptFirst(z: seq<byte>)
    requires z != [] && Allowed(z[0])
    ensures Sanitized(z) == [z[0]] + Sanitized(z[1..]) && Changes(z) == Changes(z[1..])
  {
  }

  lemma SanitizingKeeps(u: seq<byte>, t: seq<byte>, p: nat, changed: nat)
    requires Sanitizing(u, t, p, changed) && p < |t| && Allowed(t[p])
    ensures Sanitizing(u, t, p + 1, changed)
  {
    hide Sanitized, Changes;
    KeptFirst(t[p..]);
    assert t[p..][1..] == t[p + 1..];
    assert t[..p] + ([t[p]] + Sanitized(t[p + 1..])) == t[..p + 1] + Sanitized(t[p + 1..]);
  }

  /** How many characters behind a disallowed one go with it, and what it turns into. */
  function Skipped(z: seq<byte>): nat {
    if IsEscape(z) then 2 else 0
  }

  function Converted(z: seq<byte>): (c: byte)
    ensures Allowed(c)
  {
    if IsEscape(z) then Replacement(z[1], z[2]) else UNDERSCORE
  }

  lemma ReplacedFirst(z: seq<byte>)
    requires z != [] && !Allowed(z[0])
    ensures 1 + Skipped(z) <= |z|
    ensures Sanitized(z) == [Converted(z)] + Sanitized(z[1 + Skipped(z)..])
    ensures Changes(z) == 1 + Changes(z[1 + Skipped(z)..])
  {
  }

  lemma SanitizingReplaces(u: seq<byte>, t: seq<byte>, p: nat, changed: nat)
    requires Sanitizing(u, t, p, changed) && p < |t| && !Allowed(t[p]) && NoZero(t)
    ensures
      var c, k := Converted(t[p..]), p + 1 + Skipped(t[p..]);
      k <= |t| && Sanitizing(u, t[..p] + [c] + t[k..], p + 1, changed + 1) && NoZero(t[..p] + [c] + t[k..])
  {
    ReplacedFirst(t[p..]);
    hide Sanitized, Changes, Skipped, Converted;
    var c, skipped := Converted(t[p..]), Skipped(t[p..]);
    var k := p + 1 + skipped;
    var now := t[..p] + [c] + t[k..];
    assert t[p..][1 + skipped..] == t[k..] == now[p + 1..];
    assert now[..p + 1] == t[..p] + [c];
    var more := Sanitized(t[k..]);
    assert t[..p] + ([c] + more) == t[..p] + [c] + more;
  }

  lemma SanitizingEnds(u: seq<byte>, t: seq<byte>, changed: nat)
    requires Sanitizing(u, t, |t|, changed)
    ensures t == Sanitized(u) && changed == Changes(u)
  {
    assert t[|t|..] == [] && t[..|t|] + [] == t;
  }

  /** Replaces the character at `p`, and closes the gap when it was an escape of three characters. */
  method ReplaceOne(z: array<byte>, p: nat, ghost n: nat, ghost length: nat) returns (ghost m: nat)
    requires p < n <= length < z.Length && IsText(z[..], n)
    modifies z
    ensures
      var t := old(z[..n]);
      && p + 1 + Skipped(t[p..]) <= n && m == n - Skipped(t[p..])
      && z[..m] == t[..p] + [Converted(t[p..])] + t[p + 1 + Skipped(t[p..])..] && z[m] == 0
    ensures z[length + 1..] == old(z[length + 1..])
  {
    ghost var u := z[..];
    ghost var t := z[..n];
    TextEnds(u, n, p + 1);
    if p + 1 < n {
      TextEnds(u, n, p + 2);
    }
    assert t[p..][0] == u[p] && (p + 1 < n ==> t[p..][1] == u[p + 1]) && (p + 2 < n ==> t[p..][2] == u[p + 2]);
    var c := UNDERSCORE;
    m := n;
    if z[p] == PERCENT && z[p + 1] != 0 && z[p + 2] != 0 {
      if z[p + 1] == 50 {
        if z[p + 2] == 101 || z[p + 2] == 69 {
          c := DOT;
        }
        if z[p + 2] == 102 || z[p + 2] == 70 {
          c := SLASH;
        }
      }
      CloseGap(z, p, n, length);
      m := n - 2;
    }
    z[p] := c;
    SameElements(z[..m], t[..p] + [Converted(t[p..])] + t[p + 1 + Skipped(t[p..])..]);
    SameElements(z[length + 1..], u[length + 1..]);
  }

  /** Converts the text in place; it may become shorter. Counts what has been converted. */
  method SanitizeString(z: array<byte>, ghost length: nat) returns (changes: nat, ghost n: nat)
    requires IsText(z[..], length)
    modifies z
    ensures n <= length && IsText(z[..], n)
    ensures z[..n] == Sanitized(old(z[..length])) && changes == Changes(old(z[..length]))
    ensures z[length + 1..] == old(z[length + 1..])
  {
    ghost var u := z[..length];
    assert z[..][..length] == u;
    var p: nat := 0;
    n, changes := length, 0;
    SanitizingBegins(u);
    hide Sanitized, Changes, Sanitizing, Skipped, Converted, IsText, NoZero;
    TextIs(z[..], n);
    TextEnds(z[..], n, 0);
    while z[p] != 0
      invariant p <= n <= length < z.Length && IsText(z[..], n) && NoZero(z[..n])
      invariant Sanitizing(u, z[..n], p, changes)
      invariant z[length + 1..] == old(z[length + 1..])
      invariant z[p] == 0 <==> p == n
      decreases n - p
    {
      assert z[..n][p] == z[p];
      if !Allowed(z[p]) {
        SanitizingReplaces(u, z[..n], p, changes);
        n := ReplaceOne(z, p, n, length);
        changes := changes + 1;
      } else {
        SanitizingKeeps(u, z[..n], p, changes);
      }
      p := p + 1;
      MakesText(z[..], n);
      assert z[..][..n] == z[..n];
      TextEnds(z[..], n, p);
    }
    SanitizingEnds(u, z[..n], changes);
  }

  lemma TextIs(z: seq<byte>, n: nat)
    requires IsText(z, n)
    ensures n < |z| && z[n] == 0 && NoZero(z[..n])
  {
  }

  lemma MakesText(z: seq<byte>, n: nat)
    requires n < |z| && z[n] == 0 && NoZero(z[..n])
    ensures IsText(z, n)
  {
  }

  /** Whether a name is refused because it is hidden: the scan over the sanitised path. */
  method ScanPath(path: seq<byte>) returns (accepted: bool)
    ensures accepted <==> Accepted(path)
  {
    var exempt := Exempt(path);
    hide Exempt;
    for i := 0 to |path|
      invariant forall k | 0 <= k < i :: !Refused(path, k, exempt)
    {
      if path[i] == SLASH && (At(path, i + 1) == DOT || At(path, i + 1) == MINUS) {
        if exempt && (At(path, i + 1) != DOT || At(path, i + 2) != DOT) {
          continue;
        }
        assert Refused(path, i, exempt);
        return false;
      }
    }
    return true;
  }
}
