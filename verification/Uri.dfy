/** Putting URIs together and taking them apart (RFC 3986, section 3). */
module Uris {
  import opened Bytes

  const COLON: byte := 58
  const SLASH: byte := 47
  const AT: byte := 64
  const OPEN_BRACKET: byte := 91
  const CLOSE_BRACKET: byte := 93
  const QUESTION: byte := 63
  const HASH: byte := 35
  const ZERO_DIGIT: byte := 48
  const TWO_TO_THE_32: nat := 0x1_0000_0000

  datatype Uri = Uri(
    scheme: seq<byte>, user: seq<byte>, host: seq<byte>, port: nat,
    path: seq<byte>, query: seq<byte>, fragment: seq<byte>)

  // ----- putting together -----

  function Decimal(n: nat): (s: seq<byte>)
    ensures s != [] && forall i | 0 <= i < |s| :: 48 <= s[i] <= 57
  {
    if n < 10 then [ZERO_DIGIT + n] else Decimal(n / 10) + [ZERO_DIGIT + n % 10]
  }

  function Scheme(s: seq<byte>): seq<byte> {
    if s == [] then [] else s + [COLON, SLASH, SLASH]
  }

  function User(s: seq<byte>): seq<byte> {
    if s == [] then [] else s + [AT]
  }

  function Authority(u: Uri): seq<byte> {
    User(u.user) + u.host + Port(u.port)
  }

  function Port(n: nat): seq<byte> {
    if n == 0 then [] else [COLON] + Decimal(n)
  }

  function PathAndMore(u: Uri): seq<byte> {
    u.path + (Query(u.query) + Fragment(u.fragment))
  }

  function Query(s: seq<byte>): seq<byte> {
    if s == [] then [] else [QUESTION] + s
  }

  function Fragment(s: seq<byte>): seq<byte> {
    if s == [] then [] else [HASH] + s
  }

  function Assembled(u: Uri): seq<byte> {
    Scheme(u.scheme) + (Authority(u) + PathAndMore(u))
  }

  // ----- taking apart -----

  /** The first place from `p` on where one of the octets stands, or the end. */
  function Find(u: seq<byte>, p: nat, stops: seq<byte>): (q: nat)
    requires p <= |u|
    ensures p <= q <= |u| && (q < |u| ==> u[q] in stops)
    ensures forall i | p <= i < q :: u[i] !in stops
    decreases |u| - p
  {
    if p == |u| || u[p] in stops then p else Find(u, p + 1, stops)
  }

  /** More digits behind a number of 32 bits; octets are signed, and what is not a digit is not refused. */
  function ReadDigits(n: nat, s: seq<byte>): nat {
    if s == [] then n else AddDigit(ReadDigits(n, s[..|s| - 1]), s[|s| - 1])
  }

  function AddDigit(n: nat, c: byte): (r: nat)
    ensures r < TWO_TO_THE_32
  {
    (n * 10 % TWO_TO_THE_32 + (if c < 128 then c else c - 256) - ZERO_DIGIT) % TWO_TO_THE_32
  }

  datatype State = Start | SchemeOrPort | UserInfo | Host | PortNumber | Rest

  datatype Machine = Machine(state: State, p: nat, parts: Uri) | Failed

  const NO_PARTS: Uri := Uri([], [], [], 0, [], [], [])

  function Rank(state: State): nat {
    match state
    case Start => 5
    case SchemeOrPort => 4
    case UserInfo => 3
    case Host => 2
    case PortNumber => 1
    case Rest => 0
  }

  /** The octet at `p`, which may be the one behind the URI. */
  function At(u: seq<byte>, behind: byte, p: nat): byte {
    if p < |u| then u[p] else behind
  }

  function HostTurn(u: seq<byte>, behind: byte, p: nat, parts: Uri): Machine
    requires p < |u|
  {
    var start := if u[p] == AT then p + 1 else p;
    if At(u, behind, start) == OPEN_BRACKET then
      var close := Find(u, start, [CLOSE_BRACKET]);
      if close == |u| then Failed else BehindHost(u, close + 1, parts.(host := u[start..close + 1]))
    else
      var q := Find(u, start, [COLON, SLASH]);
      BehindHost(u, q, parts.(host := u[start..q]))
  }

  function BehindHost(u: seq<byte>, q: nat, parts: Uri): Machine {
    Machine(if q < |u| && u[q] == COLON then PortNumber else if q < |u| && u[q] == SLASH then Rest else Host, q, parts)
  }

  function PathEnd(u: seq<byte>, p: nat): (q: nat)
    requires p <= |u|
    ensures p <= q <= |u|
  {
    Find(u, p, [QUESTION, HASH])
  }

  /** Behind a separator that ends at `q`, or the end itself. */
  function Behind(u: seq<byte>, q: nat): (r: nat)
    requires q <= |u|
    ensures q <= r <= |u|
  {
    if q < |u| then q + 1 else q
  }

  predicate HasQuery(u: seq<byte>, q: nat) {
    q + 1 < |u| && u[q] == QUESTION
  }

  function RestTurn(u: seq<byte>, p: nat, parts: Uri): Machine
    requires p < |u|
  {
    var q := PathEnd(u, p);
    var start := Behind(u, q);
    var end := if HasQuery(u, q) then Find(u, start, [HASH]) else start;
    var last := if HasQuery(u, q) then Behind(u, end) else start;
    Machine(Rest, |u|, parts.(path := u[p..q], query := u[start..end], fragment := u[last..]))
  }

  /** One turn of the parser's loop. */
  function Turn(u: seq<byte>, behind: byte, state: State, p: nat, parts: Uri): (m: Machine)
    requires p < |u|
    ensures m.Machine? ==> m.p <= |u| && (Rank(m.state) < Rank(state) || (m.state == state && m.p > p))
  {
    match state
    case Start =>
      if u[p] == OPEN_BRACKET then Machine(Host, p, parts)
      else
        var q := Find(u, p, [COLON, SLASH]);
        if q == |u| then Machine(Start, q, parts.(host := u))
        else if u[q] == COLON then Machine(SchemeOrPort, q, parts)
        else Machine(Rest, q, parts.(host := u[..q]))
    case SchemeOrPort =>
      if p + 3 <= |u| && u[p..p + 3] == [COLON, SLASH, SLASH] then Machine(UserInfo, p + 3, parts.(scheme := u[..p]))
      else Machine(PortNumber, p, parts.(host := u[..p]))
    case UserInfo =>
      var q := Find(u, p, [AT, OPEN_BRACKET, SLASH]);
      var end := if q == |u| || u[q] != AT then p else q;
      Machine(Host, end, parts.(user := u[p..end]))
    case Host => HostTurn(u, behind, p, parts)
    case PortNumber =>
      var q := Find(u, p + 1, [SLASH]);
      Machine(if q < |u| then Rest else PortNumber, q, parts.(port := ReadDigits(parts.port, u[p + 1..q])))
    case Rest => RestTurn(u, p, parts)
  }

  /** The whole run; the backtracking over the user information does not keep it from ending. */
  function Run(u: seq<byte>, behind: byte, m: Machine): Machine
    decreases if m.Failed? then 0 else 1 + Rank(m.state), if m.Failed? then 0 else |u| - m.p
  {
    if m.Failed? || m.p >= |u| then m else Run(u, behind, Turn(u, behind, m.state, m.p, m.parts))
  }

  function Parse(u: seq<byte>, behind: byte): Machine {
    Run(u, behind, Machine(Start, 0, NO_PARTS))
  }

  // ----- what has been put together is taken apart again -----

  ghost predicate Free(s: seq<byte>, stops: seq<byte>) {
    forall i | 0 <= i < |s| :: s[i] !in stops
  }

  /** A name, or an address in brackets. */
  ghost predicate IsHost(s: seq<byte>) {
    || Free(s, [COLON, SLASH, AT, OPEN_BRACKET])
    || (|s| >= 2 && s[0] == OPEN_BRACKET && s[|s| - 1] == CLOSE_BRACKET && Free(s[..|s| - 1], [CLOSE_BRACKET]))
  }

  ghost predicate IsScheme(s: seq<byte>) {
    s != [] && Free(s, [COLON, SLASH]) && s[0] != OPEN_BRACKET
  }

  /** What may stand behind the host. */
  ghost predicate IsEnding(x: Uri) {
    && x.port < TWO_TO_THE_32
    && (x.path != [] ==> x.path[0] == SLASH && Free(x.path, [QUESTION, HASH])) && Free(x.query, [HASH])
  }

  /** No component has an octet that ends it. */
  ghost predicate Delimited(x: Uri) {
    (x.scheme != [] ==> IsScheme(x.scheme)) && Free(x.user, [AT, OPEN_BRACKET, SLASH]) && IsHost(x.host) && IsEnding(x)
  }

  /** Whether there is a path to keep a query or a fragment apart from what is in front of it. */
  predicate HasPathForMore(x: Uri) {
    x.path != [] || (x.query == [] && x.fragment == [])
  }

  ghost predicate Separable(x: Uri) {
    Delimited(x) && HasPathForMore(x)
  }

  ghost predicate SeparableEnding(x: Uri) {
    IsEnding(x) && HasPathForMore(x)
  }

  lemma FindBehind(before: seq<byte>, s: seq<byte>, after: seq<byte>, stops: seq<byte>)
    requires Free(s, stops) && (after == [] || after[0] in stops)
    ensures Find(before + s + after, |before|, stops) == |before| + |s|
  {
    hide Find;
    var u, p := before + s + after, |before|;
    forall i | p <= i < p + |s|
      ensures u[i] !in stops
    {
      InMiddle(before, s, after, i - p);
    }
    FirstBehind(before, s, after);
    FindIs(u, p, p + |s|, stops);
  }

  lemma InMiddle(before: seq<byte>, s: seq<byte>, after: seq<byte>, i: nat)
    requires i < |s|
    ensures (before + s + after)[|before| + i] == s[i]
  {
  }

  lemma FirstBehind(before: seq<byte>, s: seq<byte>, after: seq<byte>)
    ensures after != [] ==> (before + s + after)[|before| + |s|] == after[0]
  {
  }

  lemma FindIs(u: seq<byte>, p: nat, q: nat, stops: seq<byte>)
    requires p <= q <= |u| && (q < |u| ==> u[q] in stops) && forall i | p <= i < q :: u[i] !in stops
    ensures Find(u, p, stops) == q
  {
  }

  lemma PartsBehind(before: seq<byte>, s: seq<byte>, after: seq<byte>)
    ensures
      var u := before + s + after;
      && u[..|before|] == before && u[|before|..|before| + |s|] == s && u[|before| + |s|..] == after
      && (s != [] ==> u[|before|] == s[0]) && (after != [] ==> u[|before| + |s|] == after[0])
  {
  }

  lemma {:induction false} DecimalIsRead(n: nat)
    requires n < TWO_TO_THE_32
    ensures ReadDigits(0, Decimal(n)) == n
  {
    var d := Decimal(n);
    assert ReadDigits(0, []) == 0;
    if n < 10 {
      assert d[..0] == [];
    } else {
      DecimalIsRead(n / 10);
      assert d[..|d| - 1] == Decimal(n / 10);
      DigitIsAdded(n);
    }
  }

  lemma DigitIsAdded(n: nat)
    requires 10 <= n < TWO_TO_THE_32
    ensures AddDigit(n / 10, ZERO_DIGIT + n % 10) == n
  {
  }

  lemma RunTurns(u: seq<byte>, behind: byte, state: State, p: nat, parts: Uri)
    requires p < |u|
    ensures Run(u, behind, Machine(state, p, parts)) == Run(u, behind, Turn(u, behind, state, p, parts))
  {
    hide Turn;
  }

  lemma RunEnds(u: seq<byte>, behind: byte, m: Machine)
    requires m.Failed? || m.p >= |u|
    ensures Run(u, behind, m) == m
  {
  }

  lemma PathIsRead(u: seq<byte>, before: seq<byte>, path: seq<byte>, more: seq<byte>)
    requires Free(path, [QUESTION, HASH]) && u == before + path + more
    requires more == [] || more[0] == QUESTION || more[0] == HASH
    ensures PathEnd(u, |before|) == |before| + |path| && Part(u, |before|, |before| + |path|) == path
    ensures Behind(u, |before| + |path|) == |before| + |path| + if more == [] then 0 else 1
    ensures HasQuery(u, |before| + |path|) <==> |more| > 1 && more[0] == QUESTION
  {
    hide Free;
    FindBehind(before, path, more, [QUESTION, HASH]);
    PartsBehind(before, path, more);
  }

  lemma QueryIsRead(u: seq<byte>, front: seq<byte>, query: seq<byte>, fragment: seq<byte>)
    requires Free(query, [HASH]) && u == front + [QUESTION] + query + Fragment(fragment)
    ensures
      var start := |front| + 1;
      var end := start + |query|;
      Find(u, start, [HASH]) == end && Part(u, start, end) == query && Part(u, Behind(u, end), |u|) == fragment
  {
    hide Free, Find;
    FindBehind(front + [QUESTION], query, Fragment(fragment), [HASH]);
    PartsBehind(front + [QUESTION], query, Fragment(fragment));
    if fragment != [] {
      FragmentIsRead(u, front + [QUESTION] + query, fragment);
    }
  }

  lemma FragmentIsRead(u: seq<byte>, front: seq<byte>, fragment: seq<byte>)
    requires u == front + Fragment(fragment) && fragment != []
    ensures |front| < |u| && u[|front|] == HASH && Part(u, |front| + 1, |u|) == fragment
  {
    assert u == front + [HASH] + fragment;
  }

  lemma Regroup(a: seq<byte>, b: seq<byte>, c: seq<byte>, d: seq<byte>)
    ensures a + (b + (c + d)) == a + b + (c + d) == a + b + c + d == a + (b + c) + d
  {
  }

  lemma Flatten(a: seq<byte>, b: seq<byte>, c: seq<byte>, d: seq<byte>)
    ensures a + (b + c + d) == a + b + c + d
  {
  }

  lemma QueryStarts(query: seq<byte>, more: seq<byte>)
    ensures var all := [QUESTION] + query + more; all[0] == QUESTION && (query != [] ==> |all| > 1)
  {
  }

  lemma EndingIsFree(x: Uri)
    requires SeparableEnding(x) && x.path != []
    ensures Free(x.path, [QUESTION, HASH]) && Free(x.query, [HASH])
  {
    hide Free, IsHost;
  }

  lemma RestWithQuery(u: seq<byte>, before: seq<byte>, x: Uri)
    requires SeparableEnding(x) && x.path != [] && x.query != []
    requires u == before + x.path + ([QUESTION] + x.query + Fragment(x.fragment))
    ensures RestTurn(u, |before|, x.(path := [], query := [], fragment := [])) == Machine(Rest, |u|, x)
  {
    hide Find, Free, IsHost, PathEnd, Behind, HasQuery, RestTurn, Fragment, SeparableEnding, Part;
    var front := before + x.path;
    EndingIsFree(x);
    QueryStarts(x.query, Fragment(x.fragment));
    PathIsRead(u, before, x.path, [QUESTION] + x.query + Fragment(x.fragment));
    Flatten(front, [QUESTION], x.query, Fragment(x.fragment));
    QueryIsRead(u, front, x.query, x.fragment);
    RestTurnIs(u, |before|, x.(path := [], query := [], fragment := []), x, |front| + 1, |front| + 1 + |x.query|);
  }

  lemma RestWithoutQuery(u: seq<byte>, before: seq<byte>, x: Uri)
    requires SeparableEnding(x) && x.path != [] && x.query == []
    requires u == before + x.path + Fragment(x.fragment)
    ensures RestTurn(u, |before|, x.(path := [], query := [], fragment := [])) == Machine(Rest, |u|, x)
  {
    var front, fs := before + x.path, Fragment(x.fragment);
    assert fs == [] || fs[0] == HASH;
    hide Find, Free, IsHost, PathEnd, Behind, HasQuery, RestTurn, Fragment, SeparableEnding, Part;
    EndingIsFree(x);
    PathIsRead(u, before, x.path, fs);
    if x.fragment != [] {
      FragmentIsRead(u, front, x.fragment);
    } else {
      NoFragment();
    }
    NoPart(u, |front| + |fs|);
    NoPart(u, |front| + if fs == [] then 0 else 1);
    var start := |front| + if fs == [] then 0 else 1;
    RestTurnIs(u, |before|, x.(path := [], query := [], fragment := []), x, start, start);
  }

  lemma NoPart(u: seq<byte>, i: nat)
    requires i <= |u|
    ensures Part(u, i, i) == []
  {
  }

  lemma NoFragment()
    ensures Fragment([]) == []
  {
  }

  lemma RestIsRead(u: seq<byte>, before: seq<byte>, x: Uri)
    requires SeparableEnding(x) && x.path != [] && u == before + PathAndMore(x)
    ensures RestTurn(u, |before|, x.(path := [], query := [], fragment := [])) == Machine(Rest, |u|, x)
  {
    hide RestTurn, Fragment, SeparableEnding;
    var qs, fs := Query(x.query), Fragment(x.fragment);
    Regroup(before, x.path, qs, fs);
    if x.query == [] {
      assert qs + fs == fs;
      RestWithoutQuery(u, before, x);
    } else {
      RestWithQuery(u, before, x);
    }
  }

  lemma RestTurnIs(u: seq<byte>, p: nat, parts: Uri, x: Uri, start: nat, end: nat)
    requires p < |u| && PathEnd(u, p) < |u| + 1 && start == Behind(u, PathEnd(u, p)) <= end <= |u|
    requires end == if HasQuery(u, PathEnd(u, p)) then Find(u, start, [HASH]) else start
    requires Part(u, p, PathEnd(u, p)) == x.path && Part(u, start, end) == x.query
    requires Part(u, if HasQuery(u, PathEnd(u, p)) then Behind(u, end) else start, |u|) == x.fragment
    requires parts == x.(path := [], query := [], fragment := [])
    ensures RestTurn(u, p, parts) == Machine(Rest, |u|, x)
  {
    hide Find, PathEnd, Behind, HasQuery;
  }

  /** The first of the path and what follows, which starts with a slash if there is any. */
  lemma MoreStarts(x: Uri)
    requires SeparableEnding(x)
    ensures PathAndMore(x) == [] <==> x.path == []
    ensures x.path != [] ==> PathAndMore(x)[0] == SLASH
  {
    hide Free, IsHost;
  }

  lemma FreeDigits(n: nat, stops: seq<byte>)
    requires forall c | c in stops :: c < 48 || c > 57
    ensures Free(Decimal(n), stops)
  {
  }

  /** From behind the authority on, the rest of the URI is read. */
  lemma RestLeadsToAll(u: seq<byte>, behind: byte, before: seq<byte>, state: State, x: Uri)
    requires SeparableEnding(x) && u == before + PathAndMore(x) && (x.path != [] ==> state == Rest)
    ensures
      var m := Run(u, behind, Machine(state, |before|, x.(path := [], query := [], fragment := [])));
      m.Machine? && m.parts == x
  {
    hide PathAndMore, RestTurn, Free, IsHost, Run;
    MoreStarts(x);
    var parts := x.(path := [], query := [], fragment := []);
    if x.path != [] {
      RestIsRead(u, before, x);
      RunTurns(u, behind, state, |before|, parts);
      RunEnds(u, behind, Machine(Rest, |u|, x));
    } else {
      assert parts == x;
      RunEnds(u, behind, Machine(state, |before|, parts));
    }
  }

  lemma PortLeadsToAll(u: seq<byte>, behind: byte, before: seq<byte>, x: Uri)
    requires SeparableEnding(x) && u == before + (Port(x.port) + PathAndMore(x)) && x.port != 0
    ensures
      var m := Run(u, behind, Machine(PortNumber, |before|, x.(port := 0, path := [], query := [], fragment := [])));
      m.Machine? && m.parts == x
  {
    hide PathAndMore, Decimal, Free, IsHost, Run, ReadDigits, Find, Port, SeparableEnding, Turn;
    var digits, more, parts := Decimal(x.port), PathAndMore(x), x.(port := 0, path := [], query := [], fragment := []);
    var front := before + [COLON];
    PortIsFirst(before, x);
    SlashIsIn();
    FindBehind(front, digits, more, [SLASH]);
    PartsBehind(front, digits, more);
    PortTurn(u, behind, |before|, parts);
    RunTurns(u, behind, PortNumber, |before|, parts);
    RestLeadsToAll(u, behind, front + digits, if x.path == [] then PortNumber else Rest, x);
  }

  lemma PortIsFirst(before: seq<byte>, x: Uri)
    requires SeparableEnding(x) && x.port != 0
    ensures before + (Port(x.port) + PathAndMore(x)) == before + [COLON] + Decimal(x.port) + PathAndMore(x)
    ensures Free(Decimal(x.port), [SLASH]) && ReadDigits(0, Decimal(x.port)) == x.port
    ensures PathAndMore(x) == [] <==> x.path == []
    ensures PathAndMore(x) != [] ==> PathAndMore(x)[0] == SLASH
  {
    hide PathAndMore, Decimal, Free, IsHost, ReadDigits, Port;
    MoreStarts(x);
    FreeDigits(x.port, [SLASH]);
    DecimalIsRead(x.port);
    SomePort(x.port);
    var d, more := Decimal(x.port), PathAndMore(x);
    assert before + ([COLON] + d + more) == before + [COLON] + d + more;
  }

  lemma SomePort(port: nat)
    requires port != 0
    ensures Port(port) == [COLON] + Decimal(port)
  {
    hide Decimal;
  }

  lemma PortTurn(u: seq<byte>, behind: byte, p: nat, parts: Uri)
    requires p < |u|
    ensures
      var q := Find(u, p + 1, [SLASH]);
      Turn(u, behind, PortNumber, p, parts) ==
        Machine(if q < |u| then Rest else PortNumber, q, parts.(port := ReadDigits(parts.port, u[p + 1..q])))
  {
    hide Find, ReadDigits;
  }

  lemma SlashIsIn()
    ensures SLASH in [SLASH] && SLASH in [COLON, SLASH] && COLON in [COLON, SLASH]
    ensures AT in [AT, OPEN_BRACKET, SLASH] && OPEN_BRACKET in [AT, OPEN_BRACKET, SLASH] &&
      SLASH in [AT, OPEN_BRACKET, SLASH]
    ensures CLOSE_BRACKET in [CLOSE_BRACKET]
  {
  }

  /** Behind the host, the port or the path follows, if there is one. */
  lemma BehindHostLeadsToAll(u: seq<byte>, behind: byte, before: seq<byte>, x: Uri)
    requires SeparableEnding(x) && u == before + (Port(x.port) + PathAndMore(x))
    ensures
      var m := Run(u, behind, BehindHost(u, |before|, x.(port := 0, path := [], query := [], fragment := [])));
      m.Machine? && m.parts == x
  {
    var more, parts := PathAndMore(x), x.(port := 0, path := [], query := [], fragment := []);
    MoreStarts(x);
    hide PathAndMore, Free, IsHost, Run, Decimal;
    if x.port != 0 {
      assert u[|before|] == COLON;
      PortLeadsToAll(u, behind, before, x);
    } else {
      assert [] + more == more;
      assert x.path != [] ==> u[|before|] == SLASH;
      RestLeadsToAll(u, behind, before, if x.path == [] then Host else Rest, x);
    }
  }

  /** What follows the host never continues it. */
  lemma HostEnds(x: Uri)
    requires SeparableEnding(x)
    ensures
      var after := Port(x.port) + PathAndMore(x);
      && (after == [] <==> x.port == 0 && x.path == [])
      && (after != [] ==> after[0] in [COLON, SLASH] && after[0] != OPEN_BRACKET)
  {
    MoreStarts(x);
    hide PathAndMore, Free, IsHost, Decimal;
    SlashIsIn();
  }

  ghost predicate InBrackets(host: seq<byte>) {
    host != [] && host[0] == OPEN_BRACKET
  }

  lemma NameIsFound(u: seq<byte>, front: seq<byte>, host: seq<byte>, after: seq<byte>)
    requires IsHost(host) && !InBrackets(host) && u == front + host + after
    requires after == [] || after[0] in [COLON, SLASH]
    ensures Find(u, |front|, [COLON, SLASH]) == |front| + |host|
  {
    assert Free(host, [COLON, SLASH, AT, OPEN_BRACKET]);
    assert Free(host, [COLON, SLASH]);
    hide Find, Free, IsHost;
    FindBehind(front, host, after, [COLON, SLASH]);
  }

  lemma BracketsAreFound(u: seq<byte>, front: seq<byte>, host: seq<byte>, after: seq<byte>)
    requires IsHost(host) && InBrackets(host) && u == front + host + after
    ensures Find(u, |front|, [CLOSE_BRACKET]) == |front| + |host| - 1
  {
    NotAName(host);
    SlashIsIn();
    hide Find, Free, IsHost;
    var inside := host[..|host| - 1];
    assert host == inside + [CLOSE_BRACKET];
    assert u == front + inside + ([CLOSE_BRACKET] + after);
    FindBehind(front, inside, [CLOSE_BRACKET] + after, [CLOSE_BRACKET]);
  }

  lemma NotAName(host: seq<byte>)
    requires IsHost(host) && InBrackets(host)
    ensures |host| >= 2 && host[|host| - 1] == CLOSE_BRACKET && Free(host[..|host| - 1], [CLOSE_BRACKET])
  {
    assert host[0] in [COLON, SLASH, AT, OPEN_BRACKET];
  }

  /** Where the host ends. */
  lemma HostIsFound(u: seq<byte>, front: seq<byte>, host: seq<byte>, after: seq<byte>)
    requires IsHost(host) && u == front + host + after && (after == [] || after[0] in [COLON, SLASH])
    ensures InBrackets(host) ==> Find(u, |front|, [CLOSE_BRACKET]) == |front| + |host| - 1
    ensures !InBrackets(host) ==> Find(u, |front|, [COLON, SLASH]) == |front| + |host|
    ensures u[|front|..|front| + |host|] == host && u[..|front| + |host|] == front + host
  {
    hide Find, IsHost, InBrackets;
    SameElements(u[..|front| + |host|], front + host);
    PartsBehind(front, host, after);
    if InBrackets(host) {
      BracketsAreFound(u, front, host, after);
    } else {
      NameIsFound(u, front, host, after);
    }
  }

  /** One turn reads the host, whether an at sign stands in front of it or not. */
  lemma HostIsRead(u: seq<byte>, behind: byte, p: nat, start: nat, end: nat, host: seq<byte>, parts: Uri)
    requires p < |u| && p <= start <= end <= |u| && start == (if u[p] == AT then p + 1 else p)
    requires host == u[start..end] && (InBrackets(host) <==> At(u, behind, start) == OPEN_BRACKET)
    requires if InBrackets(host) then Find(u, start, [CLOSE_BRACKET]) == end - 1 < |u|
             else Find(u, start, [COLON, SLASH]) == end
    ensures HostTurn(u, behind, p, parts) == BehindHost(u, end, parts.(host := host))
  {
    hide Find, BehindHost;
  }

  lemma FirstOfHost(u: seq<byte>, behind: byte, front: seq<byte>, host: seq<byte>, after: seq<byte>)
    requires u == front + host + after && (host == [] && after == [] ==> behind != OPEN_BRACKET)
    requires after != [] ==> after[0] != OPEN_BRACKET
    ensures InBrackets(host) <==> At(u, behind, |front|) == OPEN_BRACKET
  {
    if host != [] {
      assert u[|front|] == host[0];
    } else if after != [] {
      assert u[|front|] == after[0];
    }
  }

  lemma SignIsSeen(u: seq<byte>, before: seq<byte>, sign: seq<byte>, host: seq<byte>, after: seq<byte>)
    requires u == before + sign + host + after && |u| > |before| && (sign == [] || sign == [AT]) && IsHost(host)
    requires after != [] ==> after[0] in [COLON, SLASH]
    ensures u[|before|] == AT <==> sign == [AT]
  {
    HostHasNoSign(host);
    hide IsHost;
    if sign == [AT] {
      assert u[|before|] == sign[0];
    } else if host != [] {
      assert u[|before|] == host[0];
    } else {
      assert u[|before|] == after[0];
    }
  }

  /** What is read before the host does not look like one: an at sign, or nothing. */
  lemma HostLeadsToAll(u: seq<byte>, behind: byte, before: seq<byte>, sign: seq<byte>, x: Uri)
    requires Separable(x) && (sign == [] || sign == [AT])
    requires u == before + sign + x.host + (Port(x.port) + PathAndMore(x))
    requires x.host == [] && x.port == 0 && x.path == [] && sign != [] ==> behind != OPEN_BRACKET
    ensures
      var m := Run(u, behind, Machine(Host, |before|, NO_PARTS.(scheme := x.scheme, user := x.user)));
      m.Machine? && m.parts == x
  {
    var after, front := Port(x.port) + PathAndMore(x), before + sign;
    var parts := NO_PARTS.(scheme := x.scheme, user := x.user);
    HostEnds(x);
    MoreStarts(x);
    hide PathAndMore, Free, IsHost, Run, Find, Port, BehindHost, HostTurn, InBrackets, At, IsEnding, HasPathForMore;
    if |u| == |before| {
      RunEnds(u, behind, Machine(Host, |before|, parts));
    } else {
      HostIsFound(u, front, x.host, after);
      FirstOfHost(u, behind, front, x.host, after);
      SignIsSeen(u, before, sign, x.host, after);
      HostIsRead(u, behind, |before|, |front|, |front| + |x.host|, x.host, parts);
      RunTurns(u, behind, Host, |before|, parts);
      BehindHostLeadsToAll(u, behind, front + x.host, x);
    }
  }

  lemma HostHasNoSign(host: seq<byte>)
    requires IsHost(host)
    ensures host != [] ==> host[0] != AT
    ensures |host| > 0 && !InBrackets(host) ==> host[0] != OPEN_BRACKET
  {
  }

  lemma BracketStops(u: seq<byte>, before: seq<byte>, more: seq<byte>)
    requires u == before + more && more != [] && more[0] == OPEN_BRACKET
    ensures Find(u, |before|, [AT, OPEN_BRACKET, SLASH]) == |before| && u[|before|] == OPEN_BRACKET
  {
    SlashIsIn();
    assert u[|before|] == more[0];
    FindIs(u, |before|, |before|, [AT, OPEN_BRACKET, SLASH]);
  }

  lemma NameStops(u: seq<byte>, before: seq<byte>, name: seq<byte>, more: seq<byte>)
    requires u == before + name + more && Free(name, [AT, OPEN_BRACKET, SLASH]) && (more != [] ==> more[0] == SLASH)
    ensures
      var q := Find(u, |before|, [AT, OPEN_BRACKET, SLASH]);
      q == |before| + |name| && (if more == [] then q == |u| else u[q] == SLASH)
  {
    SlashIsIn();
    hide Find, Free;
    FindBehind(before, name, more, [AT, OPEN_BRACKET, SLASH]);
    PartsBehind(before, name, more);
  }

  /** Without user information, the search for its end stops at the host's bracket, at the path, or at the end. */
  lemma NoUserFound(u: seq<byte>, before: seq<byte>, x: Uri)
    requires Separable(x) && u == before + x.host + (Port(x.port) + PathAndMore(x))
    ensures
      var q := Find(u, |before|, [AT, OPEN_BRACKET, SLASH]);
      q == |u| || u[q] != AT
  {
    MoreStarts(x);
    hide PathAndMore, Find, Free, IsHost, Port;
    var port, more := Port(x.port), PathAndMore(x);
    Regroup(before, x.host, port, more);
    if InBrackets(x.host) {
      BracketStops(u, before, x.host + (port + more));
    } else {
      NameIsFree(x.host, x.port);
      NameStops(u, before, x.host + port, more);
    }
  }

  lemma NameIsFree(host: seq<byte>, port: nat)
    requires IsHost(host) && !InBrackets(host)
    ensures Free(host + Port(port), [AT, OPEN_BRACKET, SLASH])
  {
    assert Free(host, [COLON, SLASH, AT, OPEN_BRACKET]);
    FreeDigits(port, [AT, OPEN_BRACKET, SLASH]);
    var d := Decimal(port);
    hide Decimal;
    forall i | 0 <= i < |host + Port(port)|
      ensures (host + Port(port))[i] !in [AT, OPEN_BRACKET, SLASH]
    {
      if i < |host| {
        assert host[i] !in [COLON, SLASH, AT, OPEN_BRACKET];
      } else if i > |host| {
        assert (host + Port(port))[i] == d[i - |host| - 1];
      }
    }
  }

  lemma UserLeadsToAll(u: seq<byte>, behind: byte, before: seq<byte>, x: Uri)
    requires Separable(x) && u == before + (Authority(x) + PathAndMore(x))
    requires x.host == [] && x.port == 0 && x.path == [] && x.user != [] ==> behind != OPEN_BRACKET
    ensures
      var m := Run(u, behind, Machine(UserInfo, |before|, NO_PARTS.(scheme := x.scheme)));
      m.Machine? && m.parts == x
  {
    var parts := NO_PARTS.(scheme := x.scheme);
    var after := Port(x.port) + PathAndMore(x);
    MoreStarts(x);
    hide PathAndMore, Free, IsHost, Run, Find, Port;
    AuthorityInParts(before, x);
    if |u| == |before| {
      RunEnds(u, behind, Machine(UserInfo, |before|, parts));
      HostEnds(x);
    } else {
      RunTurns(u, behind, UserInfo, |before|, parts);
      if x.user == [] {
        NoUserFound(u, before, x);
        assert u[|before|..|before|] == [];
        assert before + [] == before;
        HostLeadsToAll(u, behind, before, [], x);
      } else {
        SlashIsIn();
        var rest := [AT] + x.host + after;
        FindBehind(before, x.user, rest, [AT, OPEN_BRACKET, SLASH]);
        PartsBehind(before, x.user, rest);
        HostLeadsToAll(u, behind, before + x.user, [AT], x);
      }
    }
  }

  lemma AuthorityInParts(before: seq<byte>, x: Uri)
    ensures
      var u, after := before + (Authority(x) + PathAndMore(x)), Port(x.port) + PathAndMore(x);
      if x.user == [] then u == before + x.host + after
      else u == before + x.user + ([AT] + x.host + after) == before + x.user + [AT] + x.host + after
  {
    hide Port, PathAndMore;
    if x.user == [] {
      assert [] + x.host == x.host;
    }
  }

  lemma SeparableIsParsed(x: Uri, behind: byte)
    requires Separable(x) && x.scheme != []
    requires x.host == [] && x.port == 0 && x.path == [] && x.user != [] ==> behind != OPEN_BRACKET
    ensures
      var m := Parse(Assembled(x), behind);
      m.Machine? && m.parts == x
  {
    var slashes := [COLON, SLASH, SLASH];
    hide Authority, PathAndMore, IsHost, Run, Find, Free, Turn;
    var u, rest := Assembled(x), Authority(x) + PathAndMore(x);
    assert u == x.scheme + slashes + rest == x.scheme + (slashes + rest);
    RunTurns(u, behind, Start, 0, NO_PARTS);
    SchemeEnds(u, behind, x.scheme, slashes + rest);
    RunTurns(u, behind, SchemeOrPort, |x.scheme|, NO_PARTS);
    SchemeIsRead(u, behind, x.scheme, rest);
    UserLeadsToAll(u, behind, x.scheme + slashes, x);
  }

  /** Only a path is followed by a query or a fragment. */
  ghost predicate OnCourse(u: seq<byte>, m: Machine) {
    m.Machine? ==> m.p <= |u| && HasPathForMore(m.parts) && (m.state == Rest && m.p < |u| ==> u[m.p] == SLASH)
  }

  lemma TurnStaysOnCourse(u: seq<byte>, behind: byte, m: Machine)
    requires m.Machine? && m.p < |u| && OnCourse(u, m)
    ensures OnCourse(u, Turn(u, behind, m.state, m.p, m.parts))
  {
    SlashIsIn();
    match m.state
    case Start =>
    case SchemeOrPort =>
    case UserInfo =>
    case Host =>
    case PortNumber =>
    case Rest =>
      assert u[m.p] == SLASH && SLASH !in [QUESTION, HASH];
  }

  lemma {:induction false} QueryNeedsPath(u: seq<byte>, behind: byte, m: Machine)
    requires OnCourse(u, m)
    ensures
      var r := Run(u, behind, m);
      r.Machine? ==> HasPathForMore(r.parts)
    decreases if m.Failed? then 0 else 1 + Rank(m.state), if m.Failed? then 0 else |u| - m.p
  {
    hide Turn, Find;
    if m.Machine? && m.p < |u| {
      var next := Turn(u, behind, m.state, m.p, m.parts);
      TurnStaysOnCourse(u, behind, m);
      QueryNeedsPath(u, behind, next);
    }
  }

  lemma SchemedIsParsed(x: Uri, behind: byte)
    requires Delimited(x) && x.scheme != []
    requires x.host == [] && x.port == 0 && x.path == [] && x.user != [] ==> behind != OPEN_BRACKET
    ensures
      var m := Parse(Assembled(x), behind);
      m.Machine? && m.parts == x <==> HasPathForMore(x)
  {
    hide Delimited, Run, Assembled;
    if HasPathForMore(x) {
      SeparableIsParsed(x, behind);
    } else {
      QueryNeedsPath(Assembled(x), behind, Machine(Start, 0, NO_PARTS));
    }
  }

  // ----- without a scheme -----

  /** A name at the start, where the first colon or slash ends it, is the host. */
  lemma NameComesFirst(u: seq<byte>, behind: byte, host: seq<byte>, after: seq<byte>)
    requires u == host + after && Free(host, [COLON, SLASH]) && !InBrackets(host) && u != []
    requires after != [] ==> after[0] in [COLON, SLASH]
    ensures
      var m, named := Turn(u, behind, Start, 0, NO_PARTS), NO_PARTS.(host := host);
      if after == [] then m == Machine(Start, |u|, named)
      else if after[0] == SLASH then m == Machine(Rest, |host|, named)
      else m == Machine(SchemeOrPort, |host|, NO_PARTS)
  {
    SlashIsIn();
    assert u == [] + host + after;
    FindBehind([], host, after, [COLON, SLASH]);
    PartsBehind([], host, after);
    assert u[0] == if host == [] then after[0] else host[0];
    hide Find, Free;
    assert u[..|host|] == host;
  }

  /** A colon that two slashes do not follow starts a port, and what is in front of it is the host. */
  lemma ColonStartsPort(u: seq<byte>, behind: byte, host: seq<byte>, digits: seq<byte>, more: seq<byte>)
    requires u == host + ([COLON] + digits + more) && digits != [] && digits[0] != SLASH
    ensures
      Turn(u, behind, SchemeOrPort, |host|, NO_PARTS) == Machine(PortNumber, |host|, NO_PARTS.(host := host))
  {
    assert u[|host| + 1] == digits[0];
    assert |host| + 3 <= |u| ==> u[|host|..|host| + 3][1] == digits[0];
    assert u[..|host|] == host;
  }

  lemma DigitIsNoSlash(n: nat)
    ensures Decimal(n) != [] && Decimal(n)[0] != SLASH
  {
  }

  lemma NameIsParsed(x: Uri, behind: byte)
    requires SeparableEnding(x) && x.scheme == [] && x.user == []
    requires Free(x.host, [COLON, SLASH]) && !InBrackets(x.host)
    ensures
      var m := Parse(Assembled(x), behind);
      m.Machine? && m.parts == x
  {
    var u, after := Assembled(x), Port(x.port) + PathAndMore(x);
    WithoutScheme(x);
    hide PathAndMore, Free, IsHost, Run, Find, Turn, Assembled, Decimal, IsEnding, InBrackets;
    HostEnds(x);
    MoreStarts(x);
    if u == [] {
      RunEnds(u, behind, Machine(Start, 0, NO_PARTS));
    } else {
      NameComesFirst(u, behind, x.host, after);
      RunTurns(u, behind, Start, 0, NO_PARTS);
      if after == [] {
        assert x == NO_PARTS.(host := x.host);
        RunEnds(u, behind, Machine(Start, |u|, x));
      } else if x.port == 0 {
        assert [] + PathAndMore(x) == PathAndMore(x);
        RestLeadsToAll(u, behind, x.host, Rest, x);
      } else {
        DigitIsNoSlash(x.port);
        ColonStartsPort(u, behind, x.host, Decimal(x.port), PathAndMore(x));
        RunTurns(u, behind, SchemeOrPort, |x.host|, NO_PARTS);
        PortLeadsToAll(u, behind, x.host, x);
      }
    }
  }

  lemma WithoutScheme(x: Uri)
    requires x.scheme == []
    ensures x.user == [] ==> Assembled(x) == x.host + (Port(x.port) + PathAndMore(x))
    ensures x.user != [] ==> Assembled(x) == x.user + [AT] + x.host + (Port(x.port) + PathAndMore(x))
  {
    hide Port, PathAndMore;
    AuthorityInParts([], x);
    var rest := Authority(x) + PathAndMore(x);
    assert [] + rest == rest && [] + x.host == x.host && [] + x.user == x.user;
  }

  lemma BracketsAreParsed(x: Uri, behind: byte)
    requires Separable(x) && x.scheme == [] && x.user == [] && InBrackets(x.host)
    ensures
      var m := Parse(Assembled(x), behind);
      m.Machine? && m.parts == x
  {
    var u, after := Assembled(x), Port(x.port) + PathAndMore(x);
    WithoutScheme(x);
    BracketIsFirst(u, x.host, after);
    hide PathAndMore, IsHost, Run, Turn, Assembled, Delimited, Port;
    RunTurns(u, behind, Start, 0, NO_PARTS);
    BracketTurn(u, behind);
    HostLeadsToAll(u, behind, [], [], x);
  }

  lemma BracketIsFirst(u: seq<byte>, host: seq<byte>, after: seq<byte>)
    requires InBrackets(host) && u == host + after
    ensures u != [] && u[0] == OPEN_BRACKET && u == [] + [] + host + after
  {
  }

  lemma BracketTurn(u: seq<byte>, behind: byte)
    requires u != [] && u[0] == OPEN_BRACKET
    ensures Turn(u, behind, Start, 0, NO_PARTS) == Machine(Host, 0, NO_PARTS)
  {
    hide Find;
  }

  /** Without a scheme in front of it, nothing is read as user information. */
  ghost predicate UserBehindScheme(m: Machine) {
    m.Machine? ==> (m.state == UserInfo || m.parts.user != [] ==> m.parts.scheme != [])
  }

  lemma {:induction false} UserNeedsScheme(u: seq<byte>, behind: byte, m: Machine)
    requires UserBehindScheme(m) && !([COLON, SLASH, SLASH] <= u)
    ensures UserBehindScheme(Run(u, behind, m))
    decreases if m.Failed? then 0 else 1 + Rank(m.state), if m.Failed? then 0 else |u| - m.p
  {
    hide Turn, Find;
    if m.Machine? && m.p < |u| {
      var next := Turn(u, behind, m.state, m.p, m.parts);
      TurnKeepsUser(u, behind, m);
      UserNeedsScheme(u, behind, next);
    }
  }

  lemma TurnKeepsUser(u: seq<byte>, behind: byte, m: Machine)
    requires m.Machine? && m.p < |u| && UserBehindScheme(m) && !([COLON, SLASH, SLASH] <= u)
    ensures UserBehindScheme(Turn(u, behind, m.state, m.p, m.parts))
  {
    hide Find, ReadDigits;
    match m.state
    case Start =>
    case SchemeOrPort =>
      if m.p == 0 && 3 <= |u| {
        assert u[0..3] == u[..3];
      }
    case UserInfo =>
    case Host =>
    case PortNumber =>
    case Rest =>
  }

  lemma NoSchemeInUser(x: Uri)
    requires x.scheme == [] && x.user != [] && Free(x.user, [AT, OPEN_BRACKET, SLASH])
    ensures !([COLON, SLASH, SLASH] <= Assembled(x))
  {
    WithoutScheme(x);
    var u, after := Assembled(x), Port(x.port) + PathAndMore(x);
    hide Assembled, Port, PathAndMore;
    if |x.user| == 1 {
      assert u[1] == ([AT] + x.host + after)[0] == AT;
    } else {
      assert u[1] == x.user[1];
      assert SLASH in [AT, OPEN_BRACKET, SLASH];
    }
  }

  lemma SchemelessIsParsed(x: Uri, behind: byte)
    requires Delimited(x) && x.scheme == []
    ensures
      var m := Parse(Assembled(x), behind);
      m.Machine? && m.parts == x <==> x.user == [] && HasPathForMore(x)
  {
    hide Run, Assembled, IsEnding, HasPathForMore, IsHost;
    var start := Machine(Start, 0, NO_PARTS);
    if x.user != [] {
      NoSchemeInUser(x);
      UserNeedsScheme(Assembled(x), behind, start);
    } else if !HasPathForMore(x) {
      OnCourseAtFirst(Assembled(x));
      QueryNeedsPath(Assembled(x), behind, start);
    } else if InBrackets(x.host) {
      BracketsAreParsed(x, behind);
    } else {
      HostIsFree(x.host);
      NameIsParsed(x, behind);
    }
  }

  lemma OnCourseAtFirst(u: seq<byte>)
    ensures OnCourse(u, Machine(Start, 0, NO_PARTS))
  {
  }

  lemma HostIsFree(host: seq<byte>)
    requires IsHost(host) && !InBrackets(host)
    ensures Free(host, [COLON, SLASH])
  {
    assert Free(host, [COLON, SLASH, AT, OPEN_BRACKET]);
  }

  /**
    A URI that is put together from components free of what ends them ("scheme://user@host:port/path?query#fragment",
    "host:port/path", "host", "/path") is taken apart into the same components exactly when query and fragment, if there
    are any, stand behind a path, and user information, if there is any, behind a scheme. The octet behind the URI
    matters only when it ends right behind its user information.
   */
  lemma AssembledIsParsed(x: Uri, behind: byte)
    requires Delimited(x)
    requires x.scheme != [] && x.host == [] && x.port == 0 && x.path == [] && x.user != [] ==> behind != OPEN_BRACKET
    ensures
      var m := Parse(Assembled(x), behind);
      m.Machine? && m.parts == x <==> HasPathForMore(x) && (x.user != [] ==> x.scheme != [])
  {
    hide Delimited, Run, Assembled, HasPathForMore;
    if x.scheme == [] {
      SchemelessIsParsed(x, behind);
    } else {
      SchemedIsParsed(x, behind);
    }
  }

  /** User information without a scheme in front of it is taken for the start of the host. */
  lemma UserGoesToHost(x: Uri, behind: byte)
    requires SeparableEnding(x) && x.scheme == [] && x.user != []
    requires
      var name := x.user + [AT] + x.host;
      Free(name, [COLON, SLASH]) && !InBrackets(name)
    ensures
      var m := Parse(Assembled(x), behind);
      m.Machine? && m.parts == x.(user := [], host := x.user + [AT] + x.host)
  {
    WithoutScheme(x);
    var y := x.(user := [], host := x.user + [AT] + x.host);
    WithoutScheme(y);
    assert SeparableEnding(y);
    hide Run, Free, Assembled, InBrackets, SeparableEnding;
    NameIsParsed(y, behind);
  }

  /** Without a path and a port, query and fragment are taken for the end of the host. */
  lemma QueryGoesToHost(x: Uri, behind: byte)
    requires Delimited(x) && x.scheme != [] && x.path == [] && x.port == 0 && (x.query != [] || x.fragment != [])
    requires
      var name := x.host + (Query(x.query) + Fragment(x.fragment));
      Free(name, [COLON, SLASH, AT, OPEN_BRACKET])
    ensures
      var m := Parse(Assembled(x), behind);
      m.Machine? && m.parts == x.(host := x.host + (Query(x.query) + Fragment(x.fragment)), query := [], fragment := [])
  {
    hide Run, Free, Assembled, Query, Fragment;
    var name := x.host + (Query(x.query) + Fragment(x.fragment));
    var y := x.(host := name, query := [], fragment := []);
    NothingIsFree([HASH]);
    SameText(x);
    SomethingMore(x);
    SeparableIsParsed(y, behind);
  }

  lemma SomethingMore(x: Uri)
    ensures x.query != [] || x.fragment != [] ==> Query(x.query) + Fragment(x.fragment) != []
  {
  }

  lemma SameText(x: Uri)
    requires x.path == [] && x.port == 0
    ensures
      Assembled(x) ==
        Assembled(x.(host := x.host + (Query(x.query) + Fragment(x.fragment)), query := [], fragment := []))
  {
    var more := Query(x.query) + Fragment(x.fragment);
    assert User(x.user) + x.host + [] + ([] + more) == User(x.user) + (x.host + more) + [] + ([] + ([] + []));
    hide User;
  }

  lemma NothingIsFree(stops: seq<byte>)
    ensures Free([], stops)
  {
  }

  /** "http://h?q" has the host "h?q". */
  lemma HostOfQuery(behind: byte)
    ensures
      var x := Uri([104, 116, 116, 112], [], [104], 0, [], [113], []);
      var m := Parse(Assembled(x), behind);
      && Assembled(x) == [104, 116, 116, 112, COLON, SLASH, SLASH, 104, QUESTION, 113]
      && m.Machine? && m.parts.host == [104, QUESTION, 113]
  {
    var x := Uri([104, 116, 116, 112], [], [104], 0, [], [113], []);
    assert [104] + ([QUESTION] + [113] + []) == [104, QUESTION, 113];
    hide Run;
    QueryGoesToHost(x, behind);
  }

  /** "h:80/x" has the host "h", the port 80 and the path "/x". */
  lemma HostPortPath(behind: byte)
    ensures
      var m := Parse([104, 58, 56, 48, 47, 120], behind);
      m.Machine? && m.parts == Uri([], [], [104], 80, [47, 120], [], [])
  {
    var x := Uri([], [], [104], 80, [47, 120], [], []);
    assert Decimal(80) == [56, 48] by { assert Decimal(8) == [56]; }
    assert Assembled(x) == [104, 58, 56, 48, 47, 120];
    hide Run;
    AssembledIsParsed(x, behind);
  }

  /** "ws://u@h:80/p?q#f" in its parts. */
  lemma AllParts(behind: byte)
    ensures
      var m := Parse([119, 115, 58, 47, 47, 117, 64, 104, 58, 56, 48, 47, 112, 63, 113, 35, 102], behind);
      m.Machine? && m.parts == Uri([119, 115], [117], [104], 80, [47, 112], [113], [102])
  {
    var x := Uri([119, 115], [117], [104], 80, [47, 112], [113], [102]);
    AllPartsDelimited();
    AllPartsInOrder();
    hide *;
    AssembledInOrder(x);
    AssembledIsParsed(x, behind);
  }

  lemma AllPartsDelimited()
    ensures Delimited(Uri([119, 115], [117], [104], 80, [47, 112], [113], [102]))
    ensures HasPathForMore(Uri([119, 115], [117], [104], 80, [47, 112], [113], [102]))
  {
  }

  lemma PortEighty()
    ensures Port(80) == [58, 56, 48]
  {
    assert Decimal(80) == [56, 48] by { assert Decimal(8) == [56]; }
  }

  lemma AllPartsInOrder()
    ensures
      Scheme([119, 115]) + (User([117]) + ([104] + (Port(80) + ([47, 112] + (Query([113]) + Fragment([102])))))) ==
        [119, 115, 58, 47, 47, 117, 64, 104, 58, 56, 48, 47, 112, 63, 113, 35, 102]
  {
    PortEighty();
    hide Port;
    assert Scheme([119, 115]) == [119, 115, 58, 47, 47] && User([117]) == [117, 64];
    assert Query([113]) == [63, 113] && Fragment([102]) == [35, 102];
    hide *;
    assert [104] + ([58, 56, 48] + ([47, 112] + ([63, 113] + [35, 102]))) ==
      [104, 58, 56, 48, 47, 112, 63, 113, 35, 102];
  }

  /** "[::]:80" in its parts. */
  lemma AddressAndPort(behind: byte)
    ensures
      var m := Parse([91, 58, 58, 93, 58, 56, 48], behind);
      m.Machine? && m.parts == Uri([], [], [91, 58, 58, 93], 80, [], [], [])
  {
    var x := Uri([], [], [91, 58, 58, 93], 80, [], [], []);
    AddressDelimited();
    AddressInOrder();
    hide *;
    AssembledInOrder(x);
    AssembledIsParsed(x, behind);
  }

  lemma AddressDelimited()
    ensures Delimited(Uri([], [], [91, 58, 58, 93], 80, [], [], []))
    ensures HasPathForMore(Uri([], [], [91, 58, 58, 93], 80, [], [], []))
  {
    assert [91, 58, 58, 93][..3] == [91, 58, 58];
  }

  lemma AddressInOrder()
    ensures
      Scheme([]) + (User([]) + ([91, 58, 58, 93] + (Port(80) + ([] + (Query([]) + Fragment([])))))) ==
        [91, 58, 58, 93, 58, 56, 48]
  {
    PortEighty();
    hide Port;
    assert Scheme([]) == [] && User([]) == [] && Query([]) == [] && Fragment([]) == [];
  }

  /** What is no digit is not refused in a port: it counts by its distance from '0', as a signed octet, modulo 2^32. */
  lemma ForeignDigit(c: byte)
    ensures ReadDigits(0, [c]) == if 48 <= c < 128 then c - 48 else if c < 48 then 0x1_0000_0000 + c - 48
                                  else 0x1_0000_0000 + c - 256 - 48
  {
    assert [c][..0] == [];
  }

  lemma SchemeEnds(u: seq<byte>, behind: byte, scheme: seq<byte>, more: seq<byte>)
    requires IsScheme(scheme)
    requires more != [] && more[0] == COLON && u == scheme + more
    ensures Turn(u, behind, Start, 0, NO_PARTS) == Machine(SchemeOrPort, |scheme|, NO_PARTS)
  {
    hide Find, Free;
    SlashIsIn();
    assert u == [] + scheme + more;
    FindBehind([], scheme, more, [COLON, SLASH]);
    PartsBehind([], scheme, more);
  }

  lemma SchemeIsRead(u: seq<byte>, behind: byte, scheme: seq<byte>, rest: seq<byte>)
    requires u == scheme + [COLON, SLASH, SLASH] + rest
    ensures
      Turn(u, behind, SchemeOrPort, |scheme|, NO_PARTS) == Machine(UserInfo, |scheme| + 3, NO_PARTS.(scheme := scheme))
  {
    PartsBehind(scheme, [COLON, SLASH, SLASH], rest);
  }

  lemma AssembledInOrder(u: Uri)
    ensures
      Assembled(u) ==
        Scheme(u.scheme) +
        (User(u.user) + (u.host + (Port(u.port) + (u.path + (Query(u.query) + Fragment(u.fragment))))))
  {
    hide Scheme, User, Port, Query, Fragment;
  }
}
