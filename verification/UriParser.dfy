/** The URI parser's loop over its states, and the assembling of URIs in a buffer. */
module UriParser {
  import opened Bytes
  import opened Mbufs
  import opened Uris
  import UriPath

  // ----- taking apart -----

  /** The loops that look for the end of a component. */
  method Scan(u: seq<byte>, p: nat, stops: seq<byte>) returns (q: nat)
    requires p <= |u|
    ensures q == Find(u, p, stops)
  {
    q := p;
    while q < |u|
      invariant p <= q <= |u| && forall i | p <= i < q :: u[i] !in stops
    {
      var s := 0;
      while s < |stops|
        invariant 0 <= s <= |stops| && u[q] !in stops[..s]
      {
        if u[q] == stops[s] {
          break;
        }
        s := s + 1;
      }
      if s < |stops| {
        break;
      }
      assert stops[..s] == stops;
      q := q + 1;
    }
    FindIs(u, p, q, stops);
  }

  method ScanPort(u: seq<byte>, p: nat, port: nat) returns (q: nat, n: nat)
    requires p <= |u|
    ensures q == Find(u, p, [SLASH]) && n == ReadDigits(port, u[p..q])
  {
    q, n := p, port;
    assert u[p..q] == [];
    while q < |u|
      invariant p <= q <= |u| && forall i | p <= i < q :: u[i] !in [SLASH]
      invariant n == ReadDigits(port, u[p..q])
    {
      if u[q] == SLASH {
        break;
      }
      assert u[p..q + 1][..q - p] == u[p..q] && u[p..q + 1][q - p] == u[q];
      hide AddDigit;
      n := AddDigit(n, u[q]);
      q := q + 1;
    }
    FindIs(u, p, q, [SLASH]);
  }

  /** parse_uri_component: where the component ends, and where the next one starts. */
  method Component(u: seq<byte>, p: nat, stops: seq<byte>) returns (end: nat, next: nat)
    requires p <= |u|
    ensures end == Find(u, p, stops) && next == Behind(u, end)
  {
    end := Scan(u, p, stops);
    next := if end < |u| then end + 1 else end;
  }

  method ParseHost(u: seq<byte>, behind: byte, p: nat, parts: Uri) returns (m: Machine)
    requires p < |u|
    ensures m == HostTurn(u, behind, p, parts)
  {
    hide Find;
    var start := if u[p] == AT then p + 1 else p;
    var q;
    if At(u, behind, start) == OPEN_BRACKET {
      q := Scan(u, start, [CLOSE_BRACKET]);
      if q == |u| {
        return Failed;
      }
      q := q + 1;
    } else {
      q := Scan(u, start, [COLON, SLASH]);
    }
    m := BehindHost(u, q, parts.(host := u[start..q]));
  }

  method ParseRest(u: seq<byte>, p: nat, parts: Uri) returns (m: Machine)
    requires p < |u|
    ensures m == RestTurn(u, p, parts)
  {
    hide Find;
    var end, next := Component(u, p, [QUESTION, HASH]);
    var path := u[p..end];
    var start := next;
    if next < |u| && u[next - 1] == QUESTION {
      end, next := Component(u, next, [HASH]);
    } else {
      end := next;
    }
    m := Machine(Rest, |u|, parts.(path := path, query := u[start..end], fragment := u[next..]));
  }

  /** One turn of the loop: what is done depends on the state. */
  method TakeTurn(u: seq<byte>, behind: byte, state: State, p: nat, parts: Uri) returns (m: Machine)
    requires p < |u|
    ensures m == Turn(u, behind, state, p, parts)
  {
    hide Find, HostTurn, RestTurn, ReadDigits;
    match state
    case Start =>
      if u[p] == OPEN_BRACKET {
        return Machine(Host, p, parts);
      }
      var q := Scan(u, p, [COLON, SLASH]);
      if q == |u| {
        return Machine(Start, q, parts.(host := u));
      }
      m := if u[q] == COLON then Machine(SchemeOrPort, q, parts) else Machine(Rest, q, parts.(host := u[..q]));
    case SchemeOrPort =>
      if |u| - p >= 3 && u[p..p + 3] == [COLON, SLASH, SLASH] {
        m := Machine(UserInfo, p + 3, parts.(scheme := u[..p]));
      } else {
        m := Machine(PortNumber, p, parts.(host := u[..p]));
      }
    case UserInfo =>
      var q := Scan(u, p, [AT, OPEN_BRACKET, SLASH]);
      if q == |u| || u[q] == SLASH || u[q] == OPEN_BRACKET {
        q := p;
      }
      m := Machine(Host, q, parts.(user := u[p..q]));
    case Host =>
      m := ParseHost(u, behind, p, parts);
    case PortNumber =>
      var q, n := ScanPort(u, p + 1, parts.port);
      m := Machine(if q < |u| then Rest else PortNumber, q, parts.(port := n));
    case Rest =>
      m := ParseRest(u, p, parts);
  }

  /** Takes a URI apart; `behind` is the octet that follows it in memory. */
  method ParseUri(u: seq<byte>, behind: byte) returns (ok: bool, parts: Uri)
    ensures match Parse(u, behind)
      case Failed => !ok
      case Machine(_, _, all) => ok && parts == all
  {
    hide Turn;
    var state := Start;
    var p: nat := 0;
    parts := NO_PARTS;
    while p < |u|
      invariant Run(u, behind, Machine(state, p, parts)) == Parse(u, behind)
      decreases Rank(state), |u| - p
    {
      var m := TakeTurn(u, behind, state, p, parts);
      if m.Failed? {
        return false, NO_PARTS;
      }
      state, p, parts := m.state, m.p, m.parts;
    }
    ok := true;
  }

  // ----- putting together -----

  /** The path as it is assembled, when there is one that can be normalised or when it need not be. */
  predicate Acceptable(x: Uri, normalize: bool) {
    normalize && x.path != [] ==> x.path[0] == SLASH
  }

  function WithPath(x: Uri, normalize: bool): Uri {
    if !normalize then x
    else x.(path := if x.path == [] then [SLASH] else UriPath.RemoveDots(x.path, []))
  }

  /** The path normalised into a copy of itself. */
  method NormalizedPath(path: seq<byte>) returns (ok: bool, result: seq<byte>)
    requires path != []
    ensures ok == (path[0] == SLASH)
    ensures ok ==> result == UriPath.RemoveDots(path, [])
  {
    var from := new byte[|path|](i requires 0 <= i < |path| => path[i]);
    var copy := new byte[|path|](i requires 0 <= i < |path| => path[i]);
    WholePart(from[..]);
    assert from[..] == path;
    hide UriPath.RemoveDots, UriPath.Outside, Part;
    var d;
    ok, d := UriPath.Normalize(from, 0, |path|, copy, 0);
    result := Part(copy[..], 0, d);
  }

  lemma WholePart(s: seq<byte>)
    ensures Part(s, 0, |s|) == s
  {
  }

  /** Appends the next part of what is put together; `rest` is still to come. */
  method AddPart(out: Mbuf, data: seq<byte>, ghost rest: seq<byte>, ghost whole: seq<byte>)
    requires out.Valid() && out.Contents() + (data + rest) == whole
    modifies out, out.buf
    ensures out.Valid() && (out.buf == old(out.buf) || fresh(out.buf))
    ensures out.Contents() + rest == whole
  {
    ghost var was := out.Contents();
    out.Append(data);
    assert was + data + rest == was + (data + rest);
  }

  /** A component that is not empty, between what marks it. */
  method AddMarked(out: Mbuf, before: seq<byte>, s: seq<byte>, behind: seq<byte>, ghost rest: seq<byte>,
      ghost whole: seq<byte>)
    requires out.Valid() && out.Contents() + ((if s == [] then [] else before + s + behind) + rest) == whole
    modifies out, out.buf
    ensures out.Valid() && (out.buf == old(out.buf) || fresh(out.buf))
    ensures out.Contents() + rest == whole
  {
    if s != [] {
      assert before + s + behind + rest == before + (s + (behind + rest));
      AddPart(out, before, s + (behind + rest), whole);
      AddPart(out, s, behind + rest, whole);
      AddPart(out, behind, rest, whole);
    } else {
      assert [] + rest == rest;
    }
  }

  lemma Marked(s: seq<byte>, n: nat)
    ensures Scheme(s) == if s == [] then [] else [] + s + [COLON, SLASH, SLASH]
    ensures User(s) == if s == [] then [] else [] + s + [AT]
    ensures Query(s) == if s == [] then [] else [QUESTION] + s + []
    ensures Fragment(s) == if s == [] then [] else [HASH] + s + []
    ensures Port(n) == if n == 0 then [] else [COLON] + Decimal(n) + []
  {
    hide Decimal;
    assert [] + s == s;
    assert [QUESTION] + s + [] == [QUESTION] + s && [HASH] + s + [] == [HASH] + s;
    assert [COLON] + Decimal(n) + [] == [COLON] + Decimal(n);
  }

  method Assemble(y: Uri) returns (uri: seq<byte>)
    ensures uri == Assembled(y)
  {
    var out := new Mbuf();
    ghost var whole := Assembled(y);
    ghost var port, q, f := Port(y.port), Query(y.query), Fragment(y.fragment);
    AssembledInOrder(y);
    Marked(y.scheme, y.port);
    Marked(y.user, y.port);
    Marked(y.query, y.port);
    Marked(y.fragment, y.port);
    hide Assembled, Decimal, Port, Query, Fragment, Scheme, User;
    assert out.Contents() + whole == whole;
    AddMarked(out, [], y.scheme, [COLON, SLASH, SLASH], User(y.user) + (y.host + (port + (y.path + (q + f)))), whole);
    AddMarked(out, [], y.user, [AT], y.host + (port + (y.path + (q + f))), whole);
    AddPart(out, y.host, port + (y.path + (q + f)), whole);
    var digits := if y.port == 0 then [] else Decimal(y.port);
    AddMarked(out, [COLON], digits, [], y.path + (q + f), whole);
    AddPart(out, y.path, q + f, whole);
    AddMarked(out, [QUESTION], y.query, [], f, whole);
    assert f + [] == f;
    AddMarked(out, [HASH], y.fragment, [], [], whole);
    assert out.Contents() + [] == out.Contents();
    return out.buf[..out.len];
  }

  /** Puts a URI together; fails only when a path that is to be normalised does not start with a slash. */
  method AssembleUri(x: Uri, normalize: bool) returns (ok: bool, uri: seq<byte>)
    ensures ok == Acceptable(x, normalize)
    ensures ok ==> uri == Assembled(WithPath(x, normalize))
  {
    hide UriPath.RemoveDots, Assembled;
    ok := true;
    var path := x.path;
    if normalize {
      if path != [] {
        ok, path := NormalizedPath(path);
        if !ok {
          return false, [];
        }
      } else {
        path := [UriPath.SLASH];
      }
    }
    uri := Assemble(x.(path := path));
  }

  lemma NormalizedStaysFree(path: seq<byte>, stops: seq<byte>)
    requires Free(path, stops) && UriPath.SLASH !in stops
    ensures Free(UriPath.RemoveDots(path, []), stops)
  {
    var r := UriPath.RemoveDots(path, []);
    hide UriPath.RemoveDots;
    forall i | 0 <= i < |r|
      ensures r[i] !in stops
    {
      if r[i] != UriPath.SLASH {
        UriPath.NothingNew(path, [], r[i]);
        assert r[i] in r;
      }
    }
  }

  /**
    Assembled with its path normalised, a URI comes back with the normalised path and all else unchanged. There is
    always a path then for a query or a fragment to stand behind.
   */
  lemma NormalizedIsParsed(x: Uri, behind: byte)
    requires Delimited(x)
    ensures
      var y := WithPath(x, true);
      var m := Parse(Assembled(y), behind);
      && UriPath.Clean(y.path)
      && (m.Machine? && m.parts == y <==> (x.user != [] ==> x.scheme != []))
  {
    var y := WithPath(x, true);
    if x.path == [] {
      UriPath.NothingIsClean();
    } else {
      UriPath.NormalisingTwice(x.path);
      NormalizedStaysFree(x.path, [QUESTION, HASH]);
    }
    assert Free([SLASH], [QUESTION, HASH]);
    hide UriPath.RemoveDots, UriPath.Clean, Free, IsHost, Parse, Assembled;
    SlashesAreSlashes();
    AssembledIsParsed(y, behind);
  }

  lemma SlashesAreSlashes()
    ensures SLASH == UriPath.SLASH
  {
  }
}
