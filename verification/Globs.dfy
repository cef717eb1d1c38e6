/**
  Shell-like patterns: alternatives, '?', '*' within a path component, '**' across components, letters of either case.
 */
module Globs {
  import opened Bytes
  import opened Wrappers

  const QUESTION: byte := 63
  const STAR: byte := 42
  const SLASH: byte := 47
  const DOLLAR: byte := 36
  const BAR: byte := 124
  const COMMA: byte := 44

  function Lower(c: byte): byte {
    if 65 <= c <= 90 then c + 32 else c
  }

  // ----- what patterns mean -----

  ghost predicate NoSlash(t: seq<byte>) {
    forall i | 0 <= i < |t| :: t[i] != SLASH
  }

  /** What a pattern without alternatives and without '$' stands for. */
  ghost predicate Glob(p: seq<byte>, t: seq<byte>)
    decreases |p|
  {
    if p == [] then t == []
    else if p[0] == STAR then
      var q := BehindStars(p);
      exists n | 0 <= n <= |t| :: (Deep(p) || NoSlash(t[..n])) && Glob(q, t[n..])
    else t != [] && (p[0] == QUESTION || Lower(p[0]) == Lower(t[0])) && Glob(p[1..], t[1..])
  }

  /** Whether the pattern starts with two stars. */
  predicate Deep(p: seq<byte>) {
    |p| > 1 && p[1] == STAR
  }

  function BehindStars(p: seq<byte>): (q: seq<byte>)
    requires p != [] && p[0] == STAR
    ensures |q| < |p|
  {
    if Deep(p) then p[2..] else p[1..]
  }

  // ----- what the code finds -----

  /** The most that stars can take. */
  function Reach(p: seq<byte>, s: seq<byte>): (n: nat)
    ensures n <= |s|
  {
    if Deep(p) then |s| else IndexOf(s, SLASH)
  }

  /** A match of no length counts as none. */
  function Length(r: Option<nat>): nat {
    if r.Some? then r.value else 0
  }

  function OneMore(r: Option<nat>): Option<nat> {
    if r.Some? then Some(1 + r.value) else None
  }

  /** How much of `s` a pattern without alternatives takes, as the code goes about it. */
  function Walk(p: seq<byte>, s: seq<byte>): (r: Option<nat>)
    ensures r.Some? ==> r.value <= |s|
    decreases |p|, 0
  {
    if p == [] then Some(0)
    else if s == [] then (if p[0] == DOLLAR then Some(0) else None)
    else if p[0] == STAR then
      var q := BehindStars(p);
      if q == [] || q == [DOLLAR] then Some(Reach(p, s)) else Try(q, s, Reach(p, s))
    else if p[0] == QUESTION || Lower(p[0]) == Lower(s[0]) then OneMore(Walk(p[1..], s[1..]))
    else None
  }

  /** Gives the stars `n` octets, or fewer and fewer until the rest of the pattern takes something. */
  function Try(q: seq<byte>, s: seq<byte>, n: nat): (r: Option<nat>)
    requires n <= |s|
    ensures r.Some? ==> 0 < r.value <= |s|
    decreases |q|, 1, n
  {
    var taken := Length(Walk(q, s[n..]));
    if taken > 0 then Some(n + taken) else if n == 0 then None else Try(q, s, n - 1)
  }

  // ----- what is found is meant -----

  predicate NoDollar(p: seq<byte>) {
    forall i | 0 <= i < |p| :: p[i] != DOLLAR
  }

  lemma {:induction false} WalkIsMeant(p: seq<byte>, s: seq<byte>)
    requires NoDollar(p) && Walk(p, s).Some?
    ensures Glob(p, s[..Walk(p, s).value])
    decreases |p|, 0
  {
    var n := Walk(p, s).value;
    if p == [] {
    } else if p[0] == STAR {
      var q, most := BehindStars(p), Reach(p, s);
      assert s != [];
      assert q != [] ==> p[|p| - 1] == q[|q| - 1];
      if q == [] {
        StarsTake(p, s, most, most);
      } else {
        TryIsMeant(p, s, most);
      }
    } else {
      WalkIsMeant(p[1..], s[1..]);
      assert s[..n][1..] == s[1..][..n - 1];
    }
  }

  /** Stars that take `k` octets, and the rest of the pattern the others. */
  lemma StarsTake(p: seq<byte>, s: seq<byte>, k: nat, n: nat)
    requires p != [] && p[0] == STAR && k <= n <= |s| && k <= Reach(p, s) && Glob(BehindStars(p), s[k..n])
    ensures Glob(p, s[..n])
  {
    var t := s[..n];
    assert t[k..] == s[k..n] && t[..k] == s[..k];
    if !Deep(p) {
      assert NoSlash(s[..IndexOf(s, SLASH)]);
      forall i | 0 <= i < k
        ensures t[..k][i] != SLASH
      {
        assert s[..IndexOf(s, SLASH)][i] == s[i];
      }
    }
  }

  lemma {:induction false} TryIsMeant(p: seq<byte>, s: seq<byte>, k: nat)
    requires NoDollar(p) && p != [] && p[0] == STAR && k <= Reach(p, s)
    requires Try(BehindStars(p), s, k).Some?
    ensures Glob(p, s[..Try(BehindStars(p), s, k).value])
    decreases |p| - 1, 1, k
  {
    var q := BehindStars(p);
    var taken := Length(Walk(q, s[k..]));
    if taken > 0 {
      WalkIsMeant(q, s[k..]);
      assert s[k..][..taken] == s[k..k + taken];
      StarsTake(p, s, k, k + taken);
    } else {
      TryIsMeant(p, s, k - 1);
    }
  }

  // ----- what is meant is found -----

  ghost predicate EndsInStar(p: seq<byte>) {
    p != [] && p[|p| - 1] == STAR
  }

  /** How much of a pattern stands in front of its last stars, the stars being read two at a time where they can. */
  function FrontSize(p: seq<byte>): (n: nat)
    requires EndsInStar(p)
    ensures |p| - 2 <= n < |p|
  {
    if p[0] == STAR then
      var q := BehindStars(p);
      if q == [] then 0
      else
        assert q[|q| - 1] == p[|p| - 1];
        |p| - |q| + FrontSize(q)
    else 1 + FrontSize(p[1..])
  }

  /**
    What stands in front of the last stars stands for the first `n` octets, and there is something left. Behind
    other stars, or at the start of a pattern, the last stars have to take something; behind anything else they need
    not.
   */
  ghost predicate LeavesSome(p: seq<byte>, s: seq<byte>, n: nat)
    requires EndsInStar(p)
  {
    var m := FrontSize(p);
    n < |s| && Glob(p[..m], s[..n]) && ((m > 0 && p[m - 1] != STAR) || m + 2 == |p| || s[n] != SLASH)
  }

  /** When a pattern without '$' is found: exactly when it can be met by the beginning of a string. */
  ghost predicate Met(p: seq<byte>, s: seq<byte>) {
    if EndsInStar(p) then exists n | 0 <= n < |s| :: LeavesSome(p, s, n)
    else exists n | 0 < n <= |s| :: Glob(p, s[..n])
  }

  lemma {:induction false} TryFinds(q: seq<byte>, s: seq<byte>, n: nat)
    requires n <= |s|
    ensures Try(q, s, n).Some? <==> exists k | 0 <= k <= n :: Length(Walk(q, s[k..])) > 0
    decreases n
  {
    hide Walk;
    if Length(Walk(q, s[n..])) == 0 && n > 0 {
      TryFinds(q, s, n - 1);
    }
  }

  lemma {:induction false} ReachesSlash(s: seq<byte>, k: nat)
    requires k <= |s| && NoSlash(s[..k])
    ensures k <= IndexOf(s, SLASH)
  {
    forall i | 0 <= i < k
      ensures s[i] != SLASH
    {
      assert s[..k][i] == s[i];
    }
  }

  /** Stars that stand in front of something in a beginning of `s`: the stars take `k` octets. */
  lemma StarsTook(p: seq<byte>, s: seq<byte>, n: nat) returns (k: nat)
    requires p != [] && p[0] == STAR && n <= |s| && Glob(p, s[..n])
    ensures k <= n && k <= Reach(p, s) && Glob(BehindStars(p), s[k..][..n - k])
  {
    var t := s[..n];
    k :| 0 <= k <= |t| && (Deep(p) || NoSlash(t[..k])) && Glob(BehindStars(p), t[k..]);
    assert t[..k] == s[..k] && t[k..] == s[k..][..n - k];
    if !Deep(p) {
      ReachesSlash(s, k);
    }
  }

  /** The pattern in front of the last stars starts with the same stars as the whole. */
  lemma FrontBehindStars(p: seq<byte>)
    requires EndsInStar(p) && p[0] == STAR && BehindStars(p) != []
    ensures EndsInStar(BehindStars(p))
    ensures
      var q, f := BehindStars(p), p[..FrontSize(p)];
      && FrontSize(p) == |p| - |q| + FrontSize(q)
      && f != [] && f[0] == STAR && (Deep(f) <==> Deep(p)) && BehindStars(f) == q[..FrontSize(q)]
  {
    var q, m := BehindStars(p), FrontSize(p);
    assert q[|q| - 1] == p[|p| - 1];
    SameElements(BehindStars(p[..m]), q[..FrontSize(q)]);
  }

  lemma {:induction false} NeedsSome(p: seq<byte>)
    requires p != [] && !EndsInStar(p)
    ensures !Glob(p, [])
  {
    if p[0] == STAR {
      var q := BehindStars(p);
      NeedsSome(q);
      var nothing: seq<byte> := [];
      assert nothing[0..] == nothing;
    }
  }

  lemma NothingTaken(p: seq<byte>, s: seq<byte>)
    requires NoDollar(p)
    ensures Walk(p, s) == Some(0) <==> p == [] || (p == [STAR] && s != [] && s[0] == SLASH)
  {
    if p != [] && s != [] && p[0] == STAR {
      assert BehindStars(p) != [] ==> p[|p| - |BehindStars(p)|] == BehindStars(p)[0];
    }
  }

  /** What the backtracking finds, and what it does not, for all patterns without '$' and without alternatives. */
  lemma {:induction false} WalkFinds(p: seq<byte>, s: seq<byte>)
    requires NoDollar(p)
    ensures Length(Walk(p, s)) > 0 <==> Met(p, s)
    decreases |p|
  {
    if p == [] {
      assert forall n | 0 < n <= |s| :: s[..n] != [];
    } else if s == [] {
    } else if p[0] == STAR {
      StarsFind(p, s);
    } else if p[0] == QUESTION || Lower(p[0]) == Lower(s[0]) {
      WalkFinds(p[1..], s[1..]);
      NothingTaken(p[1..], s[1..]);
      MetBehindOne(p, s);
    } else {
      NotMet(p, s);
    }
  }

  lemma NotMet(p: seq<byte>, s: seq<byte>)
    requires p != [] && s != [] && p[0] != STAR && p[0] != QUESTION && Lower(p[0]) != Lower(s[0])
    ensures !Met(p, s)
  {
    assert forall n | 0 < n <= |s| :: s[..n][0] == s[0];
    if EndsInStar(p) {
      assert p[..FrontSize(p)][0] == p[0];
    }
  }

  lemma MetBehindOne(p: seq<byte>, s: seq<byte>)
    requires p != [] && s != [] && p[0] != STAR && (p[0] == QUESTION || Lower(p[0]) == Lower(s[0]))
    ensures Met(p, s) <==> Met(p[1..], s[1..]) || p[1..] == [] || (p[1..] == [STAR] && |s| > 1 && s[1] == SLASH)
  {
    var q, u := p[1..], s[1..];
    hide Lower;
    if EndsInStar(p) {
      forall n: nat | n <= |u|
        ensures Glob(p[..FrontSize(p)], s[..1 + n]) <==> Glob(q[..FrontSize(q)], u[..n])
      {
        assert p[..FrontSize(p)][1..] == q[..FrontSize(q)] && s[..1 + n][1..] == u[..n];
      }
      assert !Glob(p[..FrontSize(p)], s[..0]);
      LeavesBehindOne(p, s);
    } else {
      forall n: nat | n <= |u|
        ensures Glob(p, s[..1 + n]) <==> Glob(q, u[..n])
      {
        assert s[..1 + n][1..] == u[..n];
      }
      if q != [] {
        NeedsSome(q);
        assert u[..0] == [];
      } else {
        assert Glob(p, s[..1]);
      }
      hide Glob;
      if n :| 0 < n <= |s| && Glob(p, s[..n]) {
        assert Glob(q, u[..n - 1]);
      }
      if n :| 0 < n <= |u| && Glob(q, u[..n]) {
        assert Glob(p, s[..1 + n]);
      }
    }
  }

  lemma LeavesNothing(p: seq<byte>, s: seq<byte>)
    requires EndsInStar(p) && !Glob(p[..FrontSize(p)], s[..0])
    ensures !LeavesSome(p, s, 0)
  {
  }

  lemma LeavesOneLess(p: seq<byte>, s: seq<byte>, n: nat)
    requires EndsInStar(p) && p[0] != STAR && 0 < n < |s|
    requires Glob(p[..FrontSize(p)], s[..n]) <==> Glob(p[1..][..FrontSize(p[1..])], s[1..][..n - 1])
    ensures LeavesSome(p, s, n) <==>
            LeavesSome(p[1..], s[1..], n - 1) || (FrontSize(p[1..]) == 0 && n == 1)
  {
    var q, u := p[1..], s[1..];
    assert u[n - 1] == s[n];
    assert FrontSize(p) == 1 + FrontSize(q);
    assert FrontSize(q) > 0 ==> q[FrontSize(q) - 1] == p[FrontSize(p) - 1];
    assert FrontSize(q) == 0 ==> (Glob(q[..0], u[..n - 1]) <==> n == 1);
    hide Glob;
  }

  lemma LeavesBehindOne(p: seq<byte>, s: seq<byte>)
    requires EndsInStar(p) && s != [] && p[0] != STAR
    requires !Glob(p[..FrontSize(p)], s[..0])
    requires forall n: nat | n < |s| ::
               Glob(p[..FrontSize(p)], s[..1 + n]) <==> Glob(p[1..][..FrontSize(p[1..])], s[1..][..n])
    ensures Met(p, s) <==> Met(p[1..], s[1..]) || (p[1..] == [STAR] && |s| > 1 && s[1] == SLASH)
  {
    var q, u := p[1..], s[1..];
    assert FrontSize(p) == 1 + FrontSize(q);
    forall n: nat | n < |s|
      ensures LeavesSome(p, s, n) <==>
              n > 0 && (LeavesSome(q, u, n - 1) || (FrontSize(q) == 0 && n == 1 && |s| > 1))
    {
      if n > 0 {
        assert Glob(p[..FrontSize(p)], s[..1 + (n - 1)]) <==> Glob(q[..FrontSize(q)], u[..n - 1]);
        LeavesOneLess(p, s, n);
      } else {
        LeavesNothing(p, s);
      }
    }
    assert FrontSize(q) == 0 && |s| > 1 ==> LeavesSome(q, u, 0) || (q == [STAR] && s[1] == SLASH) by {
      assert u[..0] == [];
    }
    hide LeavesSome;
    if n :| 0 <= n < |u| && LeavesSome(q, u, n) {
      assert LeavesSome(p, s, 1 + n);
    }
    if FrontSize(q) == 0 && |s| > 1 {
      assert LeavesSome(p, s, 1);
    }
  }

  lemma {:induction false} StarsFind(p: seq<byte>, s: seq<byte>)
    requires NoDollar(p) && p != [] && p[0] == STAR && s != []
    ensures Length(Walk(p, s)) > 0 <==> Met(p, s)
    decreases |p|, 0
  {
    var q, most := BehindStars(p), Reach(p, s);
    assert q != [] ==> q[0] == p[|p| - |q|];
    if q == [] {
      assert LeavesSome(p, s, 0) <==> most > 0 by { assert s[..0] == []; }
      assert forall n | 0 <= n < |s| :: LeavesSome(p, s, n) ==> n == 0;
    } else {
      TryFinds(q, s, most);
      forall k | 0 <= k <= most
        ensures Length(Walk(q, s[k..])) > 0 <==> Met(q, s[k..])
      {
        WalkFinds(q, s[k..]);
      }
      MetBehindStars(p, s);
    }
  }

  lemma MetBehindStars(p: seq<byte>, s: seq<byte>)
    requires p != [] && p[0] == STAR && BehindStars(p) != []
    ensures Met(p, s) <==> exists k | 0 <= k <= Reach(p, s) :: Met(BehindStars(p), s[k..])
  {
    hide Met, Reach;
    if Met(p, s) {
      var k := MetBehindStarsTaking(p, s);
    }
    if k :| 0 <= k <= Reach(p, s) && Met(BehindStars(p), s[k..]) {
      MetWithStars(p, s, k);
    }
  }

  lemma MetBehindStarsTaking(p: seq<byte>, s: seq<byte>) returns (k: nat)
    requires p != [] && p[0] == STAR && BehindStars(p) != [] && Met(p, s)
    ensures k <= Reach(p, s) && Met(BehindStars(p), s[k..])
  {
    var q := BehindStars(p);
    assert q[|q| - 1] == p[|p| - 1];
    hide Glob, Reach;
    if EndsInStar(p) {
      FrontBehindStars(p);
      var n :| 0 <= n < |s| && LeavesSome(p, s, n);
      k := StarsTook(p[..FrontSize(p)], s, n);
      SameReach(p, p[..FrontSize(p)], s);
      LeavesBehind(p, s, k, n);
    } else {
      var n :| 0 < n <= |s| && Glob(p, s[..n]);
      k := StarsTook(p, s, n);
      NeedsSome(q);
      assert s[k..][..0] == [];
      assert n > k;
    }
  }

  lemma MetWithStars(p: seq<byte>, s: seq<byte>, k: nat)
    requires p != [] && p[0] == STAR && BehindStars(p) != [] && k <= Reach(p, s) && Met(BehindStars(p), s[k..])
    ensures Met(p, s)
  {
    var q := BehindStars(p);
    assert q[|q| - 1] == p[|p| - 1];
    if EndsInStar(p) {
      hide Glob, Reach, LeavesSome;
      var n :| 0 <= n < |s[k..]| && LeavesSome(q, s[k..], n);
      LeavesWithStars(p, s, k, n);
    } else {
      hide Reach;
      var n :| 0 < n <= |s[k..]| && Glob(q, s[k..][..n]);
      hide Glob;
      assert s[k..][..n] == s[k..k + n];
      StarsTake(p, s, k, k + n);
    }
  }

  lemma LeavesWithStars(p: seq<byte>, s: seq<byte>, k: nat, n: nat)
    requires EndsInStar(p) && p[0] == STAR && BehindStars(p) != [] && EndsInStar(BehindStars(p))
    requires k <= |s| && k <= Reach(p, s) && LeavesSome(BehindStars(p), s[k..], n)
    ensures LeavesSome(p, s, k + n)
  {
    FrontBehindStars(p);
    hide Glob, Reach;
    SameReach(p, p[..FrontSize(p)], s);
    assert s[k..][..n] == s[k..k + n] == s[k..][..k + n - k];
    StarsTake(p[..FrontSize(p)], s, k, k + n);
    LeavesBehind(p, s, k, k + n);
  }

  lemma SameReach(p: seq<byte>, f: seq<byte>, s: seq<byte>)
    requires Deep(p) <==> Deep(f)
    ensures Reach(p, s) == Reach(f, s)
  {
  }

  lemma LeavesBehind(p: seq<byte>, s: seq<byte>, k: nat, n: nat)
    requires EndsInStar(p) && p[0] == STAR && BehindStars(p) != [] && k <= n <= |s|
    requires EndsInStar(BehindStars(p)) && FrontSize(p) == |p| - |BehindStars(p)| + FrontSize(BehindStars(p))
    requires Glob(p[..FrontSize(p)], s[..n])
    requires Glob(BehindStars(p)[..FrontSize(BehindStars(p))], s[k..][..n - k])
    ensures LeavesSome(p, s, n) <==> LeavesSome(BehindStars(p), s[k..], n - k)
  {
    hide Glob;
    var q, m := BehindStars(p), FrontSize(p);
    assert n < |s| ==> s[k..][n - k] == s[n];
    assert FrontSize(q) > 0 ==> q[FrontSize(q) - 1] == p[m - 1];
    assert p[|p| - |q| - 1] == STAR;
  }

  // ----- where meaning and finding part -----

  predicate EndsInThreeStars(p: seq<byte>) {
    |p| >= 3 && p[|p| - 3] == p[|p| - 2] == p[|p| - 1] == STAR
  }

  /** Only of three stars or more at the end, some stand in front of the last ones. */
  lemma {:induction false} FrontEnds(p: seq<byte>)
    requires EndsInStar(p)
    ensures
      var m := FrontSize(p);
      && (forall i | m <= i < |p| :: p[i] == STAR)
      && (EndsInThreeStars(p) <==> m > 0 && p[m - 1] == STAR)
      && (m > 0 && p[m - 1] == STAR ==> m > 1 && p[m - 2] == STAR)
  {
    var m := FrontSize(p);
    if p[0] == STAR {
      var q := BehindStars(p);
      if q != [] {
        FrontBehindStars(p);
        FrontEnds(q);
        FrontEndsBehind(p, q, |p| - |q|, FrontSize(q));
        assert p[|p| - |q| - 1] == STAR;
      }
    } else {
      FrontEnds(p[1..]);
      FrontEndsBehind(p, p[1..], 1, FrontSize(p[1..]));
    }
  }

  lemma FrontEndsBehind(p: seq<byte>, q: seq<byte>, k: nat, m: nat)
    requires k <= |p| && q == p[k..] && m < |q| && (forall i | m <= i < |q| :: q[i] == STAR)
    ensures forall i | k + m <= i < |p| :: p[i] == STAR
    ensures m > 0 ==> q[m - 1] == p[k + m - 1]
    ensures m > 1 ==> q[m - 2] == p[k + m - 2]
    ensures |q| >= 3 ==> (EndsInThreeStars(q) <==> EndsInThreeStars(p))
  {
    assert forall i | k <= i < |p| :: p[i] == q[i - k];
  }

  /** What stands in front of the last stars stands for the first `n` octets of `t`, and the stars take the rest. */
  ghost predicate InParts(p: seq<byte>, t: seq<byte>, n: nat)
    requires EndsInStar(p)
  {
    var m := FrontSize(p);
    n <= |t| && Glob(p[..m], t[..n]) && (m + 2 == |p| || NoSlash(t[n..]))
  }

  /** A pattern that ends in stars is what is in front of them, and then what they may take. */
  lemma {:induction false} GlobInParts(p: seq<byte>, t: seq<byte>)
    requires EndsInStar(p)
    ensures Glob(p, t) <==> exists n: nat :: InParts(p, t, n)
    decreases |p|
  {
    if p[0] != STAR {
      if t != [] {
        GlobInParts(p[1..], t[1..]);
      }
      PartsBehindOne(p, t);
    } else if BehindStars(p) == [] {
      LastStarsTake(p, t);
      NothingInFront(p, t);
    } else {
      var q := BehindStars(p);
      assert q[|q| - 1] == p[|p| - 1];
      hide InParts, Glob;
      forall k | 0 <= k <= |t|
        ensures Glob(q, t[k..]) <==> exists n: nat :: InParts(q, t[k..], n)
      {
        GlobInParts(q, t[k..]);
      }
      PartsBehindStars(p, t);
    }
  }

  lemma PartsBehindStars(p: seq<byte>, t: seq<byte>)
    requires EndsInStar(p) && p[0] == STAR && BehindStars(p) != [] && EndsInStar(BehindStars(p))
    requires forall k | 0 <= k <= |t| ::
               Glob(BehindStars(p), t[k..]) <==> exists n: nat :: InParts(BehindStars(p), t[k..], n)
    ensures Glob(p, t) <==> exists n: nat :: InParts(p, t, n)
  {
    hide InParts, Glob, Reach, BehindStars;
    assert t[..|t|] == t;
    if Glob(p, t) {
      var k := StarsTook(p, t, |t|);
      assert t[k..][..|t| - k] == t[k..];
      var n: nat :| InParts(BehindStars(p), t[k..], n);
      PartsWithStars(p, t, k, n);
    }
    if n: nat :| InParts(p, t, n) {
      var k := StarsInParts(p, t, n);
      ReachIsThere(p, t);
      assert t[k..|t|] == t[k..];
      StarsTake(p, t, k, |t|);
    }
  }

  lemma ReachIsThere(p: seq<byte>, s: seq<byte>)
    ensures Reach(p, s) <= |s|
  {
  }

  lemma PartsBehindOne(p: seq<byte>, t: seq<byte>)
    requires EndsInStar(p) && p[0] != STAR
    ensures
      (exists n: nat :: InParts(p, t, n)) <==>
        t != [] && (p[0] == QUESTION || Lower(p[0]) == Lower(t[0])) && exists n: nat :: InParts(p[1..], t[1..], n)
  {
    hide InParts, Lower;
    if n: nat :| InParts(p, t, n) {
      PartBehindOne(p, t, n);
      assert InParts(p[1..], t[1..], n - 1);
    }
    if t != [] && (p[0] == QUESTION || Lower(p[0]) == Lower(t[0])) {
      if n: nat :| InParts(p[1..], t[1..], n) {
        PartBehindOne(p, t, 1 + n);
      }
    }
  }

  lemma PartBehindOne(p: seq<byte>, t: seq<byte>, n: nat)
    requires EndsInStar(p) && p[0] != STAR
    ensures
      InParts(p, t, n) <==>
        n > 0 && t != [] && (p[0] == QUESTION || Lower(p[0]) == Lower(t[0])) && InParts(p[1..], t[1..], n - 1)
  {
    hide NoSlash, Lower;
    var m := FrontSize(p);
    assert p[..m][1..] == p[1..][..m - 1] && p[..m][0] == p[0];
    if 0 < n <= |t| {
      assert t[..n][1..] == t[1..][..n - 1] && t[1..][n - 1..] == t[n..];
    }
  }

  lemma LastStarsTake(p: seq<byte>, t: seq<byte>)
    requires p != [] && p[0] == STAR && BehindStars(p) == []
    ensures Glob(p, t) <==> Deep(p) || NoSlash(t)
  {
    var q := BehindStars(p);
    if Glob(p, t) {
      var n :| 0 <= n <= |t| && (Deep(p) || NoSlash(t[..n])) && Glob(q, t[n..]);
      hide Glob, NoSlash;
      assert t[..|t|] == t;
    }
    if Deep(p) || NoSlash(t) {
      assert t[..|t|] == t && Glob(q, t[|t|..]);
    }
  }

  lemma NothingInFront(p: seq<byte>, t: seq<byte>)
    requires p != [] && p[0] == STAR && BehindStars(p) == []
    ensures EndsInStar(p) && (Deep(p) || NoSlash(t) <==> exists n: nat :: InParts(p, t, n))
  {
    hide NoSlash;
    assert t[0..] == t;
    assert InParts(p, t, 0) <==> Deep(p) || NoSlash(t);
    assert forall n: nat | InParts(p, t, n) :: n == 0;
  }

  lemma StarsInParts(p: seq<byte>, t: seq<byte>, n: nat) returns (k: nat)
    requires EndsInStar(p) && p[0] == STAR && BehindStars(p) != [] && InParts(p, t, n)
    ensures EndsInStar(BehindStars(p)) && k <= n && k <= Reach(p, t) && InParts(BehindStars(p), t[k..], n - k)
  {
    var m := FrontSize(p);
    FrontBehindStars(p);
    hide Glob, NoSlash, Reach;
    k := StarsTook(p[..m], t, n);
    SameReach(p, p[..m], t);
    assert t[k..][n - k..] == t[n..];
  }

  lemma PartsWithStars(p: seq<byte>, t: seq<byte>, k: nat, n: nat)
    requires EndsInStar(p) && p[0] == STAR && BehindStars(p) != [] && EndsInStar(BehindStars(p))
    requires k <= |t| && k <= Reach(p, t) && InParts(BehindStars(p), t[k..], n)
    ensures InParts(p, t, k + n)
  {
    var m := FrontSize(p);
    FrontBehindStars(p);
    hide Glob, NoSlash, Reach;
    assert t[k..][..n] == t[k..k + n] && t[k..][n..] == t[k + n..];
    SameReach(p, p[..m], t);
    StarsTake(p[..m], t, k, k + n);
  }

  /** The pattern stands for the first `n` octets, and for one less if these are all. */
  ghost predicate MeantUpTo(p: seq<byte>, s: seq<byte>, n: nat) {
    0 < n <= |s| && Glob(p, s[..n]) && (n < |s| || !EndsInStar(p) || Glob(p, s[..n - 1]))
  }

  /**
    A pattern that does not end in three stars is found exactly when it stands for some of a beginning of the string,
    except at the end of the string: there, last stars do not even take nothing.
   */
  lemma FoundExactlyWhenMeant(p: seq<byte>, s: seq<byte>)
    requires NoDollar(p) && !EndsInThreeStars(p)
    ensures Length(Walk(p, s)) > 0 <==> exists n: nat :: MeantUpTo(p, s, n)
  {
    hide Walk, Glob;
    WalkFinds(p, s);
    if EndsInStar(p) {
      FrontEnds(p);
      MetWhenMeant(p, s);
    } else {
      hide Walk;
      assert forall n: nat | 0 < n <= |s| :: Glob(p, s[..n]) <==> MeantUpTo(p, s, n);
    }
  }

  lemma MetWhenMeant(p: seq<byte>, s: seq<byte>)
    requires EndsInStar(p) && (FrontSize(p) > 0 ==> p[FrontSize(p) - 1] != STAR)
    ensures Met(p, s) <==> exists n: nat :: MeantUpTo(p, s, n)
  {
    hide LeavesSome, MeantUpTo;
    if Met(p, s) {
      var n :| 0 <= n < |s| && LeavesSome(p, s, n);
      MeantFromFront(p, s, n);
    }
    if n: nat :| MeantUpTo(p, s, n) {
      FrontFromMeant(p, s, n);
    }
  }

  lemma MeantFromFront(p: seq<byte>, s: seq<byte>, n: nat)
    requires EndsInStar(p) && (FrontSize(p) > 0 ==> p[FrontSize(p) - 1] != STAR) && LeavesSome(p, s, n)
    ensures MeantUpTo(p, s, if n > 0 then n else 1)
  {
    var m := FrontSize(p);
    if n > 0 {
      GlobInParts(p, s[..n]);
      assert s[..n][..n] == s[..n] && s[..n][n..] == [];
      assert InParts(p, s[..n], n);
    } else {
      var nothing: seq<byte> := [];
      assert s[..0] == nothing && nothing[..0] == nothing == nothing[0..];
      if m > 0 {
        assert p[..m][m - 1] == p[m - 1];
        NeedsSome(p[..m]);
        assert false;
      }
      assert s[..1] == [s[0]] && [s[0]][..0] == nothing && [s[0]][0..] == [s[0]];
      GlobInParts(p, s[..1]);
      GlobInParts(p, nothing);
      assert InParts(p, s[..1], 0) && InParts(p, nothing, 0);
    }
  }

  lemma FrontFromMeant(p: seq<byte>, s: seq<byte>, n: nat)
    requires EndsInStar(p) && (FrontSize(p) > 0 ==> p[FrontSize(p) - 1] != STAR)
    requires MeantUpTo(p, s, n)
    ensures Met(p, s)
  {
    var m, last := FrontSize(p), if n < |s| then n else n - 1;
    GlobInParts(p, s[..last]);
    var k: nat :| InParts(p, s[..last], k);
    assert s[..last][..k] == s[..k];
    if m == 0 {
      GlobInParts(p, s[..n]);
      var j: nat :| InParts(p, s[..n], j);
      assert j == 0 && k == 0;
      assert s[..n][0..][0] == s[0];
    }
    assert LeavesSome(p, s, k);
  }

  /** "a*" stands for "a", but does not match it. */
  lemma StarsAtTheEnd()
    ensures Glob([97, STAR], [97]) && Walk([97, STAR], [97]) == None
  {
    var p, t := [97, STAR], [97];
    var nothing: seq<byte> := [];
    assert p[1..] == [STAR] && t[1..] == nothing;
    assert BehindStars([STAR]) == nothing;
    assert nothing[..0] == nothing && nothing[0..] == nothing && NoSlash(nothing[..0]) && Glob(nothing, nothing[0..]);
    assert Glob([STAR], nothing);
    assert Walk([STAR], nothing) == None;
  }

  /** "***" stands for "/", but does not match it: the third star has to take something, and takes no slash. */
  lemma ThreeStarsNeedMore()
    ensures Glob([STAR, STAR, STAR], [SLASH]) && Length(Walk([STAR, STAR, STAR], [SLASH])) == 0
  {
    ThreeStars([SLASH]);
  }

  /** What three stars match, and what they stand for. */
  lemma ThreeStars(s: seq<byte>)
    ensures Glob([STAR, STAR, STAR], s)
    ensures Length(Walk([STAR, STAR, STAR], s)) > 0 <==> !(forall i | 0 <= i < |s| :: s[i] == SLASH)
  {
    var p := [STAR, STAR, STAR];
    assert BehindStars(p) == [STAR] && BehindStars([STAR]) == [] && EndsInStar(p) && FrontSize(p) == 2;
    assert p[..2] == [STAR, STAR];
    LastStarsTake([STAR, STAR], s);
    GlobInParts(p, s);
    assert s[..|s|] == s && s[|s|..] == [];
    assert InParts(p, s, |s|);
    WalkFinds(p, s);
    forall n: nat | n < |s|
      ensures LeavesSome(p, s, n) <==> s[n] != SLASH
    {
      LastStarsTake([STAR, STAR], s[..n]);
    }
    hide LeavesSome;
    if i :| 0 <= i < |s| && s[i] != SLASH {
      assert LeavesSome(p, s, i);
    }
  }

  // ----- the end of the string -----

  /** A pattern with '$' behind it. */
  function Anchored(q: seq<byte>): (p: seq<byte>)
    ensures p != [] && |p| == |q| + 1 && (q != [] ==> p[0] == q[0])
  {
    q + [DOLLAR]
  }

  lemma BehindAnchored(q: seq<byte>)
    requires q != []
    ensures Anchored(q)[1..] == Anchored(q[1..])
    ensures Deep(Anchored(q)) <==> Deep(q)
    ensures q[0] == STAR ==> BehindStars(Anchored(q)) == Anchored(BehindStars(q))
    ensures Anchored(q) != [DOLLAR] && Anchored([]) == [DOLLAR]
  {
    if q[0] == STAR {
      SameElements(BehindStars(Anchored(q)), Anchored(BehindStars(q)));
    }
  }

  lemma TryAnchored(q: seq<byte>, s: seq<byte>, n: nat)
    requires n <= |s| && q != [] && !EndsInStar(q)
    requires forall k | 0 <= k <= n ::
               Walk(Anchored(q), s[k..]) == if Glob(q, s[k..]) then Some(|s| - k) else None
    ensures
      Try(Anchored(q), s, n) == if exists k | 0 <= k <= n :: Glob(q, s[k..]) then Some(|s|) else None
    decreases n
  {
    hide Walk, Glob, Anchored, EndsInStar;
    NeedsSome(q);
    if n == |s| {
      assert s[n..] == [];
    }
    if n > 0 {
      TryAnchored(q, s, n - 1);
    }
  }

  /** With '$' behind it, a pattern that does not end in a star matches exactly the whole strings it stands for. */
  lemma {:induction false} AnchoredMatchesAll(q: seq<byte>, s: seq<byte>)
    requires NoDollar(q) && NoDollar(s) && !EndsInStar(q)
    ensures Walk(Anchored(q), s) == if Glob(q, s) then Some(|s|) else None
    decreases |q|
  {
    if q == [] {
      BehindAnchored([97]);
    } else if s == [] {
      NeedsSome(q);
    } else if q[0] == STAR {
      var b := BehindStars(q);
      RestOfAnchored(q);
      hide *;
      forall k | 0 <= k <= Reach(q, s)
        ensures Walk(Anchored(b), s[k..]) == if Glob(b, s[k..]) then Some(|s| - k) else None
      {
        RestHasNone(s, k);
        AnchoredMatchesAll(b, s[k..]);
      }
      AnchoredWithStars(q, s);
    } else {
      BehindAnchored(q);
      RestHasNone(q, 1);
      RestHasNone(s, 1);
      AnchoredMatchesAll(q[1..], s[1..]);
    }
  }

  lemma RestOfAnchored(q: seq<byte>)
    requires q != [] && q[0] == STAR && NoDollar(q) && !EndsInStar(q)
    ensures var b := BehindStars(q); b != [] && NoDollar(b) && !EndsInStar(b) && |b| < |q|
  {
    var b := BehindStars(q);
    assert b != [] ==> b[|b| - 1] == q[|q| - 1];
    RestHasNone(q, |q| - |b|);
  }

  lemma AnchoredWithStars(q: seq<byte>, s: seq<byte>)
    requires q != [] && q[0] == STAR && s != [] && NoDollar(q) && !EndsInStar(q)
    requires
      var b := BehindStars(q);
      forall k | 0 <= k <= Reach(q, s) ::
        Walk(Anchored(b), s[k..]) == if Glob(b, s[k..]) then Some(|s| - k) else None
    ensures Walk(Anchored(q), s) == if Glob(q, s) then Some(|s|) else None
  {
    var b := BehindStars(q);
    RestOfAnchored(q);
    BehindAnchored(q);
    BehindAnchored(b);
    GlobBehindStars(q, s);
    hide Glob, Anchored, Try, EndsInStar;
    TryAnchored(b, s, Reach(q, s));
  }

  lemma RestHasNone(p: seq<byte>, k: nat)
    requires NoDollar(p) && k <= |p|
    ensures NoDollar(p[k..])
  {
  }

  lemma GlobBehindStars(p: seq<byte>, s: seq<byte>)
    requires p != [] && p[0] == STAR
    ensures Glob(p, s) <==> exists k | 0 <= k <= Reach(p, s) :: Glob(BehindStars(p), s[k..])
  {
    assert s[..|s|] == s;
    if Glob(p, s) {
      var k := StarsTook(p, s, |s|);
      assert s[k..][..|s| - k] == s[k..];
    }
    if k :| 0 <= k <= Reach(p, s) && Glob(BehindStars(p), s[k..]) {
      assert s[k..|s|] == s[k..];
      StarsTake(p, s, k, |s|);
    }
  }

  ghost predicate HitsAt(q: seq<byte>, s: seq<byte>, n: nat) {
    n < |s| && s[n] == DOLLAR && Glob(q, s[..n])
  }

  /** A pattern stands for the whole string, or for what is in front of a '$' in it. */
  ghost predicate Hits(q: seq<byte>, s: seq<byte>) {
    Glob(q, s) || exists n: nat :: HitsAt(q, s, n)
  }

  lemma AnchoredTakes(q: seq<byte>, s: seq<byte>)
    requires q != [] && !EndsInStar(q) && q[0] != DOLLAR
    ensures Walk(Anchored(q), s) != Some(0)
  {
    BehindAnchored(q);
    if q[0] == STAR {
      var b := BehindStars(q);
      assert b[|b| - 1] == q[|q| - 1];
      BehindAnchored(b);
    }
  }

  lemma HitTaken(p: seq<byte>, s: seq<byte>, n: nat) returns (k: nat)
    requires p != [] && p[0] == STAR && HitsAt(p, s, n)
    ensures k <= n && k <= Reach(p, s) && HitsAt(BehindStars(p), s[k..], n - k)
  {
    hide Glob, Reach;
    k := StarsTook(p, s, n);
  }

  lemma HitWithStars(p: seq<byte>, s: seq<byte>, k: nat, n: nat)
    requires p != [] && p[0] == STAR && k <= |s| && k <= Reach(p, s) && HitsAt(BehindStars(p), s[k..], n)
    ensures HitsAt(p, s, k + n)
  {
    hide Glob, Reach;
    assert s[k..][..n] == s[k..k + n];
    StarsTake(p, s, k, k + n);
  }

  lemma HitsBehindStars(p: seq<byte>, s: seq<byte>)
    requires p != [] && p[0] == STAR
    ensures Hits(p, s) <==> exists k | 0 <= k <= Reach(p, s) :: Hits(BehindStars(p), s[k..])
  {
    hide Glob, HitsAt, Reach, BehindStars;
    GlobBehindStars(p, s);
    ReachIsThere(p, s);
    if n: nat :| HitsAt(p, s, n) {
      var k := HitTaken(p, s, n);
      assert Hits(BehindStars(p), s[k..]);
    }
    if k :| 0 <= k <= Reach(p, s) && Hits(BehindStars(p), s[k..]) {
      if n: nat :| HitsAt(BehindStars(p), s[k..], n) {
        HitWithStars(p, s, k, n);
      }
    }
  }

  lemma HitBehindOne(p: seq<byte>, s: seq<byte>, n: nat)
    requires p != [] && s != [] && p[0] != STAR
    ensures !HitsAt(p, s, 0)
    ensures HitsAt(p, s, n + 1) <==> (p[0] == QUESTION || Lower(p[0]) == Lower(s[0])) && HitsAt(p[1..], s[1..], n)
  {
    hide Lower;
    if n + 1 < |s| {
      assert s[..n + 1][1..] == s[1..][..n];
    }
  }

  lemma HitsBehindOne(p: seq<byte>, s: seq<byte>)
    requires p != [] && s != [] && p[0] != STAR
    ensures Hits(p, s) <==> (p[0] == QUESTION || Lower(p[0]) == Lower(s[0])) && Hits(p[1..], s[1..])
  {
    assert Glob(p, s) <==> (p[0] == QUESTION || Lower(p[0]) == Lower(s[0])) && Glob(p[1..], s[1..]);
    hide Glob, HitsAt, Lower;
    if n: nat :| HitsAt(p, s, n) {
      HitBehindOne(p, s, if n > 0 then n - 1 else 0);
      assert HitsAt(p[1..], s[1..], n - 1);
    }
    if n: nat :| HitsAt(p[1..], s[1..], n) {
      HitBehindOne(p, s, n);
    }
  }

  /** For all strings: since '$' also matches itself, the end that is meant may be in front of one in the string. */
  lemma {:induction false} AnchoredFinds(q: seq<byte>, s: seq<byte>)
    requires NoDollar(q) && !EndsInStar(q)
    ensures Walk(Anchored(q), s).Some? <==> Hits(q, s)
    decreases |q|
  {
    if q == [] {
      BehindAnchored([97]);
      NothingHits(s);
    } else if s == [] {
      NeedsSome(q);
    } else if q[0] == STAR {
      AnchoredStarsFind(q, s);
    } else {
      BehindAnchored(q);
      RestHasNone(q, 1);
      AnchoredFinds(q[1..], s[1..]);
      HitsBehindOne(q, s);
      hide Hits;
    }
  }

  lemma {:induction false} AnchoredStarsFind(q: seq<byte>, s: seq<byte>)
    requires NoDollar(q) && q != [] && q[0] == STAR && !EndsInStar(q) && s != []
    ensures Walk(Anchored(q), s).Some? <==> Hits(q, s)
    decreases |q|, 0
  {
    hide Hits, Glob, Walk, Try, Anchored, Reach;
    var b := BehindStars(q);
    assert b[|b| - 1] == q[|q| - 1];
    RestHasNone(q, |q| - |b|);
    forall k | 0 <= k <= Reach(q, s)
      ensures Length(Walk(Anchored(b), s[k..])) > 0 <==> Hits(b, s[k..])
    {
      AnchoredFinds(b, s[k..]);
      AnchoredTakes(b, s[k..]);
    }
    TryFinds(Anchored(b), s, Reach(q, s));
    HitsBehindStars(q, s);
    AnchoredStars(q, s);
  }

  lemma NothingHits(s: seq<byte>)
    ensures Hits([], s) <==> s == [] || s[0] == DOLLAR
  {
    assert s != [] && s[0] == DOLLAR ==> HitsAt([], s, 0);
  }

  lemma AnchoredStars(q: seq<byte>, s: seq<byte>)
    requires q != [] && q[0] == STAR && BehindStars(q) != [] && s != []
    ensures Walk(Anchored(q), s) == Try(Anchored(BehindStars(q)), s, Reach(q, s))
  {
    BehindAnchored(q);
    BehindAnchored(BehindStars(q));
    hide Try;
  }

  /** "a$" matches the beginning "a$" of "a$b". */
  lemma DollarMatchesItself()
    ensures Walk([97, DOLLAR], [97, DOLLAR, 98]) == Some(2)
  {
    var p, s := [97, DOLLAR], [97, DOLLAR, 98];
    var nothing: seq<byte> := [];
    assert p[1..] == [DOLLAR] && s[1..] == [DOLLAR, 98] && [DOLLAR][1..] == nothing && s[1..][1..] == [98];
    assert Walk(nothing, [98]) == Some(0);
    assert Walk([DOLLAR], [DOLLAR, 98]) == Some(1);
  }

  /** Behind a star, '$' is without effect: the match need not reach the end of the string. */
  lemma {:induction false} AnchorBehindStars(q: seq<byte>, s: seq<byte>)
    requires EndsInStar(q)
    ensures Walk(Anchored(q), s) == Walk(q, s)
    decreases |q|, 0
  {
    BehindAnchored(q);
    if s != [] {
      if q[0] == STAR {
        var b := BehindStars(q);
        if b != [] {
          assert b[|b| - 1] == q[|q| - 1];
          assert b != [DOLLAR];
          BehindAnchored(b);
          SameTry(b, s, Reach(q, s));
        }
      } else {
        AnchorBehindStars(q[1..], s[1..]);
      }
    }
  }

  lemma {:induction false} SameTry(q: seq<byte>, s: seq<byte>, n: nat)
    requires EndsInStar(q) && n <= |s|
    ensures Try(Anchored(q), s, n) == Try(q, s, n)
    decreases |q|, 1, n
  {
    hide Walk, Anchored;
    AnchorBehindStars(q, s[n..]);
    if n > 0 {
      SameTry(q, s, n - 1);
    }
  }

  // ----- alternatives -----

  predicate Separates(c: byte) {
    c == BAR || c == COMMA
  }

  /** The alternatives of a pattern, in order. */
  function Pieces(p: seq<byte>): (r: seq<seq<byte>>)
    ensures r != []
  {
    if p == [] then [[]]
    else
      var rest := Pieces(p[1..]);
      if Separates(p[0]) then [[]] + rest else [[p[0]] + rest[0]] + rest[1..]
  }

  /** The place where the code splits a pattern: at a bar, or if there is none at a comma. */
  function Splitter(p: seq<byte>): (n: nat)
    ensures n <= |p| && (n < |p| ==> Separates(p[n]))
    ensures n == |p| ==> forall i | 0 <= i < |p| :: !Separates(p[i])
  {
    if IndexOf(p, BAR) < |p| then IndexOf(p, BAR) else IndexOf(p, COMMA)
  }

  function MatchPrefix(p: seq<byte>, s: seq<byte>): (n: nat)
    ensures n <= |s|
    decreases |p|
  {
    var k := Splitter(p);
    if k == |p| then Length(Walk(p, s))
    else
      var r := MatchPrefix(p[..k], s);
      if r > 0 then r else MatchPrefix(p[k + 1..], s)
  }

  function FirstMatch(pieces: seq<seq<byte>>, s: seq<byte>): nat {
    if pieces == [] then 0
    else
      var r := Length(Walk(pieces[0], s));
      if r > 0 then r else FirstMatch(pieces[1..], s)
  }

  lemma {:induction false} PiecesSplit(a: seq<byte>, c: byte, b: seq<byte>)
    requires Separates(c)
    ensures Pieces(a + [c] + b) == Pieces(a) + Pieces(b)
  {
    var all := a + [c] + b;
    if a == [] {
      assert all[1..] == b;
    } else {
      hide Separates;
      assert all[0] == a[0] && all[1..] == a[1..] + [c] + b;
      PiecesSplit(a[1..], c, b);
      FirstPieceGrows(Pieces(a[1..]), Pieces(b), a[0]);
    }
  }

  lemma FirstPieceGrows(a: seq<seq<byte>>, b: seq<seq<byte>>, c: byte)
    requires a != []
    ensures [[c] + (a + b)[0]] + (a + b)[1..] == [[c] + a[0]] + a[1..] + b
    ensures [[]] + (a + b) == [[]] + a + b
  {
  }

  lemma {:induction false} OnePiece(p: seq<byte>)
    requires forall i | 0 <= i < |p| :: !Separates(p[i])
    ensures Pieces(p) == [p]
  {
    if p != [] {
      OnePiece(p[1..]);
      HeadAndTail(p);
      var rest: seq<seq<byte>> := [p[1..]][1..];
      assert rest == [];
      assert [p] + rest == [p];
    }
  }

  lemma {:induction false} FirstOfBoth(a: seq<seq<byte>>, b: seq<seq<byte>>, s: seq<byte>)
    ensures FirstMatch(a + b, s) == if FirstMatch(a, s) > 0 then FirstMatch(a, s) else FirstMatch(b, s)
  {
    hide Walk;
    if a == [] {
      assert a + b == b;
    } else {
      assert (a + b)[1..] == a[1..] + b;
      FirstOfBoth(a[1..], b, s);
    }
  }

  /** Although the code splits at bars before commas, the first alternative that matches decides. */
  lemma {:induction false} FirstAlternativeDecides(p: seq<byte>, s: seq<byte>)
    ensures MatchPrefix(p, s) == FirstMatch(Pieces(p), s)
    decreases |p|
  {
    hide Walk, Pieces, FirstMatch, Splitter;
    var k := Splitter(p);
    if k == |p| {
      OnePiece(p);
      OneMatch(p, s);
    } else {
      FirstAlternativeDecides(p[..k], s);
      FirstAlternativeDecides(p[k + 1..], s);
      assert p == p[..k] + [p[k]] + p[k + 1..];
      PiecesSplit(p[..k], p[k], p[k + 1..]);
      FirstOfBoth(Pieces(p[..k]), Pieces(p[k + 1..]), s);
    }
  }

  lemma OneMatch(p: seq<byte>, s: seq<byte>)
    ensures FirstMatch([p], s) == Length(Walk(p, s))
  {
    hide Walk;
    assert FirstMatch([p][1..], s) == 0;
  }

  lemma {:induction false} FirstMatchIsOne(pieces: seq<seq<byte>>, s: seq<byte>) returns (i: nat)
    requires FirstMatch(pieces, s) > 0
    ensures i < |pieces| && Walk(pieces[i], s) == Some(FirstMatch(pieces, s))
  {
    if Length(Walk(pieces[0], s)) > 0 {
      i := 0;
    } else {
      i := FirstMatchIsOne(pieces[1..], s);
      i := i + 1;
    }
  }

  lemma {:induction false} PiecesHaveNoDollar(p: seq<byte>, i: nat)
    requires NoDollar(p) && i < |Pieces(p)|
    ensures NoDollar(Pieces(p)[i])
  {
    if p != [] {
      var rest := Pieces(p[1..]);
      PiecesHaveNoDollar(p[1..], 0);
      if i > 0 {
        if Separates(p[0]) {
          PiecesHaveNoDollar(p[1..], i - 1);
        } else {
          PiecesHaveNoDollar(p[1..], i);
        }
      }
    }
  }

  /** What is found is no more than there is, and one of the alternatives stands for it. */
  lemma FoundIsMeant(p: seq<byte>, s: seq<byte>)
    requires NoDollar(p) && MatchPrefix(p, s) > 0
    ensures
      && MatchPrefix(p, s) <= |s|
      && exists piece :: piece in Pieces(p) && Glob(piece, s[..MatchPrefix(p, s)])
  {
    hide Walk, Glob, MatchPrefix, Pieces;
    FirstAlternativeDecides(p, s);
    var i := FirstMatchIsOne(Pieces(p), s);
    PiecesHaveNoDollar(p, i);
    WalkIsMeant(Pieces(p)[i], s);
    assert Pieces(p)[i] in Pieces(p);
  }

  lemma {:induction false} SomeMatchIsFound(pieces: seq<seq<byte>>, s: seq<byte>, i: nat)
    requires i < |pieces| && Length(Walk(pieces[i], s)) > 0
    ensures FirstMatch(pieces, s) > 0
    decreases i
  {
    hide Walk;
    if i > 0 {
      SomeMatchIsFound(pieces[1..], s, i - 1);
    }
  }

  /** A pattern with alternatives is found exactly when one of them can be met. */
  lemma MeantIsFound(p: seq<byte>, s: seq<byte>)
    requires NoDollar(p)
    ensures MatchPrefix(p, s) > 0 <==> exists i | 0 <= i < |Pieces(p)| :: Met(Pieces(p)[i], s)
  {
    hide Walk, MatchPrefix, Pieces, Met, NoDollar;
    FirstAlternativeDecides(p, s);
    forall i | 0 <= i < |Pieces(p)|
      ensures Met(Pieces(p)[i], s) <==> Length(Walk(Pieces(p)[i], s)) > 0
    {
      PiecesHaveNoDollar(p, i);
      WalkFinds(Pieces(p)[i], s);
    }
    if i :| 0 <= i < |Pieces(p)| && Met(Pieces(p)[i], s) {
      SomeMatchIsFound(Pieces(p), s, i);
    }
    if MatchPrefix(p, s) > 0 {
      var i := FirstMatchIsOne(Pieces(p), s);
      assert Met(Pieces(p)[i], s);
    }
  }

  // ----- letters of either case -----

  /** Equal, or the same letter of the alphabet in two cases. */
  predicate SameLetter(a: byte, b: byte) {
    a == b || (65 <= a <= 90 && b == a + 32) || (97 <= a <= 122 && b == a - 32)
  }

  lemma LowerIsCase(a: byte, b: byte)
    ensures Lower(a) == Lower(b) <==> SameLetter(a, b)
  {
  }

  ghost predicate SameButCase(s: seq<byte>, t: seq<byte>) {
    |s| == |t| && forall i | 0 <= i < |s| :: SameLetter(s[i], t[i])
  }

  lemma RestSameButCase(s: seq<byte>, t: seq<byte>, k: nat)
    requires SameButCase(s, t) && k <= |s|
    ensures SameButCase(s[k..], t[k..]) && SameButCase(s[..k], t[..k])
  {
    hide SameLetter;
    forall i | 0 <= i < |s| - k
      ensures SameLetter(s[k..][i], t[k..][i])
    {
      assert SameLetter(s[k + i], t[k + i]);
    }
  }

  lemma {:induction false} SameIndex(s: seq<byte>, t: seq<byte>, c: byte)
    requires SameButCase(s, t) && !(65 <= c <= 90 || 97 <= c <= 122)
    ensures IndexOf(s, c) == IndexOf(t, c)
    decreases |s|
  {
    if s != [] {
      assert SameLetter(s[0], t[0]);
      RestSameButCase(s, t, 1);
      SameIndex(s[1..], t[1..], c);
    }
  }

  /** The first octets of patterns that differ in case are the same mark, or none. */
  lemma SameMarks(p: seq<byte>, q: seq<byte>)
    requires SameButCase(p, q)
    ensures
      forall i | 0 <= i < |p| ::
        p[i] in {QUESTION, STAR, DOLLAR} || q[i] in {QUESTION, STAR, DOLLAR} ==> p[i] == q[i]
    ensures Deep(p) <==> Deep(q)
    ensures p == [DOLLAR] <==> q == [DOLLAR]
  {
    forall i | 0 <= i < |p|
      ensures p[i] in {QUESTION, STAR, DOLLAR} || q[i] in {QUESTION, STAR, DOLLAR} ==> p[i] == q[i]
    {
      assert SameLetter(p[i], q[i]);
    }
  }

  /** What a pattern takes does not depend on the case of letters, neither of the pattern nor of the string. */
  lemma {:induction false} WalkIgnoresCase(p: seq<byte>, q: seq<byte>, s: seq<byte>, t: seq<byte>)
    requires SameButCase(p, q) && SameButCase(s, t)
    ensures Walk(p, s) == Walk(q, t)
    decreases |p|, 0
  {
    if p != [] && s != [] {
      SameMarks(p, q);
      if p[0] == STAR {
        var k := |p| - |BehindStars(p)|;
        RestSameButCase(p, q, k);
        SameMarks(p[k..], q[k..]);
        SameIndex(s, t, SLASH);
        TryIgnoresCase(p[k..], q[k..], s, t, Reach(p, s));
      } else {
        assert SameLetter(p[0], q[0]) && SameLetter(s[0], t[0]);
        FirstMatches(p[0], q[0], s[0], t[0]);
        RestSameButCase(p, q, 1);
        RestSameButCase(s, t, 1);
        WalkIgnoresCase(p[1..], q[1..], s[1..], t[1..]);
      }
    } else {
      SameMarks(p, q);
    }
  }

  lemma FirstMatches(a: byte, b: byte, c: byte, d: byte)
    requires SameLetter(a, b) && SameLetter(c, d)
    ensures Lower(a) == Lower(c) <==> Lower(b) == Lower(d)
  {
    LowerIsCase(a, b);
    LowerIsCase(c, d);
  }

  lemma {:induction false} TryIgnoresCase(p: seq<byte>, q: seq<byte>, s: seq<byte>, t: seq<byte>, n: nat)
    requires SameButCase(p, q) && SameButCase(s, t) && n <= |s|
    ensures Try(p, s, n) == Try(q, t, n)
    decreases |p|, 1, n
  {
    hide Walk, SameButCase;
    RestSameButCase(s, t, n);
    SameLength(s, t);
    WalkIgnoresCase(p, q, s[n..], t[n..]);
    if n > 0 {
      TryIgnoresCase(p, q, s, t, n - 1);
    }
  }

  lemma SameLength(s: seq<byte>, t: seq<byte>)
    requires SameButCase(s, t)
    ensures |s| == |t|
  {
  }

  lemma SameSplitter(p: seq<byte>, q: seq<byte>)
    requires SameButCase(p, q)
    ensures |p| == |q| && Splitter(p) == Splitter(q)
  {
    SameIndex(p, q, BAR);
    SameIndex(p, q, COMMA);
    hide IndexOf, SameLetter;
  }

  /** The length that is found is the same whatever case the letters of pattern and string are written in. */
  lemma {:induction false} MatchIgnoresCase(p: seq<byte>, q: seq<byte>, s: seq<byte>, t: seq<byte>)
    requires SameButCase(p, q) && SameButCase(s, t)
    ensures MatchPrefix(p, s) == MatchPrefix(q, t)
    decreases |p|
  {
    hide Walk, SameButCase, Splitter;
    SameSplitter(p, q);
    var k := Splitter(p);
    if k == |p| {
      WalkIgnoresCase(p, q, s, t);
    } else {
      RestSameButCase(p, q, k);
      RestSameButCase(p, q, k + 1);
      MatchIgnoresCase(p[..k], q[..k], s, t);
      MatchIgnoresCase(p[k + 1..], q[k + 1..], s, t);
    }
  }

  /** A mark of the pattern language. */
  predicate IsMark(c: byte) {
    c in {63, 42, 36, 124, 44}
  }

  /** An octet that is no mark matches exactly itself, and a letter the same letter in the other case. */
  lemma OneOctetMatches(c: byte, d: byte)
    requires !IsMark(c)
    ensures
      MatchPrefix([c], [d]) ==
        if c == d || (65 <= c <= 90 && d == c + 32) || (97 <= c <= 122 && d == c - 32) then 1 else 0
  {
    LowerIsCase(c, d);
    var nothing: seq<byte> := [];
    assert [c][1..] == nothing && [d][1..] == nothing;
    assert IndexOf(nothing, BAR) == 0 && IndexOf(nothing, COMMA) == 0;
    assert IndexOf([c], BAR) == 1 && IndexOf([c], COMMA) == 1;
    assert Walk(nothing, nothing) == Some(0);
    hide Lower, IndexOf;
  }

  /** '?' matches any one octet. */
  lemma QuestionMatches(d: byte)
    ensures MatchPrefix([63], [d]) == 1
  {
    var nothing: seq<byte> := [];
    assert [63][1..] == nothing && [d][1..] == nothing;
    assert IndexOf(nothing, BAR) == 0 && IndexOf(nothing, COMMA) == 0;
    assert IndexOf([63], BAR) == 1 && IndexOf([63], COMMA) == 1;
    assert Walk(nothing, nothing) == Some(0);
    hide Lower, IndexOf;
  }

  /** Alternatives stand between bars and commas: the second is tried when the first matches nothing. */
  lemma AlternativesAre(a: seq<byte>, c: byte, b: seq<byte>, s: seq<byte>)
    requires c in {124, 44}
    ensures MatchPrefix(a + [c] + b, s) == if MatchPrefix(a, s) > 0 then MatchPrefix(a, s) else MatchPrefix(b, s)
  {
    hide MatchPrefix, Pieces, FirstMatch;
    FirstAlternativeDecides(a + [c] + b, s);
    FirstAlternativeDecides(a, s);
    FirstAlternativeDecides(b, s);
    PiecesSplit(a, c, b);
    FirstOfBoth(Pieces(a), Pieces(b), s);
  }

  // ----- names with an ending -----

  ghost predicate Plain(x: seq<byte>) {
    forall i | 0 <= i < |x| :: !IsMark(x[i])
  }

  lemma {:induction false} PlainStandsForItself(x: seq<byte>, t: seq<byte>)
    requires Plain(x)
    ensures Glob(x, t) <==> SameButCase(x, t)
    decreases |x|
  {
    hide SameLetter, Lower;
    if x != [] && t != [] {
      PlainStandsForItself(x[1..], t[1..]);
      LowerIsCase(x[0], t[0]);
      HeadAndTail(x);
      HeadAndTail(t);
      SameWithHead(x, t);
    }
  }

  lemma SameWithHead(s: seq<byte>, t: seq<byte>)
    requires s != [] && t != []
    ensures SameButCase(s, t) <==> SameLetter(s[0], t[0]) && SameButCase(s[1..], t[1..])
  {
    hide SameLetter;
    if SameButCase(s, t) {
      RestSameButCase(s, t, 1);
    }
    if SameLetter(s[0], t[0]) && SameButCase(s[1..], t[1..]) {
      forall i | 0 <= i < |s|
        ensures SameLetter(s[i], t[i])
      {
        assert i > 0 ==> SameLetter(s[1..][i - 1], t[1..][i - 1]);
      }
    }
  }

  /** One star or two, an ending, and the end of the string. */
  function EndingPattern(deep: bool, x: seq<byte>): seq<byte> {
    (if deep then [42, 42] else [42]) + x + [36]
  }

  /** The string ends with `x` in whatever case; what is in front of it may have a slash only if `deep`. */
  ghost predicate EndsWith(s: seq<byte>, deep: bool, x: seq<byte>) {
    |x| <= |s| && SameButCase(x, s[|s| - |x|..]) && (deep || 47 !in s[..|s| - |x|])
  }

  lemma StarsAndEnding(deep: bool, x: seq<byte>, s: seq<byte>)
    requires Plain(x) && x != []
    ensures
      var q := (if deep then [42, 42] else [42]) + x;
      Glob(q, s) <==> EndsWith(s, deep, x)
  {
    var q := (if deep then [42, 42] else [42]) + x;
    assert !IsMark(x[0]);
    assert q[0] == STAR && (Deep(q) <==> deep);
    SameElements(BehindStars(q), x);
    hide Plain, SameButCase, IsMark;
    assert Glob(q, s) <==> exists n | 0 <= n <= |s| :: (deep || NoSlash(s[..n])) && Glob(x, s[n..]);
    forall n | 0 <= n <= |s|
      ensures Glob(x, s[n..]) <==> SameButCase(x, s[n..])
      ensures SameButCase(x, s[n..]) ==> n == |s| - |x|
    {
      PlainStandsForItself(x, s[n..]);
      SameCount(x, s[n..]);
    }
    hide Glob;
  }

  lemma SameCount(s: seq<byte>, t: seq<byte>)
    ensures SameButCase(s, t) ==> |s| == |t|
  {
  }

  lemma PlainHasNoMarks(deep: bool, x: seq<byte>)
    requires Plain(x) && x != []
    ensures
      var q := (if deep then [42, 42] else [42]) + x;
      && NoDollar(q) && !EndsInStar(q) && EndingPattern(deep, x) == Anchored(q)
      && forall i | 0 <= i < |EndingPattern(deep, x)| :: !Separates(EndingPattern(deep, x)[i])
  {
    var q := (if deep then [42, 42] else [42]) + x;
    assert q[|q| - 1] == x[|x| - 1];
    forall i | 0 <= i < |q|
      ensures q[i] != DOLLAR && !Separates(q[i])
    {
      var k := |q| - |x|;
      assert i >= k ==> q[i] == x[i - k];
    }
  }

  lemma EndingIsWalked(deep: bool, x: seq<byte>, s: seq<byte>)
    requires Plain(x) && x != [] && NoDollar(s)
    ensures Walk(EndingPattern(deep, x), s) == if EndsWith(s, deep, x) then Some(|s|) else None
  {
    hide *;
    PlainHasNoMarks(deep, x);
    StarsAndEnding(deep, x, s);
    AnchoredMatchesAll((if deep then [42, 42] else [42]) + x, s);
  }

  /** "*.x$" matches the names that end in ".x" within a directory, "**.x$" those below it; the length is the whole. */
  lemma EndingIsFound(deep: bool, x: seq<byte>, s: seq<byte>)
    requires Plain(x) && x != [] && NoDollar(s)
    ensures MatchPrefix(EndingPattern(deep, x), s) == if EndsWith(s, deep, x) then |s| else 0
  {
    hide *;
    var p := EndingPattern(deep, x);
    PlainHasNoMarks(deep, x);
    EndingIsWalked(deep, x, s);
    FirstAlternativeDecides(p, s);
    OnePiece(p);
    OneMatch(p, s);
    WholeLength(|s|);
  }

  lemma WholeLength(n: nat)
    ensures Length(Some(n)) == n && Length(None) == 0
  {
  }

  lemma EitherEndingIsFound(x: seq<byte>, y: seq<byte>, s: seq<byte>)
    requires Plain(x) && Plain(y) && x != [] && y != [] && NoDollar(s)
    ensures
      MatchPrefix(EndingPattern(true, x) + [124] + EndingPattern(true, y), s) ==
        if EndsWith(s, true, x) || EndsWith(s, true, y) then |s| else 0
  {
    BarSeparates();
    hide *;
    var a, b := EndingPattern(true, x), EndingPattern(true, y);
    FirstAlternativeDecides(a + [124] + b, s);
    PiecesSplit(a, 124, b);
    FirstOfBoth(Pieces(a), Pieces(b), s);
    FirstAlternativeDecides(a, s);
    FirstAlternativeDecides(b, s);
    EndingIsFound(true, x, s);
    EndingIsFound(true, y, s);
  }

  lemma BarSeparates()
    ensures Separates(124)
  {
  }

  /** The default of the web server, "**.cgi$|**.php$": a script is what ends in ".cgi" or ".php", in whatever case. */
  lemma ScriptIsChosen(s: seq<byte>)
    requires NoDollar(s)
    ensures
      MatchPrefix([42, 42, 46, 99, 103, 105, 36, 124, 42, 42, 46, 112, 104, 112, 36], s) ==
        if EndsWith(s, true, [46, 99, 103, 105]) || EndsWith(s, true, [46, 112, 104, 112]) then |s| else 0
  {
    DefaultPattern();
    hide *;
    EitherEndingIsFound([46, 99, 103, 105], [46, 112, 104, 112], s);
  }

  lemma DefaultPattern()
    ensures
      [42, 42, 46, 99, 103, 105, 36, 124, 42, 42, 46, 112, 104, 112, 36] ==
        EndingPattern(true, [46, 99, 103, 105]) + [124] + EndingPattern(true, [46, 112, 104, 112])
    ensures Plain([46, 99, 103, 105]) && Plain([46, 112, 104, 112])
  {
    assert EndingPattern(true, [46, 99, 103, 105]) == [42, 42, 46, 99, 103, 105, 36];
    assert EndingPattern(true, [46, 112, 104, 112]) == [42, 42, 46, 112, 104, 112, 36];
  }

  // ----- the code -----

  method FindOctet(p: seq<byte>, c: byte) returns (n: nat)
    ensures n == IndexOf(p, c)
  {
    n := 0;
    while n < |p| && p[n] != c
      invariant n <= |p| && forall i | 0 <= i < n :: p[i] != c
    {
      n := n + 1;
    }
    IndexIs(p, c, n);
  }

  /** `i` of the pattern and `j` of the string have been dealt with. */
  ghost predicate Walking(p: seq<byte>, s: seq<byte>, i: nat, j: nat) {
    && i <= |p| && j <= |s|
    && Length(Walk(p, s)) == (if Walk(p[i..], s[j..]).Some? then j + Walk(p[i..], s[j..]).value else 0)
  }

  lemma WalkingBegins(p: seq<byte>, s: seq<byte>)
    ensures Walking(p, s, 0, 0)
  {
    hide Walk;
    assert p[0..] == p && s[0..] == s;
  }

  lemma WalkingStep(p: seq<byte>, s: seq<byte>, i: nat, j: nat)
    requires Walking(p, s, i, j) && i < |p| && j < |s| && p[i] != STAR
    ensures
      if p[i] == QUESTION || Lower(p[i]) == Lower(s[j]) then Walking(p, s, i + 1, j + 1)
      else Length(Walk(p, s)) == 0
  {
    assert p[i..][1..] == p[i + 1..] && s[j..][1..] == s[j + 1..];
  }

  lemma WalkingEnds(p: seq<byte>, s: seq<byte>, i: nat, j: nat)
    requires Walking(p, s, i, j) && (i == |p| || j == |s|)
    ensures Length(Walk(p, s)) == if i == |p| || p[i] == DOLLAR then j else 0
  {
  }

  lemma WalkingStars(p: seq<byte>, s: seq<byte>, i: nat, j: nat)
    requires Walking(p, s, i, j) && i < |p| && j < |s| && p[i] == STAR
    ensures
      var k := if Deep(p[i..]) then i + 2 else i + 1;
      var most := Reach(p[i..], s[j..]);
      && p[i..] != [] && BehindStars(p[i..]) == p[k..] && j + most <= |s|
      && Length(Walk(p, s)) ==
           if k == |p| || p[k..] == [DOLLAR] then j + most
           else var t := Try(p[k..], s[j..], most); if t.Some? then j + t.value else 0
  {
  }

  lemma NoSplitInside(p: seq<byte>, k: nat)
    requires Splitter(p) == |p| && k <= |p|
    ensures Splitter(p[k..]) == |p[k..]|
  {
  }

  lemma TryUnfolds(q: seq<byte>, s: seq<byte>, n: nat)
    requires n <= |s|
    ensures
      var taken := Length(Walk(q, s[n..]));
      Try(q, s, n) == if taken > 0 then Some(n + taken) else if n == 0 then None else Try(q, s, n - 1)
  {
    hide Walk;
  }

  /** How far a single star reaches. */
  method ScanToSlash(s: seq<byte>) returns (n: nat)
    ensures n == IndexOf(s, SLASH)
  {
    n := 0;
    while n < |s| && s[n] != SLASH
      invariant n <= |s| && forall i | 0 <= i < n :: s[i] != SLASH
    {
      n := n + 1;
    }
    IndexIs(s, SLASH, n);
  }

  /** How many octets of the string a pattern with alternatives takes from its start on; zero when there is no match. */
  method MatchPrefixN(pattern: seq<byte>, str: seq<byte>) returns (res: nat)
    ensures res == MatchPrefix(pattern, str)
    decreases |pattern|
  {
    var k := FindOctet(pattern, BAR);
    if k == |pattern| {
      k := FindOctet(pattern, COMMA);
    }
    if k < |pattern| {
      res := MatchPrefixN(pattern[..k], str);
      if res > 0 {
        return;
      }
      res := MatchPrefixN(pattern[k + 1..], str);
      return;
    }
    res := MatchOne(pattern, str);
  }

  /** The loop over a pattern without alternatives. */
  method MatchOne(pattern: seq<byte>, str: seq<byte>) returns (res: nat)
    requires Splitter(pattern) == |pattern|
    ensures res == Length(Walk(pattern, str))
    decreases |pattern|
  {
    hide Walk, Walking, Try, Reach, Splitter;
    var i: nat, j: nat := 0, 0;
    ghost var differs := false;
    WalkingBegins(pattern, str);
    while i < |pattern| && j < |str|
      invariant i <= |pattern| && j <= |str| && !differs && Walking(pattern, str, i, j)
    {
      if pattern[i] == STAR {
        res := MatchStars(pattern, str, i, j);
        return;
      }
      WalkingStep(pattern, str, i, j);
      if pattern[i] != QUESTION && Lower(pattern[i]) != Lower(str[j]) {
        differs := true;
        break;
      }
      i, j := i + 1, j + 1;
    }
    if !differs {
      WalkingEnds(pattern, str, i, j);
    }
    if i < |pattern| && pattern[i] == DOLLAR {
      return if j == |str| then |str| else 0;
    }
    return if i == |pattern| then j else 0;
  }

  /** Gives the stars as much as they can take, then less, until the rest of the pattern matches. */
  method MatchStars(pattern: seq<byte>, str: seq<byte>, i: nat, j: nat) returns (res: nat)
    requires Splitter(pattern) == |pattern| && Walking(pattern, str, i, j)
    requires i < |pattern| && j < |str| && pattern[i] == STAR
    ensures res == Length(Walk(pattern, str))
    decreases |pattern|, 0
  {
    hide Walk, Walking, Try, Splitter;
    WalkingStars(pattern, str, i, j);
    var k, len := i + 1, 0;
    if k < |pattern| && pattern[k] == STAR {
      k := k + 1;
      len := |str| - j;
    } else {
      len := ScanToSlash(str[j..]);
    }
    if k == |pattern| || (pattern[k] == DOLLAR && k == |pattern| - 1) {
      return j + len;
    }
    NoSplitInside(pattern, k);
    ghost var t := Try(pattern[k..], str[j..], len);
    var more := true;
    res := 0;
    while more
      invariant 0 <= len <= |str| - j
      invariant more ==> Try(pattern[k..], str[j..], len) == t
      invariant !more ==> t == if res > 0 then Some(len + res) else None
      decreases more, len
    {
      TryUnfolds(pattern[k..], str[j..], len);
      assert str[j..][len..] == str[j + len..];
      res := MatchOne(pattern[k..], str[j + len..]);
      if res == 0 && len != 0 {
        len := len - 1;
      } else {
        more := false;
      }
    }
    res := if res == 0 then 0 else j + res + len;
  }
}
