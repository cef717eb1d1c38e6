/** Removing dot segments from the path of a URI (RFC 3986, section 5.2.4), in place. */
module UriPath {
  import opened Bytes

  const SLASH: byte := 47
  const DOT: byte := 46

  // ----- the standard's algorithm -----

  function WithoutLast(output: seq<byte>): seq<byte>
    decreases |output|
  {
    if output == [] then []
    else
      var front := output[..|output| - 1];
      if output[|output| - 1] == SLASH then front else WithoutLast(front)
  }

  /** The first segment with the slash in front of it, up to the next slash. */
  function FirstSegment(input: seq<byte>): (n: nat)
    requires input != []
    ensures 0 < n <= |input|
  {
    if input[0] == SLASH then 1 + IndexOf(input[1..], SLASH) else IndexOf(input, SLASH)
  }

  /** "./" or "../", for step 2A. */
  function RelativeDots(input: seq<byte>): (n: nat)
    ensures n <= |input|
  {
    if |input| >= 2 && input[0] == DOT && input[1] == SLASH then 2
    else if |input| >= 3 && input[0] == DOT && input[1] == DOT && input[2] == SLASH then 3
    else 0
  }

  /** "/./", or "/." as a whole, for step 2B. */
  predicate Here(input: seq<byte>) {
    |input| >= 2 && input[0] == SLASH && input[1] == DOT && (|input| > 2 ==> input[2] == SLASH)
  }

  /** "/../", or "/.." as a whole, for step 2C. */
  predicate Up(input: seq<byte>) {
    |input| >= 3 && input[0] == SLASH && input[1] == DOT && input[2] == DOT && (|input| > 3 ==> input[3] == SLASH)
  }

  predicate IsDots(s: seq<byte>) {
    s == [DOT] || s == [DOT, DOT]
  }

  /** What follows dots, of which the slash behind them is kept or, at the end, added. */
  function Behind(rest: seq<byte>): (s: seq<byte>)
    ensures s != []
  {
    if rest == [] then [SLASH] else rest
  }

  /** The loop of the standard; its steps 2A to 2E in order. */
  function RemoveDots(input: seq<byte>, output: seq<byte>): seq<byte>
    decreases |input|
  {
    if input == [] then output
    else if RelativeDots(input) > 0 then RemoveDots(input[RelativeDots(input)..], output)
    else if Here(input) then RemoveDots(Behind(input[2..]), output)
    else if Up(input) then RemoveDots(Behind(input[3..]), WithoutLast(output))
    else if IsDots(input) then output
    else
      var n := FirstSegment(input);
      RemoveDots(input[n..], output + input[..n])
  }

  /** Dots in front of a path without a slash at its start are dropped (step 2A). */
  lemma RelativeStart(rest: seq<byte>, output: seq<byte>)
    ensures RemoveDots([46, 47] + rest, output) == RemoveDots(rest, output)
    ensures RemoveDots([46, 46, 47] + rest, output) == RemoveDots(rest, output)
  {
    var one, two := [46, 47] + rest, [46, 46, 47] + rest;
    assert RelativeDots(one) == 2 && one[2..] == rest;
    assert RelativeDots(two) == 3 && two[3..] == rest;
  }

  // ----- what a step does with the next component -----

  predicate IsSegment(s: seq<byte>) {
    forall i | 0 <= i < |s| :: s[i] != SLASH
  }

  lemma {:induction false} RunOf(seg: seq<byte>, rest: seq<byte>)
    requires IsSegment(seg) && (rest == [] || rest[0] == SLASH)
    ensures IndexOf(seg + rest, SLASH) == |seg|
  {
    if seg != [] {
      assert (seg + rest)[1..] == seg[1..] + rest;
      RunOf(seg[1..], rest);
    } else {
      assert seg + rest == rest;
    }
  }

  /** A slash alone is kept. */
  lemma SlashIsKept(output: seq<byte>)
    ensures RemoveDots([SLASH], output) == output + [SLASH]
  {
    assert IndexOf([], SLASH) == 0 && [SLASH][1..] == [];
    assert FirstSegment([SLASH]) == 1;
    assert RemoveDots([], output + [SLASH]) == output + [SLASH];
  }

  lemma WhichComponent(seg: seq<byte>, rest: seq<byte>)
    requires IsSegment(seg) && (rest == [] || rest[0] == SLASH)
    ensures
      var input := [SLASH] + seg + rest;
      && RelativeDots(input) == 0 && !IsDots(input) && input != []
      && (Here(input) <==> seg == [DOT]) && (Up(input) <==> seg == [DOT, DOT])
      && FirstSegment(input) == 1 + |seg|
      && input[..1 + |seg|] == [SLASH] + seg && input[1 + |seg|..] == rest
  {
    var input := [SLASH] + seg + rest;
    RunOf(seg, rest);
    assert input[0] == SLASH && input[1..] == seg + rest;
    assert [DOT][0] != SLASH && [DOT, DOT][0] != SLASH;
    assert forall i | 0 <= i < |seg| :: input[1 + i] == seg[i];
    assert rest != [] ==> input[1 + |seg|] == SLASH;
    if Here(input) {
      assert seg == [DOT];
    }
    if Up(input) {
      assert seg == [DOT, DOT];
    }
  }

  lemma ComponentIsTaken(seg: seq<byte>, rest: seq<byte>, output: seq<byte>)
    requires IsSegment(seg) && (rest == [] || rest[0] == SLASH)
    ensures
      RemoveDots([SLASH] + seg + rest, output) ==
        if seg == [DOT] then RemoveDots(Behind(rest), output)
        else if seg == [DOT, DOT] then RemoveDots(Behind(rest), WithoutLast(output))
        else RemoveDots(rest, output + ([SLASH] + seg))
  {
    WhichComponent(seg, rest);
    hide IsSegment, Here, Up, IsDots, RelativeDots, FirstSegment, WithoutLast, Behind;
  }

  /** Two dots twice leave the last two components out. */
  lemma GoingUp(output: seq<byte>, b: byte, c: byte, g: byte)
    requires b != SLASH && c != SLASH && g != SLASH && g != DOT
    ensures
      RemoveDots([47, 46, 46, 47, 46, 46, 47, g], output + [47, b] + [47, c]) == output + [47, g]
  {
    var last, up: seq<byte> := [47, g], [47, 46, 46, 47, g];
    assert last == [SLASH] + [g] + [] && up == [SLASH] + [46, 46] + last;
    assert [47, 46, 46, 47, 46, 46, 47, g] == [SLASH] + [46, 46] + up;
    WithoutLastOf(output + [47, b], c);
    WithoutLastOf(output, b);
    assert [SLASH] + [b] == [47, b] && [SLASH] + [c] == [47, c] && [SLASH] + [g] == [47, g];
    hide RemoveDots, WithoutLast;
    ComponentIsTaken([46, 46], up, output + [47, b] + [47, c]);
    ComponentIsTaken([46, 46], last, output + [47, b]);
    ComponentIsTaken([g], [], output);
    NothingRemains(output + [47, g]);
  }

  lemma ExampleInParts()
    ensures
      [47, 97, 47, 98, 47, 99, 47, 46, 47, 46, 46, 47, 46, 46, 47, 103] ==
        [SLASH] + [97] +
        ([SLASH] + [98] + ([SLASH] + [99] + ([SLASH] + [46] + [47, 46, 46, 47, 46, 46, 47, 103])))
    ensures [] + ([SLASH] + [97]) == [47, 97] && [47, 97] + [47, 103] == [47, 97, 47, 103]
    ensures [SLASH] + [98] == [47, 98] && [SLASH] + [99] == [47, 99]
    ensures IsSegment([97]) && IsSegment([98]) && IsSegment([99]) && IsSegment([46]) && [DOT] == [46]
    ensures SLASH == 47 && Behind([47, 46, 46, 47, 46, 46, 47, 103]) == [47, 46, 46, 47, 46, 46, 47, 103]
  {
  }

  /** The example of section 5.2.4: "/a/b/c/./../../g" becomes "/a/g". */
  lemma ExampleOfStandard()
    ensures
      RemoveDots([47, 97, 47, 98, 47, 99, 47, 46, 47, 46, 46, 47, 46, 46, 47, 103], []) == [47, 97, 47, 103]
  {
    ExampleInParts();
    GoingUp([47, 97], 98, 99, 103);
    hide *;
    var up: seq<byte> := [47, 46, 46, 47, 46, 46, 47, 103];
    var here := [SLASH] + [46] + up;
    var c := [SLASH] + [99] + here;
    ComponentIsTaken([97], [SLASH] + [98] + c, []);
    ComponentIsTaken([98], c, [47, 97]);
    ComponentIsTaken([99], here, [47, 97] + [47, 98]);
    ComponentIsTaken([46], up, [47, 97] + [47, 98] + [47, 99]);
  }

  lemma NothingRemains(output: seq<byte>)
    ensures RemoveDots([], output) == output
  {
  }

  lemma WithoutLastOf(output: seq<byte>, c: byte)
    requires c != SLASH
    ensures WithoutLast(output + ([SLASH] + [c])) == output
  {
    var all := output + ([SLASH] + [c]);
    assert all[..|all| - 1] == output + [SLASH];
    assert (output + [SLASH])[..|output|] == output;
  }

  // ----- what the result is like -----

  /** A path that starts with a slash, or nothing; no component of it is made of dots. */
  predicate Clean(path: seq<byte>)
    decreases |path|
  {
    path == [] ||
    (path[0] == SLASH &&
     var n := 1 + IndexOf(path[1..], SLASH);
     !IsDots(path[1..n]) && Clean(path[n..]))
  }

  /** A path in parts: its first component and what follows that. */
  lemma FirstComponent(path: seq<byte>) returns (seg: seq<byte>, rest: seq<byte>)
    requires path != [] && path[0] == SLASH
    ensures IsSegment(seg) && (rest == [] || rest[0] == SLASH) && path == [SLASH] + seg + rest
    ensures |seg| == IndexOf(path[1..], SLASH) && |rest| < |path|
  {
    var n := 1 + IndexOf(path[1..], SLASH);
    seg, rest := path[1..n], path[n..];
    forall i | 0 <= i < |seg|
      ensures seg[i] != SLASH
    {
      assert seg[i] == path[1..][i];
    }
    if rest != [] {
      assert rest[0] == path[1..][n - 1];
    }
  }

  lemma CleanUnfolds(seg: seq<byte>, rest: seq<byte>)
    requires IsSegment(seg) && (rest == [] || rest[0] == SLASH)
    ensures Clean([SLASH] + seg + rest) <==> !IsDots(seg) && Clean(rest)
  {
    var path := [SLASH] + seg + rest;
    RunOf(seg, rest);
    assert path[1..] == seg + rest;
    assert path[1..1 + |seg|] == seg && path[1 + |seg|..] == rest;
  }

  lemma CleanStarts(path: seq<byte>)
    requires Clean(path) && path != []
    ensures path[0] == SLASH
  {
  }

  lemma {:induction false} CleanJoins(a: seq<byte>, b: seq<byte>)
    requires Clean(a) && Clean(b)
    ensures Clean(a + b)
    decreases |a|
  {
    hide Clean, IsSegment, IsDots, IndexOf;
    if a == [] {
      assert a + b == b;
    } else {
      CleanStarts(a);
      var seg, rest := FirstComponent(a);
      CleanUnfolds(seg, rest);
      CleanJoins(rest, b);
      if b != [] {
        CleanStarts(b);
      }
      assert a + b == [SLASH] + seg + (rest + b);
      CleanUnfolds(seg, rest + b);
    }
  }

  lemma {:induction false} CleanWithoutLast(a: seq<byte>, seg: seq<byte>)
    requires IsSegment(seg)
    ensures WithoutLast(a + [SLASH] + seg) == a
    decreases |seg|
  {
    var s := a + [SLASH] + seg;
    if seg == [] {
      assert s[..|s| - 1] == a;
    } else {
      assert s[|s| - 1] == seg[|seg| - 1];
      assert s[..|s| - 1] == a + [SLASH] + seg[..|seg| - 1];
      CleanWithoutLast(a, seg[..|seg| - 1]);
    }
  }

  /** A clean path is one component behind another clean path. */
  lemma {:induction false} LastComponent(path: seq<byte>) returns (front: seq<byte>, seg: seq<byte>)
    requires Clean(path) && path != []
    ensures Clean(front) && IsSegment(seg) && !IsDots(seg) && path == front + [SLASH] + seg
    decreases |path|
  {
    hide Clean, IsSegment, IsDots, IndexOf;
    CleanStarts(path);
    var first, rest := FirstComponent(path);
    CleanUnfolds(first, rest);
    if rest == [] {
      front, seg := [], first;
      NothingIsClean();
      assert path == front + [SLASH] + seg;
    } else {
      var f;
      f, seg := LastComponent(rest);
      front := [SLASH] + first + f;
      if f != [] {
        CleanStarts(f);
      }
      CleanUnfolds(first, f);
      assert path == front + [SLASH] + seg;
    }
  }

  lemma NothingIsClean()
    ensures Clean([]) && Clean([SLASH])
  {
    assert [SLASH] == [SLASH] + [] + [];
    CleanUnfolds([], []);
  }

  lemma OutputStaysClean(output: seq<byte>)
    requires Clean(output)
    ensures Clean(WithoutLast(output))
  {
    if output != [] {
      var front, seg := LastComponent(output);
      CleanWithoutLast(front, seg);
    }
  }

  lemma CleanGrows(output: seq<byte>, seg: seq<byte>)
    requires Clean(output) && IsSegment(seg) && !IsDots(seg)
    ensures Clean(output + ([SLASH] + seg))
  {
    hide Clean, IsSegment, IsDots;
    NothingIsClean();
    CleanUnfolds(seg, []);
    assert [SLASH] + seg + [] == [SLASH] + seg;
    CleanJoins(output, [SLASH] + seg);
  }

  /** The result starts with a slash and has no component "." or "..". */
  lemma {:induction false} ResultIsClean(input: seq<byte>, output: seq<byte>)
    requires Clean(output) && (if input == [] then output != [] else input[0] == SLASH)
    ensures Clean(RemoveDots(input, output)) && RemoveDots(input, output) != []
    decreases |input|
  {
    hide Clean, IsSegment, IndexOf, RemoveDots, WithoutLast;
    if input == [] {
      NothingLeft(output);
    } else {
      var seg, rest := FirstComponent(input);
      ComponentIsTaken(seg, rest, output);
      if IsDots(seg) {
        OutputStaysClean(output);
        ResultIsClean(Behind(rest), if seg == [DOT] then output else WithoutLast(output));
      } else {
        CleanGrows(output, seg);
        ResultIsClean(rest, output + ([SLASH] + seg));
      }
    }
  }

  lemma NothingLeft(output: seq<byte>)
    ensures RemoveDots([], output) == output
  {
  }

  /** A path without dot segments is kept as it is. */
  lemma {:induction false} CleanIsKept(path: seq<byte>, output: seq<byte>)
    requires Clean(path)
    ensures RemoveDots(path, output) == output + path
    decreases |path|
  {
    hide Clean, IsSegment, IndexOf, RemoveDots, WithoutLast;
    if path == [] {
      NothingLeft(output);
      assert output + path == output;
    } else {
      CleanStarts(path);
      var seg, rest := FirstComponent(path);
      CleanUnfolds(seg, rest);
      ComponentIsTaken(seg, rest, output);
      CleanIsKept(rest, output + ([SLASH] + seg));
      assert output + ([SLASH] + seg) + rest == output + path;
    }
  }

  /** Normalising a path that starts with a slash gives a clean path, and doing it again changes nothing. */
  lemma NormalisingTwice(path: seq<byte>)
    requires path != [] && path[0] == SLASH
    ensures
      var once := RemoveDots(path, []);
      && Clean(once) && once != [] && once[0] == SLASH
      && RemoveDots(once, []) == once
  {
    hide Clean, RemoveDots;
    var once := RemoveDots(path, []);
    NothingIsClean();
    ResultIsClean(path, []);
    CleanStarts(once);
    CleanIsKept(once, []);
    assert [] + once == once;
  }

  lemma {:induction false} WithoutLastTakesAway(output: seq<byte>, c: byte)
    ensures c in WithoutLast(output) ==> c in output
    decreases |output|
  {
    if output != [] {
      WithoutLastTakesAway(output[..|output| - 1], c);
    }
  }

  /** Normalising brings in no octet but slashes. */
  lemma {:induction false} NothingNew(input: seq<byte>, output: seq<byte>, c: byte)
    requires c != SLASH
    ensures c in RemoveDots(input, output) ==> c in input || c in output
    decreases |input|
  {
    if input == [] {
    } else if RelativeDots(input) > 0 {
      NothingNew(input[RelativeDots(input)..], output, c);
    } else if Here(input) {
      NothingNew(Behind(input[2..]), output, c);
    } else if Up(input) {
      WithoutLastTakesAway(output, c);
      NothingNew(Behind(input[3..]), WithoutLast(output), c);
    } else if !IsDots(input) {
      var n := FirstSegment(input);
      NothingNew(input[n..], output + input[..n], c);
    }
  }

  /** A path that is clean already is exactly one that normalising does not change. */
  lemma UnchangedMeansClean(path: seq<byte>)
    requires path != [] && path[0] == SLASH
    ensures RemoveDots(path, []) == path <==> Clean(path)
  {
    hide Clean, RemoveDots;
    NormalisingTwice(path);
    if Clean(path) {
      CleanIsKept(path, []);
      assert [] + path == path;
    }
  }

  // ----- the code -----

  /**
    What is left to be read leads to the result: behind the part done, which ends with a slash, as if that slash
    were still to be read.
   */
  ghost predicate Going(result: seq<byte>, done: seq<byte>, left: seq<byte>) {
    if done == [] then left != [] && left[0] == SLASH && RemoveDots(left, []) == result
    else
      && done[0] == SLASH
      && if done[|done| - 1] == SLASH then RemoveDots([SLASH] + left, done[..|done| - 1]) == result
         else left == [] && done == result
  }

  /** How far the next component reaches, with the slash behind it. */
  function Chunk(left: seq<byte>): (n: nat)
    requires left != []
    ensures 0 < n <= |left|
  {
    if IndexOf(left, SLASH) < |left| then IndexOf(left, SLASH) + 1 else IndexOf(left, SLASH)
  }

  function Component(left: seq<byte>): seq<byte> {
    left[..IndexOf(left, SLASH)]
  }

  /** What has been written after the next component. */
  function Next(done: seq<byte>, left: seq<byte>): seq<byte>
    requires left != []
  {
    if Component(left) == [DOT] then done
    else if Component(left) == [DOT, DOT] then (if done == [] then done else WithoutLast(done[..|done| - 1]) + [SLASH])
    else done + left[..Chunk(left)]
  }

  lemma LeftInParts(left: seq<byte>) returns (rest: seq<byte>)
    requires left != []
    ensures IsSegment(Component(left)) && left == Component(left) + rest
    ensures rest == [] || rest[0] == SLASH
    ensures Chunk(left) == |Component(left)| + if rest == [] then 0 else 1
    ensures left[Chunk(left)..] == if rest == [] then [] else rest[1..]
    ensures left[..Chunk(left)] == Component(left) + if rest == [] then [] else [SLASH]
  {
    rest := left[IndexOf(left, SLASH)..];
    forall i | 0 <= i < IndexOf(left, SLASH)
      ensures Component(left)[i] != SLASH
    {
      assert Component(left)[i] == left[i];
    }
  }

  /** Behind `output` and a slash, what follows the component is left to be read. */
  lemma AfterComponent(result: seq<byte>, output: seq<byte>, seg: seq<byte>, rest: seq<byte>)
    requires IsSegment(seg) && (rest == [] || rest[0] == SLASH)
    requires RemoveDots([SLASH] + (seg + rest), output) == result
    ensures
      var left := if rest == [] then [] else rest[1..];
      if seg == [DOT] then RemoveDots([SLASH] + left, output) == result
      else if seg == [DOT, DOT] then RemoveDots([SLASH] + left, WithoutLast(output)) == result
      else if rest == [] then result == output + ([SLASH] + seg)
      else RemoveDots([SLASH] + left, output + ([SLASH] + seg)) == result
  {
    hide RemoveDots, IsSegment, WithoutLast;
    assert [SLASH] + (seg + rest) == [SLASH] + seg + rest;
    ComponentIsTaken(seg, rest, output);
    assert Behind(rest) == [SLASH] + if rest == [] then [] else rest[1..];
    NothingLeft(output + ([SLASH] + seg));
  }

  lemma {:induction false} WithoutLastIsPrefix(output: seq<byte>)
    ensures WithoutLast(output) <= output
    decreases |output|
  {
    if output != [] && output[|output| - 1] != SLASH {
      WithoutLastIsPrefix(output[..|output| - 1]);
    }
  }

  lemma FirstComponentGoesOn(result: seq<byte>, left: seq<byte>)
    requires Going(result, [], left)
    ensures Next([], left) == [SLASH] && Chunk(left) == 1 && Going(result, [SLASH], left[1..])
  {
    assert IndexOf(left, SLASH) == 0;
    assert [SLASH] + left[1..] == left;
    assert [SLASH][..0] == [];
    hide RemoveDots;
  }

  lemma NotOnlySlash(seg: seq<byte>)
    requires IsSegment(seg) && seg != []
    ensures seg[|seg| - 1] != SLASH
  {
  }

  lemma GoingAtSlash(result: seq<byte>, output: seq<byte>, left: seq<byte>)
    requires output == [] || output[0] == SLASH
    ensures Going(result, output + [SLASH], left) <==> RemoveDots([SLASH] + left, output) == result
  {
    hide RemoveDots;
    assert (output + [SLASH])[..|output|] == output;
  }

  lemma GoesOn(result: seq<byte>, done: seq<byte>, left: seq<byte>)
    requires Going(result, done, left) && left != []
    ensures Going(result, Next(done, left), left[Chunk(left)..])
    ensures |Next(done, left)| <= |done| + Chunk(left)
  {
    if done == [] {
      FirstComponentGoesOn(result, left);
    } else {
      assert done[|done| - 1] == SLASH;
      assert done == done[..|done| - 1] + [SLASH];
      GoesOnBehindSlash(result, done[..|done| - 1], left);
    }
  }

  lemma GoesOnBehindSlash(result: seq<byte>, output: seq<byte>, left: seq<byte>)
    requires (output == [] || output[0] == SLASH) && left != []
    requires Going(result, output + [SLASH], left)
    ensures Going(result, Next(output + [SLASH], left), left[Chunk(left)..])
    ensures |Next(output + [SLASH], left)| <= |output| + 1 + Chunk(left)
  {
    var rest := LeftInParts(left);
    var seg, done := Component(left), output + [SLASH];
    GoingAtSlash(result, output, left);
    NextInParts(output, left);
    hide RemoveDots, IndexOf, IsSegment, WithoutLast, Component, Chunk, Going, Next;
    AfterComponent(result, output, seg, rest);
    if seg == [DOT] {
      GoingAtSlash(result, output, left[Chunk(left)..]);
    } else if seg == [DOT, DOT] {
      WithoutLastIsPrefix(output);
      GoingAtSlash(result, WithoutLast(output), left[Chunk(left)..]);
    } else {
      PlainGoesOn(result, output, seg, rest);
      PlainInParts(output, seg, if rest == [] then [] else [SLASH]);
    }
  }

  lemma PlainInParts(output: seq<byte>, seg: seq<byte>, end: seq<byte>)
    ensures output + [SLASH] + (seg + end) == output + ([SLASH] + seg) + end
  {
  }

  lemma NextInParts(output: seq<byte>, left: seq<byte>)
    requires left != []
    ensures
      Next(output + [SLASH], left) ==
        if Component(left) == [DOT] then output + [SLASH]
        else if Component(left) == [DOT, DOT] then WithoutLast(output) + [SLASH]
        else output + [SLASH] + left[..Chunk(left)]
  {
    assert (output + [SLASH])[..|output|] == output;
    hide WithoutLast, Component, Chunk;
  }

  lemma PlainGoesOn(result: seq<byte>, output: seq<byte>, seg: seq<byte>, rest: seq<byte>)
    requires IsSegment(seg) && (seg + rest != []) && (output == [] || output[0] == SLASH)
    requires
      if rest == [] then result == output + ([SLASH] + seg)
      else RemoveDots([SLASH] + rest[1..], output + ([SLASH] + seg)) == result
    ensures
      Going(result, output + ([SLASH] + seg) + (if rest == [] then [] else [SLASH]),
            if rest == [] then [] else rest[1..])
  {
    hide RemoveDots;
    var now := output + ([SLASH] + seg);
    if rest == [] {
      NotOnlySlash(seg);
      assert now[|now| - 1] == seg[|seg| - 1];
      assert now + [] == now;
    } else {
      assert (now + [SLASH])[..|now|] == now;
    }
  }

  lemma GoneThrough(result: seq<byte>, done: seq<byte>)
    requires Going(result, done, [])
    ensures result == done
  {
    if done != [] && done[|done| - 1] == SLASH {
      SlashIsKept(done[..|done| - 1]);
      assert [SLASH] + [] == [SLASH];
    }
    hide RemoveDots;
  }

  lemma WhatDotsAre(left: seq<byte>)
    requires left != []
    ensures Component(left) == [DOT] <==> IndexOf(left, SLASH) == 1 && left[0] == DOT
    ensures Component(left) == [DOT, DOT] <==> IndexOf(left, SLASH) == 2 && left[0] == DOT && left[1] == DOT
  {
  }

  /** `was` with some octets overwritten. */
  function Copied(was: seq<byte>, at: nat, octets: seq<byte>): (now: seq<byte>)
    requires at + |octets| <= |was|
    ensures |now| == |was|
  {
    was[..at] + octets + was[at + |octets|..]
  }

  lemma CopiedPart(was: seq<byte>, at: nat, octets: seq<byte>, i: nat)
    requires i <= at && at + |octets| <= |was|
    ensures Part(Copied(was, at, octets), i, at + |octets|) == Part(was, i, at) + octets
    ensures Part(Copied(was, at, octets), 0, i) == Part(was, 0, i)
  {
    var now := Copied(was, at, octets);
    SameElements(Part(now, i, at + |octets|), Part(was, i, at) + octets);
    SameElements(Part(now, 0, i), Part(was, 0, i));
  }

  lemma NotCopied(was: seq<byte>, at: nat, octets: seq<byte>, i: nat, j: nat)
    requires at + |octets| <= i <= j <= |was|
    ensures Part(Copied(was, at, octets), i, j) == Part(was, i, j)
  {
    SameElements(Part(Copied(was, at, octets), i, j), Part(was, i, j));
  }

  lemma NextOf(done: seq<byte>, left: seq<byte>)
    requires left != []
    ensures Component(left) == [DOT] ==> Next(done, left) == done
    ensures Component(left) == [DOT, DOT] && done == [] ==> Next(done, left) == []
    ensures Component(left) == [DOT, DOT] && done != [] ==>
              Next(done, left) == WithoutLast(Part(done, 0, |done| - 1)) + [SLASH]
    ensures !IsDots(Component(left)) ==> Next(done, left) == done + Part(left, 0, Chunk(left))
    ensures left[Chunk(left)..] == Part(left, Chunk(left), |left|)
  {
  }

  /**
    Where the component that starts at `s` ends, where the next one starts, and how many dots it is made of, zero
    for any other component.
   */
  method NextComponent(a: array<byte>, s: nat, se: nat) returns (next: nat, dots: nat)
    requires s < se <= a.Length
    ensures next == s + Chunk(Part(a[..], s, se))
    ensures dots == 1 <==> Component(Part(a[..], s, se)) == [DOT]
    ensures dots == 2 <==> Component(Part(a[..], s, se)) == [DOT, DOT]
  {
    ghost var left := a[..][s..se];
    var end := s;
    while end < se
      invariant s <= end <= se && forall k | s <= k < end :: a[k] != SLASH
    {
      if a[end] == SLASH {
        break;
      }
      end := end + 1;
    }
    IndexIs(left, SLASH, end - s);
    WhatDotsAre(left);
    next := if end < se then end + 1 else end;
    dots := 0;
    if end - s == 1 && a[s] == DOT {
      dots := 1;
    }
    if end - s == 2 && a[s] == DOT && a[s + 1] == DOT {
      dots := 2;
    }
  }

  /** What has been written, `d` octets at `to` of the target, and what is left of the source lead to the result. */
  ghost predicate Situation(
    result: seq<byte>, source: seq<byte>, s: nat, se: nat, target: seq<byte>, to: nat, d: nat)
  {
    s <= se <= |source| && to + d <= |target| && Going(result, Part(target, to, to + d), Part(source, s, se))
  }

  lemma DotStep(result: seq<byte>, source: seq<byte>, s: nat, se: nat, target: seq<byte>, to: nat, d: nat)
    requires Situation(result, source, s, se, target, to, d) && s < se && Component(Part(source, s, se)) == [DOT]
    ensures Situation(result, source, s + Chunk(Part(source, s, se)), se, target, to, d)
  {
    hide Going, Chunk, Component, Next, Part;
    var done, left := Part(target, to, to + d), Part(source, s, se);
    GoesOn(result, done, left);
    NextOf(done, left);
    PartOfPart(source, s, se, Chunk(left), |left|);
  }

  lemma DotDotStep(
    result: seq<byte>, source: seq<byte>, s: nat, se: nat, target: seq<byte>, to: nat, d: nat, r: nat)
    requires Situation(result, source, s, se, target, to, d) && s < se && Component(Part(source, s, se)) == [DOT, DOT]
    requires to + r <= |target|
    requires if d == 0 then r == 0
             else Part(target, to, to + r) == WithoutLast(Part(target, to, to + d - 1)) + [SLASH]
    ensures Situation(result, source, s + Chunk(Part(source, s, se)), se, target, to, r)
  {
    hide Going, Chunk, Component, Next, Part, WithoutLast;
    var done, left := Part(target, to, to + d), Part(source, s, se);
    GoesOn(result, done, left);
    NextOf(done, left);
    PartOfPart(source, s, se, Chunk(left), |left|);
    if d > 0 {
      PartOfPart(target, to, to + d, 0, d - 1);
    }
  }

  /** Whether the source is the target, of which only octets are written that have been read, or another array. */
  lemma PlainStep(
    result: seq<byte>, source: seq<byte>, s: nat, se: nat, target: seq<byte>, to: nat, d: nat, k: nat)
    requires Situation(result, source, s, se, target, to, d) && s < se && k == Chunk(Part(source, s, se))
    requires !IsDots(Component(Part(source, s, se))) && to + d + k <= |target|
    ensures
      var now := Copied(target, to + d, Part(source, s, s + k));
      && Situation(result, source, s + k, se, now, to, d + k)
      && (source == target && to + d <= s ==> Situation(result, now, s + k, se, now, to, d + k))
  {
    hide Going, Chunk, Component, Next, Part, IsDots, Copied;
    var done, left := Part(target, to, to + d), Part(source, s, se);
    GoesOn(result, done, left);
    NextOf(done, left);
    PartOfPart(source, s, se, k, |left|);
    PartOfPart(source, s, se, 0, k);
    CopiedPart(target, to + d, Part(source, s, s + k), to);
    if source == target && to + d <= s {
      NotCopied(target, to + d, Part(source, s, s + k), s + k, se);
    }
  }

  lemma EndsWithSlash(result: seq<byte>, source: seq<byte>, s: nat, se: nat, target: seq<byte>, to: nat, d: nat)
    requires Situation(result, source, s, se, target, to, d) && s < se && d > 0
    ensures target[to] == SLASH && target[to + d - 1] == SLASH
  {
    hide RemoveDots;
    var done := target[to..to + d];
    assert done[0] == target[to] && done[d - 1] == target[to + d - 1];
  }

  /** Only the range from `to` up to `limit` may differ. */
  ghost predicate Outside(was: seq<byte>, now: seq<byte>, to: nat, limit: nat) {
    && to <= limit <= |was| == |now|
    && Part(now, 0, to) == Part(was, 0, to) && Part(now, limit, |now|) == Part(was, limit, |was|)
  }

  lemma CopiedInside(first: seq<byte>, was: seq<byte>, octets: seq<byte>, to: nat, at: nat, limit: nat)
    requires Outside(first, was, to, limit) && to <= at && at + |octets| <= limit
    ensures Outside(first, Copied(was, at, octets), to, limit)
  {
    hide Part, Copied;
    CopiedPart(was, at, octets, to);
    NotCopied(was, at, octets, limit, |was|);
  }

  /** memmove between places of one array or of two. */
  method Copy(a: array<byte>, s: nat, k: nat, out: array<byte>, at: nat)
    requires s + k <= a.Length && at + k <= out.Length
    modifies out
    ensures out[..] == Copied(old(out[..]), at, Part(old(a[..]), s, s + k))
  {
    forall i | 0 <= i < k {
      out[at + i] := a[s + i];
    }
  }

  /** Goes back to behind the slash in front of the last component written. */
  method BackUp(out: array<byte>, to: nat, d: nat) returns (r: nat)
    requires to + d <= out.Length && d > 0 && out[to] == SLASH && out[to + d - 1] == SLASH
    ensures 0 < r <= d && Part(out[..], to, to + r) == WithoutLast(Part(out[..], to, to + d - 1)) + [SLASH]
  {
    hide WithoutLast, Part;
    r := d;
    if r > 1 && out[to + r - 1] == SLASH {
      r := r - 1;
    }
    while r > 0 && out[to + r - 1] != SLASH
      invariant 0 < r <= d && (d == 1 ==> r == 1)
      invariant d > 1 ==> WithoutLast(Part(out[..], to, to + r)) == WithoutLast(Part(out[..], to, to + d - 1))
    {
      BackOneStep(out[..], to, to + r);
      r := r - 1;
    }
    BackAtSlash(out[..], to, to + r);
  }

  lemma BackOneStep(s: seq<byte>, i: nat, j: nat)
    requires i < j <= |s| && s[j - 1] != SLASH
    ensures WithoutLast(Part(s, i, j)) == WithoutLast(Part(s, i, j - 1))
  {
    assert s[i..j][..j - 1 - i] == s[i..j - 1];
  }

  lemma BackAtSlash(s: seq<byte>, i: nat, j: nat)
    requires i < j <= |s| && s[j - 1] == SLASH
    ensures Part(s, i, j) == WithoutLast(Part(s, i, j)) + [SLASH]
    ensures i + 1 == j ==> WithoutLast(Part(s, i, j - 1)) == WithoutLast(Part(s, i, j)) == []
  {
    assert s[i..j] == s[i..j][..j - 1 - i] + [SLASH];
  }

  /** One turn of the loop: reads a component and keeps it, drops it, or drops the last one kept. */
  method NormalizeNext(a: array<byte>, s: nat, se: nat, out: array<byte>, to: nat, d: nat,
                       ghost limit: nat, ghost first: seq<byte>, ghost result: seq<byte>)
    returns (next: nat, r: nat)
    requires s < se <= a.Length && to + d + (se - s) <= limit <= out.Length && (a == out ==> to + d <= s)
    requires Situation(result, a[..], s, se, out[..], to, d) && Outside(first, out[..], to, limit)
    modifies out
    ensures s < next <= se && r <= d + (next - s)
    ensures Situation(result, a[..], next, se, out[..], to, r) && Outside(first, out[..], to, limit)
  {
    hide Situation, Outside, Component, Chunk, WithoutLast, Part, Copied;
    ghost var source, target := a[..], out[..];
    var dots;
    next, dots := NextComponent(a, s, se);
    if dots == 1 {
      DotStep(result, source, s, se, target, to, d);
      r := d;
    } else if dots == 2 {
      r := d;
      if d > 0 {
        EndsWithSlash(result, source, s, se, target, to, d);
        r := BackUp(out, to, d);
      }
      DotDotStep(result, source, s, se, target, to, d, r);
    } else {
      r := d + (next - s);
      Copy(a, s, next - s, out, to + d);
      PlainStep(result, source, s, se, target, to, d, next - s);
      CopiedInside(first, target, Part(source, s, next), to, to + d, limit);
    }
  }

  /** The loop over the components. */
  method NormalizeAll(a: array<byte>, at: nat, n: nat, out: array<byte>, to: nat, ghost result: seq<byte>)
      returns (d: nat)
    requires at + n <= a.Length && to + n <= out.Length && (a == out ==> to <= at)
    requires Situation(result, a[..], at, at + n, out[..], to, 0)
    modifies out
    ensures d <= n && Part(out[..], to, to + d) == result
    ensures Outside(old(out[..]), out[..], to, to + n)
  {
    hide RemoveDots, Situation, Outside, Part;
    ghost var first := out[..];
    NothingOutside(first, to, to + n);
    d := 0;
    var s, se := at, at + n;
    while s < se
      invariant at <= s <= se && d <= s - at
      invariant Situation(result, a[..], s, se, out[..], to, d) && Outside(first, out[..], to, to + n)
    {
      s, d := NormalizeNext(a, s, se, out, to, d, to + n, first, result);
    }
    Arrived(result, a[..], se, out[..], to, d);
  }

  /**
    Normalises the path of `n` octets at `at` into `out`, which may be the very same place, as it is when a
    request's path is normalised in its own buffer. Nothing but a path that starts with a slash is taken.
   */
  method Normalize(a: array<byte>, at: nat, n: nat, out: array<byte>, to: nat) returns (ok: bool, d: nat)
    requires at + n <= a.Length && to + n <= out.Length && (a == out ==> to <= at)
    modifies out
    ensures ok == (n > 0 && old(a[at]) == SLASH)
    ensures d <= n
    ensures Part(out[..], to, to + d) == if ok then RemoveDots(old(Part(a[..], at, at + n)), []) else []
    ensures Outside(old(out[..]), out[..], to, to + n)
  {
    if n == 0 || a[at] != SLASH {
      return false, 0;
    }
    GoingBegins(a[..], at, at + n, out[..], to);
    hide *;
    ok := true;
    d := NormalizeAll(a, at, n, out, to, RemoveDots(Part(a[..], at, at + n), []));
  }

  lemma NothingOutside(s: seq<byte>, to: nat, limit: nat)
    requires to <= limit <= |s|
    ensures Outside(s, s, to, limit)
  {
  }

  lemma GoingBegins(source: seq<byte>, s: nat, se: nat, target: seq<byte>, to: nat)
    requires s < se <= |source| && source[s] == SLASH && to <= |target|
    ensures Situation(RemoveDots(Part(source, s, se), []), source, s, se, target, to, 0)
  {
    hide RemoveDots;
  }

  lemma Arrived(result: seq<byte>, source: seq<byte>, se: nat, target: seq<byte>, to: nat, d: nat)
    requires Situation(result, source, se, se, target, to, d)
    ensures to + d <= |target| && Part(target, to, to + d) == result
  {
    GoneThrough(result, Part(target, to, to + d));
    hide RemoveDots;
  }
}
