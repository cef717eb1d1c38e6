/** What can be said of every template and every value about the meaning the interpreter implements. */
module MustacheProperties {
  import opened Keys
  import opened JsonContext
  import opened MustacheTemplate
  import opened MustacheMeaning
  import opened Wrappers

  // ----- sections that are not shown -----

  lemma {:induction false} ScanSilent(t: string, from: nat, beg: nat, line: Line)
    requires from <= beg <= |t|
    ensures Scan(t, from, beg, false, line).out == ""
    decreases |t| - beg
  {
    hide FindOpen, IsSpace;
    if beg < |t| && !OpensAt(t, beg) {
      var p := Pass(t, from, beg, false, line);
      ScanSilent(t, p.1, beg + 1, p.2);
    }
  }

  lemma ApproachSilent(env: Env, at: nat, tag: Tag, line: Line)
    requires at <= |env.t|
    ensures Approach(env, at, tag, false, line).out == ""
  {
    hide Scan;
    ScanSilent(env.t, at, at, line);
  }

  /** With printing off nothing is printed and the context is left alone, whatever the template says. */
  lemma {:induction false} HiddenIsSilent(env: Env, tree: Tree, depth: nat, line: Line, c: Context)
    requires Within(tree, |env.t|)
    ensures
      var r := Eval(env, tree, depth, false, line, c);
      r.out == "" && r.calls == []
    decreases tree
  {
    hide Approach, Scan;
    ScanSilent(env.t, tree.at, tree.at, line);
    match tree
    case Close(at, name, _) => ApproachSilent(env, at, End(name), line);
    case Leaf(at, tag, rest) =>
      ApproachSilent(env, at, tag, line);
      HiddenIsSilent(env, rest, depth, Approach(env, at, tag, false, line).line, c);
    case Section(at, name, inverted, body, rest) =>
      var tag := Begin(name, inverted);
      ApproachSilent(env, at, tag, line);
      var a := Approach(env, at, tag, false, line);
      HiddenIsSilent(env, body, depth + 1, a.line, c);
      HiddenIsSilent(env, rest, depth, Rounds(env, body, name, depth + 1, false, false, a.line, c).line, c);
    case _ =>
  }

  // ----- the calls on the context -----

  /** How deep the context is, and whether the innermost section has run out of items and must be left. */
  datatype Level = Level(open: nat, ending: bool) | Breach

  /**
    The contract of the callbacks: `next` and `leave` for the innermost entered section only, `leave` right after its
    last item.
   */
  function After(call: Call, l: Level): Level {
    if l.Breach? then Breach
    else
      match call
      case Enter(entered) => if l.ending then Breach else if entered then Level(l.open + 1, false) else l
      case Next(more) => if l.ending || l.open == 0 then Breach else Level(l.open, !more)
      case Leave => if l.open == 0 then Breach else Level(l.open - 1, false)
  }

  function Track(calls: seq<Call>, l: Level): Level {
    if calls == [] then l else Track(calls[1..], After(calls[0], l))
  }

  lemma {:induction false} TrackAppend(a: seq<Call>, b: seq<Call>, l: Level)
    ensures Track(a + b, l) == Track(b, Track(a, l))
  {
    hide After;
    if a == [] {
      assert a + b == b;
    } else {
      assert (a + b)[1..] == a[1..] + b;
      TrackAppend(a[1..], b, After(a[0], l));
    }
  }

  lemma TrackBoth(a: seq<Call>, b: seq<Call>, d: seq<Call>, l: Level)
    ensures Track(a + b, l) == Track(b, Track(a, l)) && Track(a + b + d, l) == Track(d, Track(b, Track(a, l)))
  {
    TrackAppend(a, b, l);
    TrackAppend(a + b, d, l);
  }

  lemma TrackOne(call: Call, l: Level)
    ensures Track([call], l) == After(call, l)
  {
    assert [call][1..] == [];
  }

  /** How many entered sections are open when a piece stops: none, unless it fails inside of them. */
  function LeftOpen(env: Env, tree: Tree, depth: nat, enabled: bool, line: Line, c: Context): (k: nat)
    requires Within(tree, |env.t|)
    ensures Eval(env, tree, depth, enabled, line, c).rc == OK ==> k == 0
    decreases tree, 0
  {
    match tree
    case Leaf(at, tag, rest) =>
      var a := Act(env, tag, enabled, Approach(env, at, tag, enabled, line), c);
      if a.rc != OK then 0 else LeftOpen(env, rest, depth, enabled, a.line, c)
    case Section(at, name, inverted, body, rest) =>
      var a := Approach(env, at, Begin(name, inverted), enabled, line);
      var o := Open(a, name, inverted, enabled, c);
      if depth == MAX_DEPTH || o.head.rc != OK then 0
      else
        var r := Rounds(env, body, name, depth + 1, o.enabled, o.entered, a.line, o.context);
        if r.rc != OK then
          (if o.entered then 1 else 0) +
            RoundsLeftOpen(env, body, name, depth + 1, o.enabled, o.entered, a.line, o.context)
        else LeftOpen(env, rest, depth, enabled, r.line, c)
    case _ => 0
  }

  /** The same for the rounds of a section that fail, this section not counted. */
  function RoundsLeftOpen(env: Env, body: Tree, name: string, depth: nat, enabled: bool, entered: bool, line: Line,
      c: Context): nat
    requires Within(body, |env.t|)
    decreases body, 1 + Remaining(c)
  {
    var r := Eval(env, body, depth, enabled, line, c);
    if r.rc != OK then LeftOpen(env, body, depth, enabled, line, c)
    else if !Last(body).Close? || Last(body).name != name || !enabled || !entered then 0
    else
      AdvanceConsumes(c);
      match Advance(c)
      case Some(c') => RoundsLeftOpen(env, body, name, depth, enabled, entered, r.line, c')
      case None => 0
  }

  /**
    Whether a piece succeeds or fails, its calls keep to the contract; what is still open is what it failed inside of.
   */
  lemma {:induction false} EvalIsBracketed(env: Env, tree: Tree, depth: nat, enabled: bool, line: Line, c: Context,
      n: nat)
    requires Within(tree, |env.t|)
    ensures
      Track(Eval(env, tree, depth, enabled, line, c).calls, Level(n, false)) ==
        Level(n + LeftOpen(env, tree, depth, enabled, line, c), false)
    decreases tree, 0
  {
    hide Eval, LeftOpen, Approach, Scan, Track, Act, Open, Rounds, RoundsLeftOpen;
    TrackNone(Level(n, false));
    match tree
    case Leaf(at, tag, rest) =>
      LeafCalls(env, tree, depth, enabled, line, c);
      var a := Act(env, tag, enabled, Approach(env, at, tag, enabled, line), c);
      if a.rc == OK {
        EvalIsBracketed(env, rest, depth, enabled, a.line, c, n);
      }
    case Section(at, name, inverted, body, rest) =>
      SectionCalls(env, tree, depth, enabled, line, c);
      var a := Approach(env, at, Begin(name, inverted), enabled, line);
      var o := Open(a, name, inverted, enabled, c);
      if depth != MAX_DEPTH {
        OpenIsTracked(a, name, inverted, enabled, c, n);
        if o.head.rc == OK {
          var rounds := Rounds(env, body, name, depth + 1, o.enabled, o.entered, a.line, o.context);
          RoundsAreBracketed(env, body, name, depth + 1, o.enabled, o.entered, a.line, o.context, n);
          EvalIsBracketed(env, rest, depth, enabled, rounds.line, c, n);
          TrackBoth(o.head.calls, rounds.calls, Eval(env, rest, depth, enabled, rounds.line, c).calls, Level(n, false));
        }
      }
    case _ =>
      EndCalls(env, tree, depth, enabled, line, c);
  }

  lemma EndCalls(env: Env, tree: Tree, depth: nat, enabled: bool, line: Line, c: Context)
    requires Within(tree, |env.t|) && !tree.Leaf? && !tree.Section?
    ensures Eval(env, tree, depth, enabled, line, c).calls == [] && LeftOpen(env, tree, depth, enabled, line, c) == 0
  {
    hide Scan, Approach;
  }

  lemma LeafCalls(env: Env, tree: Tree, depth: nat, enabled: bool, line: Line, c: Context)
    requires Within(tree, |env.t|) && tree.Leaf?
    ensures
      var a := Act(env, tree.tag, enabled, Approach(env, tree.at, tree.tag, enabled, line), c);
      && Eval(env, tree, depth, enabled, line, c).calls ==
           (if a.rc != OK then [] else Eval(env, tree.rest, depth, enabled, a.line, c).calls)
      && LeftOpen(env, tree, depth, enabled, line, c) ==
           (if a.rc != OK then 0 else LeftOpen(env, tree.rest, depth, enabled, a.line, c))
  {
    hide Approach, Act;
    var a := Act(env, tree.tag, enabled, Approach(env, tree.at, tree.tag, enabled, line), c);
    NothingAhead(Eval(env, tree.rest, depth, enabled, a.line, c).calls);
  }

  lemma SectionCalls(env: Env, tree: Tree, depth: nat, enabled: bool, line: Line, c: Context)
    requires Within(tree, |env.t|) && tree.Section?
    ensures
      var a := Approach(env, tree.at, Begin(tree.name, tree.inverted), enabled, line);
      var o := Open(a, tree.name, tree.inverted, enabled, c);
      var r := Rounds(env, tree.body, tree.name, depth + 1, o.enabled, o.entered, a.line, o.context);
      var left := RoundsLeftOpen(env, tree.body, tree.name, depth + 1, o.enabled, o.entered, a.line, o.context);
      && (depth != MAX_DEPTH && o.head.rc == OK && r.rc != OK ==> Eval(env, tree, depth, enabled, line, c).rc == r.rc)
      && Eval(env, tree, depth, enabled, line, c).calls ==
           (if depth == MAX_DEPTH then []
            else if o.head.rc != OK then o.head.calls
            else if r.rc != OK then o.head.calls + r.calls
            else o.head.calls + r.calls + Eval(env, tree.rest, depth, enabled, r.line, c).calls)
      && LeftOpen(env, tree, depth, enabled, line, c) ==
           (if depth == MAX_DEPTH || o.head.rc != OK then 0
            else if r.rc != OK then (if o.entered then 1 else 0) + left
            else LeftOpen(env, tree.rest, depth, enabled, r.line, c))
  {
    hide Approach, Open, Rounds, RoundsLeftOpen;
  }

  lemma TrackNone(l: Level)
    ensures Track([], l) == l
  {
  }

  lemma NothingAhead<T>(s: seq<T>)
    ensures [] + s == s
  {
  }

  lemma OpenIsTracked(a: Outcome, name: string, inverted: bool, enabled: bool, c: Context, n: nat)
    requires a.calls == [] && a.rc == OK
    ensures
      var o := Open(a, name, inverted, enabled, c);
      Track(o.head.calls, Level(n, false)) == Level(if o.entered then n + 1 else n, false)
    ensures var o := Open(a, name, inverted, enabled, c); o.head.rc != OK ==> !o.entered
  {
    hide EnterName, Track;
    TrackNone(Level(n, false));
    TrackOne(Enter(true), Level(n, false));
    TrackOne(Enter(false), Level(n, false));
    NothingAhead([Enter(true)]);
    NothingAhead([Enter(false)]);
  }

  lemma {:induction false} RoundsAreBracketed(env: Env, body: Tree, name: string, depth: nat, enabled: bool,
      entered: bool, line: Line, c: Context, n: nat)
    requires Within(body, |env.t|)
    ensures
      var r, l := Rounds(env, body, name, depth, enabled, entered, line, c), Level(if entered then n + 1 else n, false);
      Track(r.calls, l) ==
        if r.rc == OK then Level(n, false)
        else Level(l.open + RoundsLeftOpen(env, body, name, depth, enabled, entered, line, c), false)
    decreases body, 1 + Remaining(c)
  {
    hide Eval, Track, Advance, LeftOpen;
    var l := Level(if entered then n + 1 else n, false);
    var r := Eval(env, body, depth, enabled, line, c);
    EvalIsBracketed(env, body, depth, enabled, line, c, l.open);
    TrackOne(Next(true), l);
    TrackOne(Next(false), l);
    TrackOne(Leave, l);
    TrackOne(Leave, Level(l.open, true));
    AdvanceConsumes(c);
    if r.rc == OK && Last(body).Close? && Last(body).name == name {
      if enabled && entered {
        if Advance(c).Some? {
          var c' := Advance(c).value;
          RoundsAreBracketed(env, body, name, depth, enabled, entered, r.line, c', n);
          TrackAppend(r.calls, [Next(true)], l);
          TrackAppend(r.calls + [Next(true)], Rounds(env, body, name, depth, enabled, entered, r.line, c').calls, l);
        } else {
          TrackAppend(r.calls, [Next(false), Leave], l);
          assert [Next(false), Leave] == [Next(false)] + [Leave];
          TrackAppend([Next(false)], [Leave], l);
        }
      } else if entered {
        TrackAppend(r.calls, [Leave], l);
      }
    }
  }

  /** How many entered sections the run of a whole template leaves open. */
  function NeverLeft(env: Env, root: Json): nat {
    LeftOpen(env, Parse(env.t, 0, env.opts), 0, true, FRESH_LINE, RootContext(root))
  }

  /**
    On every run calls are properly nested; each entered section is left exactly once, and the context ends as deep as
    it began, exactly when the run does not fail inside an entered section. A run that succeeds never does.
   */
  lemma CallsAreBracketed(env: Env, root: Json)
    ensures Track(Meaning(env, root).calls, Level(0, false)) == Level(NeverLeft(env, root), false)
    ensures Meaning(env, root).rc == OK ==> NeverLeft(env, root) == 0
  {
    hide Parse, Eval, LeftOpen;
    EvalIsBracketed(env, Parse(env.t, 0, env.opts), 0, true, FRESH_LINE, RootContext(root), 0);
  }

  // ----- which templates succeed, and which sections they leave -----

  /** A tag that cannot be read, or a section that is not ended by a tag of its name. */
  predicate Malformed(tree: Tree)
    decreases tree, 0
  {
    match tree
    case Broken(_, _) => true
    case Leaf(_, _, rest) => Malformed(rest)
    case Section(_, name, _, body, rest) => !Ended(body, name) || Malformed(rest)
    case _ => false
  }

  predicate Ended(body: Tree, name: string)
    decreases body, 1
  {
    !Malformed(body) && Last(body).Close? && Last(body).name == name
  }

  /** No partial, and no more sections in one another than the context has room for; `depth` of them are around it. */
  predicate Bounded(tree: Tree, depth: nat) {
    match tree
    case Leaf(_, tag, rest) => !tag.Partial? && Bounded(rest, depth)
    case Section(_, _, _, body, rest) => depth + 1 < MAX_DEPTH && Bounded(body, depth + 1) && Bounded(rest, depth)
    case _ => true
  }

  /** A template that a run over any value gets through. */
  predicate WellFormed(tree: Tree) {
    !Malformed(tree) && !Last(tree).Close?
  }

  /** How many of the sections around the first malformed place are entered. */
  function AroundFault(tree: Tree, enabled: bool, c: Context): nat {
    match tree
    case Leaf(_, _, rest) => AroundFault(rest, enabled, c)
    case Section(_, name, inverted, body, rest) =>
      if Ended(body, name) then AroundFault(rest, enabled, c)
      else
        var e := if enabled then EnterName(c, name) else Refused;
        if e.Entered? then 1 + AroundFault(body, !inverted, e.context) else AroundFault(body, enabled && inverted, c)
    case _ => 0
  }

  lemma OpenInRoom(a: Outcome, name: string, inverted: bool, enabled: bool, c: Context, depth: nat)
    requires a.rc == OK && |c| <= depth + 1 < MAX_DEPTH
    ensures
      var o := Open(a, name, inverted, enabled, c);
      && o.head.rc == OK && |o.context| <= depth + 2
      && var e := if enabled then EnterName(c, name) else Refused;
         if e.Entered? then o.entered && o.context == e.context && o.enabled == !inverted
         else !o.entered && o.context == c && o.enabled == (enabled && inverted)
  {
    hide Select, Truthy;
  }

  /** A part succeeds exactly when it is not malformed, whatever the value and the state of printing are. */
  lemma {:induction false} EvalSucceeds(env: Env, tree: Tree, depth: nat, enabled: bool, line: Line, c: Context)
    requires Within(tree, |env.t|) && Bounded(tree, depth) && !env.opts.errorUndefined && |c| <= depth + 1
    ensures Eval(env, tree, depth, enabled, line, c).rc == OK <==> !Malformed(tree)
    ensures LeftOpen(env, tree, depth, enabled, line, c) == if Malformed(tree) then AroundFault(tree, enabled, c) else 0
    decreases tree, 0
  {
    hide Approach, Scan, Act, Open, EnterName, Rounds, RoundsLeftOpen;
    match tree
    case Leaf(at, tag, rest) =>
      var a := Act(env, tag, enabled, Approach(env, at, tag, enabled, line), c);
      LeafSucceeds(env, tag, enabled, Approach(env, at, tag, enabled, line), c);
      EvalSucceeds(env, rest, depth, enabled, a.line, c);
    case Section(at, name, inverted, body, rest) =>
      var a := Approach(env, at, Begin(name, inverted), enabled, line);
      var o := Open(a, name, inverted, enabled, c);
      OpenInRoom(a, name, inverted, enabled, c, depth);
      RoundsSucceed(env, body, name, depth + 1, o.enabled, o.entered, a.line, o.context);
      var rounds := Rounds(env, body, name, depth + 1, o.enabled, o.entered, a.line, o.context);
      EvalSucceeds(env, rest, depth, enabled, rounds.line, c);
    case _ =>
  }

  lemma LeafSucceeds(env: Env, tag: Tag, enabled: bool, a: Outcome, c: Context)
    requires a.rc == OK && !tag.Partial? && !env.opts.errorUndefined
    ensures Act(env, tag, enabled, a, c).rc == OK
  {
    hide Select, Escape, TextOf;
  }

  /** The rounds of a section fail in the first one or not at all. */
  lemma {:induction false} RoundsSucceed(
    env: Env, body: Tree, name: string, depth: nat, enabled: bool, entered: bool, line: Line, c: Context)
    requires Within(body, |env.t|) && Bounded(body, depth) && !env.opts.errorUndefined && |c| <= depth + 1
    ensures Rounds(env, body, name, depth, enabled, entered, line, c).rc == OK <==> Ended(body, name)
    ensures !Ended(body, name) ==>
              RoundsLeftOpen(env, body, name, depth, enabled, entered, line, c) == AroundFault(body, enabled, c)
    decreases body, 1 + Remaining(c)
  {
    hide Eval, Advance, LeftOpen, AroundFault, Malformed;
    var r := Eval(env, body, depth, enabled, line, c);
    EvalSucceeds(env, body, depth, enabled, line, c);
    if !Malformed(body) {
      NoFault(body, enabled, c);
    }
    AdvanceConsumes(c);
    if Ended(body, name) && enabled && entered && Advance(c).Some? {
      RoundsSucceed(env, body, name, depth, enabled, entered, r.line, Advance(c).value);
    }
  }

  lemma {:induction false} NoFault(tree: Tree, enabled: bool, c: Context)
    requires !Malformed(tree)
    ensures AroundFault(tree, enabled, c) == 0
  {
    hide EnterName;
    match tree
    case Leaf(_, _, rest) => NoFault(rest, enabled, c);
    case Section(_, _, _, _, rest) => NoFault(rest, enabled, c);
    case _ =>
  }

  /** Whether a run succeeds depends on the template only: no value makes it fail, and none saves it. */
  lemma SucceedsByTemplate(env: Env, root: Json)
    requires Bounded(Parse(env.t, 0, env.opts), 0) && !env.opts.errorUndefined
    ensures Meaning(env, root).rc == OK <==> WellFormed(Parse(env.t, 0, env.opts))
  {
    hide Parse, Eval, Bounded, Malformed, LeftOpen;
    EvalSucceeds(env, Parse(env.t, 0, env.opts), 0, true, FRESH_LINE, RootContext(root));
  }

  /** Every section that is entered is left exactly when no entered one is around the first malformed place. */
  lemma LeavesWhatItEnters(env: Env, root: Json)
    requires Bounded(Parse(env.t, 0, env.opts), 0) && !env.opts.errorUndefined
    ensures
      Track(Meaning(env, root).calls, Level(0, false)) == Level(0, false) <==>
        AroundFault(Parse(env.t, 0, env.opts), true, RootContext(root)) == 0
  {
    hide Parse, Eval, Bounded, Malformed, LeftOpen, AroundFault, Track, Meaning;
    var tree, c := Parse(env.t, 0, env.opts), RootContext(root);
    assert |c| == 1;
    EvalSucceeds(env, tree, 0, true, FRESH_LINE, c);
    CallsAreBracketed(env, root);
    if !Malformed(tree) {
      NoFault(tree, true, c);
    }
  }

  /** Hence a well-formed template leaves every section it enters, for all values. */
  lemma WellFormedLeavesAll(env: Env, root: Json)
    requires Bounded(Parse(env.t, 0, env.opts), 0) && !env.opts.errorUndefined && WellFormed(Parse(env.t, 0, env.opts))
    ensures Track(Meaning(env, root).calls, Level(0, false)) == Level(0, false)
  {
    hide Parse, Bounded, Malformed, Track, Meaning, AroundFault;
    NoFault(Parse(env.t, 0, env.opts), true, RootContext(root));
    LeavesWhatItEnters(env, root);
  }

  /** A section that is entered and has no end tag: the run fails and the section is never left. */
  lemma UnendedSection(env: Env, root: Json, name: string, end: nat, rest: Tree)
    requires Parse(env.t, 0, env.opts) == Section(0, name, false, Finish(end), rest)
    requires EnterName(RootContext(root), name).Entered?
    ensures
      var r := Meaning(env, root);
      r.rc == ERROR_UNEXPECTED_END && r.calls == [Enter(true)] && NeverLeft(env, root) == 1
  {
    hide Parse, Eval, Approach, EnterName, RootContext, LeftOpen, Rounds, RoundsLeftOpen;
    var c := RootContext(root);
    var tree := Parse(env.t, 0, env.opts);
    SectionCalls(env, tree, 0, true, FRESH_LINE, c);
    var a := Approach(env, 0, Begin(name, false), true, FRESH_LINE);
    var o := Open(a, name, false, true, c);
    UnendedRounds(env, end, name, 1, o.enabled, o.entered, a.line, o.context);
    NothingAhead([Enter(true)]);
    assert [Enter(true)] + [] == [Enter(true)];
  }

  lemma UnendedRounds(env: Env, end: nat, name: string, depth: nat, enabled: bool, entered: bool, line: Line,
      c: Context)
    requires end <= |env.t|
    ensures
      var r := Rounds(env, Finish(end), name, depth, enabled, entered, line, c);
      r.rc == ERROR_UNEXPECTED_END && r.calls == []
    ensures RoundsLeftOpen(env, Finish(end), name, depth, enabled, entered, line, c) == 0
  {
    hide Scan, Advance;
  }

  /** Such a run: "{{#.}}" for the value true. */
  lemma UnendedExample(opts: Options, serialize: Json -> string)
    ensures
      var env := Env("{{#.}}", opts, serialize);
      var r := Meaning(env, Boolean(true));
      r.rc == ERROR_UNEXPECTED_END && r.calls == [Enter(true)] && NeverLeft(env, Boolean(true)) == 1
  {
    hide Parse, Meaning, NeverLeft;
    UnendedTree(opts);
    DotIsEntered();
    UnendedSection(Env("{{#.}}", opts, serialize), Boolean(true), ".", 6, Finish(6));
  }

  lemma DotIsEntered()
    ensures EnterName(RootContext(Boolean(true)), ".").Entered?
  {
    assert "."[1..] == "";
    assert UpToZero(".") == ".";
  }

  lemma UnendedTree(opts: Options)
    ensures Parse("{{#.}}", 0, opts) == Section(0, ".", false, Finish(6), Finish(6))
  {
    var t := "{{#.}}";
    DotsTag(t, opts);
    assert Parse(t, 6, opts) == Finish(6);
    hide ReadTag, OpensAt;
  }

  lemma DotsTag(t: string, opts: Options)
    requires t == "{{#.}}"
    ensures FindOpen(t, 0) == 0 && OpensAt(t, 0) && ReadTag(t, 0, opts) == Read(Begin(".", false), 6)
  {
    assert t[0] == '{' && t[1] == '{' && t[2] == '#' && t[3] == '.' && t[4] == '}' && t[5] == '}';
    assert FindClose(t, 4) == 4;
    assert FindClose(t, 3) == 4;
    assert t[2..4][1..] == ".";
    DotIsTrimmed();
    hide Trim;
  }

  lemma DotIsTrimmed()
    ensures Trim(".") == "."
  {
  }

  // ----- the plain meaning -----

  /** A character that is not a blank stands in front of position `i` on its line. */
  ghost predicate TextBefore(t: string, i: nat)
    requires i <= |t|
  {
    exists k | 0 <= k < i :: !IsSpace(t[k]) && NoNewline(t, k, i)
  }

  ghost predicate NoNewline(t: string, k: nat, i: nat)
    requires i <= |t|
  {
    forall j | k <= j < i :: t[j] != '\n'
  }

  /** No tag stands on a line that may consist of tags alone. */
  ghost predicate AllInline(t: string) {
    forall i | 0 <= i < |t| && OpensAt(t, i) :: TextBefore(t, i)
  }

  /** The line at position `i` in such a template. */
  ghost predicate LineFits(t: string, i: nat, line: Line)
    requires i <= |t|
  {
    line.indent == "" && (line.alone == 0 || (line.alone == 1 && !TextBefore(t, i)))
  }

  lemma PassFits(t: string, from: nat, beg: nat, enabled: bool, line: Line)
    requires from <= beg < |t| && LineFits(t, beg, line)
    ensures
      var p := Pass(t, from, beg, enabled, line);
      && LineFits(t, beg + 1, p.2)
      && p.0 + (if enabled then t[p.1..beg + 1] else "") == (if enabled then t[from..beg + 1] else "")
  {
    var p := Pass(t, from, beg, enabled, line);
    if t[beg] == '\n' {
    } else if IsSpace(t[beg]) {
      if TextBefore(t, beg + 1) {
        var k :| 0 <= k < beg + 1 && !IsSpace(t[k]) && NoNewline(t, k, beg + 1);
        assert NoNewline(t, k, beg);
      }
    }
  }

  /** In such a template a scan prints the text up to the next tag, and the tag stands on a line with other text. */
  lemma {:induction false} ScanFits(t: string, from: nat, beg: nat, enabled: bool, line: Line)
    requires from <= beg <= |t| && LineFits(t, beg, line) && AllInline(t)
    ensures
      var s := Scan(t, from, beg, enabled, line);
      if s.open == |t| then s.out == (if enabled then t[from..] else "")
      else
        && s.line == Line(0, "")
        && s.out + (if enabled then t[s.from..s.open] else "") == (if enabled then t[from..s.open] else "")
    decreases |t| - beg
  {
    hide *;
    if beg < |t| && !OpensAt(t, beg) {
      PassFits(t, from, beg, enabled, line);
      ScanUnfolds(t, from, beg, enabled, line);
      var p := Pass(t, from, beg, enabled, line);
      var r := Scan(t, p.1, beg + 1, enabled, p.2);
      ScanFits(t, p.1, beg + 1, enabled, p.2);
      if enabled {
        GlueScanned(t, from, p.1, beg + 1, r.from, r.open, p.0, r.out);
      } else {
        NothingPrinted(p.0, r.out);
      }
    } else {
      ScanEnds(t, from, beg, enabled, line);
    }
  }

  lemma ScanEnds(t: string, from: nat, beg: nat, enabled: bool, line: Line)
    requires from <= beg <= |t| && LineFits(t, beg, line) && AllInline(t) && (beg == |t| || OpensAt(t, beg))
    ensures
      var s := Scan(t, from, beg, enabled, line);
      if s.open == |t| then s.out == (if enabled then t[from..] else "")
      else
        && s.line == Line(0, "")
        && s.out + (if enabled then t[s.from..s.open] else "") == (if enabled then t[from..s.open] else "")
  {
    hide FindOpen, TextBefore, IsSpace, Pass;
    assert t[from..|t|] == t[from..];
  }

  lemma ScanUnfolds(t: string, from: nat, beg: nat, enabled: bool, line: Line)
    requires from <= beg < |t| && !OpensAt(t, beg)
    ensures
      var p := Pass(t, from, beg, enabled, line);
      var r := Scan(t, p.1, beg + 1, enabled, p.2);
      Scan(t, from, beg, enabled, line) == r.(out := p.0 + r.out)
  {
    hide FindOpen, Pass, OpensAt;
  }

  lemma NothingPrinted(front: string, out: string)
    ensures front + "" == "" && out + "" == "" ==> front + out == "" && front + out + "" == ""
    ensures front + "" == "" && out == "" ==> front + out == ""
  {
  }

  lemma GlueScanned(t: string, from: nat, mid: nat, beg: nat, kept: nat, open: nat, front: string, out: string)
    requires from <= mid <= beg <= open <= |t| && kept <= open && front + t[mid..beg] == t[from..beg]
    requires if open == |t| then out == t[mid..] else out + t[kept..open] == t[mid..open]
    ensures if open == |t| then front + out == t[from..] else front + out + t[kept..open] == t[from..open]
  {
    if open == |t| {
      assert t[mid..open] == t[mid..] && t[from..open] == t[from..];
      Glue(t, from, mid, beg, open, front, out);
    } else {
      Glue(t, from, mid, beg, open, front, out + t[kept..open]);
      assert front + (out + t[kept..open]) == front + out + t[kept..open];
    }
  }

  lemma Glue(t: string, from: nat, mid: nat, beg: nat, end: nat, front: string, back: string)
    requires from <= mid <= beg <= end <= |t|
    requires front + t[mid..beg] == t[from..beg] && back == t[mid..end]
    ensures front + back == t[from..end]
  {
    assert t[mid..end] == t[mid..beg] + t[beg..end];
    assert t[from..end] == t[from..beg] + t[beg..end];
    assert front + (t[mid..beg] + t[beg..end]) == front + t[mid..beg] + t[beg..end];
  }

  /** The text in front of a tag. */
  function TextAt(t: string, at: nat): string
    requires at <= |t|
  {
    t[at..FindOpen(t, at)]
  }

  lemma ApproachFits(env: Env, at: nat, tag: Tag, enabled: bool, line: Line)
    requires at <= |env.t| && AllInline(env.t) && LineFits(env.t, at, line) && FindOpen(env.t, at) < |env.t|
    ensures
      var a := Approach(env, at, tag, enabled, line);
      a.out == (if enabled then TextAt(env.t, at) else "") && a.line == Line(0, "")
  {
    hide Scan, FindOpen, AllInline, TextBefore;
    ScanFits(env.t, at, at, enabled, line);
  }

  // selection depends on the values only

  function Values(c: Context): (v: seq<Json>)
    ensures |v| == |c|
  {
    seq(|c|, i requires 0 <= i < |c| => c[i].obj)
  }

  function FindOutwards(scopes: seq<Json>, key: string): Option<Json> {
    if scopes == [] then None
    else
      match Lookup(scopes[|scopes| - 1], key)
      case Some(v) => Some(v)
      case None => FindOutwards(scopes[..|scopes| - 1], key)
  }

  /** What a name stands for in nested values, the innermost last. */
  function Denoted(scopes: seq<Json>, name: string): Option<Json> {
    var path := UpToZero(name);
    if scopes == [] || path == "" then None
    else if path == "." then Some(scopes[|scopes| - 1])
    else
      var (key, rest) := NextKey(Dotted, path);
      match FindOutwards(scopes, key)
      case Some(v) => Descend(v, rest)
      case None => None
  }

  lemma {:induction false} FindsTheSame(c: Context, key: string)
    ensures FindUp(c, key) == FindOutwards(Values(c), key)
  {
    hide Lookup;
    if c != [] {
      assert Values(c)[..|c| - 1] == Values(c[..|c| - 1]);
      FindsTheSame(c[..|c| - 1], key);
    }
  }

  lemma SelectsTheSame(c: Context, name: string)
    ensures Select(c, name) == Denoted(Values(c), name)
  {
    hide FindUp, FindOutwards, NextKey, UpToZero, Descend;
    var path := UpToZero(name);
    FindsTheSame(c, NextKey(Dotted, path).0);
  }

  /** The items over which a section of that name runs. */
  function SectionItems(scopes: seq<Json>, name: string): seq<Json> {
    match Denoted(scopes, name)
    case Some(o) => ItemsOf(o)
    case None => []
  }

  /**
    The plain reading: text as it stands, variables by their values, sections once per item, inverted
    sections when there is no item.
   */
  function Plain(env: Env, tree: Tree, scopes: seq<Json>): string
    requires Within(tree, |env.t|)
    decreases tree, 0
  {
    match tree
    case Finish(at) => env.t[at..]
    case Broken(at, _) => ""
    case Close(at, _, _) => TextAt(env.t, at)
    case Leaf(at, tag, rest) =>
      TextAt(env.t, at) + (if tag.Variable? then PlainValue(env, tag, scopes) else "") + Plain(env, rest, scopes)
    case Section(at, name, inverted, body, rest) =>
      var items := SectionItems(scopes, name);
      TextAt(env.t, at) +
      (if !inverted then PlainItems(env, body, scopes, items)
       else if items == [] then Plain(env, body, scopes) else "") +
      Plain(env, rest, scopes)
  }

  function PlainItems(env: Env, body: Tree, scopes: seq<Json>, items: seq<Json>): string
    requires Within(body, |env.t|)
    decreases body, 1 + |items|
  {
    if items == [] then "" else Plain(env, body, scopes + [items[0]]) + PlainItems(env, body, scopes, items[1..])
  }

  function PlainValue(env: Env, tag: Tag, scopes: seq<Json>): string
    requires tag.Variable?
  {
    match Denoted(scopes, tag.name)
    case None => ""
    case Some(o) => if tag.escape then Escape(TextOf(env, o)) else TextOf(env, o)
  }

  // the interpreter's meaning is the plain one

  /** The items that the innermost section has still to visit, the active one first. */
  ghost function ItemsAhead(f: Frame): (items: seq<Json>)
    ensures items != []
  {
    if f.cont.Array? && f.index < |f.cont.items| then f.cont.items[f.index..] else [f.obj]
  }

  ghost predicate FrameFits(f: Frame) {
    if f.cont.Array? then f.index < f.count == |f.cont.items| && f.obj == f.cont.items[f.index]
    else f.index == 0 && f.count == 1
  }

  /** Entering follows the items. */
  lemma EnterFits(c: Context, name: string)
    ensures
      var items := SectionItems(Values(c), name);
      match EnterName(c, name)
      case TooDeep => true
      case Refused => items == []
      case Entered(inner) =>
        && inner != [] && Outer(inner) == c
        && FrameFits(inner[|inner| - 1]) && ItemsAhead(inner[|inner| - 1]) == items
  {
    hide Select, Denoted, Truthy;
    SelectsTheSame(c, name);
  }

  lemma AdvanceFits(c: Context)
    requires c != [] && FrameFits(c[|c| - 1])
    ensures
      var ahead := ItemsAhead(c[|c| - 1]);
      && Values(c) == Values(Outer(c)) + [ahead[0]]
      && match Advance(c)
         case None => |ahead| == 1
         case Some(c') =>
           && c' != [] && FrameFits(c'[|c'| - 1]) && ItemsAhead(c'[|c'| - 1]) == ahead[1..]
           && Outer(c') == Outer(c)
  {
  }

  lemma TagIsThere(env: Env, at: nat)
    requires at <= |env.t|
    ensures !Parse(env.t, at, env.opts).Finish? ==> FindOpen(env.t, at) < |env.t|
  {
    hide FindOpen, ReadTag;
  }

  /** A section inside a hidden one is neither entered nor shown, and its body is read once. */
  lemma HiddenRounds(env: Env, body: Tree, name: string, inverted: bool, depth: nat, a: Outcome, c: Context)
    requires Within(body, |env.t|) && a.rc == OK
    ensures Open(a, name, inverted, false, c) == Opened(a, false, false, c)
    ensures
      var r := Rounds(env, body, name, depth, false, false, a.line, c);
      r.rc == OK ==>
        var e := Eval(env, body, depth, false, a.line, c);
        e.rc == OK && r.line == e.line && Last(body).Close?
  {
    hide Eval;
  }

  /** The line after a section that is not shown. */
  lemma {:induction false} HiddenLine(env: Env, at: nat, depth: nat, line: Line, c: Context)
    requires at <= |env.t| && AllInline(env.t) && LineFits(env.t, at, line)
    requires Eval(env, Parse(env.t, at, env.opts), depth, false, line, c).rc == OK
    ensures
      var tree := Parse(env.t, at, env.opts);
      Last(tree).Close? ==> Eval(env, tree, depth, false, line, c).line == Line(0, "")
    decreases Parse(env.t, at, env.opts)
  {
    var tree := Parse(env.t, at, env.opts);
    TagIsThere(env, at);
    if tree.Leaf? {
      LeafRest(env, at);
    } else if tree.Section? {
      SectionParts(env, at);
    }
    hide Parse, Approach, AllInline, TextBefore, FindOpen, Scan, LineFits, Rounds, Open;
    FreshFits(env.t, if tree.Leaf? then tree.rest.at else at);
    match tree
    case Close(_, name, _) => ApproachFits(env, at, End(name), false, line);
    case Leaf(_, tag, rest) =>
      ApproachFits(env, at, tag, false, line);
      HiddenLine(env, rest.at, depth, Line(0, ""), c);
    case Section(_, name, inverted, body, rest) =>
      ApproachFits(env, at, Begin(name, inverted), false, line);
      FreshFits(env.t, body.at);
      var a := Approach(env, at, Begin(name, inverted), false, line);
      HiddenRounds(env, body, name, inverted, depth + 1, a, c);
      HiddenLine(env, body.at, depth + 1, Line(0, ""), c);
      FreshFits(env.t, rest.at);
      HiddenLine(env, rest.at, depth, Line(0, ""), c);
    case _ =>
  }

  lemma {:induction false} EvalIsPlain(env: Env, at: nat, depth: nat, line: Line, c: Context)
    requires at <= |env.t| && AllInline(env.t) && LineFits(env.t, at, line)
    requires Eval(env, Parse(env.t, at, env.opts), depth, true, line, c).rc == OK
    ensures
      var tree := Parse(env.t, at, env.opts);
      var r := Eval(env, tree, depth, true, line, c);
      r.out == Plain(env, tree, Values(c)) && (Last(tree).Close? ==> r.line == Line(0, ""))
    decreases Parse(env.t, at, env.opts), 0
  {
    var tree := Parse(env.t, at, env.opts);
    TagIsThere(env, at);
    if tree.Leaf? {
      LeafRest(env, at);
    } else if tree.Section? {
      SectionParts(env, at);
    }
    hide Parse, Approach, AllInline, TextBefore, FindOpen, Scan, TextAt, Values, Denoted, Select, SectionItems,
      PlainItems, Open, Rounds;
    match tree
    case Finish(_) =>
      ScanFits(env.t, at, at, true, line);
      FinishIsAtEnd(env, at);
    case Broken(_, _) =>
    case Close(_, name, _) => ApproachFits(env, at, End(name), true, line);
    case Leaf(_, tag, rest) =>
      ApproachFits(env, at, tag, true, line);
      ActIsPlain(env, tag, Approach(env, at, tag, true, line), c);
      EvalIsPlain(env, rest.at, depth, Line(0, ""), c);
    case Section(_, name, inverted, body, rest) =>
      var tag := Begin(name, inverted);
      ApproachFits(env, at, tag, true, line);
      var a := Approach(env, at, tag, true, line);
      SectionIsPlain(env, body.at, depth, name, inverted, a, c);
      EvalIsPlain(env, rest.at, depth, Line(0, ""), c);
      var o := Open(a, name, inverted, true, c);
      var rounds := Rounds(env, body, name, depth + 1, o.enabled, o.entered, a.line, o.context);
      OpenKeepsText(a, name, inverted, c);
  }

  lemma FinishIsAtEnd(env: Env, at: nat)
    requires at <= |env.t| && Parse(env.t, at, env.opts).Finish?
    ensures FindOpen(env.t, at) == |env.t|
  {
    hide FindOpen, ReadTag;
  }

  lemma OpenKeepsText(a: Outcome, name: string, inverted: bool, c: Context)
    ensures Open(a, name, inverted, true, c).head.out == a.out
  {
    hide EnterName;
  }

  lemma ActIsPlain(env: Env, tag: Tag, a: Outcome, c: Context)
    requires a.rc == OK && !tag.End? && !tag.Begin?
    ensures
      var r := Act(env, tag, true, a, c);
      r.rc == OK ==>
        r.line == a.line && r.out == a.out + (if tag.Variable? then PlainValue(env, tag, Values(c)) else "")
  {
    hide Select, Denoted, Escape, TextOf;
    if tag.Variable? {
      SelectsTheSame(c, tag.name);
    } else {
      assert a.out + "" == a.out;
    }
  }

  /** A section prints its body for every item, or, inverted, when there is no item. */
  lemma {:induction false} SectionIsPlain(env: Env, at: nat, depth: nat, name: string, inverted: bool, a: Outcome,
      c: Context)
    requires at <= |env.t| && AllInline(env.t) && a.line == Line(0, "") && a.rc == OK
    requires Open(a, name, inverted, true, c).head.rc == OK
    requires
      var o := Open(a, name, inverted, true, c);
      Rounds(env, Parse(env.t, at, env.opts), name, depth + 1, o.enabled, o.entered, a.line, o.context).rc == OK
    ensures
      var o := Open(a, name, inverted, true, c);
      var body := Parse(env.t, at, env.opts);
      var r := Rounds(env, body, name, depth + 1, o.enabled, o.entered, a.line, o.context);
      var items := SectionItems(Values(c), name);
      && r.line == Line(0, "")
      && r.out == if !inverted then PlainItems(env, body, Values(c), items)
                  else if items == [] then Plain(env, body, Values(c)) else ""
    decreases Parse(env.t, at, env.opts), 2 + Remaining(Open(a, name, inverted, true, c).context)
  {
    hide Parse, Eval, Plain, AllInline, TextBefore, SectionItems, Values, EnterName, Last, ItemsAhead, FrameFits,
      Advance;
    var o := Open(a, name, inverted, true, c);
    var body := Parse(env.t, at, env.opts);
    EnterFits(c, name);
    if o.entered && o.enabled {
      RoundsArePlain(env, at, name, depth + 1, a.line, o.context);
    } else if o.enabled {
      EvalIsPlain(env, at, depth + 1, a.line, o.context);
    } else {
      HiddenLine(env, at, depth + 1, a.line, o.context);
      HiddenIsSilent(env, body, depth + 1, a.line, o.context);
      assert PlainItems(env, body, Values(c), []) == "";
    }
  }

  lemma {:induction false} RoundsArePlain(env: Env, at: nat, name: string, depth: nat, line: Line, c: Context)
    requires at <= |env.t| && AllInline(env.t) && LineFits(env.t, at, line)
    requires c != [] && FrameFits(c[|c| - 1])
    requires Rounds(env, Parse(env.t, at, env.opts), name, depth, true, true, line, c).rc == OK
    ensures
      var body := Parse(env.t, at, env.opts);
      var r := Rounds(env, body, name, depth, true, true, line, c);
      r.line == Line(0, "") && r.out == PlainItems(env, body, Values(Outer(c)), ItemsAhead(c[|c| - 1]))
    decreases Parse(env.t, at, env.opts), 1 + Remaining(c)
  {
    hide Parse, Eval, Plain, AllInline, TextBefore, Values, Last, ItemsAhead, FrameFits, Advance, LineFits;
    var body := Parse(env.t, at, env.opts);
    var r := Eval(env, body, depth, true, line, c);
    EvalIsPlain(env, at, depth, line, c);
    AdvanceFits(c);
    AdvanceConsumes(c);
    var ahead := ItemsAhead(c[|c| - 1]);
    var outer := Values(Outer(c));
    assert PlainItems(env, body, outer, ahead) ==
           Plain(env, body, outer + [ahead[0]]) + PlainItems(env, body, outer, ahead[1..]);
    if Advance(c).Some? {
      FreshFits(env.t, at);
      RoundsArePlain(env, at, name, depth, r.line, Advance(c).value);
    } else {
      assert ahead[1..] == [];
      assert PlainItems(env, body, Values(Outer(c)), []) == "";
      assert r.out + "" == r.out;
    }
  }

  lemma FreshFits(t: string, at: nat)
    requires at <= |t|
    ensures LineFits(t, at, Line(0, ""))
  {
  }

  /**
    On a template where other text stands in front of the first tag of every line, a run that succeeds
    prints what the plain reading of the template's tree gives for the value.
   */
  lemma InlineTemplatesReadPlainly(env: Env, root: Json)
    requires AllInline(env.t) && Meaning(env, root).rc == OK
    ensures Meaning(env, root).out == Plain(env, Parse(env.t, 0, env.opts), [root])
  {
    hide Parse, Eval, AllInline, Plain;
    EvalIsPlain(env, 0, 0, FRESH_LINE, RootContext(root));
    assert Values(RootContext(root)) == [root];
  }
}
