/**
  What a template means for a JSON value: the recursive reading of its tree. A section is its body, once
  for every item; only the state of the current line is handed from one piece to the next.
 */
module MustacheMeaning {
  import opened JsonContext
  import opened MustacheTemplate

  /** The calls made on the context. */
  datatype Call = Enter(entered: bool) | Next(more: bool) | Leave

  /** A template, the extensions in force, and how JSON values other than strings are written. */
  datatype Env = Env(t: string, opts: Options, serialize: Json -> string)

  /**
    The result of a piece: its code, what it prints, the calls it makes, the line it leaves, and its number of tags.
   */
  datatype Outcome = Outcome(rc: int, out: string, calls: seq<Call>, line: Line, work: nat) {
    function Then(next: Outcome): Outcome {
      Outcome(next.rc, out + next.out, calls + next.calls, next.line, work + next.work)
    }

    function Calling(more: seq<Call>): Outcome {
      this.(calls := calls + more)
    }
  }

  lemma ThenAssociative(a: Outcome, b: Outcome, c: Outcome)
    ensures a.Then(b).Then(c) == a.Then(b.Then(c))
  {
    assert a.out + b.out + c.out == a.out + (b.out + c.out);
    assert a.calls + b.calls + c.calls == a.calls + (b.calls + c.calls);
  }

  function EscapedChar(c: char): string {
    if c == '<' then "&lt;"
    else if c == '>' then "&gt;"
    else if c == '&' then "&amp;"
    else if c == '"' then "&quot;"
    else [c]
  }

  function Escape(s: string): string {
    if s == "" then "" else EscapedChar(s[0]) + Escape(s[1..])
  }

  /** The text of a value. */
  function TextOf(env: Env, o: Json): string {
    match o
    case Text(s) => UpToZero(s)
    case Null => ""
    case _ => UpToZero(env.serialize(o))
  }

  /** What a variable tag prints, and its code. */
  function Put(env: Env, name: string, escape: bool, c: Context): (int, string) {
    match Select(c, name)
    case None => (if env.opts.errorUndefined then ERROR_UNDEFINED_TAG else OK, "")
    case Some(o) => (OK, if escape then Escape(TextOf(env, o)) else TextOf(env, o))
  }

  /** The text in front of a tag, and the tag as far as it concerns the line. */
  function Approach(env: Env, at: nat, tag: Tag, enabled: bool, line: Line): (r: Outcome)
    requires at <= |env.t|
    ensures r.work == 1 && r.rc == OK && r.calls == []
  {
    var s := Scan(env.t, at, at, enabled, line);
    var (held, settled) := Settle(env.t, s.from, s.open, s.line, tag, enabled);
    Outcome(OK, s.out + held, [], settled, 1)
  }

  /** A tag that is not a section: a variable prints when printing is on. */
  function Act(env: Env, tag: Tag, enabled: bool, a: Outcome, c: Context): (r: Outcome)
    ensures r.work == a.work && r.calls == a.calls
  {
    if !enabled then a
    else
      match tag
      case Variable(name, escape) =>
        var (rc, text) := Put(env, name, escape, c);
        a.(rc := rc, out := a.out + text)
      case Partial(_) => a.(rc := UNMODELLED)
      case _ => a
  }

  /** A tree, `depth` sections being open around it. */
  function Eval(env: Env, tree: Tree, depth: nat, enabled: bool, line: Line, c: Context): (r: Outcome)
    requires Within(tree, |env.t|)
    ensures r.work >= 1
    ensures r.rc == OK ==> !Last(tree).Broken?
    decreases tree, 0
  {
    match tree
    case Finish(at) =>
      var s := Scan(env.t, at, at, enabled, line);
      Outcome(OK, s.out, [], s.line, 1)
    case Broken(at, code) =>
      var s := Scan(env.t, at, at, enabled, line);
      Outcome(code, s.out, [], s.line, 1)
    case Close(at, name, _) => Approach(env, at, End(name), enabled, line)
    case Leaf(at, tag, rest) =>
      var a := Act(env, tag, enabled, Approach(env, at, tag, enabled, line), c);
      if a.rc != OK then a else a.Then(Eval(env, rest, depth, enabled, a.line, c))
    case Section(at, name, inverted, body, rest) =>
      var a := Approach(env, at, Begin(name, inverted), enabled, line);
      if depth == MAX_DEPTH then a.(rc := ERROR_TOO_DEEP)
      else
        var o := Open(a, name, inverted, enabled, c);
        if o.head.rc != OK then o.head
        else
          var r := o.head.Then(Rounds(env, body, name, depth + 1, o.enabled, o.entered, a.line, o.context));
          if r.rc != OK then r else r.Then(Eval(env, rest, depth, enabled, r.line, c))
  }

  /** The beginning of a section: what happens at its tag, and how its body is read. */
  datatype Opened = Opened(head: Outcome, enabled: bool, entered: bool, context: Context)

  function Open(a: Outcome, name: string, inverted: bool, enabled: bool, c: Context): (o: Opened)
    ensures o.head.work == a.work && o.head.line == a.line && (o.entered ==> enabled)
    ensures o.head.rc == OK ==> a.rc == OK && (if o.entered then Outer(o.context) else o.context) == c
  {
    match (if enabled then EnterName(c, name) else Refused)
    case TooDeep => Opened(a.(rc := ERROR_TOO_DEEP), false, false, c)
    case Refused => Opened(if enabled then a.Calling([Enter(false)]) else a, enabled && inverted, false, c)
    case Entered(inner) => Opened(a.Calling([Enter(true)]), !inverted, true, inner)
  }

  function Outer(c: Context): Context {
    if c == [] then c else c[..|c| - 1]
  }

  /** The body of a section, from the active item of the context on to the last. */
  function Rounds(env: Env, body: Tree, name: string, depth: nat, enabled: bool, entered: bool, line: Line,
      c: Context): (r: Outcome)
    requires Within(body, |env.t|)
    ensures r.work >= 1
    ensures r.rc == OK ==> Last(body).Close?
    decreases body, 1 + Remaining(c)
  {
    var r := Eval(env, body, depth, enabled, line, c);
    if r.rc != OK then r
    else if !Last(body).Close? then r.(rc := ERROR_UNEXPECTED_END)
    else if Last(body).name != name then r.(rc := ERROR_CLOSING)
    else if enabled && entered then
      AdvanceConsumes(c);
      match Advance(c)
      case Some(c') => r.Calling([Next(true)]).Then(Rounds(env, body, name, depth, enabled, entered, r.line, c'))
      case None => r.Calling([Next(false), Leave])
    else if entered then r.Calling([Leave])
    else r
  }

  /** The end of the whole template. */
  function Concluded(r: Outcome, last: Tree): Outcome {
    if r.rc == OK && last.Close? then r.(rc := ERROR_CLOSING) else r
  }

  function Meaning(env: Env, root: Json): Outcome {
    var tree := Parse(env.t, 0, env.opts);
    Concluded(Eval(env, tree, 0, true, FRESH_LINE, RootContext(root)), Last(tree))
  }

  // ----- the meaning of a configuration of the interpreter -----

  /**
    An open section: its name, where its body starts, whether printing was on in front of it, whether it was entered.
   */
  datatype Mark = Mark(name: string, again: nat, enabled: bool, entered: bool)

  ghost predicate MarksWithin(stack: seq<Mark>, n: nat) {
    forall m | m in stack :: m.again <= n
  }

  /** What remains to be done from position `at` when the sections on the stack are open. */
  ghost function Run(env: Env, at: nat, stack: seq<Mark>, enabled: bool, line: Line, c: Context): (r: Outcome)
    requires at <= |env.t| && MarksWithin(stack, |env.t|)
    ensures r.work >= 1
    decreases |stack|, Remaining(c)
  {
    var tree := Parse(env.t, at, env.opts);
    var r := Eval(env, tree, |stack|, enabled, line, c);
    LastIsWithin(tree, |env.t|);
    if r.rc != OK then r else r.Then(Resume(env, Last(tree), stack, enabled, r.line, c))
  }

  /** What remains to be done once the text and the tag that end a tree have been seen. */
  ghost function Resume(env: Env, last: Tree, stack: seq<Mark>, enabled: bool, line: Line, c: Context): (r: Outcome)
    requires MarksWithin(stack, |env.t|) && Within(last, |env.t|)
    decreases |stack|, Remaining(c), 0
  {
    if !last.Close? then Outcome(if stack == [] then OK else ERROR_UNEXPECTED_END, "", [], line, 0)
    else if stack == [] || stack[|stack| - 1].name != last.name then Outcome(ERROR_CLOSING, "", [], line, 0)
    else
      var m := stack[|stack| - 1];
      AdvanceConsumes(c);
      if enabled && m.entered && Advance(c).Some? then
        Outcome(OK, "", [Next(true)], line, 0).Then(Run(env, m.again, stack, enabled, line, Advance(c).value))
      else
        var calls := (if enabled && m.entered then [Next(false)] else []) +
          (if m.enabled && m.entered then [Leave] else []);
        var c' := if m.enabled && m.entered then Outer(c) else c;
        Outcome(OK, "", calls, line, 0).Then(Run(env, last.next, stack[..|stack| - 1], m.enabled, line, c'))
  }

  // ----- one tag of the interpreter -----

  /** The template as a whole is the run that starts in front of it with no section open. */
  lemma MeaningIsRun(env: Env, root: Json)
    ensures
      var m, r := Meaning(env, root), Run(env, 0, [], true, FRESH_LINE, RootContext(root));
      m == r
  {
    hide Eval, Parse, Last, RootContext;
    var tree := Parse(env.t, 0, env.opts);
    LastIsWithin(tree, |env.t|);
    var r := Eval(env, tree, 0, true, FRESH_LINE, RootContext(root));
    assert r.out + "" == r.out && r.calls + [] == r.calls;
  }

  lemma RunLeaf(env: Env, at: nat, stack: seq<Mark>, enabled: bool, line: Line, c: Context)
    requires at <= |env.t| && MarksWithin(stack, |env.t|) && Parse(env.t, at, env.opts).Leaf?
    ensures
      var tree := Parse(env.t, at, env.opts);
      var a := Act(env, tree.tag, enabled, Approach(env, at, tree.tag, enabled, line), c);
      && tree.rest.at <= |env.t|
      && Run(env, at, stack, enabled, line, c) ==
           if a.rc != OK then a else a.Then(Run(env, tree.rest.at, stack, enabled, a.line, c))
  {
    hide Act, Approach, Resume;
    var tree := Parse(env.t, at, env.opts);
    LeafRest(env, at);
    var a := Act(env, tree.tag, enabled, Approach(env, at, tree.tag, enabled, line), c);
    var r := Eval(env, tree.rest, |stack|, enabled, a.line, c);
    LastIsWithin(tree, |env.t|);
    ThenAssociative(a, r, Resume(env, Last(tree), stack, enabled, r.line, c));
  }

  lemma LeafRest(env: Env, at: nat)
    requires at <= |env.t| && Parse(env.t, at, env.opts).Leaf?
    ensures
      var rest := Parse(env.t, at, env.opts).rest;
      rest.at <= |env.t| && rest == Parse(env.t, rest.at, env.opts)
  {
    hide ReadTag, FindOpen;
  }

  lemma SectionParts(env: Env, at: nat)
    requires at <= |env.t| && Parse(env.t, at, env.opts).Section?
    ensures
      var s := Parse(env.t, at, env.opts);
      && s.body.at <= |env.t| && s.body == Parse(env.t, s.body.at, env.opts)
      && Last(s) == Last(s.rest)
      && (Last(s.body).Close? ==>
            Last(s.body).next <= |env.t| && s.rest == Parse(env.t, Last(s.body).next, env.opts))
  {
    hide ReadTag, FindOpen;
    LastIsWithin(Parse(env.t, at, env.opts).body, |env.t|);
  }

  /** Jumping back at end tags does what the rounds of a section do. */
  lemma {:induction false} JumpsAreRounds(env: Env, m: Mark, stack: seq<Mark>, enabled: bool, line: Line, c: Context)
    requires m.again <= |env.t| && MarksWithin(stack, |env.t|) && (m.entered ==> m.enabled)
    ensures MarksWithin(stack + [m], |env.t|)
    ensures
      var body := Parse(env.t, m.again, env.opts);
      var r := Rounds(env, body, m.name, |stack| + 1, enabled, m.entered, line, c);
      && (r.rc == OK ==> Last(body).next <= |env.t|)
      && Run(env, m.again, stack + [m], enabled, line, c) ==
           if r.rc != OK then r
           else r.Then(Run(env, Last(body).next, stack, m.enabled, r.line, if m.entered then Outer(c) else c))
    decreases Remaining(c)
  {
    hide Eval, Parse, Advance;
    var body := Parse(env.t, m.again, env.opts);
    LastIsWithin(body, |env.t|);
    var r := Eval(env, body, |stack| + 1, enabled, line, c);
    var all := stack + [m];
    assert all[|all| - 1] == m && all[..|all| - 1] == stack;
    AdvanceConsumes(c);
    if r.rc == OK {
      assert r.out + "" == r.out && r.calls + [] == r.calls;
      if Last(body).Close? && Last(body).name == m.name {
        if enabled && m.entered && Advance(c).Some? {
          var c' := Advance(c).value;
          AdvanceKeepsOuter(c);
          JumpsAreRounds(env, m, stack, enabled, r.line, c');
          var rounds := Rounds(env, body, m.name, |stack| + 1, enabled, m.entered, r.line, c');
          var step := Outcome(OK, "", [Next(true)], r.line, 0);
          ThenCalling(r, [Next(true)], r.line, Run(env, m.again, all, enabled, r.line, c'));
          if rounds.rc == OK {
            ThenAssociative(r.Calling([Next(true)]), rounds,
                            Run(env, Last(body).next, stack, m.enabled, rounds.line, Outer(c')));
          }
        } else {
          var calls := (if enabled && m.entered then [Next(false)] else []) +
            (if m.enabled && m.entered then [Leave] else []);
          var c' := if m.entered then Outer(c) else c;
          ThenCalling(r, calls, r.line, Run(env, Last(body).next, stack, m.enabled, r.line, c'));
          assert enabled && m.entered ==> calls == [Next(false), Leave];
        }
      }
    }
  }

  lemma ThenCalling(r: Outcome, calls: seq<Call>, line: Line, next: Outcome)
    ensures r.Then(Outcome(OK, "", calls, line, 0).Then(next)) == r.Calling(calls).Then(next)
  {
    assert r.out + ("" + next.out) == r.out + next.out;
    assert r.calls + (calls + next.calls) == r.calls + calls + next.calls;
  }

  lemma AdvanceKeepsOuter(c: Context)
    requires Advance(c).Some?
    ensures Outer(Advance(c).value) == Outer(c)
  {
  }

  /** A begin tag: the section goes on the stack and the run goes on with its body. */
  lemma RunSection(env: Env, at: nat, stack: seq<Mark>, enabled: bool, line: Line, c: Context)
    requires at <= |env.t| && MarksWithin(stack, |env.t|) && Parse(env.t, at, env.opts).Section?
    ensures
      var s := Parse(env.t, at, env.opts);
      var a := Approach(env, at, Begin(s.name, s.inverted), enabled, line);
      var o := Open(a, s.name, s.inverted, enabled, c);
      var m := Mark(s.name, s.body.at, enabled, o.entered);
      && s.body.at <= |env.t| && MarksWithin(stack + [m], |env.t|)
      && Run(env, at, stack, enabled, line, c) ==
           if |stack| == MAX_DEPTH then a.(rc := ERROR_TOO_DEEP)
           else if o.head.rc != OK then o.head
           else o.head.Then(Run(env, s.body.at, stack + [m], o.enabled, a.line, o.context))
  {
    var s := Parse(env.t, at, env.opts);
    SectionParts(env, at);
    hide Approach, Open, Rounds, Resume, Parse;
    var a := Approach(env, at, Begin(s.name, s.inverted), enabled, line);
    var o := Open(a, s.name, s.inverted, enabled, c);
    var m := Mark(s.name, s.body.at, enabled, o.entered);
    JumpsAreRounds(env, m, stack, o.enabled, a.line, o.context);
    var rounds := Rounds(env, s.body, s.name, |stack| + 1, o.enabled, o.entered, a.line, o.context);
    LastIsWithin(s, |env.t|);
    if |stack| != MAX_DEPTH && o.head.rc == OK && rounds.rc == OK {
      var r := o.head.Then(rounds);
      var later := Eval(env, s.rest, |stack|, enabled, r.line, c);
      var resumed := Resume(env, Last(s.rest), stack, enabled, later.line, c);
      ThenAssociative(r, later, resumed);
      ThenAssociative(o.head, rounds, Run(env, Last(s.body).next, stack, enabled, r.line, c));
    }
  }

  // the remaining kinds of tag

  lemma RunFinish(env: Env, at: nat, stack: seq<Mark>, enabled: bool, line: Line, c: Context)
    requires at <= |env.t| && MarksWithin(stack, |env.t|) && Parse(env.t, at, env.opts).Finish?
    ensures
      var s := Scan(env.t, at, at, enabled, line);
      Run(env, at, stack, enabled, line, c) ==
        Outcome(if stack == [] then OK else ERROR_UNEXPECTED_END, s.out, [], s.line, 1)
  {
    hide Scan, Parse;
  }

  lemma RunBroken(env: Env, at: nat, stack: seq<Mark>, enabled: bool, line: Line, c: Context)
    requires at <= |env.t| && MarksWithin(stack, |env.t|) && Parse(env.t, at, env.opts).Broken?
    ensures
      var s := Scan(env.t, at, at, enabled, line);
      Run(env, at, stack, enabled, line, c) == Outcome(Parse(env.t, at, env.opts).code, s.out, [], s.line, 1)
  {
    hide Scan, Parse;
  }

  lemma RunClose(env: Env, at: nat, stack: seq<Mark>, enabled: bool, line: Line, c: Context)
    requires at <= |env.t| && MarksWithin(stack, |env.t|) && Parse(env.t, at, env.opts).Close?
    ensures
      var tree := Parse(env.t, at, env.opts);
      var a := Approach(env, at, End(tree.name), enabled, line);
      && Within(tree, |env.t|)
      && Run(env, at, stack, enabled, line, c) == a.Then(Resume(env, tree, stack, enabled, a.line, c))
  {
    hide Approach, Parse, Resume;
  }

  /** Which kind of tree stands at a position. */
  lemma ParseAs(env: Env, at: nat)
    requires at <= |env.t|
    ensures
      var tree, open := Parse(env.t, at, env.opts), FindOpen(env.t, at);
      if open == |env.t| then tree == Finish(at)
      else
        var r := ReadTag(env.t, open, env.opts);
        if r.Bad? then tree == Broken(at, r.code)
        else if r.tag.End? then tree == Close(at, r.tag.name, r.next)
        else if r.tag.Begin? then
          tree.Section? && tree.name == r.tag.name && tree.inverted == r.tag.inverted && tree.body.at == r.next
        else tree.Leaf? && tree.tag == r.tag && tree.rest.at == r.next
  {
    hide ReadTag, FindOpen;
  }

  lemma ResumeIs(env: Env, last: Tree, marks: seq<Mark>, enabled: bool, line: Line, c: Context)
    requires MarksWithin(marks, |env.t|) && Within(last, |env.t|) && last.Close?
    ensures
      var r := Resume(env, last, marks, enabled, line, c);
      if marks == [] || marks[|marks| - 1].name != last.name then r == Outcome(ERROR_CLOSING, "", [], line, 0)
      else
        var m := marks[|marks| - 1];
        var asked := if enabled && m.entered then [Next(Advance(c).Some?)] else [];
        if enabled && m.entered && Advance(c).Some? then
          r == Outcome(OK, "", asked, line, 0).Then(Run(env, m.again, marks, enabled, line, Advance(c).value))
        else if m.entered && m.enabled then
          r == Outcome(OK, "", asked + [Leave], line, 0)
               .Then(Run(env, last.next, marks[..|marks| - 1], m.enabled, line, Outer(c)))
        else
          r == Outcome(OK, "", asked, line, 0).Then(Run(env, last.next, marks[..|marks| - 1], m.enabled, line, c))
  {
    hide Run, Advance;
    AdvanceConsumes(c);
  }
}
