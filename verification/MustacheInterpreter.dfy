/**
  The interpreter: one pass over the template that runs the body of a section again by moving the
  template position back to where the body starts.
 */
module MustacheInterpreter {
  import opened JsonContext
  import opened MustacheTemplate
  import opened MustacheMeaning

  lemma {:induction false} EscapePlain(s: string, i: nat, j: nat)
    requires i <= j <= |s|
    requires forall k | i <= k < j :: EscapedChar(s[k]) == [s[k]]
    ensures Escape(s[i..]) == s[i..j] + Escape(s[j..])
    decreases j - i
  {
    hide EscapedChar;
    if i < j {
      EscapePlain(s, i + 1, j);
      assert s[i..][1..] == s[i + 1..];
      assert s[i..j] == [s[i]] + s[i + 1..j];
    } else {
      assert s[i..j] == "";
    }
  }

  lemma EscapeNext(s: string, i: nat)
    requires i < |s|
    ensures Escape(s[i..]) == EscapedChar(s[i]) + Escape(s[i + 1..])
  {
    assert s[i..][1..] == s[i + 1..];
  }

  lemma EscapeNothing(s: string)
    ensures Escape(s[|s|..]) == ""
  {
  }

  /** The characters from `i` on that are written as they are. */
  method PlainUpTo(s: string, i: nat) returns (j: nat)
    requires i < |s|
    ensures i <= j <= |s| && forall k | i <= k < j :: EscapedChar(s[k]) == [s[k]]
    ensures j < |s| ==> s[j] in "<>&\""
  {
    j := i;
    while j < |s| && s[j] != '<' && s[j] != '>' && s[j] != '&' && s[j] != '"'
      invariant i <= j <= |s|
      invariant forall k | i <= k < j :: EscapedChar(s[k]) == [s[k]]
    {
      j := j + 1;
    }
  }

  method Entity(c: char) returns (e: string)
    requires c in "<>&\""
    ensures e == EscapedChar(c)
  {
    match c {
      case '<' => e := "&lt;";
      case '>' => e := "&gt;";
      case '&' => e := "&amp;";
      case _ => e := "&quot;";
    }
  }

  /** `goal` is a scan of which `printed` has been printed and `r` is the rest. */
  ghost predicate ScanGoesOn(goal: Scanned, printed: string, r: Scanned) {
    goal == r.(out := printed + r.out)
  }

  lemma ScanBegins(goal: Scanned)
    ensures ScanGoesOn(goal, "", goal)
  {
    assert "" + goal.out == goal.out;
  }

  lemma ScanPasses(t: string, goal: Scanned, printed: string, from: nat, beg: nat, enabled: bool, line: Line)
    requires from <= beg < |t| && !OpensAt(t, beg)
    requires ScanGoesOn(goal, printed, Scan(t, from, beg, enabled, line))
    ensures
      var p := Pass(t, from, beg, enabled, line);
      ScanGoesOn(goal, printed + p.0, Scan(t, p.1, beg + 1, enabled, p.2))
  {
    hide FindOpen, Pass;
    var p := Pass(t, from, beg, enabled, line);
    var r := Scan(t, p.1, beg + 1, enabled, p.2);
    assert printed + (p.0 + r.out) == printed + p.0 + r.out;
  }

  lemma ScanStops(t: string, goal: Scanned, printed: string, from: nat, beg: nat, enabled: bool, line: Line)
    requires from <= beg <= |t| && (beg == |t| || OpensAt(t, beg))
    requires ScanGoesOn(goal, printed, Scan(t, from, beg, enabled, line))
    ensures
      goal == if beg == |t| then Scanned(from, beg, line, printed + EmitLine(t, from, beg, beg, enabled, line))
              else Scanned(from, beg, Released(enabled, line), printed + Held(enabled, line))
  {
    hide FindOpen, EmitLine;
  }

  /** How many of the open sections have been entered. */
  ghost function EnteredCount(stack: seq<Mark>): nat {
    if stack == [] then 0
    else (if stack[|stack| - 1].entered then 1 else 0) + EnteredCount(stack[..|stack| - 1])
  }

  lemma CountPushed(stack: seq<Mark>, m: Mark)
    ensures EnteredCount(stack + [m]) == EnteredCount(stack) + if m.entered then 1 else 0
  {
    assert (stack + [m])[..|stack|] == stack;
  }

  lemma {:induction false} TrimLeftSteps(s: string, i: nat)
    requires i <= |s| && forall k | 0 <= k < i :: IsSpace(s[k])
    requires i < |s| ==> !IsSpace(s[i])
    ensures TrimLeft(s) == s[i..]
  {
    if i > 0 {
      TrimLeftSteps(s[1..], i - 1);
    }
  }

  lemma {:induction false} TrimRightSteps(s: string, j: nat)
    requires j <= |s| && forall k | j <= k < |s| :: IsSpace(s[k])
    requires j > 0 ==> !IsSpace(s[j - 1])
    ensures TrimRight(s) == s[..j]
    decreases |s|
  {
    if j < |s| {
      TrimRightSteps(s[..|s| - 1], j);
      assert s[..|s| - 1][..j] == s[..j];
    }
  }

  /** Strips the blanks on both sides of a name, moving its start and its end. */
  method TrimName(t: string, beg: nat, end: nat) returns (name: string)
    requires beg <= end <= |t|
    ensures name == Trim(t[beg..end])
  {
    hide IsSpace, TrimLeft, TrimRight;
    var i, j := beg, end;
    while i < end && IsSpace(t[i])
      invariant beg <= i <= end && forall k | beg <= k < i :: IsSpace(t[k])
    {
      i := i + 1;
    }
    while i < j && IsSpace(t[j - 1])
      invariant i <= j <= end && forall k | j <= k < end :: IsSpace(t[k])
    {
      j := j - 1;
    }
    name := t[i..j];
    var s := t[beg..end];
    TrimLeftSteps(s, i - beg);
    assert s[i - beg..] == t[i..end];
    TrimRightSteps(t[i..end], j - i);
    assert t[i..end][..j - i] == name;
  }

  /** Reads the tag whose opening delimiter is at `open`. */
  method ReadTagAt(t: string, open: nat, opts: Options) returns (r: Reading)
    requires open < |t| && OpensAt(t, open)
    ensures r == ReadTag(t, open, opts)
  {
    hide Trim;
    var term := open + 2;
    while term < |t| && !ClosesAt(t, term)
      invariant open + 2 <= term <= |t|
      invariant FindClose(t, open + 2) == FindClose(t, term)
    {
      term := term + 1;
    }
    if term == |t| {
      return Bad(ERROR_UNEXPECTED_END);
    }
    var beg := open + 2;
    var c := t[beg];
    if c == '!' {
      return Read(Comment, term + 2);
    }
    if c == '=' {
      return Bad(UNMODELLED);
    }
    var next := term + 2;
    if c == '{' {
      if next >= |t| || t[next] != '}' {
        return Bad(ERROR_BAD_UNESCAPE_TAG);
      }
      next := next + 1;
    }
    var marked := c == '{' || c == '&' || c == '^' || c == '#' || c == '/' || c == '>' || (c == ':' && opts.colon);
    assert marked ==> t[beg..term][1..] == t[beg + 1..term];
    var name := TrimName(t, if marked then beg + 1 else beg, term);
    if name == "" && !opts.emptyTag {
      return Bad(ERROR_EMPTY_TAG);
    }
    if |name| > MAX_LENGTH {
      return Bad(ERROR_TAG_TOO_LONG);
    }
    match c {
      case '#' => r := Read(Begin(name, false), next);
      case '^' => r := Read(Begin(name, true), next);
      case '/' => r := Read(End(name), next);
      case '>' => r := Read(Partial(name), next);
      case _ => r := Read(Variable(name, c != '{' && c != '&'), next);
    }
  }

  class Interpreter {
    const env: Env
    const data: Explorer
    const stack: array<Mark>
    var at: nat
    var depth: nat
    var enabled: bool
    var line: Line
    /** What has been printed and what has been asked of the context. */
    var out: string
    var calls: seq<Call>

    ghost predicate Valid()
      reads this, stack, data
    {
      && data.Valid() && at <= |env.t| && depth <= stack.Length == MAX_DEPTH
      && MarksWithin(stack[..depth], |env.t|)
      && (forall i | 0 <= i < depth :: stack[i].entered ==> stack[i].enabled)
      && data.depth == EnteredCount(stack[..depth])
    }

    /** What the interpreter still has to do. */
    ghost function Ahead(): Outcome
      requires Valid()
      reads this, stack, data, data.stack
    {
      Run(env, at, stack[..depth], enabled, line, data.View())
    }

    constructor (env: Env, root: Json)
      ensures this.env == env && out == "" && calls == []
      ensures fresh(data) && fresh(data.stack) && fresh(stack) && Valid()
      ensures Ahead() == Meaning(env, root)
    {
      this.env := env;
      data := new Explorer(root);
      stack := new Mark[MAX_DEPTH](_ => Mark("", 0, false, false));
      at, depth, enabled, line := 0, 0, true, FRESH_LINE;
      out, calls := "", [];
      new;
      MeaningIsRun(env, root);
    }

    /** Writes text, replacing the characters that mean something in HTML. */
    method EmitEscaped(s: string)
      modifies `out
      ensures out == old(out) + Escape(s)
    {
      hide Escape, EscapedChar;
      var i := 0;
      assert s[0..] == s;
      while i < |s|
        invariant i <= |s|
        invariant out + Escape(s[i..]) == old(out) + Escape(s)
      {
        ghost var before := out;
        var j := PlainUpTo(s, i);
        EscapePlain(s, i, j);
        out := out + s[i..j];
        if j < |s| {
          EscapeNext(s, j);
          var e := Entity(s[j]);
          out := out + e;
          assert before + (s[i..j] + (e + Escape(s[j + 1..]))) == out + Escape(s[j + 1..]);
          j := j + 1;
        } else {
          assert before + (s[i..j] + Escape(s[j..])) == out + Escape(s[j..]);
        }
        i := j;
      }
      EscapeNothing(s);
    }

    /** Prints the value of a name. */
    method PutValue(name: string, escape: bool) returns (rc: int)
      requires data.Valid()
      modifies `out, data`selection
      ensures data.Valid() && data.View() == old(data.View())
      ensures
        var (code, text) := Put(env, name, escape, data.View());
        rc == code && out == old(out) + text
    {
      hide Escape, Select;
      var found := data.SelectName(name);
      if !found {
        rc := if env.opts.errorUndefined then ERROR_UNDEFINED_TAG else OK;
        return;
      }
      rc := OK;
      var text := TextOf(env, data.selection);
      if escape {
        EmitEscaped(text);
      } else {
        out := out + text;
      }
    }

    /** Passes one character of text. */
    method PassChar(from: nat, beg: nat, enabled: bool, line: Line) returns (from': nat, line': Line)
      requires from <= beg < |env.t|
      modifies `out
      ensures
        var r := Pass(env.t, from, beg, enabled, line);
        from' == r.1 && line' == r.2 && out == old(out) + r.0
    {
      from', line' := from, line;
      var c := env.t[beg];
      if c == '\n' {
        PrintLine(from, beg, beg + 1, enabled, line);
        from', line' := beg + 1, FRESH_LINE;
      } else if !IsSpace(c) {
        if line.alone == 2 && enabled {
          out := out + line.indent;
          line' := Line(0, "");
        }
        line' := line'.(alone := 0);
      }
    }

    method PrintLine(from: nat, stop: nat, end: nat, enabled: bool, line: Line)
      requires from <= end <= |env.t|
      modifies `out
      ensures out == old(out) + EmitLine(env.t, from, stop, end, enabled, line)
    {
      if line.alone != 2 && enabled {
        if stop != from {
          out := out + line.indent;
        }
        out := out + env.t[from..end];
      }
    }

    /** Passes the text up to the next tag. */
    method PassText(at: nat, enabled: bool, line: Line) returns (from: nat, beg: nat, last: Line, ghost printed: string)
      requires at <= |env.t|
      modifies `out
      ensures at <= from <= beg <= |env.t| && (beg == |env.t| || OpensAt(env.t, beg))
      ensures out == old(out) + printed
      ensures ScanGoesOn(Scan(env.t, at, at, enabled, line), printed, Scan(env.t, from, beg, enabled, last))
    {
      hide FindOpen, Pass, EmitLine, Scan, ScanGoesOn, OpensAt;
      from, beg, last, printed := at, at, line, "";
      ghost var goal := Scan(env.t, at, at, enabled, line);
      ScanBegins(goal);
      while beg < |env.t| && !OpensAt(env.t, beg)
        invariant at <= from <= beg <= |env.t|
        invariant out == old(out) + printed
        invariant ScanGoesOn(goal, printed, Scan(env.t, from, beg, enabled, last))
        decreases |env.t| - beg
      {
        ScanPasses(env.t, goal, printed, from, beg, enabled, last);
        printed := printed + Pass(env.t, from, beg, enabled, last).0;
        from, last := PassChar(from, beg, enabled, last);
        beg := beg + 1;
      }
    }

    /** Prints the text up to the next tag, as far as it is due. */
    method ScanText(at: nat, enabled: bool, line: Line) returns (from: nat, beg: nat, last: Line)
      requires at <= |env.t|
      modifies `out
      ensures
        var s := Scan(env.t, at, at, enabled, line);
        from == s.from && beg == s.open && last == s.line && out == old(out) + s.out
    {
      hide FindOpen, EmitLine, Scan, ScanGoesOn, OpensAt;
      ghost var printed;
      from, beg, last, printed := PassText(at, enabled, line);
      ScanStops(env.t, Scan(env.t, at, at, enabled, line), printed, from, beg, enabled, last);
      if beg == |env.t| {
        PrintLine(from, beg, beg, enabled, last);
      } else if last.alone == 2 && enabled {
        out := out + last.indent;
        last := Line(0, "");
      }
    }

    /** The text in front of the next tag, the tag, and what they do to the line. */
    method ApproachTag() returns (open: nat, r: Reading)
      requires Valid()
      modifies `out, `line
      ensures Valid() && open == FindOpen(env.t, at)
      ensures
        var s := Scan(env.t, at, at, enabled, old(line));
        if open < |env.t| && ReadTag(env.t, open, env.opts).Read? then
          && r == ReadTag(env.t, open, env.opts)
          && var a := Approach(env, at, r.tag, enabled, old(line));
             line == a.line && out == old(out) + a.out
        else
          && (open < |env.t| ==> r == ReadTag(env.t, open, env.opts))
          && line == s.line && out == old(out) + s.out
    {
      hide Scan, FindOpen, ReadTag, EnteredCount, MarksWithin, Run;
      var from;
      from, open, line := ScanText(at, enabled, line);
      r := Bad(ERROR_UNEXPECTED_END);
      if open < |env.t| {
        r := ReadTagAt(env.t, open, env.opts);
        if r.Read? {
          var (held, settled) := Settle(env.t, from, open, line, r.tag, enabled);
          out, line := out + held, settled;
        }
      }
    }

    /** Enters a section by name: 1 when entered, 0 when not, an error when the context is full. */
    method EnterNamed(name: string) returns (rc: int)
      requires data.Valid()
      modifies data, data.stack
      ensures
        match EnterName(old(data.View()), name)
        case TooDeep => rc == ERROR_TOO_DEEP
        case Refused => rc == 0 && data.Valid() && data.View() == old(data.View())
        case Entered(c) => rc == 1 && data.Valid() && data.View() == c
    {
      hide Select, EnterValue;
      var found := data.SelectName(name);
      if found {
        rc := data.Enter();
      } else {
        rc := 0;
      }
    }

    /** A begin tag. The section is put on the stack whether it has been entered or not. */
    method BeginSection(name: string, inverted: bool, next: nat, ghost a: Outcome) returns (rc: int)
      requires Valid() && next <= |env.t| && a.rc == OK && a.calls == []
      modifies this, stack, data, data.stack
      ensures out == old(out) && line == old(line)
      ensures
        var o := Open(a, name, inverted, old(enabled), old(data.View()));
        if old(depth) == MAX_DEPTH then rc == ERROR_TOO_DEEP && calls == old(calls)
        else if o.head.rc != OK then rc == o.head.rc && calls == old(calls) + o.head.calls
        else
          && rc == OK && Valid() && calls == old(calls) + o.head.calls
          && at == next && enabled == o.enabled && data.View() == o.context
          && stack[..depth] == old(stack[..depth]) + [Mark(name, next, old(enabled), o.entered)]
    {
      hide EnterName, MarksWithin, EnteredCount, Parse, Run;
      if depth == MAX_DEPTH {
        return ERROR_TOO_DEEP;
      }
      ghost var marks := stack[..depth];
      var entered := 0;
      if enabled {
        entered := EnterNamed(name);
        if entered < 0 {
          return entered;
        }
        calls := calls + [Enter(entered != 0)];
      }
      var m := Mark(name, next, enabled, entered != 0);
      stack[depth] := m;
      if !inverted == (entered == 0) {
        enabled := false;
      }
      depth := depth + 1;
      at := next;
      rc := OK;
      assert stack[..depth] == marks + [m];
      CountPushed(marks, m);
      MarksPushed(marks, m, |env.t|);
    }

    /** The way out of a section, which is left if it was entered. */
    method PopSection(next: nat) returns (ghost left: seq<Call>)
      requires Valid() && depth > 0 && next <= |env.t|
      modifies this, data
      ensures Valid() && depth == old(depth) - 1 && at == next && out == old(out) && line == old(line)
      ensures
        var m := stack[depth];
        && enabled == m.enabled && calls == old(calls) + left && left == (if m.entered then [Leave] else [])
        && data.View() == if m.entered then Outer(old(data.View())) else old(data.View())
    {
      hide EnteredCount, MarksWithin;
      depth := depth - 1;
      var m := stack[depth];
      ghost var marks := stack[..depth];
      assert stack[..depth + 1] == marks + [m];
      CountPushed(marks, m);
      MarksPopped(marks, m, |env.t|);
      enabled, at, left := m.enabled, next, [];
      if enabled && m.entered {
        var rc := data.Leave();
        calls := calls + [Leave];
        left := [Leave];
      }
    }

    /** An end tag: either the next round of the section or the way out of it. */
    method EndSection(last: Tree) returns (rc: int, ghost piece: Outcome)
      requires Valid() && last.Close? && Within(last, |env.t|)
      modifies this, stack, data, data.stack
      ensures out == old(out) && piece.out == "" && piece.work == 0 && calls == old(calls) + piece.calls
      ensures
        var r := Resume(env, last, old(stack[..depth]), old(enabled), old(line), old(data.View()));
        if rc != OK then r == piece && piece.rc == rc else Valid() && r == piece.Then(Ahead())
    {
      hide Parse, Run, Resume, Advance, MarksWithin, EnteredCount;
      ghost var marks, c := stack[..depth], data.View();
      ResumeIs(env, last, marks, enabled, line, c);
      piece := Outcome(ERROR_CLOSING, "", [], line, 0);
      if depth == 0 || stack[depth - 1].name != last.name {
        rc := ERROR_CLOSING;
        return;
      }
      var m := stack[depth - 1];
      assert marks[..|marks| - 1] == stack[..depth - 1];
      CountPushed(stack[..depth - 1], m);
      assert marks == stack[..depth - 1] + [m];
      MarksPopped(stack[..depth - 1], m, |env.t|);
      AdvanceConsumes(c);
      rc := OK;
      var more := 0;
      ghost var asked: seq<Call> := [];
      if enabled && m.entered {
        more := data.Next();
        calls := calls + [Next(more != 0)];
        asked := [Next(more != 0)];
      }
      ghost var left: seq<Call> := [];
      if more != 0 {
        at := m.again;
      } else {
        left := PopSection(last.next);
      }
      piece := Outcome(OK, "", asked + left, line, 0);
    }

    /** A begin tag, `a` being what was done about the text in front of it. */
    method StepBegin(name: string, inverted: bool, next: nat, ghost a: Outcome, ghost ahead: Outcome,
        ghost base: string)
      returns (rc: int, ghost piece: Outcome)
      requires Valid() && next <= |env.t| && a.rc == OK && a.calls == [] && a.work == 1 && a.line == line
      requires out == base + a.out
      requires
        var o := Open(a, name, inverted, enabled, data.View());
        var m := Mark(name, next, enabled, o.entered);
        && MarksWithin(stack[..depth] + [m], |env.t|)
        && ahead == (if depth == MAX_DEPTH then a.(rc := ERROR_TOO_DEEP)
                     else if o.head.rc != OK then o.head
                     else o.head.Then(Run(env, next, stack[..depth] + [m], o.enabled, a.line, o.context)))
      modifies this, stack, data, data.stack
      ensures out == base + piece.out && calls == old(calls) + piece.calls
      ensures if rc != OK then ahead == piece && rc == piece.rc
              else Valid() && piece.work == 1 && ahead == piece.Then(Ahead())
    {
      hide Run, MarksWithin, EnteredCount, EnterName;
      piece :=
        if depth == MAX_DEPTH then a.(rc := ERROR_TOO_DEEP)
        else Open(a, name, inverted, enabled, data.View()).head;
      rc := BeginSection(name, inverted, next, a);
    }

    /** An end tag, `a` being what was done about the text in front of it. */
    method StepEnd(last: Tree, ghost a: Outcome, ghost ahead: Outcome, ghost base: string)
      returns (rc: int, ghost piece: Outcome)
      requires Valid() && last.Close? && Within(last, |env.t|) && a.calls == [] && a.work == 1 && a.line == line
      requires out == base + a.out
      requires ahead == a.Then(Resume(env, last, stack[..depth], enabled, line, data.View()))
      modifies this, stack, data, data.stack
      ensures out == base + piece.out && calls == old(calls) + piece.calls
      ensures if rc != OK then ahead == piece && rc == piece.rc
              else Valid() && piece.work == 1 && ahead == piece.Then(Ahead())
    {
      hide Run, Resume, MarksWithin, EnteredCount;
      ghost var p;
      rc, p := EndSection(last);
      piece := a.Then(p);
      assert a.out + p.out == a.out && a.calls + p.calls == p.calls;
      if rc == OK {
        ThenAssociative(a, p, Ahead());
      }
    }

    /** Any other tag, `a` being what was done about the text in front of it. */
    method StepLeaf(tag: Tag, next: nat, ghost a: Outcome, ghost ahead: Outcome, ghost base: string)
      returns (rc: int, ghost piece: Outcome)
      requires Valid() && next <= |env.t| && a.rc == OK && a.calls == [] && a.work == 1 && a.line == line
      requires out == base + a.out
      requires
        var p := Act(env, tag, enabled, a, data.View());
        ahead == if p.rc != OK then p else p.Then(Run(env, next, stack[..depth], enabled, p.line, data.View()))
      modifies this, data`selection
      ensures out == base + piece.out && calls == old(calls) + piece.calls
      ensures if rc != OK then ahead == piece && rc == piece.rc
              else Valid() && piece.work == 1 && ahead == piece.Then(Ahead())
    {
      hide Run, Put, MarksWithin, EnteredCount;
      piece := Act(env, tag, enabled, a, data.View());
      ghost var text := out;
      rc := ActOn(tag);
      assert text == base + a.out;
      assert calls + [] == calls;
      if enabled && tag.Variable? {
        ghost var t := Put(env, tag.name, tag.escape, data.View()).1;
        assert base + a.out + t == base + (a.out + t);
      }
      at := next;
    }

    /**
      One turn of the loop: the text up to the next tag, and the tag. `piece` is what the turn contributes
      to the meaning of what was ahead.
     */
    method Step() returns (done: bool, rc: int, ghost piece: Outcome)
      requires Valid()
      modifies this, stack, data, data.stack
      ensures out == old(out) + piece.out && calls == old(calls) + piece.calls
      ensures
        if done then old(Ahead()) == piece && rc == piece.rc
        else Valid() && piece.work == 1 && old(Ahead()) == piece.Then(Ahead())
      ensures done && rc == OK ==> Valid() && depth == 0
    {
      hide Parse, Run, Resume, Approach, Scan, FindOpen, ReadTag, Open, Act, MarksWithin, EnteredCount;
      ghost var ahead, base := Ahead(), out;
      ghost var at0, marks, line0, c := at, stack[..depth], line, data.View();
      ParseAs(env, at);
      var open, r := ApproachTag();
      assert calls + [] == calls;
      if open == |env.t| {
        RunFinish(env, at0, marks, enabled, line0, c);
        return true, if depth == 0 then OK else ERROR_UNEXPECTED_END, ahead;
      }
      if r.Bad? {
        RunBroken(env, at0, marks, enabled, line0, c);
        return true, r.code, ahead;
      }
      var tag, next := r.tag, r.next;
      ghost var a := Approach(env, at0, tag, enabled, line0);
      if tag.Begin? {
        RunSection(env, at0, marks, enabled, line0, c);
        rc, piece := StepBegin(tag.name, tag.inverted, next, a, ahead, base);
      } else if tag.End? {
        RunClose(env, at0, marks, enabled, line0, c);
        rc, piece := StepEnd(Close(at, tag.name, next), a, ahead, base);
      } else {
        RunLeaf(env, at0, marks, enabled, line0, c);
        rc, piece := StepLeaf(tag, next, a, ahead, base);
      }
      done := rc != OK;
    }

    /** A tag that is not a section. */
    method ActOn(tag: Tag) returns (rc: int)
      requires data.Valid()
      modifies `out, data`selection
      ensures data.Valid() && data.View() == old(data.View())
      ensures
        if !enabled then rc == OK && out == old(out)
        else
          match tag
          case Variable(name, escape) =>
            var (code, text) := Put(env, name, escape, data.View());
            rc == code && out == old(out) + text
          case Partial(_) => rc == UNMODELLED && out == old(out)
          case _ => rc == OK && out == old(out)
    {
      rc := OK;
      if enabled {
        match tag {
          case Variable(name, escape) => rc := PutValue(name, escape);
          case Partial(_) => rc := UNMODELLED;
          case _ =>
        }
      }
    }

    /**
      The whole template. On every template and every value the interpreter ends, with the code, the
      output and the calls that the tree of the template means.
     */
    method Process() returns (rc: int)
      requires Valid()
      modifies this, stack, data, data.stack
      ensures
        var m := old(Ahead());
        rc == m.rc && out == old(out) + m.out && calls == old(calls) + m.calls
      ensures rc == OK ==> data.Valid() && data.depth == 0
    {
      hide Run, MarksWithin, Outcome.Then;
      ghost var goal := Ahead();
      ghost var sofar := Outcome(OK, "", [], line, 0);
      var done := false;
      rc := OK;
      NothingBefore(goal);
      ThenNothing(goal, line);
      while !done
        invariant !done ==> Valid()
        invariant done && rc == OK ==> Valid() && depth == 0
        invariant out == old(out) + sofar.out && calls == old(calls) + sofar.calls
        invariant if done then goal == sofar && rc == sofar.rc else goal == sofar.Then(Ahead())
        decreases if done then 0 else Ahead().work
      {
        ghost var ahead, piece := Ahead(), sofar;
        done, rc, piece := Step();
        Accumulates(sofar, piece, old(out), old(calls));
        if !done {
          ThenAssociative(sofar, piece, Ahead());
          WorkOfThen(piece, Ahead());
        }
        sofar := sofar.Then(piece);
      }
    }
  }

  /** Applying a template to a JSON value. */
  method Render(env: Env, root: Json) returns (rc: int, out: string, calls: seq<Call>)
    ensures
      var m := Meaning(env, root);
      (rc, out, calls) == (m.rc, m.out, m.calls)
  {
    hide Meaning;
    var i := new Interpreter(env, root);
    rc := i.Process();
    out, calls := i.out, i.calls;
    NothingBefore(Meaning(env, root));
  }

  lemma ThenNothing(goal: Outcome, line: Line)
    ensures Outcome(OK, "", [], line, 0).Then(goal) == goal
  {
  }

  lemma Accumulates(sofar: Outcome, piece: Outcome, out: string, calls: seq<Call>)
    ensures sofar.Then(piece).rc == piece.rc
    ensures out + sofar.Then(piece).out == out + sofar.out + piece.out
    ensures calls + sofar.Then(piece).calls == calls + sofar.calls + piece.calls
  {
  }

  lemma WorkOfThen(piece: Outcome, next: Outcome)
    ensures piece.Then(next).work == piece.work + next.work
  {
  }

  lemma NothingBefore(m: Outcome)
    ensures "" + m.out == m.out && [] + m.calls == m.calls
  {
  }

  lemma MarksPushed(marks: seq<Mark>, m: Mark, n: nat)
    requires MarksWithin(marks, n) && m.again <= n
    ensures MarksWithin(marks + [m], n)
  {
  }

  lemma MarksPopped(marks: seq<Mark>, m: Mark, n: nat)
    requires MarksWithin(marks + [m], n)
    ensures MarksWithin(marks, n) && m.again <= n
  {
    assert m in marks + [m];
    forall k | k in marks
      ensures k.again <= n
    {
      assert k in marks + [m];
    }
  }
}
