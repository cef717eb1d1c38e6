/** How tags are read that have been written in the usual ways, and what a variable prints between two texts. */
module MustacheTags {
  import opened JsonContext
  import opened Keys
  import opened MustacheInterpreter
  import opened MustacheMeaning
  import opened MustacheProperties
  import opened MustacheTemplate
  import opened Wrappers

  // ----- names and blanks -----

  /** Space, tab, newline, vertical tab, form feed and carriage return, by their numbers. */
  predicate IsBlank(c: char) {
    c as int in {32, 9, 10, 11, 12, 13}
  }

  ghost predicate Blank(s: string) {
    forall i | 0 <= i < |s| :: IsBlank(s[i])
  }

  /** What gives a tag another meaning when it stands first. */
  predicate IsMark(c: char) {
    c in {'!', '=', '{', '&', '^', '#', '/', '>', ':'}
  }

  /** A name without blanks and braces that does not start with a mark. */
  ghost predicate PlainName(name: string) {
    && name != "" && !IsMark(name[0])
    && forall i | 0 <= i < |name| :: !IsBlank(name[i]) && name[i] != '{' && name[i] != '}'
  }

  /** Such a name that is not too long. */
  ghost predicate Plain(name: string) {
    |name| <= 4096 && PlainName(name)
  }

  lemma BlanksAre(c: char)
    ensures IsSpace(c) <==> IsBlank(c)
  {
  }

  lemma {:induction false} TrimLeftOf(left: string, s: string)
    requires Blank(left) && (s == "" || !IsBlank(s[0]))
    ensures TrimLeft(left + s) == s
  {
    if left == "" {
      assert left + s == s;
      if s != "" {
        BlanksAre(s[0]);
      }
    } else {
      BlanksAre(left[0]);
      assert (left + s)[1..] == left[1..] + s;
      TrimLeftOf(left[1..], s);
    }
  }

  lemma {:induction false} TrimRightOf(s: string, right: string)
    requires Blank(right) && (s == "" || !IsBlank(s[|s| - 1]))
    ensures TrimRight(s + right) == s
    decreases |right|
  {
    if right == "" {
      assert s + right == s;
      if s != "" {
        BlanksAre(s[|s| - 1]);
      }
    } else {
      BlanksAre(right[|right| - 1]);
      assert (s + right)[..|s + right| - 1] == s + right[..|right| - 1];
      TrimRightOf(s, right[..|right| - 1]);
    }
  }

  lemma NameIsTrimmed(left: string, name: string, right: string)
    requires Blank(left) && PlainName(name) && Blank(right)
    ensures Trim(left + name + right) == name
  {
    assert left + name + right == left + (name + right);
    TrimLeftOf(left, name + right);
    TrimRightOf(name, right);
  }

  // ----- tags -----

  /** A tag with this between its delimiters, in front of `rest` and behind `front`. */
  function Tagged(front: string, inner: string, rest: string): string {
    front + "{{" + inner + "}}" + rest
  }

  ghost predicate NoBrace(s: string) {
    forall i | 0 <= i < |s| :: s[i] != '}'
  }

  lemma CloseIs(t: string, i: nat, close: nat)
    requires i <= close <= |t| && ClosesAt(t, close) && forall k | i <= k < close :: t[k] != '}'
    ensures FindClose(t, i) == close
  {
  }

  lemma TaggedParts(front: string, inner: string, rest: string)
    ensures
      var t, open := Tagged(front, inner, rest), |front|;
      var close := open + 2 + |inner|;
      && close + 2 <= |t| && t[..open] == front && t[open + 2..close] == inner && t[close + 2..] == rest
      && OpensAt(t, open) && ClosesAt(t, close)
  {
    var t, open := Tagged(front, inner, rest), |front|;
    var close := open + 2 + |inner|;
    assert t[open..open + 2] == "{{" && t[close..close + 2] == "}}";
    assert t[open..open + 2][0] == t[open] && t[open..open + 2][1] == t[open + 1];
    assert t[close..close + 2][0] == t[close] && t[close..close + 2][1] == t[close + 1];
  }

  lemma TaggedLength(front: string, inner: string, rest: string)
    ensures |Tagged(front, inner, rest)| == |front| + 4 + |inner| + |rest|
  {
  }

  /** The tag at `open` is read as this, and the template goes on at `next`. */
  ghost predicate Reads(t: string, opts: Options, open: nat, tag: Tag, next: nat) {
    open < |t| && next <= |t| && OpensAt(t, open) && ReadTag(t, open, opts) == Read(tag, next)
  }

  /** A tag without a closing brace inside is read from what is between its delimiters. */
  lemma TagIsRead(front: string, inner: string, rest: string, opts: Options)
    requires NoBrace(inner)
    ensures
      var t, open := Tagged(front, inner, rest), |front|;
      var close := open + 2 + |inner|;
      && close + 2 <= |t| && OpensAt(t, open) && ClosesAt(t, close) && t[open + 2..close] == inner
      && ReadTag(t, open, opts) == Classify(t, open + 2, close, opts)
      && t[close + 2..] == rest && t[..open] == front
  {
    hide Classify, Tagged, OpensAt, ClosesAt;
    var t, open := Tagged(front, inner, rest), |front|;
    var close := open + 2 + |inner|;
    TaggedParts(front, inner, rest);
    forall k | open + 2 <= k < close
      ensures t[k] != '}'
    {
      assert t[open + 2..close][k - open - 2] == t[k];
    }
    CloseIs(t, open + 2, close);
  }

  lemma PaddedName(mark: string, left: string, name: string, right: string)
    requires Blank(left) && Plain(name) && Blank(right) && |mark| <= 1 && NoBrace(mark)
    ensures NoBrace(mark + (left + name + right))
    ensures
      var inner := mark + (left + name + right);
      mark != "" ==> inner[0] == mark[0] && inner[1..] == left + name + right
    ensures !IsMark((left + name + right)[0])
  {
    var pad := left + name + right;
    forall i | 0 <= i < |pad|
      ensures pad[i] != '}'
    {
      if |left| <= i < |left| + |name| {
        assert pad[i] == name[i - |left|];
      }
    }
    assert pad[0] == if left != "" then left[0] else name[0];
  }

  /** What a tag with one of the marks, or none, and a name between blanks is. */
  function TagOf(mark: string, name: string): Tag {
    if mark == "#" then Begin(name, false)
    else if mark == "^" then Begin(name, true)
    else if mark == "/" then End(name)
    else if mark == ">" then Partial(name)
    else Variable(name, mark != "&")
  }

  /**
    "{{name}}" is a variable that is escaped, "{{&name}}" one that is not; "{{#", "{{^", "{{/" and "{{>" begin a
    section, begin an inverted one, end one, and stand for a partial. Blanks around the name are dropped.
   */
  lemma TagsAreRead(front: string, mark: string, left: string, name: string, right: string, rest: string, opts: Options)
    requires mark in {"", "&", "#", "^", "/", ">"} && Blank(left) && Plain(name) && Blank(right)
    ensures
      var t := Tagged(front, mark + (left + name + right), rest);
      |rest| <= |t| && Reads(t, opts, |front|, TagOf(mark, name), |t| - |rest|)
  {
    var inner := mark + (left + name + right);
    assert mark == "" || |mark| == 1;
    assert NoBrace(mark);
    PaddedName(mark, left, name, right);
    NameIsTrimmed(left, name, right);
    TagIsRead(front, inner, rest, opts);
    var t := Tagged(front, inner, rest);
    assert inner != "" && t[|front| + 2] == inner[0];
    assert "" + (left + name + right) == left + name + right;
    hide ReadTag, Trim, Plain, Blank;
  }

  /** With three braces on both sides a variable is not escaped. */
  lemma TripleIsRead(front: string, left: string, name: string, right: string, rest: string, opts: Options)
    requires Blank(left) && Plain(name) && Blank(right)
    ensures
      var t := Tagged(front, "{" + (left + name + right), "}" + rest);
      |rest| <= |t| && Reads(t, opts, |front|, Variable(name, false), |t| - |rest|)
  {
    var inner := "{" + (left + name + right);
    PaddedName("{", left, name, right);
    NameIsTrimmed(left, name, right);
    TagIsRead(front, inner, "}" + rest, opts);
    var t := Tagged(front, inner, "}" + rest);
    var close := |front| + 2 + |inner|;
    assert t[|front| + 2] == inner[0];
    assert t[close + 2..][0] == t[close + 2] && ("}" + rest)[0] == '}';
    hide ReadTag, Trim, Plain, Blank;
  }

  /** A comment is anything behind "{{!" up to the closing delimiter. */
  lemma CommentIsRead(front: string, text: string, rest: string, opts: Options)
    requires NoBrace(text)
    ensures
      var t := Tagged(front, "!" + text, rest);
      |rest| <= |t| && Reads(t, opts, |front|, Comment, |t| - |rest|)
  {
    var inner := "!" + text;
    TagIsRead(front, inner, rest, opts);
    assert Tagged(front, inner, rest)[|front| + 2] == inner[0];
    hide ReadTag;
  }

  /** A tag of blanks alone is error -3 unless empty tags are allowed; a name that is too long is error -4. */
  lemma BadNames(front: string, blanks: string, name: string, rest: string, opts: Options)
    requires Blank(blanks) && blanks != "" && PlainName(name)
    ensures
      var t := Tagged(front, blanks, rest);
      && OpensAt(t, |front|)
      && ReadTag(t, |front|, opts) == if opts.emptyTag then Read(Variable("", true), |t| - |rest|) else Bad(-3)
    ensures
      var t := Tagged(front, name, rest);
      && OpensAt(t, |front|)
      && ReadTag(t, |front|, opts) == if |name| > 4096 then Bad(-4) else Read(Variable(name, true), |t| - |rest|)
  {
    EmptyName(front, blanks, rest, opts);
    LongName(front, name, rest, opts);
    hide *;
  }

  lemma EmptyName(front: string, blanks: string, rest: string, opts: Options)
    requires Blank(blanks) && blanks != ""
    ensures
      var t := Tagged(front, blanks, rest);
      && OpensAt(t, |front|)
      && ReadTag(t, |front|, opts) == if opts.emptyTag then Read(Variable("", true), |t| - |rest|) else Bad(-3)
  {
    assert blanks + "" == blanks;
    TrimLeftOf(blanks, "");
    assert Trim(blanks) == "";
    TagIsRead(front, blanks, rest, opts);
    assert Tagged(front, blanks, rest)[|front| + 2] == blanks[0];
    hide ReadTag, Trim;
  }

  lemma LongName(front: string, name: string, rest: string, opts: Options)
    requires PlainName(name)
    ensures
      var t := Tagged(front, name, rest);
      && OpensAt(t, |front|)
      && ReadTag(t, |front|, opts) == if |name| > 4096 then Bad(-4) else Read(Variable(name, true), |t| - |rest|)
  {
    NameIsTrimmed("", name, "");
    assert "" + name + "" == name;
    TagIsRead(front, name, rest, opts);
    assert Tagged(front, name, rest)[|front| + 2] == name[0];
    hide ReadTag, Trim;
  }

  /** Three braces in front and only two behind are error -8, and a tag that is not closed is error -2. */
  lemma BadDelimiters(front: string, name: string, rest: string, opts: Options)
    requires PlainName(name) && (rest == "" || rest[0] != '}')
    ensures
      var t := Tagged(front, "{" + name, rest);
      OpensAt(t, |front|) && ReadTag(t, |front|, opts) == Bad(-8)
    ensures
      var t := front + "{{" + name;
      OpensAt(t, |front|) && ReadTag(t, |front|, opts) == Bad(-2)
  {
    TagIsRead(front, "{" + name, rest, opts);
    var t := Tagged(front, "{" + name, rest);
    var close := |front| + 3 + |name|;
    assert t[|front| + 2] == ("{" + name)[0];
    assert rest != "" ==> t[close + 2..][0] == rest[0];
    UnclosedTag(front, name, opts);
    hide ReadTag, Trim;
  }

  lemma UnclosedTag(front: string, name: string, opts: Options)
    requires NoBrace(name)
    ensures
      var t := front + "{{" + name;
      OpensAt(t, |front|) && ReadTag(t, |front|, opts) == Bad(-2)
  {
    var t := front + "{{" + name;
    forall k | |front| + 2 <= k < |t|
      ensures t[k] != '}'
    {
      assert t[k] == name[k - |front| - 2];
    }
    assert FindClose(t, |front| + 2) == |t|;
    hide Classify;
  }

  /** A tag that ends a section where none is open is error -7. */
  lemma StrayEnd(env: Env, root: Json, front: string, name: string, rest: string)
    requires env.t == Tagged(front, "/" + name, rest) && Plain(name) && NoOpening(front)
    ensures Meaning(env, root).rc == -7
  {
    EndMark(name);
    TightTag(env.t, front, "/", name, rest, env.opts);
    TaggedParts(front, "/" + name, rest);
    var t, next := env.t, |front| + 5 + |name|;
    forall k | 0 <= k < |front|
      ensures t[k] != '{'
    {
      assert t[..|front|][k] == t[k];
    }
    OpeningIs(t, 0, |front|);
    hide FindOpen, ReadTag, OpensAt, Approach;
    assert Parse(t, 0, env.opts) == Close(0, name, next);
  }

  /** A section inside 256 others is error -6, and where that is asked for, a name that selects nothing is error -12. */
  lemma LimitsOfRuns(env: Env, tree: Tree, name: string, escape: bool, enabled: bool, line: Line, c: Context)
    requires tree.Section? && Within(tree, |env.t|)
    ensures Eval(env, tree, 256, enabled, line, c).rc == -6
    ensures
      var a := Approach(env, 0, Variable(name, escape), true, line);
      Act(env, Variable(name, escape), true, a, c).rc ==
        if Select(c, name).None? && env.opts.errorUndefined then -12 else 0
  {
    hide Approach, Select, Escape;
  }

  // ----- escaping -----

  predicate StartsWith(s: string, p: string) {
    |p| <= |s| && s[..|p|] == p
  }

  /** What a browser makes of the four entities. */
  function Unescape(s: string): string
    decreases |s|
  {
    if s == "" then ""
    else if StartsWith(s, "&lt;") then "<" + Unescape(s[4..])
    else if StartsWith(s, "&gt;") then ">" + Unescape(s[4..])
    else if StartsWith(s, "&amp;") then "&" + Unescape(s[5..])
    else if StartsWith(s, "&quot;") then "\"" + Unescape(s[6..])
    else [s[0]] + Unescape(s[1..])
  }

  /** Nothing in the text is markup: no angle bracket and no quotation mark. */
  ghost predicate Harmless(s: string) {
    forall i | 0 <= i < |s| :: s[i] != '<' && s[i] != '>' && s[i] != '"'
  }

  lemma UndoneLess(rest: string)
    ensures Unescape("&lt;" + rest) == "<" + Unescape(rest)
  {
    var s := "&lt;" + rest;
    assert s[..4] == "&lt;" && s[4..] == rest;
  }

  lemma UndoneGreater(rest: string)
    ensures Unescape("&gt;" + rest) == ">" + Unescape(rest)
  {
    var s := "&gt;" + rest;
    assert s[..4] == "&gt;" && s[4..] == rest && s[1] == 'g';
  }

  lemma UndoneAmpersand(rest: string)
    ensures Unescape("&amp;" + rest) == "&" + Unescape(rest)
  {
    var s := "&amp;" + rest;
    assert s[..5] == "&amp;" && s[5..] == rest && s[1] == 'a';
  }

  lemma UndoneQuote(rest: string)
    ensures Unescape("&quot;" + rest) == "\"" + Unescape(rest)
  {
    var s := "&quot;" + rest;
    assert s[..6] == "&quot;" && s[6..] == rest && s[1] == 'q';
  }

  lemma UndonePlain(c: char, rest: string)
    requires c != '&'
    ensures Unescape([c] + rest) == [c] + Unescape(rest)
  {
    var s := [c] + rest;
    NoEntity(s);
    hide StartsWith;
    assert s[0] == c && s[1..] == rest;
  }

  lemma NoEntity(s: string)
    requires s != "" && s[0] != '&'
    ensures !StartsWith(s, "&lt;") && !StartsWith(s, "&gt;") && !StartsWith(s, "&amp;") && !StartsWith(s, "&quot;")
  {
    hide Unescape;
    if |s| >= 4 {
      assert s[..4][0] == s[0];
    }
    if |s| >= 5 {
      assert s[..5][0] == s[0];
    }
    if |s| >= 6 {
      assert s[..6][0] == s[0];
    }
  }

  lemma OneCharUndone(c: char, rest: string)
    ensures Unescape(EscapedChar(c) + rest) == [c] + Unescape(rest)
    ensures Harmless(EscapedChar(c))
  {
    hide Unescape;
    if c == '<' {
      UndoneLess(rest);
    } else if c == '>' {
      UndoneGreater(rest);
    } else if c == '&' {
      UndoneAmpersand(rest);
    } else if c == '"' {
      UndoneQuote(rest);
    } else {
      UndonePlain(c, rest);
    }
  }

  /** Escaped text has no markup left in it, and undoing the entities gives the text back. */
  lemma {:induction false} EscapeIsUndone(s: string)
    ensures Unescape(Escape(s)) == s && Harmless(Escape(s))
  {
    if s != "" {
      hide Unescape, EscapedChar;
      EscapeIsUndone(s[1..]);
      OneCharUndone(s[0], Escape(s[1..]));
      assert Escape(s) == EscapedChar(s[0]) + Escape(s[1..]);
      assert [s[0]] + s[1..] == s;
    } else {
      assert Escape("") == "" && Unescape("") == "";
    }
  }

  // ----- what is printed around a tag -----

  /** With nothing held back, a scan prints the text it passes, up to what is still on the tag's line. */
  lemma {:induction false} ScanPrints(t: string, from: nat, beg: nat, line: Line)
    requires from <= beg <= |t| && line.alone != 2 && line.indent == ""
    ensures
      var s := Scan(t, from, beg, true, line);
      && s.line.alone != 2 && s.line.indent == ""
      && if s.open == |t| then s.out == t[from..] else s.out + t[s.from..s.open] == t[from..s.open]
    decreases |t| - beg
  {
    if beg == |t| {
      assert t[from..|t|] == t[from..];
    } else if !OpensAt(t, beg) {
      var p := Pass(t, from, beg, true, line);
      var r := Scan(t, p.1, beg + 1, true, p.2);
      PassPrints(t, from, beg, line);
      ScanPrints(t, p.1, beg + 1, p.2);
      hide *;
      GlueScanned(t, from, p.1, beg + 1, r.from, r.open, p.0, r.out);
    }
  }

  lemma PassPrints(t: string, from: nat, beg: nat, line: Line)
    requires from <= beg < |t| && line.alone != 2 && line.indent == ""
    ensures
      var p := Pass(t, from, beg, true, line);
      p.2.alone != 2 && p.2.indent == "" && p.0 + t[p.1..beg + 1] == t[from..beg + 1]
  {
    hide IsSpace;
  }

  ghost predicate NoOpening(s: string) {
    forall i | 0 <= i < |s| :: s[i] != '{'
  }

  lemma OpeningIs(t: string, i: nat, open: nat)
    requires i <= open <= |t| && (open < |t| ==> OpensAt(t, open)) && forall k | i <= k < open :: t[k] != '{'
    ensures FindOpen(t, i) == open
  {
  }

  lemma OneTag(front: string, inner: string, rest: string)
    requires NoOpening(front) && NoOpening(rest)
    ensures
      var t := Tagged(front, inner, rest);
      OpensAt(t, |front|) && FindOpen(t, 0) == |front| && FindOpen(t, |t| - |rest|) == |t| && t[|t| - |rest|..] == rest
  {
    TaggedParts(front, inner, rest);
    hide Tagged, OpensAt;
    var t := Tagged(front, inner, rest);
    var next := |front| + 4 + |inner|;
    assert t[next..] == rest;
    forall k | 0 <= k < |front|
      ensures t[k] != '{'
    {
      assert t[..|front|][k] == t[k];
    }
    forall k | next <= k < |t|
      ensures t[k] != '{'
    {
      assert t[next..][k - next] == t[k];
    }
    OpeningIs(t, 0, |front|);
    OpeningIs(t, next, |t|);
  }

  lemma TagOpens(t: string, front: string, inner: string, rest: string)
    requires t == Tagged(front, inner, rest) && NoOpening(front) && NoOpening(rest)
    ensures |t| == |front| + 4 + |inner| + |rest|
    ensures FindOpen(t, 0) == |front| && FindOpen(t, |front| + 4 + |inner|) == |t|
  {
    hide *;
    OneTag(front, inner, rest);
    TaggedLength(front, inner, rest);
  }

  lemma LeafTree(t: string, opts: Options, open: nat, tag: Tag, next: nat)
    requires open < |t| && next <= |t| && FindOpen(t, 0) == open && FindOpen(t, next) == |t|
    requires Reads(t, opts, open, tag, next) && !tag.Begin? && !tag.End?
    ensures Parse(t, 0, opts) == Leaf(0, tag, Finish(next))
  {
    hide FindOpen, ReadTag, OpensAt;
    assert Parse(t, next, opts) == Finish(next);
  }

  lemma LeafMeaning(env: Env, root: Json, tag: Tag, next: nat)
    requires next <= |env.t| && Parse(env.t, 0, env.opts) == Leaf(0, tag, Finish(next))
    requires Act(env, tag, true, Approach(env, 0, tag, true, FRESH_LINE), RootContext(root)).rc == OK
    ensures
      var a := Act(env, tag, true, Approach(env, 0, tag, true, FRESH_LINE), RootContext(root));
      && Meaning(env, root).rc == OK
      && Meaning(env, root).out == a.out + Scan(env.t, next, next, true, a.line).out
  {
    hide Parse, Act, Approach, Scan;
    var a := Act(env, tag, true, Approach(env, 0, tag, true, FRESH_LINE), RootContext(root));
    assert Eval(env, Finish(next), 0, true, a.line, RootContext(root)).out == Scan(env.t, next, next, true, a.line).out;
  }

  lemma LeafPrints(env: Env, root: Json, open: nat, tag: Tag, next: nat)
    requires open < |env.t| && next <= |env.t| && FindOpen(env.t, 0) == open && FindOpen(env.t, next) == |env.t|
    requires Reads(env.t, env.opts, open, tag, next) && !tag.Begin? && !tag.End?
    requires Act(env, tag, true, Approach(env, 0, tag, true, FRESH_LINE), RootContext(root)).rc == OK
    ensures
      var a := Act(env, tag, true, Approach(env, 0, tag, true, FRESH_LINE), RootContext(root));
      && Meaning(env, root).rc == OK
      && Meaning(env, root).out == a.out + Scan(env.t, next, next, true, a.line).out
  {
    hide *;
    LeafTree(env.t, env.opts, open, tag, next);
    LeafMeaning(env, root, tag, next);
  }

  /** A template with one tag that is no section: the text in front of it, what it does, the text behind it. */
  lemma OneLeaf(env: Env, root: Json, front: string, inner: string, rest: string, tag: Tag, next: nat)
    requires env.t == Tagged(front, inner, rest) && NoOpening(front) && NoOpening(rest)
    requires |rest| + next == |env.t| && Reads(env.t, env.opts, |front|, tag, next) && !tag.Begin? && !tag.End?
    requires Act(env, tag, true, Approach(env, 0, tag, true, FRESH_LINE), RootContext(root)).rc == OK
    ensures
      var a := Act(env, tag, true, Approach(env, 0, tag, true, FRESH_LINE), RootContext(root));
      && Meaning(env, root).rc == OK
      && Meaning(env, root).out == a.out + Scan(env.t, next, next, true, a.line).out
  {
    hide *;
    TagOpens(env.t, front, inner, rest);
    LeafPrints(env, root, |front|, tag, next);
  }

  lemma ActOfVariable(env: Env, name: string, escape: bool, a: Outcome, c: Context, v: string)
    requires Select(c, name) == Some(Text(v))
    ensures
      var shown := if escape then Escape(UpToZero(v)) else UpToZero(v);
      Act(env, Variable(name, escape), true, a, c) == a.(rc := OK, out := a.out + shown)
  {
    hide Select, Escape, UpToZero;
  }

  lemma TextInFront(env: Env, front: string, name: string, escape: bool)
    requires front <= env.t && FindOpen(env.t, 0) == |front| < |env.t|
    ensures
      var a := Approach(env, 0, Variable(name, escape), true, FRESH_LINE);
      a.out == front && a.line == Line(0, "")
  {
    hide Scan, FindOpen;
    ScanPrints(env.t, 0, 0, FRESH_LINE);
    assert env.t[0..|front|] == front;
  }

  /** Text, a variable, text: what is printed is the text, what the variable puts there, and the text behind it. */
  lemma VariableIsPrinted(
    env: Env, root: Json, front: string, inner: string, rest: string, name: string, escape: bool, v: string)
    requires env.t == Tagged(front, inner, rest) && NoOpening(front) && NoOpening(rest)
    requires |rest| <= |env.t| && Reads(env.t, env.opts, |front|, Variable(name, escape), |env.t| - |rest|)
    requires Select(RootContext(root), name) == Some(Text(v))
    ensures Meaning(env, root).rc == OK
    ensures Meaning(env, root).out == front + (if escape then Escape(UpToZero(v)) else UpToZero(v)) + rest
  {
    hide *;
    var t, tag, next := env.t, Variable(name, escape), |env.t| - |rest|;
    TextAround(t, front, inner, rest);
    TextInFront(env, front, name, escape);
    var a := Approach(env, 0, tag, true, FRESH_LINE);
    ActOfVariable(env, name, escape, a, RootContext(root), v);
    OneLeaf(env, root, front, inner, rest, tag, next);
    ScanPrints(t, next, next, Line(0, ""));
  }

  lemma TextAround(t: string, front: string, inner: string, rest: string)
    requires t == Tagged(front, inner, rest) && NoOpening(front) && NoOpening(rest)
    ensures front <= t && FindOpen(t, 0) == |front| < |t| && |rest| <= |t|
    ensures FindOpen(t, |t| - |rest|) == |t| && t[|t| - |rest|..] == rest
  {
    hide *;
    OneTag(front, inner, rest);
    TaggedParts(front, inner, rest);
  }

  // ----- a member of the value -----

  /** A name that is one key as it stands: no separator, no escape, no end of string in it. */
  ghost predicate OneKey(name: string) {
    name != "" && name != "." && forall i | 0 <= i < |name| :: name[i] != '.' && name[i] != '\\' && name[i] != '\0'
  }

  lemma KeyStands(name: string)
    requires forall i | 0 <= i < |name| :: name[i] != '.' && name[i] != '\\' && name[i] != '\0'
    ensures TakeKey(Dotted, name) == (name, "") && UpToZero(name) == name
  {
    hide *;
    KeyIsTaken(name);
    UpToZeroIs(name, "");
  }

  lemma {:induction false} KeyIsTaken(name: string)
    requires forall i | 0 <= i < |name| :: name[i] != '.' && name[i] != '\\'
    ensures TakeKey(Dotted, name) == (name, "")
  {
    if name == "" {
      TakeNothing(Dotted, name);
    } else {
      assert Dotted.Unescaped(name) == "" && Dotted.Separator() == '.';
      hide *;
      KeyIsTaken(name[1..]);
      TakeUnfolds(Dotted, name, name[1..], 1);
      assert [name[0]] + name[1..] == name;
    }
  }

  /** Such a name selects the member of that name. */
  lemma MemberIsSelected(members: seq<(string, Json)>, name: string, v: Json)
    requires OneKey(name) && FindMember(members, name) == Some(v)
    ensures Select(RootContext(Object(members)), name) == Some(v)
  {
    KeyStands(name);
    hide TakeKey, UpToZero, FindMember;
    var c := RootContext(Object(members));
    assert NextKey(Dotted, name) == (name, "");
    assert FindUp(c, name) == Some(v);
    assert Descend(v, "") == Some(v);
  }

  /**
    A template of text around "{{name}}", "{{&name}}" or "{{{name}}}", applied to an object with such a member of
    text: it is escaped in the first case and printed as it is in the others.
   */
  lemma MemberIsPrinted(
    opts: Options, serialize: Json -> string, front: string, left: string, name: string, right: string, rest: string,
    members: seq<(string, Json)>, v: string)
    requires NoOpening(front) && NoOpening(rest) && Blank(left) && Plain(name) && Blank(right) && OneKey(name)
    requires FindMember(members, name) == Some(Text(v))
    ensures
      var pad, shown := left + name + right, UpToZero(v);
      var escaped := Meaning(Env(Tagged(front, pad, rest), opts, serialize), Object(members));
      var asIs := Meaning(Env(Tagged(front, "&" + pad, rest), opts, serialize), Object(members));
      var triple := Meaning(Env(Tagged(front, "{" + pad, "}" + rest), opts, serialize), Object(members));
      && escaped.rc == OK && escaped.out == front + Escape(shown) + rest
      && asIs.rc == OK && asIs.out == front + shown + rest
      && triple.rc == OK && triple.out == front + shown + rest
  {
    hide *;
    var pad, root := left + name + right, Object(members);
    MemberIsSelected(members, name, Text(v));
    PlainMember(opts, serialize, root, front, left, name, right, rest, v);
    MarkedMember(opts, serialize, root, front, left, name, right, rest, v);
    TripleMember(opts, serialize, root, front, left, name, right, rest, v);
  }

  lemma PlainMember(
    opts: Options, serialize: Json -> string, root: Json,
    front: string, left: string, name: string, right: string, rest: string, v: string)
    requires NoOpening(front) && NoOpening(rest) && Blank(left) && Plain(name) && Blank(right)
    requires Select(RootContext(root), name) == Some(Text(v))
    ensures
      var m := Meaning(Env(Tagged(front, left + name + right, rest), opts, serialize), root);
      m.rc == OK && m.out == front + Escape(UpToZero(v)) + rest
  {
    hide *;
    var pad := left + name + right;
    TagsAreRead(front, "", left, name, right, rest, opts);
    TagOfIs(name);
    assert "" + pad == pad;
    VariableIsPrinted(Env(Tagged(front, pad, rest), opts, serialize), root, front, pad, rest, name, true, v);
  }

  lemma MarkedMember(
    opts: Options, serialize: Json -> string, root: Json,
    front: string, left: string, name: string, right: string, rest: string, v: string)
    requires NoOpening(front) && NoOpening(rest) && Blank(left) && Plain(name) && Blank(right)
    requires Select(RootContext(root), name) == Some(Text(v))
    ensures
      var m := Meaning(Env(Tagged(front, "&" + (left + name + right), rest), opts, serialize), root);
      m.rc == OK && m.out == front + UpToZero(v) + rest
  {
    hide *;
    var pad := left + name + right;
    TagsAreRead(front, "&", left, name, right, rest, opts);
    TagOfIs(name);
    var plain := Env(Tagged(front, "&" + pad, rest), opts, serialize);
    VariableIsPrinted(plain, root, front, "&" + pad, rest, name, false, v);
  }

  lemma TripleMember(
    opts: Options, serialize: Json -> string, root: Json,
    front: string, left: string, name: string, right: string, rest: string, v: string)
    requires NoOpening(front) && NoOpening(rest) && Blank(left) && Plain(name) && Blank(right)
    requires Select(RootContext(root), name) == Some(Text(v))
    ensures
      var m := Meaning(Env(Tagged(front, "{" + (left + name + right), "}" + rest), opts, serialize), root);
      m.rc == OK && m.out == front + UpToZero(v) + rest
  {
    hide *;
    var pad := left + name + right;
    TripleIsRead(front, left, name, right, rest, opts);
    TripleIsTagged(front, pad, rest);
    TripleIsPrinted(Env(Tagged(front, "{" + pad, "}" + rest), opts, serialize), root, front, pad, rest, name, v);
  }

  lemma TagOfIs(name: string)
    ensures TagOf("", name) == Variable(name, true) && TagOf("&", name) == Variable(name, false)
  {
  }

  lemma TripleIsTagged(front: string, pad: string, rest: string)
    ensures
      var t := Tagged(front, "{" + pad, "}" + rest);
      |t| == |front| + 6 + |pad| + |rest| && t == Tagged(front, "{" + pad + "}", rest)
  {
    assert "{" + pad + "}" + "}" == "{" + pad + "}}";
    assert "}}" + ("}" + rest) == "}" + "}}" + rest;
  }

  lemma TripleIsPrinted(env: Env, root: Json, front: string, pad: string, rest: string, name: string, v: string)
    requires env.t == Tagged(front, "{" + pad, "}" + rest) == Tagged(front, "{" + pad + "}", rest)
    requires NoOpening(front) && NoOpening(rest)
    requires |rest| <= |env.t| && Reads(env.t, env.opts, |front|, Variable(name, false), |env.t| - |rest|)
    requires Select(RootContext(root), name) == Some(Text(v))
    ensures Meaning(env, root).rc == OK && Meaning(env, root).out == front + UpToZero(v) + rest
  {
    hide *;
    VariableIsPrinted(env, root, front, "{" + pad + "}", rest, name, false, v);
  }

  // ----- a section between texts -----

  /** What is in front of the tag that ends a section, and what is behind the tag that begins it. */
  function UpToEnd(front: string, mark: string, name: string, body: string): string {
    front + "{{" + (mark + name) + "}}" + body
  }

  function FromBody(name: string, body: string, rest: string): string {
    body + "{{/" + name + "}}" + rest
  }

  /** Text, a section or with '^' an inverted one, with text in it, and text. */
  function Sectioned(front: string, mark: string, name: string, body: string, rest: string): string {
    Tagged(front, mark + name, FromBody(name, body, rest))
  }

  lemma SectionEnds(front: string, mark: string, name: string, body: string, rest: string)
    ensures Sectioned(front, mark, name, body, rest) == Tagged(UpToEnd(front, mark, name, body), "/" + name, rest)
    ensures |UpToEnd(front, mark, name, body)| == |front| + 4 + |mark| + |name| + |body|
  {
    var start, end := front + "{{" + (mark + name) + "}}", "{{/" + name + "}}" + rest;
    assert "{{" + ("/" + name) + "}}" == "{{/" + name + "}}" && "{{/" == "{{" + "/";
    assert body + "{{/" + name + "}}" + rest == body + end;
    assert Sectioned(front, mark, name, body, rest) == start + body + end;
  }

  /** This text stands between two positions. */
  ghost predicate Holds(t: string, i: nat, j: nat, part: string) {
    i <= j <= |t| && t[i..j] == part
  }

  lemma SectionSlices(t: string, front: string, mark: string, name: string, body: string, rest: string)
    requires t == Sectioned(front, mark, name, body, rest)
    ensures
      var n := |front| + 4 + |mark| + |name|;
      var m := n + |body| + 5 + |name|;
      |t| == m + |rest| && Holds(t, 0, |front|, front) && Holds(t, n, n + |body|, body) && Holds(t, m, |t|, rest)
  {
    var start, end := front + "{{" + (mark + name) + "}}", "{{/" + name + "}}" + rest;
    assert body + "{{/" + name + "}}" + rest == body + end;
    assert t == start + body + end;
    SameText(t[0..|front|], front);
    SameText(t[|start|..|start| + |body|], body);
    SameText(t[|start| + |body| + 5 + |name|..|t|], rest);
  }

  predicate OfSection(mark: string) {
    mark in {"#", "^", "/"}
  }

  /** A tag without blanks in it, in numbers. */
  lemma TightTag(t: string, front: string, mark: string, name: string, rest: string, opts: Options)
    requires t == Tagged(front, mark + name, rest) && OfSection(mark) && Plain(name)
    ensures Reads(t, opts, |front|, TagOf(mark, name), |front| + 5 + |name|)
  {
    assert |mark| == 1;
    NothingIsBlank();
    hide *;
    assert mark + ("" + name + "") == mark + name;
    TaggedLength(front, mark + name, rest);
    TagsAreRead(front, mark, "", name, "", rest, opts);
  }

  lemma NothingIsBlank()
    ensures Blank("")
  {
  }

  lemma BeginIsRead(
    t: string, front: string, mark: string, name: string, body: string, rest: string, opts: Options)
    requires t == Sectioned(front, mark, name, body, rest) && mark in {"#", "^"} && Plain(name)
    ensures |mark| == 1
    ensures Reads(t, opts, |front|, Begin(name, mark == "^"), |front| + 5 + |name|)
  {
    assert TagOf(mark, name) == Begin(name, mark == "^") && |mark| == 1 && OfSection(mark);
    assert t == Tagged(front, mark + name, FromBody(name, body, rest));
    hide *;
    TightTag(t, front, mark, name, FromBody(name, body, rest), opts);
  }

  lemma EndIsRead(
    t: string, front: string, mark: string, name: string, body: string, rest: string, opts: Options)
    requires t == Sectioned(front, mark, name, body, rest) && |mark| == 1 && Plain(name)
    ensures
      Reads(t, opts, |front| + 5 + |name| + |body|, End(name), |front| + 5 + |name| + |body| + 5 + |name|)
  {
    EndMark(name);
    hide *;
    SectionEnds(front, mark, name, body, rest);
    TightTag(t, UpToEnd(front, mark, name, body), "/", name, rest, opts);
  }

  lemma EndMark(name: string)
    ensures TagOf("/", name) == End(name) && OfSection("/")
  {
  }

  lemma PartIsClosed(t: string, i: nat, j: nat, part: string)
    requires Holds(t, i, j, part) && NoOpening(part) && (j < |t| ==> OpensAt(t, j))
    ensures FindOpen(t, i) == j
  {
    forall k | i <= k < j
      ensures t[k] != '{'
    {
      assert t[i..j][k - i] == t[k];
    }
    OpeningIs(t, i, j);
  }

  /** The tree of such a template, `start` being where the body is and `next` what is behind it. */
  lemma SectionTree(t: string, opts: Options, name: string, inverted: bool, front: string, body: string, rest: string,
      start: nat, next: nat)
    requires start + |body| <= next && next + |rest| == |t| && NoOpening(front) && NoOpening(body) && NoOpening(rest)
    requires Holds(t, 0, |front|, front) && Holds(t, start, start + |body|, body) && Holds(t, next, |t|, rest)
    requires Reads(t, opts, |front|, Begin(name, inverted), start) && Reads(t, opts, start + |body|, End(name), next)
    ensures Parse(t, 0, opts) == Section(0, name, inverted, Close(start, name, next), Finish(next))
    ensures TextAt(t, 0) == front && TextAt(t, start) == body && t[next..] == rest
  {
    hide NoOpening, FindOpen, ReadTag, OpensAt;
    PartIsClosed(t, 0, |front|, front);
    PartIsClosed(t, start, start + |body|, body);
    PartIsClosed(t, next, |t|, rest);
    assert Parse(t, next, opts) == Finish(next);
    assert Parse(t, start, opts) == Close(start, name, next);
  }

  ghost predicate OneLine(s: string) {
    forall i | 0 <= i < |s| :: s[i] != '\n'
  }

  /** Text that is not blank stands in front of the section, and its body has no newline. */
  lemma SectionIsInline(t: string, front: string, mark: string, name: string, body: string, rest: string)
    requires t == Sectioned(front, mark, name, body, rest) && mark in {"#", "^"} && Plain(name)
    requires NoOpening(rest) && NoOpening(front) && TextBefore(front, |front|) && OneLine(body)
    ensures AllInline(t)
  {
    var middle, more := "{{" + (mark + name) + "}}" + body + "{{", "/" + name + "}}" + rest;
    SectionAroundMiddle(front, mark, name, body, rest);
    MiddleIsOneLine(mark, name, body);
    NoBraceBehind(name, rest);
    hide Sectioned, Tagged, Plain, TextBefore, OneLine, NoOpening;
    forall i | 0 <= i < |t| && OpensAt(t, i)
      ensures TextBefore(t, i)
    {
      BracesAreInMiddle(t, front, middle, more, i);
      LineGoesOnTo(t, front, middle, i);
    }
  }

  lemma SectionAroundMiddle(front: string, mark: string, name: string, body: string, rest: string)
    ensures
      var middle, more := "{{" + (mark + name) + "}}" + body + "{{", "/" + name + "}}" + rest;
      Sectioned(front, mark, name, body, rest) == front + middle + more
  {
    assert "{{/" == "{{" + "/";
    assert Sectioned(front, mark, name, body, rest) ==
      front + ("{{" + (mark + name) + "}}" + body + "{{") + ("/" + name + "}}" + rest);
  }

  lemma BracesAreInMiddle(t: string, front: string, middle: string, more: string, i: nat)
    requires t == front + middle + more && NoOpening(front) && NoOpening(more) && i < |t|
    ensures front + middle <= t
    ensures t[i] == '{' ==> |front| <= i < |front| + |middle|
  {
    if i < |front| {
      assert t[i] == front[i];
    } else if i >= |front| + |middle| {
      assert t[i] == more[i - |front| - |middle|];
    }
  }

  lemma NoBraceBehind(name: string, rest: string)
    requires Plain(name) && NoOpening(rest)
    ensures NoOpening("/" + name + "}}" + rest)
  {
    var s := "/" + name + "}}" + rest;
    forall i | 0 <= i < |s|
      ensures s[i] != '{'
    {
      if 1 <= i < 1 + |name| {
        assert s[i] == name[i - 1];
      } else if i >= 3 + |name| {
        assert s[i] == rest[i - 3 - |name|];
      }
    }
  }

  lemma MiddleIsOneLine(mark: string, name: string, body: string)
    requires mark in {"#", "^"} && Plain(name) && OneLine(body)
    ensures OneLine("{{" + (mark + name) + "}}" + body + "{{")
  {
    var s := "{{" + (mark + name) + "}}" + body + "{{";
    forall i | 0 <= i < |s|
      ensures s[i] != '\n'
    {
      if 3 <= i < 3 + |name| {
        assert s[i] == name[i - 3];
        assert !IsBlank(name[i - 3]);
      } else if 5 + |name| <= i < 5 + |name| + |body| {
        assert s[i] == body[i - 5 - |name|];
      }
    }
  }

  lemma LineGoesOnTo(t: string, front: string, middle: string, i: nat)
    requires front + middle <= t && |front| <= i < |front| + |middle|
    requires TextBefore(front, |front|) && OneLine(middle)
    ensures TextBefore(t, i)
  {
    var k :| 0 <= k < |front| && !IsSpace(front[k]) && NoNewline(front, k, |front|);
    assert t[k] == front[k];
    forall j | k <= j < i
      ensures t[j] != '\n'
    {
      assert t[j] == (front + middle)[j];
      assert j >= |front| ==> (front + middle)[j] == middle[j - |front|];
    }
    assert NoNewline(t, k, i);
  }

  /** So many copies of a text. */
  function Times(n: nat, s: string): string {
    if n == 0 then "" else s + Times(n - 1, s)
  }

  lemma {:induction false} TextIsRepeated(env: Env, body: Tree, scopes: seq<Json>, items: seq<Json>)
    requires body.Close? && Within(body, |env.t|)
    ensures PlainItems(env, body, scopes, items) == Times(|items|, TextAt(env.t, body.at))
    decreases |items|
  {
    hide TextAt;
    if items != [] {
      TextIsRepeated(env, body, scopes, items[1..]);
    }
  }

  lemma SectionSucceeds(env: Env, root: Json, name: string, inverted: bool, start: nat, next: nat)
    requires start <= |env.t| && next <= |env.t| && !env.opts.errorUndefined
    requires Parse(env.t, 0, env.opts) == Section(0, name, inverted, Close(start, name, next), Finish(next))
    ensures Meaning(env, root).rc == OK
  {
    hide Parse, Meaning;
    var body, rest := Close(start, name, next), Finish(next);
    var tree := Section(0, name, inverted, body, rest);
    assert Ended(body, name) && !Malformed(rest) && Last(rest) == rest;
    assert WellFormed(tree);
    assert Bounded(body, 1) && Bounded(rest, 0);
    assert Bounded(tree, 0);
    SucceedsByTemplate(env, root);
  }

  lemma SectionIsPlain(env: Env, root: Json, name: string, inverted: bool, start: nat, next: nat)
    requires start <= |env.t| && next <= |env.t|
    ensures
      var tree := Section(0, name, inverted, Close(start, name, next), Finish(next));
      var n, body := |SectionItems([root], name)|, TextAt(env.t, start);
      && Within(tree, |env.t|)
      && MustacheProperties.Plain(env, tree, [root]) ==
           TextAt(env.t, 0) + Times(if !inverted then n else if n == 0 then 1 else 0, body) + env.t[next..]
  {
    hide TextAt, SectionItems;
    var body := Close(start, name, next);
    TextIsRepeated(env, body, [root], SectionItems([root], name));
    assert Times(1, TextAt(env.t, start)) == TextAt(env.t, start) + Times(0, TextAt(env.t, start));
  }

  /** How often the body of a section is printed for a value: an array by its items, other values once or not at all. */
  function CountOf(v: Json): nat {
    if v.Array? then |v.items|
    else if v in {Null, Boolean(false), Integer(0), Double(0.0), Text("")} then 0 else 1
  }

  lemma ItemsCounted(v: Json)
    ensures |ItemsOf(v)| == CountOf(v)
  {
  }

  lemma ItemsOfSection(scopes: seq<Json>, name: string, v: Json)
    requires Denoted(scopes, name) == Some(v)
    ensures SectionItems(scopes, name) == ItemsOf(v)
  {
    hide Denoted, ItemsOf;
  }

  lemma RootValues(root: Json)
    ensures Values(RootContext(root)) == [root]
  {
  }

  lemma ItemsAreCounted(members: seq<(string, Json)>, name: string, v: Json)
    requires OneKey(name) && FindMember(members, name) == Some(v)
    ensures |SectionItems([Object(members)], name)| == CountOf(v)
  {
    hide *;
    var root := Object(members);
    MemberIsSelected(members, name, v);
    SelectsTheSame(RootContext(root), name);
    RootValues(root);
    ItemsOfSection([root], name, v);
    ItemsCounted(v);
  }

  /**
    "text{{#name}}body{{/name}}text" prints the body once for every item of an array, once for another value that
    counts as true, and not at all otherwise; with '^' it prints the body exactly when '#' would not.
   */
  lemma SectionIsPrinted(
    env: Env, members: seq<(string, Json)>, front: string, mark: string, name: string, body: string, rest: string,
    v: Json)
    requires env.t == Sectioned(front, mark, name, body, rest) && mark in {"#", "^"} && !env.opts.errorUndefined
    requires Plain(name) && OneKey(name) && FindMember(members, name) == Some(v)
    requires NoOpening(front) && NoOpening(body) && NoOpening(rest) && TextBefore(front, |front|) && OneLine(body)
    ensures Meaning(env, Object(members)).rc == OK
    ensures
      var n := if mark == "#" then CountOf(v) else if CountOf(v) == 0 then 1 else 0;
      Meaning(env, Object(members)).out == front + Times(n, body) + rest
  {
    hide *;
    var t, root := env.t, Object(members);
    var start := |front| + 5 + |name|;
    var next := start + |body| + 5 + |name|;
    BeginIsRead(t, front, mark, name, body, rest, env.opts);
    EndIsRead(t, front, mark, name, body, rest, env.opts);
    SectionSlices(t, front, mark, name, body, rest);
    SectionTree(t, env.opts, name, mark == "^", front, body, rest, start, next);
    SectionIsInline(t, front, mark, name, body, rest);
    SectionSucceeds(env, root, name, mark == "^", start, next);
    InlineTemplatesReadPlainly(env, root);
    SectionIsPlain(env, root, name, mark == "^", start, next);
    ItemsAreCounted(members, name, v);
    assert mark == "#" <==> mark != "^";
  }

  // ----- lines made of a tag alone -----

  ghost predicate BlankTo(t: string, beg: nat, end: nat) {
    end <= |t| && forall k | beg <= k < end :: IsBlank(t[k])
  }

  ghost predicate NoLineEnd(t: string, beg: nat, end: nat) {
    end <= |t| && forall k | beg <= k < end :: t[k] != '\n'
  }

  /** Behind a tag that may be alone on its line: blanks up to the newline print nothing, anything else prints all. */
  lemma {:induction false} HeldLine(t: string, from: nat, beg: nat, end: nat, indent: string)
    requires from <= beg <= end < |t| && t[end] == '\n' && FindOpen(t, beg) == |t| && NoLineEnd(t, beg, end)
    ensures
      Scan(t, from, beg, true, Line(2, indent)).out ==
        (if BlankTo(t, beg, end) then "" else indent + t[from..end + 1]) + t[end + 1..]
    decreases end - beg
  {
    FindOpenGoesOn(t, beg);
    if beg == end {
      hide *;
      LineIsDropped(t, from, beg, indent);
    } else if IsBlank(t[beg]) {
      LineGoesOn(t, beg, end);
      HeldLine(t, from, beg + 1, end, indent);
      hide *;
      BlankIsHeld(t, from, beg, indent);
    } else {
      LineGoesOn(t, beg, end);
      hide *;
      LineIsReleased(t, from, beg, indent);
      LineAndRest(t, from, end, indent);
    }
  }

  lemma LineGoesOn(t: string, beg: nat, end: nat)
    requires beg < end && NoLineEnd(t, beg, end)
    ensures NoLineEnd(t, beg + 1, end) && t[beg] != '\n'
    ensures BlankTo(t, beg, end) <==> IsBlank(t[beg]) && BlankTo(t, beg + 1, end)
  {
    hide IsBlank;
  }

  lemma LineIsDropped(t: string, from: nat, end: nat, indent: string)
    requires from <= end < |t| && t[end] == '\n' && !OpensAt(t, end) && FindOpen(t, end + 1) == |t|
    ensures
      Scan(t, from, end, true, Line(2, indent)).out ==
        (if BlankTo(t, end, end) then "" else indent + t[from..end + 1]) + t[end + 1..]
  {
    ScanPrints(t, end + 1, end + 1, FRESH_LINE);
    hide FindOpen, IsSpace, OpensAt;
    assert "" + t[end + 1..] == t[end + 1..];
  }

  lemma BlankIsHeld(t: string, from: nat, beg: nat, indent: string)
    requires from <= beg < |t| && IsBlank(t[beg]) && t[beg] != '\n' && !OpensAt(t, beg)
    ensures Scan(t, from, beg, true, Line(2, indent)).out == Scan(t, from, beg + 1, true, Line(2, indent)).out
  {
    BlanksAre(t[beg]);
    hide FindOpen, IsBlank, OpensAt;
  }

  lemma LineIsReleased(t: string, from: nat, beg: nat, indent: string)
    requires from <= beg < |t| && !IsBlank(t[beg]) && t[beg] != '\n' && !OpensAt(t, beg) && FindOpen(t, beg + 1) == |t|
    ensures Scan(t, from, beg, true, Line(2, indent)).out == indent + t[from..]
  {
    BlanksAre(t[beg]);
    ScanPrints(t, from, beg + 1, Line(0, ""));
    hide FindOpen, IsBlank, OpensAt;
  }

  lemma LineAndRest(t: string, from: nat, end: nat, indent: string)
    requires from <= end < |t|
    ensures indent + t[from..] == indent + t[from..end + 1] + t[end + 1..]
  {
  }

  lemma FindOpenGoesOn(t: string, i: nat)
    requires i < |t| && FindOpen(t, i) == |t|
    ensures !OpensAt(t, i) && FindOpen(t, i + 1) == |t|
  {
  }

  /**
    A line of a comment between blanks vanishes with its newline; when there is anything else behind the comment on
    its line, the blanks in front of it and all of that are printed.
   */
  lemma CommentLine(env: Env, root: Json, indent: string, text: string, behind: string, after: string)
    requires env.t == Tagged(indent, "!" + text, behind + "\n" + after)
    requires Blank(indent) && NoBrace(text) && NoOpening(behind) && NoOpening(after)
    requires (forall i | 0 <= i < |indent| :: indent[i] != '\n') && forall i | 0 <= i < |behind| :: behind[i] != '\n'
    ensures Meaning(env, root).rc == OK
    ensures Meaning(env, root).out == (if Blank(behind) then "" else indent + behind + "\n") + after
  {
    hide *;
    var rest := behind + "\n" + after;
    NoOpeningInLine(indent, behind, after);
    CommentIsRead(indent, text, rest, env.opts);
    CommentInFront(env, indent, "!" + text, rest);
    var next := |env.t| - |rest|;
    OneLeaf(env, root, indent, "!" + text, rest, Comment, next);
    RestOfLine(env.t, indent, "!" + text, behind, after);
    OneTag(indent, "!" + text, rest);
    HeldLine(env.t, next, next, next + |behind|, indent);
    assert indent + (behind + "\n") == indent + behind + "\n";
  }

  lemma NoOpeningInLine(indent: string, behind: string, after: string)
    requires Blank(indent) && NoOpening(behind) && NoOpening(after)
    ensures NoOpening(indent) && NoOpening(behind + "\n" + after)
  {
  }

  lemma RestOfLine(t: string, indent: string, inner: string, behind: string, after: string)
    requires t == Tagged(indent, inner, behind + "\n" + after) && forall i | 0 <= i < |behind| :: behind[i] != '\n'
    ensures |behind + "\n" + after| <= |t|
    ensures
      var next := |t| - |behind + "\n" + after|;
      var end := next + |behind|;
      && end < |t| && t[end] == '\n' && t[next..end + 1] == behind + "\n" && t[end + 1..] == after
      && NoLineEnd(t, next, end) && (Blank(behind) <==> BlankTo(t, next, end))
  {
    var rest := behind + "\n" + after;
    TaggedParts(indent, inner, rest);
    hide Tagged, IsBlank;
    var next := |t| - |rest|;
    var end := next + |behind|;
    assert t[next..] == rest;
    assert forall k | next <= k < |t| :: t[k] == rest[k - next] by {
      assert forall k | next <= k < |t| :: t[k] == t[next..][k - next];
    }
    assert forall i | 0 <= i < |behind| :: behind[i] == t[next + i];
    SameText(t[next..end + 1], behind + "\n");
    SameText(t[end + 1..], after);
  }

  lemma SameText(s: string, t: string)
    requires |s| == |t| && forall i | 0 <= i < |s| :: s[i] == t[i]
    ensures s == t
  {
  }

  /** A comment behind blanks may be alone on its line: the blanks are held back. */
  lemma CommentInFront(env: Env, indent: string, inner: string, rest: string)
    requires env.t == Tagged(indent, inner, rest) && Blank(indent) && NoOpening(indent) && NoOpening(rest)
    requires forall i | 0 <= i < |indent| :: indent[i] != '\n'
    ensures
      var a := Approach(env, 0, Comment, true, FRESH_LINE);
      a.out == "" && a.line == Line(2, indent) && a.rc == OK
    ensures
      var a := Approach(env, 0, Comment, true, FRESH_LINE);
      Act(env, Comment, true, a, RootContext(Null)) == a && forall c :: Act(env, Comment, true, a, c) == a
  {
    OneTag(indent, inner, rest);
    TaggedParts(indent, inner, rest);
    hide Tagged, OpensAt, FindOpen, IsBlank, Scan;
    var t := env.t;
    forall k | 0 <= k < |indent|
      ensures IsBlank(t[k]) && t[k] != '\n'
    {
      assert t[..|indent|][k] == t[k];
    }
    BlankScan(t, 0, |indent|);
    assert t[0..|indent|] == indent;
  }

  /** Blanks at the start of a line leave it as it is. */
  lemma {:induction false} BlankScan(t: string, beg: nat, open: nat)
    requires beg <= open < |t| && OpensAt(t, open) && FindOpen(t, beg) == open
    requires forall k | beg <= k < open :: IsBlank(t[k]) && t[k] != '\n'
    ensures Scan(t, 0, beg, true, FRESH_LINE) == Scanned(0, open, FRESH_LINE, "")
    decreases open - beg
  {
    if beg < open {
      BlanksAre(t[beg]);
      BlankScan(t, beg + 1, open);
      assert "" + "" == "";
    }
  }
}
