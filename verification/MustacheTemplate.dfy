/**
  Templates: the text between tags, the tags themselves, and the tree of sections they form. Nothing here
  depends on the JSON value a template is applied to.
 */
module MustacheTemplate {

  const OK: int := 0
  const ERROR_UNEXPECTED_END: int := -2
  const ERROR_EMPTY_TAG: int := -3
  const ERROR_TAG_TOO_LONG: int := -4
  const ERROR_BAD_UNESCAPE_TAG: int := -8
  /** Not a code of the program: what it does from here on is not modelled. */
  const UNMODELLED: int := -1000

  const MAX_LENGTH: nat := 4096

  /** The extensions a caller may ask for. */
  datatype Options = Options(colon: bool, emptyTag: bool, errorUndefined: bool)

  predicate IsSpace(c: char) {
    c == ' ' || c == '\t' || c == '\n' || c == '\r' || c as int == 11 || c as int == 12
  }

  predicate OpensAt(t: string, i: nat) { i + 2 <= |t| && t[i] == '{' && t[i + 1] == '{' }

  predicate ClosesAt(t: string, i: nat) { i + 2 <= |t| && t[i] == '}' && t[i + 1] == '}' }

  /** The next opening delimiter, or the end. */
  function FindOpen(t: string, i: nat): (r: nat)
    requires i <= |t|
    ensures i <= r <= |t| && (r < |t| ==> OpensAt(t, r))
    ensures forall k | i <= k < r :: !OpensAt(t, k)
    decreases |t| - i
  {
    if i == |t| || OpensAt(t, i) then i else FindOpen(t, i + 1)
  }

  /** The next closing delimiter, or the end. */
  function FindClose(t: string, i: nat): (r: nat)
    requires i <= |t|
    ensures i <= r <= |t| && (r < |t| ==> ClosesAt(t, r))
    ensures forall k | i <= k < r :: !ClosesAt(t, k)
    decreases |t| - i
  {
    if i == |t| || ClosesAt(t, i) then i else FindClose(t, i + 1)
  }

  function TrimLeft(s: string): string {
    if s != "" && IsSpace(s[0]) then TrimLeft(s[1..]) else s
  }

  function TrimRight(s: string): string {
    if s != "" && IsSpace(s[|s| - 1]) then TrimRight(s[..|s| - 1]) else s
  }

  function Trim(s: string): string { TrimRight(TrimLeft(s)) }

  // ----- tags -----

  datatype Tag =
    | Comment
    | Begin(name: string, inverted: bool)
    | End(name: string)
    | Partial(name: string)
    | Variable(name: string, escape: bool)
  {
    /** Variables make their line one that is not made of tags alone. */
    predicate Inline() { Variable? }
  }

  datatype Reading = Read(tag: Tag, next: nat) | Bad(code: int)

  /** What the text between the delimiters at `beg` and `term` says, and where the template goes on. */
  function Classify(t: string, beg: nat, term: nat, opts: Options): (r: Reading)
    requires beg <= term < |t| && ClosesAt(t, term)
    ensures r.Read? ==> term + 2 <= r.next <= |t|
    ensures r.Bad? ==> r.code != OK
  {
    var c, inner := t[beg], t[beg..term];
    if c == '!' then Read(Comment, term + 2)
    else if c == '=' then Bad(UNMODELLED)
    else if c == '{' && (term + 2 >= |t| || t[term + 2] != '}') then Bad(ERROR_BAD_UNESCAPE_TAG)
    else
      var marked := c == '{' || c == '&' || c == '^' || c == '#' || c == '/' || c == '>' || (c == ':' && opts.colon);
      assert marked ==> inner != "";
      var name := Trim(if marked then inner[1..] else inner);
      if name == "" && !opts.emptyTag then Bad(ERROR_EMPTY_TAG)
      else if |name| > MAX_LENGTH then Bad(ERROR_TAG_TOO_LONG)
      else
        var tag :=
          if c == '#' || c == '^' then Begin(name, c == '^')
          else if c == '/' then End(name)
          else if c == '>' then Partial(name)
          else Variable(name, c != '{' && c != '&');
        Read(tag, if c == '{' then term + 3 else term + 2)
  }

  function ReadTag(t: string, open: nat, opts: Options): (r: Reading)
    requires open < |t| && OpensAt(t, open)
    ensures r.Read? ==> open < r.next <= |t|
    ensures r.Bad? ==> r.code != OK
  {
    var term := FindClose(t, open + 2);
    if term == |t| then Bad(ERROR_UNEXPECTED_END) else Classify(t, open + 2, term, opts)
  }

  // ----- the tree -----

  /**
    The template from position `at` on, up to the end of the section that position is in. A section
    keeps the position its body starts from and what follows its end tag.
   */
  datatype Tree =
    | Finish(at: nat)
    | Broken(at: nat, code: int)
    | Close(at: nat, name: string, next: nat)
    | Leaf(at: nat, tag: Tag, rest: Tree)
    | Section(at: nat, name: string, inverted: bool, body: Tree, rest: Tree)

  /** How a tree ends. */
  function Last(tree: Tree): (r: Tree)
    ensures !r.Leaf? && !r.Section?
  {
    match tree
    case Leaf(_, _, rest) => Last(rest)
    case Section(_, _, _, _, rest) => Last(rest)
    case _ => tree
  }

  /** All positions of the tree lie in a template of length `n`. */
  predicate Within(tree: Tree, n: nat) {
    && tree.at <= n
    && match tree
       case Finish(_) => true
       case Broken(_, code) => code != OK
       case Close(_, _, next) => next <= n
       case Leaf(_, _, rest) => Within(rest, n)
       case Section(_, _, _, body, rest) => Within(body, n) && Within(rest, n)
  }

  lemma {:induction false} LastIsWithin(tree: Tree, n: nat)
    requires Within(tree, n)
    ensures Within(Last(tree), n)
  {
    match tree
    case Leaf(_, _, rest) => LastIsWithin(rest, n);
    case Section(_, _, _, _, rest) => LastIsWithin(rest, n);
    case _ =>
  }

  function Parse(t: string, at: nat, opts: Options): (tree: Tree)
    requires at <= |t|
    ensures Last(tree).Close? ==> at < Last(tree).next
    ensures tree.at == at && Within(tree, |t|)
    decreases |t| - at
  {
    var open := FindOpen(t, at);
    if open == |t| then Finish(at)
    else
      match ReadTag(t, open, opts)
      case Bad(code) => Broken(at, code)
      case Read(End(name), next) => Close(at, name, next)
      case Read(Begin(name, inverted), next) =>
        var body := Parse(t, next, opts);
        LastIsWithin(body, |t|);
        // without an end tag of its own the section ends as its body does
        var rest := if Last(body).Close? then Parse(t, Last(body).next, opts) else Last(body);
        Section(at, name, inverted, body, rest)
      case Read(tag, next) => Leaf(at, tag, Parse(t, next, opts))
  }

  // ----- the text in front of a tag -----

  /**
    The line so far. `alone` is 1 while it holds only blanks, 2 when it holds only blanks and tags that
    print nothing, 0 otherwise; `indent` is text in front of a tag that is held back.
   */
  datatype Line = Line(alone: nat, indent: string)

  const FRESH_LINE := Line(1, "")

  /** Where a scan has stopped, the start of the unprinted part of its line, the line, and what was printed. */
  datatype Scanned = Scanned(from: nat, open: nat, line: Line, out: string)

  /** The part of a line from `from` up to `end`, printed unless the line is made of tags alone. */
  function EmitLine(t: string, from: nat, stop: nat, end: nat, enabled: bool, line: Line): string
    requires from <= end <= |t|
  {
    if enabled && line.alone != 2 then (if stop != from then line.indent else "") + t[from..end] else ""
  }

  /** Text that has been held back is printed as soon as something is met that is not a blank. */
  function Held(enabled: bool, line: Line): string {
    if line.alone == 2 && enabled then line.indent else ""
  }

  function Released(enabled: bool, line: Line): Line {
    if line.alone == 2 && enabled then Line(0, "") else line
  }

  /** One character of text: what is printed, where the unprinted part of the line starts now, the line. */
  function Pass(t: string, from: nat, beg: nat, enabled: bool, line: Line): (r: (string, nat, Line))
    requires from <= beg < |t|
    ensures from <= r.1 <= beg + 1
  {
    if t[beg] == '\n' then (EmitLine(t, from, beg, beg + 1, enabled, line), beg + 1, FRESH_LINE)
    else if IsSpace(t[beg]) then ("", from, line)
    else (Held(enabled, line), from, Released(enabled, line).(alone := 0))
  }

  /** The scan from `beg` to the next tag, `from` being where the unprinted part of the line starts. */
  function Scan(t: string, from: nat, beg: nat, enabled: bool, line: Line): (r: Scanned)
    requires from <= beg <= |t|
    ensures r.open == FindOpen(t, beg) && from <= r.from <= r.open
    decreases |t| - beg
  {
    if beg == |t| then
      Scanned(from, beg, line, EmitLine(t, from, beg, beg, enabled, line))
    else if OpensAt(t, beg) then
      Scanned(from, beg, Released(enabled, line), Held(enabled, line))
    else
      var (printed, from', line') := Pass(t, from, beg, enabled, line);
      var r := Scan(t, from', beg + 1, enabled, line');
      r.(out := printed + r.out)
  }

  /** The line once the tag itself has been seen: blanks in front of it are held back while it may be alone. */
  function Settle(t: string, from: nat, open: nat, line: Line, tag: Tag, enabled: bool): (r: (string, Line))
    requires from <= open <= |t|
  {
    var indent := if enabled then t[from..open] else "";
    if line.alone != 0 && !tag.Inline() then ("", Line(2, indent))
    else (indent, Line(0, ""))
  }
}
