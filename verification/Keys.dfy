/**
  The names in tags are lists of keys: joined by dots, or by slashes when the name is a JSON pointer
  (RFC 6901, sections 3 and 4). The wrapper takes them apart one key at a time, in place.
 */
module Keys {
  import opened Bytes

  /** How keys are separated: `Dotted` names or JSON `Pointer`s. */
  datatype Style = Dotted | Pointer {
    function Separator(): char {
      if Dotted? then '.' else '/'
    }

    /** The character an escape at the start of `s` stands for, if there is one. */
    function Unescaped(s: string): (c: string)
      ensures |c| <= 1
    {
      if |s| < 2 then ""
      else if Dotted? then (if s[0] == '\\' && (s[1] == '.' || s[1] == '\\') then [s[1]] else "")
      else if s[0] == '~' && s[1] == '1' then "/"
      else if s[0] == '~' && s[1] == '0' then "~"
      else ""
    }

    function Escape(c: char): (e: string)
      ensures e != ""
    {
      if Dotted? then (if c == '.' || c == '\\' then ['\\', c] else [c])
      else if c == '/' then "~1"
      else if c == '~' then "~0"
      else [c]
    }
  }

  // ----- taking a name apart -----

  function SkipSeparators(style: Style, s: string): (r: string)
    ensures |r| <= |s| && r == s[|s| - |r|..]
  {
    if s != "" && s[0] == style.Separator() then SkipSeparators(style, s[1..]) else s
  }

  /** The characters up to the first separator that is not escaped, unescaped, and the rest from there on. */
  function TakeKey(style: Style, s: string): (r: (string, string))
    ensures |r.1| <= |s| && r.1 == s[|s| - |r.1|..]
    ensures |r.0| <= |s| - |r.1|
    ensures s != "" && s[0] != style.Separator() ==> |r.1| < |s|
  {
    if s == "" || s[0] == style.Separator() then ("", s)
    else
      var c := style.Unescaped(s);
      var step := if c == "" then 1 else 2;
      var (key, rest) := TakeKey(style, s[step..]);
      ((if c == "" then [s[0]] else c) + key, rest)
  }

  function NextKey(style: Style, s: string): (r: (string, string))
    ensures s != "" ==> |r.1| < |s|
  {
    var (key, rest) := TakeKey(style, s);
    (key, SkipSeparators(style, rest))
  }

  function AllKeys(style: Style, s: string): seq<string> {
    if s == "" then []
    else
      var (key, rest) := NextKey(style, s);
      [key] + AllKeys(style, rest)
  }

  // ----- putting it together -----

  function Escaped(style: Style, key: string): string {
    if key == "" then "" else style.Escape(key[0]) + Escaped(style, key[1..])
  }

  function Join(style: Style, keys: seq<string>): string
    decreases |keys|, 0
  {
    if keys == [] then "" else Escaped(style, keys[0]) + Joined(style, keys[1..])
  }

  /** Further keys, each behind a separator. */
  function Joined(style: Style, keys: seq<string>): (s: string)
    ensures s == "" || s[0] == style.Separator()
    decreases |keys|, 1
  {
    if keys == [] then "" else [style.Separator()] + Join(style, keys)
  }

  /** The keys that are not empty. */
  function NonEmpty(keys: seq<string>): (r: seq<string>)
    ensures |r| <= |keys|
  {
    if keys == [] then [] else (if keys[0] == "" then [] else [keys[0]]) + NonEmpty(keys[1..])
  }

  lemma EscapeIsRead(style: Style, c: char, more: string)
    ensures
      var e := style.Escape(c);
      && |e| <= 2 && (e + more)[0] != style.Separator()
      && style.Unescaped(e + more) == (if |e| == 2 then [c] else "")
      && (|e| == 1 ==> (e + more)[0] == c)
  {
  }

  lemma TakeOne(style: Style, c: char, more: string)
    ensures
      TakeKey(style, style.Escape(c) + more) ==
        ([c] + TakeKey(style, more).0, TakeKey(style, more).1)
  {
    EscapeIsRead(style, c, more);
    var e := style.Escape(c);
    if |e| == 1 {
      TakeUnfolds(style, e + more, more, 1);
    } else {
      TakeUnfolds(style, e + more, more, 2);
    }
  }

  lemma TakeUnfolds(style: Style, s: string, more: string, step: nat)
    requires 1 <= step <= |s| && s[0] != style.Separator() && s[step..] == more
    requires step == if style.Unescaped(s) == "" then 1 else 2
    ensures
      TakeKey(style, s) ==
        ((if step == 1 then [s[0]] else style.Unescaped(s)) + TakeKey(style, more).0, TakeKey(style, more).1)
  {
    hide Style.Unescaped, Style.Separator;
  }

  lemma TakeNothing(style: Style, rest: string)
    requires rest == "" || rest[0] == style.Separator()
    ensures TakeKey(style, rest) == ("", rest)
  {
  }

  lemma EscapedUnfolds(style: Style, key: string)
    requires key != ""
    ensures Escaped(style, key) == style.Escape(key[0]) + Escaped(style, key[1..])
  {
    hide Style.Escape;
  }

  lemma {:induction false} TakeEscaped(style: Style, key: string, rest: string)
    requires rest == "" || rest[0] == style.Separator()
    ensures TakeKey(style, Escaped(style, key) + rest) == (key, rest)
  {
    if key == "" {
      assert Escaped(style, key) + rest == rest;
      TakeNothing(style, rest);
    } else {
      hide *;
      var more := Escaped(style, key[1..]) + rest;
      EscapedUnfolds(style, key);
      HeadAndTail(key);
      assert Escaped(style, key) + rest == style.Escape(key[0]) + more;
      TakeOne(style, key[0], more);
      TakeEscaped(style, key[1..], rest);
    }
  }

  lemma EscapedStart(style: Style, key: string, tail: string)
    requires key != ""
    ensures
      var s := Escaped(style, key) + tail;
      s != "" && s[0] != style.Separator()
  {
  }

  /** Splitting what starts with an escaped key, unless nothing is there at all. */
  lemma SplitOne(style: Style, key: string, keys: seq<string>)
    ensures
      var s := Escaped(style, key) + Joined(style, keys);
      s != "" ==> AllKeys(style, s) == [key] + AllKeys(style, SkipSeparators(style, Joined(style, keys)))
  {
    hide TakeKey, SkipSeparators, Escaped, Joined, Style.Separator;
    TakeEscaped(style, key, Joined(style, keys));
  }

  lemma SkipOne(style: Style, keys: seq<string>)
    ensures
      SkipSeparators(style, Joined(style, keys)) == if keys == [] then "" else SkipSeparators(style, Join(style, keys))
  {
    hide Join, Style.Separator;
    if keys != [] {
      assert Joined(style, keys)[1..] == Join(style, keys);
    }
  }

  lemma SkipNone(style: Style, key: string, tail: string)
    requires key != ""
    ensures SkipSeparators(style, Escaped(style, key) + tail) == Escaped(style, key) + tail
  {
    EscapedStart(style, key, tail);
  }

  /** Separators in a row count as one. */
  lemma {:induction false} SkipThenJoin(style: Style, keys: seq<string>)
    ensures AllKeys(style, SkipSeparators(style, Joined(style, keys))) == NonEmpty(keys)
    decreases |keys|
  {
    SkipOne(style, keys);
    if keys != [] {
      hide TakeKey, SkipSeparators, AllKeys, Joined, Style.Separator;
      var tail := Joined(style, keys[1..]);
      assert Join(style, keys) == Escaped(style, keys[0]) + tail;
      SkipThenJoin(style, keys[1..]);
      if keys[0] == "" {
        assert Escaped(style, keys[0]) + tail == tail;
      } else {
        SkipNone(style, keys[0], tail);
        EscapedStart(style, keys[0], tail);
        SplitOne(style, keys[0], keys[1..]);
      }
    }
  }

  lemma JoinIsEmpty(style: Style, keys: seq<string>)
    requires keys != []
    ensures Join(style, keys) == "" <==> keys == [""]
  {
    if keys[0] != "" {
      EscapedStart(style, keys[0], Joined(style, keys[1..]));
    }
  }

  /** What splitting makes of a joined list: the first key is kept even when empty, later empty keys are lost. */
  lemma SplitOfJoin(style: Style, keys: seq<string>)
    requires keys != []
    ensures AllKeys(style, Join(style, keys)) == if keys == [""] then [] else [keys[0]] + NonEmpty(keys[1..])
  {
    JoinIsEmpty(style, keys);
    SkipThenJoin(style, keys[1..]);
    SplitOne(style, keys[0], keys[1..]);
    NothingToSplit(style);
    hide AllKeys, SkipSeparators, Joined, Escaped, NonEmpty;
    assert Join(style, keys) == Escaped(style, keys[0]) + Joined(style, keys[1..]);
  }

  lemma {:induction false} NonEmptyKeepsAll(keys: seq<string>)
    ensures NonEmpty(keys) == keys <==> "" !in keys
    ensures |NonEmpty(keys)| == |keys| ==> "" !in keys
  {
    if keys != [] {
      NonEmptyKeepsAll(keys[1..]);
      assert keys == [keys[0]] + keys[1..];
    }
  }

  /** Splitting undoes joining exactly when no key but the first is empty and the list is not one empty key. */
  lemma SplitUndoesJoin(style: Style, keys: seq<string>)
    ensures AllKeys(style, Join(style, keys)) == keys <==> keys == [] || (keys != [""] && "" !in keys[1..])
  {
    hide AllKeys, NonEmpty;
    if keys == [] {
      assert Join(style, keys) == "";
      NothingToSplit(style);
    } else {
      hide Join;
      SplitOfJoin(style, keys);
      NonEmptyKeepsAll(keys[1..]);
      SameTail(keys[0], NonEmpty(keys[1..]), keys);
    }
  }

  /** The keys "a" and "" come back as "a" alone. */
  lemma EmptyKeyIsLost(style: Style)
    ensures AllKeys(style, Join(style, ["a", ""])) == ["a"]
  {
    hide AllKeys, Join;
    SplitOfJoin(style, ["a", ""]);
    assert ["a", ""][1..] == [""] && [""][1..] == [];
    assert NonEmpty([""]) == [];
    assert ["a"] + [] == ["a"];
  }

  lemma NothingToSplit(style: Style)
    ensures AllKeys(style, "") == []
  {
  }

  lemma SameTail<T>(head: T, tail: seq<T>, s: seq<T>)
    requires s != [] && s[0] == head
    ensures [head] + tail == s <==> tail == s[1..]
  {
    assert s == [head] + s[1..];
    if [head] + tail == s {
      assert s[1..] == ([head] + tail)[1..] == tail;
    }
  }

  // ----- the same in place -----

  /** The characters up to the terminating zero. */
  ghost function CString(t: seq<char>): (s: string)
    requires '\0' in t
    ensures |s| < |t| && t[|s|] == '\0' && '\0' !in s
  {
    if t[0] == '\0' then "" else [t[0]] + CString(t[1..])
  }

  lemma {:induction false} CStringIs(t: seq<char>, s: string)
    requires |s| < |t| && t[..|s|] == s && t[|s|] == '\0' && '\0' !in s
    ensures CString(t) == s
  {
    if s != "" {
      assert t[0] == s[0];
      assert t[1..][..|s| - 1] == s[1..];
      assert s == [s[0]] + s[1..];
      CStringIs(t[1..], s[1..]);
    }
  }

  lemma {:induction false} CStringPrefix(t: seq<char>)
    requires '\0' in t
    ensures t[..|CString(t)|] == CString(t)
  {
    if t[0] != '\0' {
      CStringPrefix(t[1..]);
      var s := CString(t[1..]);
      assert t[..|s| + 1] == [t[0]] + t[1..][..|s|];
    }
  }

  lemma {:induction false} CStringFrom(t: seq<char>, i: nat)
    requires '\0' in t && i <= |CString(t)|
    ensures '\0' in t[i..] && CString(t[i..]) == CString(t)[i..]
  {
    CStringPrefix(t);
    var s := CString(t);
    assert t[i..][|s| - i] == '\0';
    assert t[i..][..|s| - i] == s[i..];
    CStringIs(t[i..], s[i..]);
  }

  /** One character of the key: what it stands for, and how many characters it takes. */
  method ReadChar(style: Style, b: array<char>, iter: nat, ghost name: string) returns (c: char, step: nat)
    requires iter + |name| < b.Length && b[iter..iter + |name|] == name && b[iter + |name|] == '\0'
    requires name != "" && name[0] != style.Separator() && '\0' !in name
    ensures 1 <= step <= |name| && c != '\0'
    ensures step == if style.Unescaped(name) == "" then 1 else 2
    ensures [c] == if step == 1 then [name[0]] else style.Unescaped(name)
  {
    c, step := b[iter], 1;
    assert c == name[0];
    assert |name| > 1 ==> b[iter + 1] == name[1];
    if style.Pointer? {
      if c == '~' {
        if b[iter + 1] == '1' {
          c, step := '/', 2;
        } else if b[iter + 1] == '0' {
          step := 2;
        }
      }
    } else if c == '\\' && (b[iter + 1] == '.' || b[iter + 1] == '\\') {
      c, step := b[iter + 1], 2;
    }
  }

  /** `done` is the key read from the first `i` characters of the name. */
  ghost predicate KeySoFar(style: Style, name: string, i: nat, done: string)
    requires i <= |name|
  {
    var (key, rest) := TakeKey(style, name[i..]);
    TakeKey(style, name) == (done + key, rest)
  }

  lemma KeyBegins(style: Style, name: string)
    ensures KeySoFar(style, name, 0, "")
  {
    assert name[0..] == name;
    assert "" + TakeKey(style, name).0 == TakeKey(style, name).0;
  }

  lemma KeyGrows(style: Style, name: string, i: nat, done: string, c: char, step: nat)
    requires i < |name| && 1 <= step <= |name| - i && name[i] != style.Separator()
    requires step == if style.Unescaped(name[i..]) == "" then 1 else 2
    requires [c] == if step == 1 then [name[i]] else style.Unescaped(name[i..])
    requires KeySoFar(style, name, i, done)
    ensures KeySoFar(style, name, i + step, done + [c])
  {
    hide Style.Unescaped, Style.Separator, TakeKey;
    assert name[i..][step..] == name[i + step..];
    TakeUnfolds(style, name[i..], name[i + step..], step);
    var key := TakeKey(style, name[i + step..]).0;
    assert done + ([c] + key) == done + [c] + key;
  }

  lemma KeyEnds(style: Style, name: string, i: nat, done: string)
    requires i <= |name| && (i < |name| ==> name[i] == style.Separator())
    requires KeySoFar(style, name, i, done)
    ensures TakeKey(style, name) == (done, name[i..])
  {
    assert done + "" == done;
  }

  /** Copies the first key down over the name, whose characters from `iter` on stay as they were. */
  method CopyKey(style: Style, b: array<char>, head: nat, ghost name: string) returns (iter: nat, write: nat)
    requires head + |name| < b.Length && b[head..head + |name|] == name && b[head + |name|] == '\0' && '\0' !in name
    modifies b
    ensures
      var (key, rest) := TakeKey(style, name);
      && head <= write <= iter == head + |name| - |rest|
      && b[head..write] == key && '\0' !in key
    ensures forall k | 0 <= k < head || iter <= k < b.Length :: b[k] == old(b[k])
    ensures b[iter] == '\0' || b[iter] == style.Separator()
  {
    hide *;
    iter, write := head, head;
    ghost var done: string := "";
    KeyBegins(style, name);
    while b[iter] != '\0' && b[iter] != style.Separator()
      invariant head <= write == head + |done| <= iter <= head + |name|
      invariant forall k | 0 <= k < head || iter <= k < b.Length :: b[k] == old(b[k])
      invariant b[head..write] == done && '\0' !in done
      invariant KeySoFar(style, name, iter - head, done)
      decreases b.Length - iter
    {
      StillThere(b[..], old(b[..]), iter, head, name);
      var c, step := ReadChar(style, b, iter, name[iter - head..]);
      KeyGrows(style, name, iter - head, done, c, step);
      b[write] := c;
      write, iter, done := write + 1, iter + step, done + [c];
    }
    StillThere(b[..], old(b[..]), iter, head, name);
    KeyEnds(style, name, iter - head, done);
  }

  lemma StillThere(b: seq<char>, was: seq<char>, iter: nat, head: nat, name: string)
    requires |b| == |was| && head <= iter <= head + |name| < |was|
    requires forall k | iter <= k < |was| :: b[k] == was[k]
    requires was[head..head + |name|] == name && was[head + |name|] == '\0' && '\0' !in name
    ensures b[iter..head + |name|] == name[iter - head..] && b[head + |name|] == '\0'
    ensures b[iter] == '\0' <==> iter == head + |name|
    ensures iter < head + |name| ==> b[iter] == name[iter - head]
    ensures '\0' !in name[iter - head..]
  {
    forall i | head <= i < head + |name|
      ensures was[i] == name[i - head]
    {
      assert was[head..head + |name|][i - head] == was[i];
    }
    SameElements(b[iter..head + |name|], name[iter - head..]);
  }

  /** The first `k` characters are separators that are skipped. */
  ghost predicate Skipping(style: Style, rest: string, k: nat) {
    k <= |rest| && SkipSeparators(style, rest[k..]) == SkipSeparators(style, rest)
  }

  lemma SkippingBegins(style: Style, rest: string)
    ensures Skipping(style, rest, 0)
  {
    assert rest[0..] == rest;
  }

  lemma SkippingGoesOn(style: Style, rest: string, k: nat)
    requires Skipping(style, rest, k) && '\0' !in rest
    ensures
      var c := if k == |rest| then '\0' else rest[k];
      if c == style.Separator() then k < |rest| && Skipping(style, rest, k + 1)
      else k == |rest| - |SkipSeparators(style, rest)|
  {
    if k < |rest| {
      assert rest[k] in rest && rest[k..][1..] == rest[k + 1..];
    }
  }

  /** Skips the separators at `from`, the first of which may have been overwritten and is given as `car`. */
  method SkipInPlace(style: Style, b: array<char>, from: nat, car: char, ghost rest: string) returns (next: nat)
    requires from + |rest| < b.Length && '\0' !in rest
    requires car == if rest == "" then '\0' else rest[0]
    requires forall k | 0 < k < |rest| :: b[from + k] == rest[k]
    requires rest != "" ==> b[from + |rest|] == '\0'
    ensures next == from + |rest| - |SkipSeparators(style, rest)|
  {
    hide *;
    next := from;
    var c := car;
    ghost var k: nat := 0;
    SkippingBegins(style, rest);
    SkippingGoesOn(style, rest, 0);
    while c == style.Separator()
      invariant k <= |rest| && next == from + k && Skipping(style, rest, k)
      invariant c == if k == |rest| then '\0' else rest[k]
      invariant c == style.Separator() ==> k < |rest|
      invariant c != style.Separator() ==> k == |rest| - |SkipSeparators(style, rest)|
      decreases |rest| - k
    {
      SkippingGoesOn(style, rest, k);
      k := k + 1;
      next := next + 1;
      c := b[next];
      assert k < |rest| ==> b[from + k] == rest[k];
      SkippingGoesOn(style, rest, k);
    }
  }

  lemma SkippedSuffix(style: Style, name: string)
    requires name != ""
    ensures
      var (key, rest) := TakeKey(style, name);
      var n := |name| - |SkipSeparators(style, rest)|;
      0 < n <= |name| && NextKey(style, name) == (key, name[n..])
  {
    hide TakeKey, SkipSeparators, Style.Separator;
    var (key, rest) := TakeKey(style, name);
    var left := SkipSeparators(style, rest);
    SliceOfSuffix(name, |name| - |rest|, |rest| - |left|, |rest|);
    assert name[|name| - |left|..|name|] == left;
    assert NextKey(style, name) == (key, left);
  }

  /**
    The buffer before and after the first key of the name at `head` has been cut off: the key stands at
    `head`, the rest of the name at `next`, both zero-terminated, and nothing else has changed.
   */
  ghost predicate KeyCut(style: Style, was: seq<char>, now: seq<char>, head: nat, next: nat)
    requires head < |was| && '\0' in was[head..]
  {
    && |now| == |was| && head < next < |was|
    && now[..head] == was[..head] && now[next..] == was[next..]
    && '\0' in now[next..] && '\0' in now[head..]
    && (CString(now[head..]), CString(now[next..])) == NextKey(style, CString(was[head..]))
    && head + |CString(now[head..])| <= next
  }

  lemma KeyIsCut(style: Style, was: seq<char>, now: seq<char>, head: nat, write: nat, next: nat)
    requires |now| == |was| && head < |was| && '\0' in was[head..] && CString(was[head..]) != ""
    requires
      var name := CString(was[head..]);
      var (key, rest) := TakeKey(style, name);
      var iter := head + |name| - |rest|;
      && head <= write <= iter < |was| && '\0' !in key
      && now[head..write] == key && now[write] == '\0'
      && (forall k | 0 <= k < head || iter <= k < |was| :: k != write ==> now[k] == was[k])
      && next == iter + |rest| - |SkipSeparators(style, rest)|
      && (next == iter ==> was[next] == '\0')
    ensures KeyCut(style, was, now, head, next)
  {
    hide TakeKey, SkipSeparators, Style.Separator, CString, NextKey;
    var name := CString(was[head..]);
    var key := TakeKey(style, name).0;
    SkippedSuffix(style, name);
    WordAt(now, head, write, key);
    BothEnds(was, now, head, write, next);
    CStringBehind(was, head, next);
  }

  lemma BothEnds(was: seq<char>, now: seq<char>, head: nat, write: nat, next: nat)
    requires |now| == |was| && head <= write <= next < |was|
    requires forall k | 0 <= k < head || next <= k < |was| :: k != write ==> now[k] == was[k]
    requires next == write ==> was[next] == now[next]
    ensures now[..head] == was[..head] && now[next..] == was[next..]
  {
    SameElements(now[..head], was[..head]);
    SameElements(now[next..], was[next..]);
  }

  lemma CStringBehind(was: seq<char>, head: nat, next: nat)
    requires head <= next < |was| && '\0' in was[head..] && next - head <= |CString(was[head..])|
    ensures '\0' in was[next..] && CString(was[next..]) == CString(was[head..])[next - head..]
  {
    hide CString;
    CStringFrom(was[head..], next - head);
    SameElements(was[head..][next - head..], was[next..]);
  }

  lemma WordAt(now: seq<char>, head: nat, write: nat, key: string)
    requires head <= write < |now| && now[head..write] == key && now[write] == '\0' && '\0' !in key
    ensures '\0' in now[head..] && CString(now[head..]) == key
  {
    hide CString;
    assert now[head..][write - head] == '\0';
    SliceOfSuffix(now, head, 0, |key|);
    CStringIs(now[head..], key);
  }

  /** Copies the first key down and terminates it; `car` is the character that stood behind it. */
  method TakeInPlace(style: Style, b: array<char>, head: nat, ghost name: string, ghost was: seq<char>)
    returns (iter: nat, write: nat, car: char)
    requires was == b[..] && head < |was| && '\0' in was[head..] && name == CString(was[head..])
    modifies b
    ensures
      var (key, rest) := TakeKey(style, name);
      && head <= write <= iter == head + |name| - |rest| && iter < b.Length
      && b[..][head..write] == key && '\0' !in key
      && car == (if rest == "" then '\0' else rest[0])
      && (rest != "" ==> car == style.Separator())
    ensures b[write] == '\0' && car == was[iter]
    ensures forall k | 0 <= k < head || iter <= k < b.Length :: k != write ==> b[k] == was[k]
  {
    hide *;
    NameAt(was, head);
    iter, write := CopyKey(style, b, head, name);
    RestAt(style, was, head);
    car := b[iter];
    b[write] := '\0';
    assert b[head..write] == b[..][head..write];
  }

  /**
    Cuts the first key off the zero-terminated name at `head`. The key is written, unescaped and
    terminated, over the name itself; `next` is where the rest of the name stands. Nothing is found
    at the end of the name.
   */
  method GetKey(style: Style, b: array<char>, head: nat) returns (found: bool, next: nat)
    requires head < b.Length && '\0' in b[head..]
    modifies b
    ensures found <==> old(b[head]) != '\0'
    ensures !found ==> next == head && b[..] == old(b[..])
    ensures found ==> KeyCut(style, old(b[..]), b[..], head, next)
  {
    hide *;
    ghost var was, name := b[..], CString(b[head..]);
    CStringStart(b[head..]);
    if b[head] == '\0' {
      return false, head;
    }
    var iter, write, car := TakeInPlace(style, b, head, name, was);
    ghost var rest := TakeKey(style, name).1;
    RestAt(style, was, head);
    next := SkipInPlace(style, b, iter, car, rest);
    found := true;
    RestIsSkipped(style, rest);
    KeyIsCut(style, was, b[..], head, write, next);
  }

  lemma NameAt(was: seq<char>, head: nat)
    requires head < |was| && '\0' in was[head..]
    ensures
      var name := CString(was[head..]);
      && head + |name| < |was| && was[head..head + |name|] == name && was[head + |name|] == '\0'
  {
    hide CString;
    var t := was[head..];
    var name := CString(t);
    CStringPrefix(t);
    SliceOfSuffix(was, head, 0, |name|);
  }

  /** The rest of the name stands where the key ends. */
  lemma RestAt(style: Style, was: seq<char>, head: nat)
    requires head < |was| && '\0' in was[head..]
    ensures
      var name := CString(was[head..]);
      var (key, rest) := TakeKey(style, name);
      var iter := head + |name| - |rest|;
      && iter + |rest| < |was| && was[iter + |rest|] == '\0' && '\0' !in rest
      && forall k | 0 <= k < |rest| :: was[iter + k] == rest[k]
  {
    hide CString, TakeKey;
    NameAt(was, head);
    var name := CString(was[head..]);
    var (key, rest) := TakeKey(style, name);
    forall k | 0 <= k < |rest|
      ensures was[head + |name| - |rest| + k] == rest[k]
    {
      assert was[head..head + |name|][|name| - |rest| + k] == rest[k];
    }
  }

  lemma RestIsSkipped(style: Style, rest: string)
    requires rest == "" || rest[0] == style.Separator()
    ensures |SkipSeparators(style, rest)| == |rest| ==> rest == ""
  {
  }

  lemma CStringStart(t: seq<char>)
    requires '\0' in t
    ensures CString(t) == "" <==> t[0] == '\0'
  {
  }

  /** Word `w` stands, zero-terminated, at `start`, its zero not behind `limit`. */
  ghost predicate WordStands(b: seq<char>, start: nat, w: string, limit: nat) {
    && start + |w| <= limit < |b|
    && '\0' in b[start..] && CString(b[start..]) == w
  }

  /** A word that ends in front of a name is not touched when a key of that name is cut off. */
  lemma WordSurvives(was: seq<char>, now: seq<char>, start: nat, w: string, head: nat, next: nat)
    requires WordStands(was, start, w, head) && was[head] != '\0'
    requires |now| == |was| && head <= next < |was| && now[..head] == was[..head]
    ensures WordStands(now, start, w, next)
  {
    hide CString;
    NameAt(was, start);
    assert start + |w| < head;
    forall k | 0 <= k < head
      ensures now[k] == was[k]
    {
      assert now[..head][k] == was[..head][k];
    }
    SameElements(now[start..start + |w|], w);
    WordAt(now, start, start + |w|, w);
  }

  ghost predicate AllStand(b: seq<char>, starts: seq<nat>, words: seq<string>, limit: nat) {
    |starts| == |words| && forall i | 0 <= i < |words| :: WordStands(b, starts[i], words[i], limit)
  }

  lemma StandsWhereCut(style: Style, was: seq<char>, now: seq<char>, head: nat, next: nat)
    requires head < |was| && '\0' in was[head..] && KeyCut(style, was, now, head, next)
    ensures WordStands(now, head, CString(now[head..]), next)
  {
    hide CString, NextKey;
  }

  lemma AllSurvive(style: Style, was: seq<char>, now: seq<char>, starts: seq<nat>, words: seq<string>, head: nat,
      next: nat)
    requires AllStand(was, starts, words, head) && head < |was| && was[head] != '\0'
    requires '\0' in was[head..] && KeyCut(style, was, now, head, next)
    ensures AllStand(now, starts + [head], words + [CString(now[head..])], next)
  {
    hide CString, NextKey, WordStands;
    forall i | 0 <= i < |words|
      ensures WordStands(now, starts[i], words[i], next)
    {
      WordSurvives(was, now, starts[i], words[i], head, next);
    }
    StandsWhereCut(style, was, now, head, next);
  }

  lemma AllKeysUnfolds(style: Style, s: string, done: seq<string>)
    requires s != ""
    ensures done + AllKeys(style, s) == done + [NextKey(style, s).0] + AllKeys(style, NextKey(style, s).1)
  {
    hide NextKey;
  }

  /** Keys are cut off until there is none left: they stand, in order, where the name stood. */
  method SplitName(style: Style, b: array<char>) returns (starts: seq<nat>)
    requires '\0' in b[..]
    modifies b
    ensures exists limit :: AllStand(b[..], starts, AllKeys(style, old(CString(b[..]))), limit)
  {
    hide *;
    ghost var name := CString(b[..]);
    ghost var done: seq<string> := [];
    starts := [];
    var head := 0;
    Beginning(style, b[..]);
    var found := true;
    while found
      invariant head < b.Length && '\0' in b[head..]
      invariant !found ==> b[head] == '\0'
      invariant AllStand(b[..], starts, done, head)
      invariant done + AllKeys(style, CString(b[head..])) == AllKeys(style, name)
      decreases b.Length - head, found
    {
      ghost var was := b[..];
      var next;
      found, next := GetKey(style, b, head);
      if found {
        CStringStart(was[head..]);
        CutFacts(style, was, b[..], head, next);
        AllKeysUnfolds(style, CString(was[head..]), done);
        AllSurvive(style, was, b[..], starts, done, head, next);
        starts, done := starts + [head], done + [CString(b[head..])];
        head := next;
      }
    }
    CStringStart(b[head..]);
    NothingToSplit(style);
    assert done + [] == done;
  }

  lemma Beginning(style: Style, b: seq<char>)
    requires '\0' in b
    ensures b != [] && b[0..] == b && AllStand(b, [], [], 0)
    ensures [] + AllKeys(style, CString(b)) == AllKeys(style, CString(b))
  {
  }

  lemma CutFacts(style: Style, was: seq<char>, now: seq<char>, head: nat, next: nat)
    requires head < |was| && '\0' in was[head..] && KeyCut(style, was, now, head, next)
    ensures |now| == |was| && head < next < |now| && '\0' in now[next..] && '\0' in now[head..]
    ensures (CString(now[head..]), CString(now[next..])) == NextKey(style, CString(was[head..]))
  {
    hide CString, NextKey;
  }

  // ----- examples (RFC 6901, section 5) -----

  lemma EscapedExamples()
    ensures Escaped(Pointer, "a/b") == "a~1b" && Escaped(Pointer, "m~n") == "m~0n"
    ensures Escaped(Dotted, "a.b") == "a\\.b" && Escaped(Dotted, "a\\b") == "a\\\\b"
    ensures Join(Dotted, ["a", "b"]) == "a.b" && Join(Pointer, ["a", "b"]) == "a/b"
  {
    var one, two, three, four := "a/b", "m~n", "a.b", "a\\b";
    assert one[1..] == "/b" && two[1..] == "~n" && three[1..] == ".b" && four[1..] == "\\b";
    assert "/b"[1..] == "b" && "~n"[1..] == "n" && ".b"[1..] == "b" && "\\b"[1..] == "b";
    assert "b"[1..] == "" && "n"[1..] == "" && "a"[1..] == "";
    assert ["a", "b"][1..] == ["b"] && ["b"][1..] == [];
    forall style: Style
      ensures Escaped(style, "a") == "a" && Escaped(style, "b") == "b" && Escaped(style, "n") == "n"
    {
      assert Escaped(style, "") == "";
    }
  }
}
