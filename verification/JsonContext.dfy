/**
  The context in which tags are looked up: a stack of JSON values, one for every section that has been
  entered, the innermost on top.
 */
module JsonContext {
  import opened Keys
  import opened Wrappers

  const MAX_DEPTH: nat := 256

  const ERROR_TOO_DEEP: int := -6
  const ERROR_CLOSING: int := -7
  const ERROR_UNDEFINED_TAG: int := -12

  datatype Json =
    | Null
    | Boolean(b: bool)
    | Integer(n: int)
    | Double(d: real)
    | Text(s: string)
    | Array(items: seq<Json>)
    | Object(members: seq<(string, Json)>)

  /** The member of that name, if the value is an object that has it. */
  function Lookup(o: Json, name: string): Option<Json> {
    if o.Object? then FindMember(o.members, name) else None
  }

  function FindMember(members: seq<(string, Json)>, name: string): Option<Json> {
    if members == [] then None
    else if members[0].0 == name then Some(members[0].1)
    else FindMember(members[1..], name)
  }

  /** json_object_get_boolean: arrays and objects count as false, but are never asked. */
  predicate Truthy(o: Json) {
    match o
    case Boolean(b) => b
    case Integer(n) => n != 0
    case Double(d) => d != 0.0
    case Text(s) => s != ""
    case _ => false
  }

  function ItemAt(o: Json, i: nat): Json {
    if o.Array? && i < |o.items| then o.items[i] else Null
  }

  /** One entered section: the array it runs over, if it does, the active item, its position and how many there are. */
  datatype Frame = Frame(cont: Json, obj: Json, index: nat, count: nat)

  type Context = seq<Frame>

  /** How many items of the innermost section are still to come. */
  function Remaining(c: Context): nat {
    if c == [] then 0
    else
      var f := c[|c| - 1];
      if f.index < f.count then f.count - f.index else 0
  }

  function RootContext(root: Json): Context {
    [Frame(Null, root, 0, 1)]
  }

  // ----- selection -----

  /** The name as a C string sees it. */
  function UpToZero(s: string): string {
    if s == "" || s[0] == '\0' then "" else [s[0]] + UpToZero(s[1..])
  }

  /** The innermost section whose item has the member. */
  function FindUp(c: Context, key: string): Option<Json> {
    if c == [] then None
    else
      match Lookup(c[|c| - 1].obj, key)
      case Some(v) => Some(v)
      case None => FindUp(c[..|c| - 1], key)
  }

  function Descend(o: Json, path: string): Option<Json>
    decreases |path|
  {
    if path == "" then Some(o)
    else
      var (key, rest) := NextKey(Dotted, path);
      match Lookup(o, key)
      case Some(v) => Descend(v, rest)
      case None => None
  }

  /** A lone dot is the active item; otherwise the first key is looked up outwards and the others inside it. */
  function Select(c: Context, name: string): Option<Json> {
    var path := UpToZero(name);
    if c == [] || path == "" then None
    else if path == "." then Some(c[|c| - 1].obj)
    else
      var (key, rest) := NextKey(Dotted, path);
      match FindUp(c, key)
      case Some(v) => Descend(v, rest)
      case None => None
  }

  // ----- sections -----

  datatype Entering = TooDeep | Refused | Entered(context: Context)

  /** Entering a value: arrays are run over, objects and other true values are visited once. */
  function EnterValue(c: Context, o: Json): Entering {
    if |c| >= MAX_DEPTH then TooDeep
    else if o.Array? then
      if o.items == [] then Refused else Entered(c + [Frame(o, o.items[0], 0, |o.items|)])
    else if o.Object? || Truthy(o) then Entered(c + [Frame(Null, o, 0, 1)])
    else Refused
  }

  function EnterName(c: Context, name: string): Entering {
    match Select(c, name)
    case None => Refused
    case Some(o) => EnterValue(c, o)
  }

  /** The context with the next item of the innermost section active. */
  function Advance(c: Context): Option<Context> {
    if c == [] then None
    else
      var f := c[|c| - 1];
      if f.index + 1 >= f.count then None
      else Some(c[..|c| - 1] + [f.(index := f.index + 1, obj := ItemAt(f.cont, f.index + 1))])
  }

  lemma AdvanceConsumes(c: Context)
    ensures Advance(c).Some? ==> |Advance(c).value| == |c| && Remaining(Advance(c).value) < Remaining(c)
  {
  }

  /** The items over which a value that can be entered is run. */
  function ItemsOf(o: Json): seq<Json> {
    if o.Array? then o.items
    else if o.Object? || Truthy(o) then [o]
    else []
  }

  /** A section is shown unless its value is one of six; at the greatest depth it is an error. */
  lemma SectionsShown(c: Context, o: Json)
    ensures EnterValue(c, o).TooDeep? <==> |c| >= 256
    ensures
      |c| < 256 ==>
        (EnterValue(c, o).Refused? <==>
           o in {Null, Boolean(false), Integer(0), Double(0.0), Text(""), Array([])})
    ensures EnterValue(c, o).Entered? ==> |EnterValue(c, o).context| == |c| + 1
  {
  }

  /** A member is found by its name: the first one of that name, if there is one. */
  lemma {:induction false} MemberIsFound(members: seq<(string, Json)>, name: string)
    ensures FindMember(members, name).None? <==> forall i | 0 <= i < |members| :: members[i].0 != name
    ensures
      FindMember(members, name).Some? ==>
        exists i | 0 <= i < |members| ::
          members[i] == (name, FindMember(members, name).value) && forall j | 0 <= j < i :: members[j].0 != name
    decreases |members|
  {
    if members != [] {
      var rest := members[1..];
      MemberIsFound(rest, name);
      assert forall i | 0 < i < |members| :: members[i] == rest[i - 1];
      if members[0].0 == name {
        assert members[0] == (name, members[0].1);
      } else if FindMember(members, name).Some? {
        var i :| 0 <= i < |rest| && rest[i] == (name, FindMember(rest, name).value) &&
          forall j | 0 <= j < i :: rest[j].0 != name;
        assert members[i + 1] == (name, FindMember(members, name).value);
      }
    }
  }

  /** A C string ends at its first zero. */
  lemma {:induction false} UpToZeroIs(s: string, more: string)
    requires forall i | 0 <= i < |s| :: s[i] as int != 0
    ensures UpToZero(s) == s && UpToZero(s + [0 as char] + more) == s
  {
    var all := s + [0 as char] + more;
    if s != "" {
      UpToZeroIs(s[1..], more);
      assert all[1..] == s[1..] + [0 as char] + more;
    }
  }

  // ----- the context as the callbacks keep it -----

  class Explorer {
    const root: Json
    const stack: array<Frame>
    var depth: nat
    var selection: Json

    ghost predicate Valid()
      reads this
    {
      stack.Length == MAX_DEPTH && depth < MAX_DEPTH
    }

    ghost function View(): (c: Context)
      requires Valid()
      reads this, stack
      ensures |c| == depth + 1
    {
      stack[..depth + 1]
    }

    constructor (root: Json)
      ensures this.root == root && Valid() && fresh(stack)
      ensures View() == RootContext(root)
    {
      var start := Frame(Null, root, 0, 1);
      this.root := root;
      stack := new Frame[MAX_DEPTH](_ => start);
      depth, selection := 0, Null;
    }

    /** Selects the active item. */
    method SelCurrent()
      requires Valid()
      modifies `selection
      ensures Valid() && View() == old(View())
      ensures selection == View()[depth].obj
    {
      selection := stack[depth].obj;
    }

    /** Looks outwards for a member of that name. */
    method Sel(name: string) returns (found: bool)
      requires Valid()
      modifies `selection
      ensures Valid() && View() == old(View())
      ensures
        match FindUp(View(), name)
        case None => !found && selection == Null
        case Some(v) => found && selection == v
    {
      var i := depth + 1;
      assert View()[..i] == View();
      while i > 0 && Lookup(stack[i - 1].obj, name).None?
        invariant 0 <= i <= depth + 1
        invariant FindUp(View()[..i], name) == FindUp(View(), name)
      {
        assert View()[..i][..i - 1] == View()[..i - 1];
        i := i - 1;
      }
      if i > 0 {
        found, selection := true, Lookup(stack[i - 1].obj, name).value;
      } else {
        found, selection := false, Null;
      }
    }

    /** Looks for a member of what is selected. */
    method SubSel(name: string) returns (found: bool)
      requires Valid()
      modifies `selection
      ensures Valid() && View() == old(View())
      ensures
        match Lookup(old(selection), name)
        case None => !found && selection == old(selection)
        case Some(v) => found && selection == v
    {
      match Lookup(selection, name) {
        case None => found := false;
        case Some(v) => found, selection := true, v;
      }
    }

    /** Selects what a name stands for: the wrapper's walk over its keys. */
    method SelectName(name: string) returns (found: bool)
      requires Valid()
      modifies `selection
      ensures Valid() && View() == old(View())
      ensures found == Select(View(), name).Some? && (found ==> selection == Select(View(), name).value)
    {
      hide NextKey, FindUp, Lookup, UpToZero;
      var path := UpToZero(name);
      if path == "." {
        SelCurrent();
        return true;
      }
      if path == "" {
        return false;
      }
      var (key, rest) := NextKey(Dotted, path);
      found := Sel(key);
      ghost var goal := if found then Descend(selection, rest) else None;
      while found && rest != ""
        invariant Valid() && View() == old(View())
        invariant goal == if found then Descend(selection, rest) else None
        decreases |rest|
      {
        var (k, r) := NextKey(Dotted, rest);
        found := SubSel(k);
        rest := r;
      }
    }

    /** Enters the selected value: 1 when entered, 0 when not, an error when the stack is full. */
    method Enter() returns (rc: int)
      requires Valid()
      modifies `depth, stack
      ensures
        match EnterValue(old(View()), selection)
        case TooDeep => rc == ERROR_TOO_DEEP
        case Refused => rc == 0 && Valid() && View() == old(View())
        case Entered(c) => rc == 1 && Valid() && View() == c
    {
      ghost var was := View();
      depth := depth + 1;
      if depth >= MAX_DEPTH {
        return ERROR_TOO_DEEP;
      }
      var o := selection;
      if o.Array? {
        if o.items == [] {
          depth := depth - 1;
          return 0;
        }
        stack[depth] := Frame(o, ItemAt(o, 0), 0, |o.items|);
      } else if o.Object? || Truthy(o) {
        stack[depth] := Frame(Null, o, 0, 1);
      } else {
        depth := depth - 1;
        return 0;
      }
      assert stack[..depth] == was;
      return 1;
    }

    /** Activates the next item: 1 when there is one. */
    method Next() returns (rc: int)
      requires Valid()
      modifies stack
      ensures Valid()
      ensures
        if depth == 0 then rc == ERROR_CLOSING && View() == old(View())
        else
          match Advance(old(View()))
          case None =>
            rc == 0 &&
            View() == old(View())[..depth] + [old(stack[depth]).(index := old(stack[depth]).index + 1)]
          case Some(c) => rc == 1 && View() == c
    {
      if depth == 0 {
        return ERROR_CLOSING;
      }
      ghost var was := View();
      var f := stack[depth];
      stack[depth] := f.(index := f.index + 1);
      assert stack[..depth] == was[..depth];
      if f.index + 1 >= f.count {
        return 0;
      }
      stack[depth] := stack[depth].(obj := ItemAt(f.cont, f.index + 1));
      assert stack[..depth] == was[..depth];
      return 1;
    }

    method Leave() returns (rc: int)
      requires Valid()
      modifies `depth
      ensures Valid()
      ensures
        if old(depth) == 0 then rc == ERROR_CLOSING && View() == old(View())
        else rc == 0 && View() == old(View())[..old(depth)]
    {
      if depth == 0 {
        return ERROR_CLOSING;
      }
      depth := depth - 1;
      return 0;
    }
  }
}
