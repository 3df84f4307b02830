/** The `LuaEngine` facade over an embedded Lua interpreter, with the
    interpreter itself replaced by an abstract state: a flag for whether the
    handle `L` is live, the global table, the value stack and the resolution
    counter `currentLevel`. The Lua C API calls the facade makes become small
    methods on that state. */
module LuaEngine {
  import opened StringExplode

  /** The host `int` handed to `registerVariable`. */
  newtype Int32 = x: int | -0x8000_0000 <= x < 0x8000_0000

  /** A Lua value as far as the facade can tell values apart. `Num` stands for
      every floating-point number, whose value is not modelled. Functions and
      userdata (such as the `print` and `pairs` that `luaL_openlibs` installs)
      have no case of their own: any non-nil value that is neither a table nor
      a string, `Bool(true)` say, stands in for them, since the facade only
      asks whether a value is nil, a string or a table. */
  datatype Value =
    | Nil
    | Str(s: string)
    | Int(i: int)
    | Bool(b: bool)
    | Num
    | Table(fields: map<string, Value>)

  /** What Lua receives from `s.c_str()` (or a `const char*`): the string up
      to, not including, its first NUL character. */
  function CString(s: string): (r: string)
    ensures |r| <= |s| && r == s[..|r|]
    ensures '\0' !in r
    ensures |r| < |s| ==> s[|r|] == '\0'
    ensures '\0' !in s ==> r == s
  {
    s[..IndexOf(s, '\0')]
  }

  /** `lua_getfield` on a value (and `lua_getglobal`, a field of the global
      table): a key bound in a table reads its value; a missing key reads as
      nil, and so does any key of a value that is not a table (where Lua
      would consult a metatable or raise an error). */
  function Field(v: Value, key: string): (r: Value)
    ensures v.Table? && key in v.fields ==> r == v.fields[key]
    ensures !(v.Table? && key in v.fields) ==> r == Nil
  {
    match v
    case Table(m) => if key in m then m[key] else Nil
    case _ => Nil
  }

  /** The values a dotted-path walk pushes, starting from `cur`: one per
      segment attempted, stopping after the first nil. Each segment reaches
      Lua as a C string. */
  function Walk(cur: Value, segments: seq<string>): seq<Value>
    decreases |segments|
  {
    if segments == [] then []
    else
      var v := Field(cur, CString(segments[0]));
      [v] + (if v.Nil? then [] else Walk(v, segments[1..]))
  }

  /** The value a path denotes, following every segment (nil absorbs). */
  function Follow(cur: Value, segments: seq<string>): Value
    decreases |segments|
  {
    if segments == [] then cur else Follow(Field(cur, CString(segments[0])), segments[1..])
  }

  /** Number of segments resolved by a walk: all pushed values but a final nil. */
  function Resolved(pushed: seq<Value>): nat
  {
    if pushed != [] && pushed[|pushed| - 1].Nil? then |pushed| - 1 else |pushed|
  }

  /** A walk pushes one value per segment attempted, at least one when there
      is a segment, a nil only as its last value, and stops early only at a nil. */
  lemma {:induction false} WalkShape(cur: Value, segments: seq<string>)
    ensures |Walk(cur, segments)| <= |segments|
    ensures segments != [] ==> Walk(cur, segments) != []
    ensures forall k :: 0 <= k < |Walk(cur, segments)| - 1 ==> !Walk(cur, segments)[k].Nil?
    ensures |Walk(cur, segments)| < |segments| ==> Walk(cur, segments)[|Walk(cur, segments)| - 1].Nil?
    decreases |segments|
  {
    if segments != [] {
      var v := Field(cur, CString(segments[0]));
      if !v.Nil? {
        WalkShape(v, segments[1..]);
        assert Walk(cur, segments) == [v] + Walk(v, segments[1..]);
      }
    }
  }

  /** Segment 0 is looked up in the starting value; every later segment as a
      field of the value pushed for the segment before it. */
  lemma {:induction false} WalkLinks(cur: Value, segments: seq<string>)
    ensures |Walk(cur, segments)| <= |segments|
    ensures forall k :: 0 <= k < |Walk(cur, segments)| ==>
      Walk(cur, segments)[k] == Field(if k == 0 then cur else Walk(cur, segments)[k - 1], CString(segments[k]))
    decreases |segments|
  {
    WalkShape(cur, segments);
    if segments != [] {
      var v := Field(cur, CString(segments[0]));
      if !v.Nil? {
        WalkLinks(v, segments[1..]);
        var w := Walk(cur, segments);
        var tail := Walk(v, segments[1..]);
        assert w == [v] + tail;
        forall k | 1 <= k < |w|
          ensures w[k] == Field(w[k - 1], CString(segments[k]))
        {
          assert w[k] == tail[k - 1];
          assert segments[k] == segments[1..][k - 1];
          if k > 1 {
            assert w[k - 1] == tail[k - 2];
          }
        }
      }
    }
  }

  /** Segments after the first nil are never looked up: replacing them changes
      nothing. */
  lemma {:induction false} WalkStopsAtNil(cur: Value, segments: seq<string>, more: seq<string>)
    requires |Walk(cur, segments)| < |segments|
    ensures Walk(cur, segments[..|Walk(cur, segments)|] + more) == Walk(cur, segments)
    decreases |segments|
  {
    var v := Field(cur, CString(segments[0]));
    var w := Walk(cur, segments);
    var n := |w|;
    var other := segments[..n] + more;
    assert other[0] == segments[0];
    if v.Nil? {
      assert w == [v];
      assert Walk(cur, other) == [v];
    } else {
      var rest := Walk(v, segments[1..]);
      assert w == [v] + rest;
      WalkStopsAtNil(v, segments[1..], more);
      assert other[1..] == segments[1..][..n - 1] + more;
      assert Walk(cur, other) == [v] + Walk(v, other[1..]);
    }
  }

  lemma {:induction false} FollowNil(segments: seq<string>)
    ensures Follow(Nil, segments) == Nil
    decreases |segments|
  {
    if segments != [] {
      FollowNil(segments[1..]);
    }
  }

  /** One step of a walk at segment `i`: the values pushed so far, followed
      by the walk still to come from `cur`, make up the whole walk. */
  lemma WalkStep(all: seq<Value>, pushed: seq<Value>, cur: Value, segments: seq<string>, i: nat)
    requires i < |segments|
    requires pushed + Walk(cur, segments[i..]) == all
    ensures var v := Field(cur, CString(segments[i]));
      if v.Nil? then pushed + [v] == all else (pushed + [v]) + Walk(v, segments[i + 1..]) == all
  {
  }

  /** A walk with no segment left adds nothing. */
  lemma WalkDone(all: seq<Value>, pushed: seq<Value>, cur: Value, segments: seq<string>)
    requires pushed + Walk(cur, segments[|segments|..]) == all
    ensures pushed == all
  {
  }

  /** The last value a walk pushes is the value the whole path denotes. */
  lemma {:induction false} WalkFollow(cur: Value, segments: seq<string>)
    requires segments != []
    ensures Walk(cur, segments) != []
    ensures Walk(cur, segments)[|Walk(cur, segments)| - 1] == Follow(cur, segments)
    decreases |segments|
  {
    var v := Field(cur, CString(segments[0]));
    if v.Nil? {
      FollowNil(segments[1..]);
    } else if |segments| > 1 {
      WalkFollow(v, segments[1..]);
      assert Walk(cur, segments) == [v] + Walk(v, segments[1..]);
    }
  }

  /** The path resolves in full exactly when it denotes a non-nil value. */
  lemma ResolvedAll(cur: Value, segments: seq<string>)
    requires segments != []
    ensures Resolved(Walk(cur, segments)) == |segments| <==> !Follow(cur, segments).Nil?
  {
    WalkShape(cur, segments);
    WalkFollow(cur, segments);
  }

  /** What a dotted-path walk from `root` leaves on a stack: a top value,
      which is the value the path denotes whenever the path is not empty. */
  lemma LoadOutcome(before: seq<Value>, after: seq<Value>, root: Value, path: string, segments: seq<string>)
    requires segments == Split(path, '.')
    requires after == before + Walk(root, segments)
    requires before != [] || path != []
    ensures after != []
    ensures path != [] ==> after[|after| - 1] == Follow(root, segments)
  {
    if path != [] {
      WalkFollow(root, segments);
    }
  }

  /** A string made of NUL-free tokens has no NUL. */
  lemma {:induction false} TerminatedNoNul(tokens: seq<string>, d: char)
    requires d != '\0'
    requires forall k :: 0 <= k < |tokens| ==> '\0' !in tokens[k]
    ensures '\0' !in Terminated(tokens, d)
    decreases |tokens|
  {
    if tokens != [] {
      TerminatedNoNul(tokens[1..], d);
      assert Terminated(tokens, d) == tokens[0] + [d] + Terminated(tokens[1..], d);
    }
  }

  /** The key string `k1,k2,...,kn,` that the enumeration script builds comes
      back, through `lua_tostring` and `stringExplode`, as exactly the keys in
      order, when no key holds a comma or a NUL. */
  lemma KeysRoundTrip(keys: seq<string>)
    requires NoDelimiter(keys, ',')
    requires forall k :: 0 <= k < |keys| ==> '\0' !in keys[k]
    ensures Split(CString(Terminated(keys, ',')), ',') == keys
  {
    TerminatedNoNul(keys, ',');
    SplitTerminated(keys, ',');
  }

  /** The interpreter state owned by one `LuaEngine`. */
  class Engine {
    /** `_openLibs`, captured at construction and reused by `clearState`. */
    const openLibs: bool
    /** The globals `luaL_openlibs` installs; the library code is not modelled. */
    const libraries: map<string, Value>
    /** `L != nullptr`. */
    var initialized: bool
    var globals: map<string, Value>
    /** The Lua stack, bottom first; the top is the last element. */
    var stack: seq<Value>
    var currentLevel: nat

    /** `LuaEngine(openLibs)`. `stateOk` says whether `luaL_newstate`
        returned a state (it returns null when allocation fails). */
    constructor (openLibs: bool, libraries: map<string, Value>, stateOk: bool)
      ensures this.openLibs == openLibs && this.libraries == libraries
      ensures initialized == stateOk && stack == [] && currentLevel == 0
      ensures globals == if stateOk && openLibs then libraries else map[]
    {
      this.openLibs := openLibs;
      this.libraries := libraries;
      initialized := stateOk;
      stack := [];
      currentLevel := 0;
      globals := if stateOk && openLibs then libraries else map[];
    }

    // The Lua C API calls the facade makes, on a live state.

    /** `lua_pushstring`, `lua_pushinteger`, `lua_pushnumber`, `lua_pushboolean`. */
    method Push(v: Value)
      requires initialized
      modifies this`stack
      ensures stack == old(stack) + [v]
    {
      stack := stack + [v];
    }

    /** `lua_pop(L, n)`. */
    method Pop(n: nat)
      requires initialized && n <= |stack|
      modifies this`stack
      ensures stack == old(stack)[..|old(stack)| - n]
    {
      stack := stack[..|stack| - n];
    }

    /** `lua_setglobal`: pops the top and binds it to the C string `name`. */
    method SetGlobal(name: string)
      requires initialized && stack != []
      modifies this`stack, this`globals
      ensures stack == old(stack)[..|old(stack)| - 1]
      ensures globals == old(globals)[name := old(stack)[|old(stack)| - 1]]
    {
      globals := globals[name := stack[|stack| - 1]];
      stack := stack[..|stack| - 1];
    }

    /** `lua_getglobal`: pushes the global `name`, nil when unbound. */
    method GetGlobal(name: string)
      requires initialized
      modifies this`stack
      ensures stack == old(stack) + [Field(Table(globals), name)]
    {
      stack := stack + [Field(Table(globals), name)];
    }

    /** `lua_getfield(L, -1, name)`: pushes field `name` of the top value. */
    method GetField(name: string)
      requires initialized && stack != []
      modifies this`stack
      ensures stack == old(stack) + [Field(old(stack)[|old(stack)| - 1], name)]
    {
      stack := stack + [Field(stack[|stack| - 1], name)];
    }

    /** `lua_isnil(L, lua_gettop(L))`. */
    predicate TopIsNil(): (nil: bool)
      reads this
      requires stack != []
      ensures nil <==> stack[|stack| - 1] == Nil
    {
      stack[|stack| - 1].Nil?
    }

    /** `lua_isstring(L, -1)` on strings; a number, which `lua_isstring` also
        accepts, counts here as not a string. */
    predicate TopIsString(): (isString: bool)
      reads this
      requires stack != []
      ensures isString <==> exists t :: stack[|stack| - 1] == Str(t)
    {
      stack[|stack| - 1].Str?
    }

    // The facade.

    /** `isStateEnable`: the guard every operation starts with. */
    method IsStateEnable() returns (enabled: bool)
      ensures enabled <==> initialized
    {
      enabled := initialized;
    }

    /** `clearState`: close the state and open a fresh one with the same
        library policy; everything registered before is gone. */
    method ClearState(stateOk: bool)
      modifies this
      ensures initialized == stateOk && stack == []
      ensures globals == if stateOk && openLibs then libraries else map[]
      ensures currentLevel == old(currentLevel)
    {
      initialized := stateOk;
      stack := [];
      globals := if stateOk && openLibs then libraries else map[];
    }

    /** `registerVariable(name, const char*)`. */
    method RegisterString(name: string, value: string)
      modifies this`stack, this`globals
      ensures stack == old(stack)
      ensures globals == if old(initialized) then old(globals)[CString(name) := Str(CString(value))] else old(globals)
    {
      var enabled := IsStateEnable();
      if !enabled {
        return;
      }
      Push(Str(CString(value)));
      SetGlobal(CString(name));
    }

    /** `registerVariable(name, const int&)`. */
    method RegisterInteger(name: string, value: Int32)
      modifies this`stack, this`globals
      ensures stack == old(stack)
      ensures globals == if old(initialized) then old(globals)[CString(name) := Int(value as int)] else old(globals)
    {
      var enabled := IsStateEnable();
      if !enabled {
        return;
      }
      Push(Int(value as int));
      SetGlobal(CString(name));
    }

    /** `registerVariable(name, const float&)`: the number itself is not
        modelled, only that a number is bound. */
    method RegisterNumber(name: string)
      modifies this`stack, this`globals
      ensures stack == old(stack)
      ensures globals == if old(initialized) then old(globals)[CString(name) := Num] else old(globals)
    {
      var enabled := IsStateEnable();
      if !enabled {
        return;
      }
      Push(Num);
      SetGlobal(CString(name));
    }

    /** `registerVariable(name, const bool&)`. */
    method RegisterBoolean(name: string, value: bool)
      modifies this`stack, this`globals
      ensures stack == old(stack)
      ensures globals == if old(initialized) then old(globals)[CString(name) := Bool(value)] else old(globals)
    {
      var enabled := IsStateEnable();
      if !enabled {
        return;
      }
      Push(Bool(value));
      SetGlobal(CString(name));
    }

    /** `clearStack`: pop everything. */
    method ClearStack()
      modifies this`stack
      ensures stack == if old(initialized) then [] else old(stack)
    {
      var enabled := IsStateEnable();
      if !enabled {
        return;
      }
      var top := |stack|;
      Pop(top);
    }

    /** `getTableKeys`. The injected `getKeys` script and its `lua_pcall` are
        not modelled: `result` is the value that call leaves on top of the
        stack, where it stays. A string result, read back as a C string, is
        split on commas. */
    method GetTableKeys(variableName: string, result: Value) returns (keys: seq<string>)
      modifies this`stack
      ensures stack == if old(initialized) then old(stack) + [result] else old(stack)
      ensures keys == if old(initialized) && result.Str? then Split(CString(result.s), ',') else []
    {
      var enabled := IsStateEnable();
      if !enabled {
        return [];
      }
      keys := [];
      Push(result);
      if TopIsString() {
        var keysString := CString(stack[|stack| - 1].s);
        keys := Explode(keysString, ',');
      }
    }

    /** The loop of `loadToStack` over the path's segments: segment 0 is
        fetched from the globals, every later one as a field of the top; the
        loop stops after pushing a nil and otherwise counts the segment in
        `currentLevel`. */
    method PushSegments(variables: seq<string>)
      requires initialized && currentLevel == 0
      modifies this`stack, this`currentLevel
      ensures stack == old(stack) + Walk(Table(globals), variables)
      ensures currentLevel == Resolved(Walk(Table(globals), variables))
    {
      ghost var all := Walk(Table(globals), variables);
      ghost var pushed: seq<Value> := [];
      ghost var cur := Table(globals);
      var i := 0;
      while i < |variables|
        invariant 0 <= i <= |variables|
        invariant currentLevel == i == |pushed|
        invariant stack == old(stack) + pushed
        invariant i == 0 ==> cur == Table(globals)
        invariant i > 0 ==> stack != [] && cur == stack[|stack| - 1] && !cur.Nil?
        invariant pushed + Walk(cur, variables[i..]) == all
      {
        ghost var v := Field(cur, CString(variables[i]));
        if currentLevel == 0 {
          GetGlobal(CString(variables[i]));
        } else {
          GetField(CString(variables[i]));
        }
        assert stack == old(stack) + (pushed + [v]) by {
          assert stack == old(stack) + pushed + [v];
        }
        WalkStep(all, pushed, cur, variables, i);
        pushed := pushed + [v];
        if TopIsNil() {
          assert pushed == all && currentLevel == Resolved(all);
          break;
        }
        cur := v;
        currentLevel := currentLevel + 1;
        i := i + 1;
      }
      if i == |variables| {
        WalkDone(all, pushed, cur, variables);
      }
      assert pushed == all && currentLevel == Resolved(all);
    }

    /** `loadToStack`: push the values along the dotted `path`, starting from
        the globals, stopping at the first nil; `currentLevel` counts the
        segments resolved. Nothing is popped. The result says whether the
        final top is not nil. */
    method LoadToStack(path: string) returns (found: bool)
      requires !initialized || path != [] || stack != []
      modifies this`stack, this`currentLevel
      ensures !old(initialized) ==> !found && stack == old(stack) && currentLevel == old(currentLevel)
      ensures old(initialized) ==>
        var pushed := Walk(Table(globals), Split(path, '.'));
        && stack == old(stack) + pushed
        && currentLevel == Resolved(pushed)
        && stack != []
        && found == !stack[|stack| - 1].Nil?
      ensures old(initialized) && path != [] ==>
        var target := Follow(Table(globals), Split(path, '.'));
        && found == !target.Nil?
        && stack[|stack| - 1] == target
    {
      var enabled := IsStateEnable();
      if !enabled {
        return false;
      }
      currentLevel := 0;
      var variables := Explode(path, '.');
      PushSegments(variables);
      LoadOutcome(old(stack), stack, Table(globals), path, variables);
      found := !TopIsNil();
    }
  }

  /** The argument of one `registerVariable` overload. */
  datatype HostValue = HostString(s: string) | HostInt(i: Int32) | HostFloat | HostBool(b: bool)

  /** The Lua value a `registerVariable` overload binds. */
  function Bound(h: HostValue): Value
  {
    match h
    case HostString(s) => Str(CString(s))
    case HostInt(i) => Int(i as int)
    case HostFloat => Num
    case HostBool(b) => Bool(b)
  }

  /** `registerVariable(name, h)`, whichever overload `h` selects. */
  method Register(engine: Engine, name: string, h: HostValue)
    modifies engine`stack, engine`globals
    ensures engine.stack == old(engine.stack)
    ensures engine.globals == if old(engine.initialized) then old(engine.globals)[CString(name) := Bound(h)] else old(engine.globals)
  {
    match h {
      case HostString(s) => engine.RegisterString(name, s);
      case HostInt(i) => engine.RegisterInteger(name, i);
      case HostFloat => engine.RegisterNumber(name);
      case HostBool(b) => engine.RegisterBoolean(name, b);
    }
  }

  /** On a live state, a value registered under a plain name (non-empty, no
      `.`) resolves by that name: `loadToStack` succeeds with the value on top. */
  method RegisterThenResolve(engine: Engine, name: string, h: HostValue) returns (found: bool)
    requires engine.initialized
    requires name != [] && '.' !in name
    modifies engine`stack, engine`globals, engine`currentLevel
    ensures found && engine.stack != [] && engine.stack[|engine.stack| - 1] == Bound(h)
    ensures engine.currentLevel == 1
  {
    Register(engine, name, h);
    SplitSingle(name, '.');
    found := engine.LoadToStack(name);
  }

  /** After `clearState`, a global registered before no longer resolves
      unless the libraries define it again. */
  method ResolveAfterClearState(engine: Engine, name: string, h: HostValue) returns (found: bool)
    requires name != [] && '.' !in name && '\0' !in name
    requires !engine.openLibs || name !in engine.libraries
    modifies engine
    ensures !found && engine.currentLevel == 0
  {
    Register(engine, name, h);
    engine.ClearState(true);
    SplitSingle(name, '.');
    found := engine.LoadToStack(name);
  }
}
