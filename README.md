# LuaEngine, modelled in Dafny

`LuaEngine` is a small C++ facade over an embedded Lua interpreter. It owns one
interpreter handle `L`, registers host values as Lua globals, resolves dotted
paths such as `config.server.port` by walking nested tables on the Lua stack
(`loadToStack`), and lists the keys of a global table (`getTableKeys`) by
splitting a comma-joined string with its helper `stringExplode`.

This project models that logic over an abstract interpreter state:

- `string_explode.dfy`, module `StringExplode`: `stringExplode` as a loop of
  `std::getline` calls (`Explode`, `GetLine`), proved against a recursive
  specification `Split`, with the properties of `Split`: no token holds the
  delimiter, joining gives back the input minus one trailing delimiter and the
  other way round, the token count, and the exact result for the
  comma-terminated strings the key enumeration builds.
- `lua_engine.dfy`, module `LuaEngine`: the Lua values the facade can tell
  apart (`Value`), and a class `Engine` with the fields `initialized` (the
  handle `L` is not null), `globals`, `stack` (top last) and `currentLevel`.
  The Lua C API calls become small methods on that state (`Push`, `Pop`,
  `SetGlobal`, `GetGlobal`, `GetField`); `lua_getglobal` is a field lookup on
  the global table. The dotted-path walk is specified by the function `Walk`
  (the values pushed) and related to `Follow` (the value the path denotes).

Edge cases of the code that the model keeps:

- An empty table enumerates to an empty key list: the joined string is empty
  and `getline` yields nothing on an empty stream.
- When the enumeration fails inside Lua (the named global is missing or not a
  table), `lua_pcall` leaves the error message, a string, on the stack, and the
  code splits that message on commas. The model covers this through the
  `result` parameter of `GetTableKeys`.
- Every name reaches Lua through `c_str()`, and the key string comes back
  through `lua_tostring` into a `std::string`; both stop at the first NUL
  character. The model passes names, segments, string values and the key
  string through `CString`, which keeps the part before the first NUL.
- `luaL_newstate` may return null; the constructor and `ClearState` take a
  `stateOk` flag for that outcome, which is the only way the handle can be
  null in the code shown.

## Model

| member | source | states |
|---|---|---|
| `StringExplode.IndexOf` | LuaEngine/LuaEngine.cpp:243 | the position where one `getline` token ends: no delimiter before it, and a delimiter at it unless it is the end of the string |
| `StringExplode.GetLine` | LuaEngine/LuaEngine.cpp:243 | one `std::getline` call fails exactly at the end of the stream; otherwise it yields the next token of `Split` and advances past the consumed delimiter |
| `StringExplode.Explode` | LuaEngine/LuaEngine.cpp:239-248 | the getline loop returns exactly `Split(s, d)` |
| `StringExplode.SplitNoDelimiter` | LuaEngine/LuaEngine.cpp:239-248 | no returned token contains the delimiter |
| `StringExplode.SplitJoin` | LuaEngine/LuaEngine.cpp:239-248 | joining the tokens with the delimiter gives back the input, minus one trailing delimiter if it ended with one |
| `StringExplode.JoinSplit` | LuaEngine/LuaEngine.cpp:239-248 | splitting joined tokens gives them back when no token holds the delimiter and the last one is not empty |
| `StringExplode.SplitCount` | LuaEngine/LuaEngine.cpp:241-245 | empty input gives no token; otherwise there are (delimiters + 1) tokens, or exactly (delimiters) when the last character is the delimiter |
| `StringExplode.SplitSingle` | LuaEngine/LuaEngine.cpp:239-248 | a non-empty string without the delimiter is exactly one token, itself |
| `StringExplode.SplitTerminated` | LuaEngine/LuaEngine.cpp:156-167 | the key string `k1,k2,...,kn,` built by the key-enumeration script splits back into exactly `[k1, ..., kn]`, in order, when no key holds a comma (the empty string gives `[]`) |
| `LuaEngine.CString` | LuaEngine/LuaEngine.cpp:58 | what Lua receives from `c_str()`: the longest NUL-free prefix of the string, the whole string when it has no NUL |
| `LuaEngine.Field` | LuaEngine/LuaEngine.cpp:269-271 | `lua_getglobal` / `lua_getfield` lookup: a key bound in a table reads its value; a missing key reads nil, and so does any key of a non-table, where Lua would go through a metatable or raise an error |
| `LuaEngine.KeysRoundTrip` | LuaEngine/LuaEngine.cpp:156-167 | the key string `k1,...,kn,` read back through `lua_tostring` and split on commas gives exactly `[k1, ..., kn]` when no key holds a comma or a NUL |
| `LuaEngine.WalkShape` | LuaEngine/LuaEngine.cpp:267-280 | the walk pushes one value per segment attempted, at least one when there is a segment, a nil only as its last value, and stops before the end only after a nil |
| `LuaEngine.WalkLinks` | LuaEngine/LuaEngine.cpp:267-272 | segment 0 is looked up in the globals and every later segment as a field of the value pushed for the segment before it, each by its C string |
| `LuaEngine.WalkStopsAtNil` | LuaEngine/LuaEngine.cpp:274-277 | segments after the first nil are never looked up: replacing them does not change what is pushed |
| `LuaEngine.WalkFollow` | LuaEngine/LuaEngine.cpp:267-285 | the last value the walk pushes is the value the whole path denotes |
| `LuaEngine.ResolvedAll` | LuaEngine/LuaEngine.cpp:274-285 | every segment is resolved exactly when the path denotes a non-nil value |
| `LuaEngine.LoadOutcome` | LuaEngine/LuaEngine.cpp:282-285 | after the walk the stack has a top, and for a non-empty path that top is the value the path denotes |
| `LuaEngine.Engine.constructor` | LuaEngine/LuaEngine.cpp:4-10 | a fresh state has an empty stack, and its globals are the standard libraries exactly when `openLibs` is set and the state was created |
| `LuaEngine.Engine.Push` | LuaEngine/LuaEngine.cpp:57 | a push appends one value on top of the stack |
| `LuaEngine.Engine.SetGlobal` | LuaEngine/LuaEngine.cpp:58 | `lua_setglobal` pops the top and binds it to the name, leaving every other global as it was |
| `LuaEngine.Engine.GetGlobal` | LuaEngine/LuaEngine.cpp:269 | `lua_getglobal` pushes the global, nil when unbound |
| `LuaEngine.Engine.GetField` | LuaEngine/LuaEngine.cpp:271 | `lua_getfield(L, -1, k)` pushes field `k` of the top value |
| `LuaEngine.Engine.Pop` | LuaEngine/LuaEngine.cpp:178 | `lua_pop(L, n)` removes the top `n` values |
| `LuaEngine.Engine.TopIsNil` | LuaEngine/LuaEngine.cpp:274 | `lua_isnil(L, lua_gettop(L))` holds exactly when the top value is nil |
| `LuaEngine.Engine.TopIsString` | LuaEngine/LuaEngine.cpp:164 | `lua_isstring(L, -1)` holds exactly when the top value is a string; numbers, which `lua_isstring` also accepts, are treated as non-strings |
| `LuaEngine.Engine.IsStateEnable` | LuaEngine/LuaEngine.cpp:250-256 | the guard succeeds exactly when the handle is live |
| `LuaEngine.Engine.ClearState` | LuaEngine/LuaEngine.cpp:42-51 | a new state replaces the old one: empty stack, nothing registered before survives, library globals per `openLibs` |
| `LuaEngine.Engine.RegisterString` | LuaEngine/LuaEngine.cpp:53-59 | on a live state the global named by the C string of `name` becomes the (C) string and every other global is unchanged; the stack depth is unchanged; on a null state nothing changes |
| `LuaEngine.Engine.RegisterInteger` | LuaEngine/LuaEngine.cpp:61-69 | the same, binding the integer |
| `LuaEngine.Engine.RegisterNumber` | LuaEngine/LuaEngine.cpp:71-77 | the same, binding a floating-point number |
| `LuaEngine.Engine.RegisterBoolean` | LuaEngine/LuaEngine.cpp:79-85 | the same, binding the boolean |
| `LuaEngine.Engine.ClearStack` | LuaEngine/LuaEngine.cpp:172-179 | on a live state the stack is left empty; on a null state nothing changes |
| `LuaEngine.Engine.GetTableKeys` | LuaEngine/LuaEngine.cpp:150-170 | on a null state: no keys, stack unchanged; otherwise the enumeration result stays on the stack, and the keys are the comma split of its C string when it is a string, none otherwise |
| `LuaEngine.Engine.PushSegments` | LuaEngine/LuaEngine.cpp:267-280 | the loop pushes exactly the walk of the segments from the globals and leaves `currentLevel` at the number of segments resolved |
| `LuaEngine.Engine.LoadToStack` | LuaEngine/LuaEngine.cpp:258-286 | on a null state: false, nothing changes; otherwise the old stack is a prefix of the new one, the values pushed are the walk of the split path, `currentLevel` counts the resolved segments, globals are untouched, and the result is true exactly when the final top is not nil, which for a non-empty path is exactly when the path denotes a non-nil value, then on top |
| `LuaEngine.Register` | LuaEngine/LuaEngine.cpp:53-85 | whichever overload the argument selects, the C string of `name` is bound to the Lua value of the argument on a live state, every other global and the stack unchanged; nothing changes on a null state |
| `LuaEngine.RegisterThenResolve` | LuaEngine/LuaEngine.cpp:53-85 | on a live state, any value registered under a non-empty name with no `.` resolves by that name: `loadToStack` returns true with that value on top and `currentLevel` at 1 |
| `LuaEngine.ResolveAfterClearState` | LuaEngine/LuaEngine.cpp:42-51 | after `clearState`, a value registered before under such a name no longer resolves, unless the reopened libraries define that name: `loadToStack` returns false with `currentLevel` at 0 |

## Left out

- `loadFile`, `executeCode` and `getError` (LuaEngine/LuaEngine.cpp:21-40, 140-142): their outcome is whatever the interpreter does with a file or a source string.
- `printStack` and `printGlobalTable`, and every `std::cout` diagnostic: console output only.
- The singleton `getInstance`, the destructor and `delete mInstance`: memory management.
- `setField` and the commented-out `setTable`: dead in the code shown.
- `luaL_openlibs`: the library globals it installs are the constructor parameter `libraries`; `Value` has no case for functions or userdata, so a library function is represented by a non-nil value that is neither a table nor a string, such as `Bool(true)`, which behaves alike in the modelled operations; the library code is not modelled, nor is a call of it on a null state.
- LuaEngine.Engine.GetTableKeys: the injected `getKeys` script and its `lua_pcall` are not modelled; `result` stands for the value the call leaves on top, and the globals `getKeys` and `s` that the script defines are not added to `globals`.
- LuaEngine.Engine.GetTableKeys: `lua_isstring` also accepts numbers; only `Str` values are split, since the script returns a string or an error message.
- LuaEngine.Field: a key of a value that is neither a table nor nil reads nil, whereas Lua raises an error or goes through a metatable (strings index the `string` library); the model has no metatables and no Lua errors.
- LuaEngine.Engine.TopIsString: `lua_isstring` also returns true for numbers, which `lua_tostring` would convert to their decimal text; the model answers false for `Int` and `Num`, since the enumeration script returns a string or an error message.
- LuaEngine.Engine.LoadToStack: the model's stack has no capacity; the code pushes one value per segment and pops nothing, without calling `lua_checkstack`, so past the `LUA_MINSTACK` (20) free slots that Lua guarantees the code is outside the Lua API's contract, while the model's stack just grows.
- LuaEngine.Engine.GetTableKeys: likewise, the result it leaves on the stack is pushed without `lua_checkstack`; the model's stack has no capacity limit.
- LuaEngine.Engine.RegisterNumber: the floating-point value is not modelled; every float is the opaque `Num`.
- LuaEngine.Engine.RegisterString: a null `const char*` (which `lua_pushstring` turns into nil) is not modelled; the value is always a string.
- LuaEngine.Engine.GetField: `lua_getfield` on a value that is neither a table nor nil raises a Lua error or goes through a metatable (strings index the `string` library); the model reads nil there instead.
- LuaEngine.Engine.LoadToStack: an empty path on an empty stack is excluded by its precondition, since what `lua_isnil` answers at index 0 is up to the interpreter.
- `currentLevel` and `mError` are declared in `LuaEngine.h`, which is not part of this model; `currentLevel` is taken as a natural number starting at 0.
- LuaEngine.Engine.LoadToStack: Lua tables are references, but `Value` makes them values; a table reachable from itself (such as `_G`, which `luaL_openlibs` binds to the global table) or shared by two names is not modelled, so `_G.<name>` sees the library snapshot given to the constructor, not globals registered later.
- LuaEngine.Engine.GetTableKeys: an enumeration result holding a NUL is cut at the first NUL, as `lua_tostring` into `std::string` does; that keys themselves may hold a NUL is otherwise not modelled.
- `registerVariable(name, const int&)`: the host `int` is taken to be 32 bits wide (`Int32`).
