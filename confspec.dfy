/** What a `Conf` object holds and does, as functions of its state: the raw
    maps and overlay stack, the value a read resolves to and the state the
    read leaves behind (the singleton cache and the log of constructor calls
    are the only things a read writes). */
module ConfSpec {
  import opened Values
  import opened Strings
  import opened Imports

  /** The key under which attributes of a singleton are resolved; a
      constructor call in that position is refused. */
  const SingletonAttribute: string := "__SINGLETON_ATTRIBUTE__"

  /** How many nested `$name` lookups a read may make before the
      interpreter's recursion limit stops it. */
  const MaxDepth: nat := 1000

  /** `c_original`, `c_singletons`, the overlay stack held by the context
      variable, and the constructor calls made so far. */
  datatype State = State(original: Dict, singletons: Dict, overlays: seq<Dict>, calls: seq<Call>)

  /** A resolved value or the exception raised, with the state after. */
  type Reply = (Result<Value>, State)

  /** Python dicts never repeat a key. */
  predicate Valid(st: State) {
    && UniqueKeys(st.original)
    && UniqueKeys(st.singletons)
    && forall i :: 0 <= i < |st.overlays| ==> UniqueKeys(st.overlays[i])
  }

  /** A read changes only the cache, which only gains keys, and the call
      log, which only grows. */
  ghost predicate Frame(a: State, b: State) {
    && b.original == a.original
    && b.overlays == a.overlays
    && a.calls <= b.calls
    && (forall key :: HasKey(a.singletons, key) ==> HasKey(b.singletons, key))
    && (UniqueKeys(a.singletons) ==> UniqueKeys(b.singletons))
  }

  // ---------------------------------------------------------------------
  // Building the store

  /** `c_original.get(k) is not None and c_original[k] != v`. */
  predicate Conflicts(original: Dict, k: string, v: Value) {
    Get(original, k).Some? && Get(original, k).value != VNone && !PyEq(Get(original, k).value, v)
  }

  /** `_init_conf_dict(d, strict)`: the entries of `d` are written in
      order; in strict mode the first conflicting entry raises, leaving the
      entries before it written. */
  function Absorb(original: Dict, d: Dict, strict: bool): (Dict, Outcome)
    decreases d
  {
    if d == [] then (original, Pass)
    else if strict && Conflicts(original, d[0].0, d[0].1) then (original, Fail(StrictConflict(d[0].0)))
    else Absorb(Put(original, d[0].0, d[0].1), d[1..], strict)
  }

  /** The conf dicts absorbed one after the other, stopping at a failure. */
  function AbsorbAll(original: Dict, ds: seq<Dict>, strict: bool): (Dict, Outcome)
    decreases |ds|
  {
    if ds == [] then (original, Pass)
    else
      var (o, out) := AbsorbAll(original, ds[..|ds| - 1], strict);
      if out.Fail? then (o, out) else Absorb(o, ds[|ds| - 1], strict)
  }

  /** The value `add_overrides` leaves at an existing key: unchanged when it
      `==` the override, the override otherwise. */
  function Pick(cur: Value, v: Value): Value {
    if PyEq(cur, v) then cur else v
  }

  /** `add_overrides(ov)`: every key must already exist (`KeyError`
      otherwise, with the earlier overrides applied). */
  function Override(original: Dict, ov: Dict): (Dict, Outcome)
    decreases ov
  {
    if ov == [] then (original, Pass)
    else match Get(original, ov[0].0)
      case None => (original, Fail(KeyError))
      case Some(cur) =>
        Override(if PyEq(cur, ov[0].1) then original else Put(original, ov[0].0, ov[0].1), ov[1..])
  }

  /** `Conf(conf_dicts, overrides, strict)`: the `c_original` it ends with,
      or the exception its constructor raises. */
  function Build(confDicts: seq<Dict>, overrides: Dict, strict: bool): Result<Dict> {
    var (o, out) := AbsorbAll([], confDicts, strict);
    if out.Fail? then Err(out.error)
    else if overrides == [] then Ok(o)
    else
      var (o2, out2) := Override(o, overrides);
      if out2.Fail? then Err(out2.error) else Ok(o2)
  }

  // ---------------------------------------------------------------------
  // Raw lookup and to_dict

  /** The value of `k` in the last dict of `ds` that holds it. */
  function Latest(ds: seq<Dict>, k: string): (r: Option<Value>)
    decreases |ds|
  {
    if ds == [] then None
    else if HasKey(ds[|ds| - 1], k) then Get(ds[|ds| - 1], k)
    else Latest(ds[..|ds| - 1], k)
  }

  /** The unresolved value `__getitem__` starts from: the most recently
      pushed overlay holding `k`, else `c_original`. */
  function Raw(st: State, k: string): Option<Value> {
    if Latest(st.overlays, k).Some? then Latest(st.overlays, k) else Get(st.original, k)
  }

  /** Each dict of `ds` in turn applied to `d` with `update`. */
  function UpdateAll(d: Dict, ds: seq<Dict>): Dict
    decreases |ds|
  {
    if ds == [] then d else Update(UpdateAll(d, ds[..|ds| - 1]), ds[|ds| - 1])
  }

  /** `to_dict()`: `c_original`, then `c_singletons`, then every overlay from
      the oldest, merged with `update`. */
  function ToDict(st: State): Dict {
    UpdateAll(Update(Update([], st.original), st.singletons), st.overlays)
  }

  // ---------------------------------------------------------------------
  // Resolution

  /** `self[k]` with `depth` nested `$name` lookups left. */
  function Item(reg: Registry, st: State, k: string, depth: nat): (r: Reply)
    ensures Frame(st, r.1)
    decreases depth, 5
  {
    match Raw(st, k)
    case None => (Err(AssertionError), st)
    case Some(v) => Resolve(reg, st, Some(k), v, depth)
  }

  /** `_get_val(k, v)`: `k` is the key of a top-level value and `None` for
      a value nested in a list or dict. */
  function Resolve(reg: Registry, st: State, k: Option<string>, v: Value, depth: nat): (r: Reply)
    ensures Frame(st, r.1)
    decreases depth, 4, v
  {
    match v
    case VStr(s) =>
      if s == "" then (Err(IndexError), st)
      else if k.Some? && s[0] == '@' then Memo(reg, st, k.value, s, depth)
      else if k.None? && s[0] in "@$" then PyObject(reg, st, None, s, depth)
      else (Ok(v), st)
    case VList(xs) => ResolveList(reg, st, v, 0, [], depth)
    case VDict(d) => ResolveDict(reg, st, v, 0, 0, [], depth)
    case _ => (Ok(v), st)
  }

  /** The list comprehension: items resolved from position `i` on, left to
      right, after `acc`. */
  function ResolveList(reg: Registry, st: State, v: Value, i: nat, acc: seq<Value>, depth: nat): (r: Reply)
    requires v.VList? && i <= |v.items|
    ensures Frame(st, r.1)
    decreases depth, 4, v, |v.items| - i
  {
    if i == |v.items| then (Ok(VList(acc)), st)
    else
      var (x, st1) := Resolve(reg, st, None, v.items[i], depth);
      if x.Err? then (x, st1)
      else ResolveList(reg, st1, v, i + 1, acc + [x.value], depth)
  }

  /** The dict comprehension `{k: _get_val(None, v) for v in d for k, v in
      d.items()}`: one round per key of `d`, each round resolving every
      value again and storing it into the same result dict. */
  function ResolveDict(reg: Registry, st: State, v: Value, round: nat, i: nat, acc: Dict, depth: nat): (r: Reply)
    requires v.VDict? && i <= |v.entries|
    ensures Frame(st, r.1)
    decreases depth, 4, v, |v.entries| - round, |v.entries| - i
  {
    if round >= |v.entries| then (Ok(VDict(acc)), st)
    else if i == |v.entries| then ResolveDict(reg, st, v, round + 1, 0, acc, depth)
    else
      assert v.entries[i] in v.entries;
      var (x, st1) := Resolve(reg, st, None, v.entries[i].1, depth);
      if x.Err? then (x, st1)
      else ResolveDict(reg, st1, v, round, i + 1, Put(acc, v.entries[i].0, x.value), depth)
  }

  /** A top-level `"@..."` value: the cached object while it is not `None`,
      otherwise resolved and cached. */
  function Memo(reg: Registry, st: State, k: string, s: string, depth: nat): (r: Reply)
    ensures Frame(st, r.1)
    decreases depth, 3
  {
    var c := Get(st.singletons, k);
    if c.Some? && c.value != VNone then (Ok(c.value), st)
    else
      var (x, st1) := PyObject(reg, st, Some(k), s, depth);
      if x.Err? then (x, st1)
      else
        PutShape(st1.singletons, k, x.value);
        (x, st1.(singletons := Put(st1.singletons, k, x.value)))
  }

  /** `_get_python_object(k, s)`. */
  function PyObject(reg: Registry, st: State, k: Option<string>, s: string, depth: nat): (r: Reply)
    ensures Frame(st, r.1)
    decreases depth, if k == Some(SingletonAttribute) then 0 else 2
  {
    if StartsWith(s, "@") && EndsWith(s, "()") then
      assert s[..1][0] == '@' && s[|s| - 2..][0] == '(';
      if k == Some(SingletonAttribute) then (Err(AssertionError), st)
      else Construct(reg, st, k, s[1..|s| - 2], depth)
    else if StartsWith(s, "@") then (ImportObject(reg, s[1..]), st)
    else if s == "" then (Err(IndexError), st)
    else if s[0] == '$' then
      if depth == 0 then (Err(RecursionError), st)
      else Item(reg, st, s[1..], depth - 1)
    else (Ok(VStr(s)), st)
  }

  /** `_init_python_object(k, target)`: for a top-level key, the entries of
      `to_dict()` under `k + "/"` become keyword arguments; then the target
      is imported and called. */
  function Construct(reg: Registry, st: State, k: Option<string>, target: string, depth: nat): (r: Reply)
    ensures Frame(st, r.1)
    decreases depth, 1
  {
    var (kw, st1) := if k.None? then (Ok([]), st) else Collect(reg, st, ToDict(st), k.value + "/", 0, [], depth);
    if kw.Err? then (Err(kw.error), st1)
    else match ImportObject(reg, target)
      case Err(e) => (Err(e), st1)
      case Ok(fn) =>
        var (x, calls) := Invoke(reg, st1.calls, fn, kw.value);
        (x, st1.(calls := calls))
  }

  /** The keyword arguments gathered from `td[i..]` after `acc`: an
      attribute value starting with '@' or '$' is resolved as a singleton
      attribute, any other is passed as it is. */
  function Collect(reg: Registry, st: State, td: Dict, prefix: string, i: nat, acc: Dict, depth: nat): (r: (Result<Dict>, State))
    requires i <= |td|
    ensures Frame(st, r.1)
    decreases depth, 1, |td| - i
  {
    if i == |td| then (Ok(acc), st)
    else if !StartsWith(td[i].0, prefix) then Collect(reg, st, td, prefix, i + 1, acc, depth)
    else
      var key := td[i].0[|prefix|..];
      var v := td[i].1;
      if v.VStr? && v.s == "" then (Err(IndexError), st)
      else if v.VStr? && v.s[0] in "@$" then
        var (x, st1) := PyObject(reg, st, Some(SingletonAttribute), v.s, depth);
        if x.Err? then (Err(x.error), st1)
        else Collect(reg, st1, td, prefix, i + 1, Put(acc, key, x.value), depth)
      else Collect(reg, st, td, prefix, i + 1, Put(acc, key, v), depth)
  }

  /** `conf.get(k, default)`: an `AssertionError` (an absent key, among
      others) gives the default; every other exception propagates. */
  function GetOr(reg: Registry, st: State, k: string, default: Value): (r: Reply)
    ensures r.0 != Err(AssertionError)
    ensures Frame(st, r.1)
  {
    var (x, st1) := Item(reg, st, k, MaxDepth);
    if x == Err(AssertionError) then (Ok(default), st1) else (x, st1)
  }
}
