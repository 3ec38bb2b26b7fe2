/** `Conf` and `ModifiedConf`: the configuration store whose methods update
    `c_original`, `c_singletons` and the overlay stack in place, each proved
    to do what the functions of `ConfSpec` say. */
module Models {
  import opened Values
  import opened Strings
  import opened Imports
  import opened ConfSpec
  import opened ConfProps

  /** The interpreter around a `Conf`: the modules it can import and the
      constructor calls made so far. */
  class World {
    const registry: Registry
    var calls: seq<Call>

    constructor (registry: Registry)
      ensures this.registry == registry && calls == []
    {
      this.registry := registry;
      calls := [];
    }

    /** `fn(**kwargs)`. */
    method Invoke(fn: Value, kwargs: Dict) returns (r: Result<Value>)
      modifies this
      ensures (r, calls) == Imports.Invoke(registry, old(calls), fn, kwargs)
    {
      if Callable(registry, fn) {
        r := Ok(VObj(|calls|));
        calls := calls + [Call(fn.path, kwargs)];
      } else {
        r := Err(TypeError);
      }
    }
  }

  class Conf {
    const world: World
    var original: Dict
    var singletons: Dict
    /** The value of the `overrides_dicts` context variable. */
    var overlays: seq<Dict>

    function Snapshot(): State
      reads this, world
    {
      State(original, singletons, overlays, world.calls)
    }

    ghost predicate Valid()
      reads this, world
    {
      ConfSpec.Valid(Snapshot())
    }

    constructor (world: World)
      ensures this.world == world && original == [] && singletons == [] && overlays == []
      ensures Valid()
    {
      this.world := world;
      original := [];
      singletons := [];
      overlays := [];
    }

    /** `Conf(conf_dicts, overrides, strict)`: the dicts are absorbed in
        order, then a non-empty `overrides` is applied. */
    static method New(confDicts: seq<Dict>, overrides: Dict, strict: bool, world: World) returns (r: Result<Conf>)
      ensures r.Err? <==> Build(confDicts, overrides, strict).Err?
      ensures r.Err? ==> r.error == Build(confDicts, overrides, strict).error
      ensures r.Ok? ==> && fresh(r.value) && r.value.world == world && r.value.Valid()
                        && r.value.original == Build(confDicts, overrides, strict).value
                        && r.value.singletons == [] && r.value.overlays == []
    {
      var c := new Conf(world);
      var out := c.InitConfDicts(confDicts, strict);
      if out.Fail? {
        return Err(out.error);
      }
      if overrides != [] {
        var out := c.AddOverrides(overrides);
        if out.Fail? {
          return Err(out.error);
        }
      }
      r := Ok(c);
    }

    /** The loop of the constructor over `conf_dicts`, stopping at the
        first exception. */
    method InitConfDicts(confDicts: seq<Dict>, strict: bool) returns (out: Outcome)
      requires Valid()
      modifies this
      ensures (original, out) == AbsorbAll(old(original), confDicts, strict)
      ensures singletons == old(singletons) && overlays == old(overlays) && Valid()
    {
      var i := 0;
      while i < |confDicts|
        invariant 0 <= i <= |confDicts|
        invariant singletons == old(singletons) && overlays == old(overlays) && Valid()
        invariant AbsorbAll(old(original), confDicts[..i], strict) == (original, Pass)
      {
        assert confDicts[..i + 1][..i] == confDicts[..i];
        out := InitConfDict(confDicts[i], strict);
        if out.Fail? {
          AbsorbAllStops(old(original), confDicts, i + 1, strict);
          return;
        }
        i := i + 1;
      }
      assert confDicts[..i] == confDicts;
      out := Pass;
    }

    /** `_init_conf_dict(d, strict)`. */
    method InitConfDict(d: Dict, strict: bool) returns (out: Outcome)
      requires Valid()
      modifies this
      ensures (original, out) == Absorb(old(original), d, strict)
      ensures singletons == old(singletons) && overlays == old(overlays) && Valid()
    {
      var i := 0;
      while i < |d|
        invariant 0 <= i <= |d|
        invariant Absorb(old(original), d, strict) == Absorb(original, d[i..], strict)
        invariant singletons == old(singletons) && overlays == old(overlays) && UniqueKeys(original)
      {
        var (k, v) := d[i];
        assert d[i..][0] == d[i] && d[i..][1..] == d[i + 1..];
        var cur := Values.Get(original, k);
        if cur.Some? && cur.value != VNone {
          if !PyEq(cur.value, v) {
            if strict {
              assert Absorb(original, d[i..], strict) == (original, Fail(StrictConflict(k)));
              return Fail(StrictConflict(k));
            }
          }
        }
        assert Absorb(original, d[i..], strict) == Absorb(Put(original, k, v), d[i + 1..], strict);
        PutUnique(original, k, v);
        original := Put(original, k, v);
        i := i + 1;
      }
      out := Pass;
    }

    /** `add_overrides(ov)`. */
    method AddOverrides(ov: Dict) returns (out: Outcome)
      requires Valid()
      modifies this
      ensures (original, out) == Override(old(original), ov)
      ensures singletons == old(singletons) && overlays == old(overlays) && Valid()
    {
      var i := 0;
      while i < |ov|
        invariant 0 <= i <= |ov|
        invariant Override(old(original), ov) == Override(original, ov[i..])
        invariant singletons == old(singletons) && overlays == old(overlays) && UniqueKeys(original)
      {
        var (k, v) := ov[i];
        assert ov[i..][0] == ov[i] && ov[i..][1..] == ov[i + 1..];
        var cur := Values.Get(original, k);
        if cur.None? {
          return Fail(KeyError);
        }
        if !PyEq(cur.value, v) {
          PutShape(original, k, v);
          original := Put(original, k, v);
        }
        i := i + 1;
      }
      out := Pass;
    }

    /** `set(k, v)`: writes `c_original` only; the cache is not cleared. */
    method Set(k: string, v: Value)
      requires Valid()
      modifies this
      ensures original == Put(old(original), k, v)
      ensures singletons == old(singletons) && overlays == old(overlays) && Valid()
    {
      PutShape(original, k, v);
      original := Put(original, k, v);
    }

    /** `self[k] = v`, the same write as `set`. */
    method SetItem(k: string, v: Value)
      requires Valid()
      modifies this
      ensures original == Put(old(original), k, v)
      ensures singletons == old(singletons) && overlays == old(overlays) && Valid()
    {
      Set(k, v);
    }

    /** `to_dict()`. */
    method ToDict() returns (d: Dict)
      ensures d == ConfSpec.ToDict(Snapshot())
    {
      d := Update([], original);
      d := Update(d, singletons);
      var i := 0;
      while i < |overlays|
        invariant 0 <= i <= |overlays|
        invariant d == UpdateAll(Update(Update([], original), singletons), overlays[..i])
      {
        assert overlays[..i + 1][..i] == overlays[..i];
        d := Update(d, overlays[i]);
        i := i + 1;
      }
      assert overlays[..i] == overlays;
    }

    /** `get(k, default)`. */
    method Get(k: string, default: Value) returns (r: Result<Value>)
      requires Valid()
      modifies this, world
      ensures (r, Snapshot()) == GetOr(world.registry, old(Snapshot()), k, default) && Valid()
    {
      r := GetItem(k);
      if r == Err(AssertionError) {
        r := Ok(default);
      }
    }

    /** `self[k]`. */
    method GetItem(k: string) returns (r: Result<Value>)
      requires Valid()
      modifies this, world
      ensures (r, Snapshot()) == Item(world.registry, old(Snapshot()), k, MaxDepth) && Valid()
    {
      r := Read(k, MaxDepth);
    }

    /** `self[k]` with `depth` nested `$name` lookups left: the overlays are
        searched from the most recently pushed. */
    method Read(k: string, depth: nat) returns (r: Result<Value>)
      requires Valid()
      modifies this, world
      ensures (r, Snapshot()) == Item(world.registry, old(Snapshot()), k, depth) && Valid()
      decreases depth, 5
    {
      var i := |overlays|;
      assert overlays[..i] == overlays;
      while i > 0
        invariant 0 <= i <= |overlays|
        invariant Latest(overlays, k) == Latest(overlays[..i], k)
      {
        assert overlays[..i][..i - 1] == overlays[..i - 1];
        if HasKey(overlays[i - 1], k) {
          r := GetVal(Some(k), Values.Get(overlays[i - 1], k).value, depth);
          return;
        }
        i := i - 1;
      }
      if !HasKey(original, k) {
        return Err(AssertionError);
      }
      r := GetVal(Some(k), Values.Get(original, k).value, depth);
    }

    /** `_get_val(k, v)`. */
    method GetVal(k: Option<string>, v: Value, depth: nat) returns (r: Result<Value>)
      requires Valid()
      modifies this, world
      ensures (r, Snapshot()) == Resolve(world.registry, old(Snapshot()), k, v, depth) && Valid()
      decreases depth, 4, v
    {
      match v
      case VStr(s) =>
        if s == "" {
          r := Err(IndexError);
        } else if k.Some? && s[0] == '@' {
          r := GetSingleton(k.value, s, depth);
        } else if k.None? && s[0] in "@$" {
          r := GetPythonObject(None, s, depth);
        } else {
          r := Ok(v);
        }
      case VList(_) =>
        r := GetList(v, depth);
      case VDict(_) =>
        r := GetDict(v, depth);
      case _ =>
        r := Ok(v);
    }

    /** The memoised branch of `_get_val` for a top-level `"@..."` value. */
    method GetSingleton(k: string, s: string, depth: nat) returns (r: Result<Value>)
      requires Valid()
      modifies this, world
      ensures (r, Snapshot()) == Memo(world.registry, old(Snapshot()), k, s, depth) && Valid()
      decreases depth, 3
    {
      var c := Values.Get(singletons, k);
      if c.None? || c.value == VNone {
        var x := GetPythonObject(Some(k), s, depth);
        if x.Err? {
          return x;
        }
        PutShape(singletons, k, x.value);
        singletons := Put(singletons, k, x.value);
      }
      r := Ok(Values.Get(singletons, k).value);
    }

    /** `[self._get_val(None, v) for v in orig_val]`. */
    method GetList(v: Value, depth: nat) returns (r: Result<Value>)
      requires Valid() && v.VList?
      modifies this, world
      ensures (r, Snapshot()) == ResolveList(world.registry, old(Snapshot()), v, 0, [], depth) && Valid()
      decreases depth, 4, v, 0
    {
      ghost var s0 := Snapshot();
      var xs := v.items;
      var acc := [];
      var i := 0;
      while i < |xs|
        invariant 0 <= i <= |xs| && Valid()
        invariant ResolveList(world.registry, s0, v, 0, [], depth) == ResolveList(world.registry, Snapshot(), v, i, acc, depth)
      {
        var x := GetVal(None, xs[i], depth);
        if x.Err? {
          return x;
        }
        acc := acc + [x.value];
        i := i + 1;
      }
      r := Ok(VList(acc));
    }

    /** `{k: self._get_val(None, v) for v in orig_val for k, v in
        orig_val.items()}`. */
    method GetDict(v: Value, depth: nat) returns (r: Result<Value>)
      requires Valid() && v.VDict?
      modifies this, world
      ensures (r, Snapshot()) == ResolveDict(world.registry, old(Snapshot()), v, 0, 0, [], depth) && Valid()
      decreases depth, 4, v, 0
    {
      ghost var s0 := Snapshot();
      var d := v.entries;
      var acc := [];
      var round := 0;
      while round < |d|
        invariant 0 <= round <= |d| && Valid()
        invariant ResolveDict(world.registry, s0, v, 0, 0, [], depth) == ResolveDict(world.registry, Snapshot(), v, round, 0, acc, depth)
      {
        var i := 0;
        while i < |d|
          invariant 0 <= i <= |d| && Valid()
          invariant ResolveDict(world.registry, s0, v, 0, 0, [], depth) == ResolveDict(world.registry, Snapshot(), v, round, i, acc, depth)
        {
          assert d[i] in d;
          var x := GetVal(None, d[i].1, depth);
          if x.Err? {
            return x;
          }
          acc := Put(acc, d[i].0, x.value);
          i := i + 1;
        }
        round := round + 1;
      }
      r := Ok(VDict(acc));
    }

    /** `_get_python_object(k, s)`. */
    method GetPythonObject(k: Option<string>, s: string, depth: nat) returns (r: Result<Value>)
      requires Valid()
      modifies this, world
      ensures (r, Snapshot()) == PyObject(world.registry, old(Snapshot()), k, s, depth) && Valid()
      decreases depth, if k == Some(SingletonAttribute) then 0 else 2
    {
      if StartsWith(s, "@") && EndsWith(s, "()") {
        assert s[..1][0] == '@' && s[|s| - 2..][0] == '(';
        if k == Some(SingletonAttribute) {
          return Err(AssertionError);
        }
        r := InitPythonObject(k, s[1..|s| - 2], depth);
      } else if StartsWith(s, "@") {
        r := ImportObject(world.registry, s[1..]);
      } else if s == "" {
        r := Err(IndexError);
      } else if s[0] == '$' {
        if depth == 0 {
          return Err(RecursionError);
        }
        r := Read(s[1..], depth - 1);
      } else {
        r := Ok(VStr(s));
      }
    }

    /** `_init_python_object(k, target)`. */
    method InitPythonObject(k: Option<string>, target: string, depth: nat) returns (r: Result<Value>)
      requires Valid()
      modifies this, world
      ensures (r, Snapshot()) == Construct(world.registry, old(Snapshot()), k, target, depth) && Valid()
      decreases depth, 1
    {
      ghost var s0 := Snapshot();
      var overrides: Dict := [];
      if k.Some? {
        var prefix := k.value + "/";
        var td := ToDict();
        var i := 0;
        while i < |td|
          invariant 0 <= i <= |td| && Valid()
          invariant Collect(world.registry, s0, td, prefix, 0, [], depth) == Collect(world.registry, Snapshot(), td, prefix, i, overrides, depth)
        {
          var (confK, confV) := td[i];
          if StartsWith(confK, prefix) {
            var key := confK[|prefix|..];
            var val := confV;
            if confV.VStr? && confV.s == "" {
              return Err(IndexError);
            }
            if confV.VStr? && confV.s[0] in "@$" {
              var x := GetPythonObject(Some(SingletonAttribute), confV.s, depth);
              if x.Err? {
                return Err(x.error);
              }
              val := x.value;
            }
            overrides := Put(overrides, key, val);
          }
          i := i + 1;
        }
      }
      var fn := ImportObject(world.registry, target);
      if fn.Err? {
        return Err(fn.error);
      }
      r := world.Invoke(fn.value, overrides);
    }
  }

  /** `ModifiedConf(global_conf, overrides, **kwargs).overrides_dict`. */
  function OverridesDict(overrides: Option<Dict>, kwargs: Dict): Dict {
    Update(Update([], if overrides.Some? then overrides.value else []), kwargs)
  }

  /** A keyword argument wins over an entry of `overrides` with its name. */
  lemma KwargsWin(overrides: Option<Dict>, kwargs: Dict, k: string)
    requires UniqueKeys(kwargs) && (overrides.Some? ==> UniqueKeys(overrides.value))
    ensures Get(OverridesDict(overrides, kwargs), k) ==
      if HasKey(kwargs, k) then Get(kwargs, k)
      else if overrides.Some? then Get(overrides.value, k) else None
    ensures UniqueKeys(OverridesDict(overrides, kwargs))
  {
    var base := if overrides.Some? then overrides.value else [];
    UpdateGet([], base, k);
    UpdateGet(Update([], base), kwargs, k);
    UpdateHasKey([], base, k);
    UpdateHasKey(Update([], base), kwargs, k);
  }

  /** `with modified_conf(...)`: one overlay dict pushed on entry and the
      saved stack restored on exit. */
  class ModifiedConf {
    const conf: Conf
    const overridesDict: Dict
    /** The stack `__enter__` replaced, kept by its context-variable token;
        `None` until `__enter__` runs. */
    var before: Option<seq<Dict>>
    /** Whether that token has been used to reset the variable. */
    var tokenUsed: bool

    ghost predicate Valid()
      reads this
    {
      && UniqueKeys(overridesDict)
      && (before.Some? ==> forall i :: 0 <= i < |before.value| ==> UniqueKeys(before.value[i]))
    }

    constructor (conf: Conf, overrides: Option<Dict>, kwargs: Dict)
      ensures this.conf == conf && overridesDict == OverridesDict(overrides, kwargs)
      ensures before.None? && !tokenUsed && Valid()
    {
      this.conf := conf;
      var d: Dict := [];
      UpdateHasKey([], if overrides.Some? then overrides.value else [], "");
      if overrides.Some? {
        d := Update(d, overrides.value);
      }
      UpdateHasKey(d, kwargs, "");
      d := Update(d, kwargs);
      overridesDict := d;
      before := None;
      tokenUsed := false;
    }

    /** `__enter__`: push `overrides_dict` on top of the stack. */
    method Enter()
      requires Valid() && conf.Valid()
      modifies this, conf
      ensures conf.overlays == old(conf.overlays) + [overridesDict]
      ensures conf.original == old(conf.original) && conf.singletons == old(conf.singletons)
      ensures before == Some(old(conf.overlays)) && !tokenUsed
      ensures Valid() && conf.Valid()
    {
      before := Some(conf.overlays);
      tokenUsed := false;
      conf.overlays := conf.overlays + [overridesDict];
    }

    /** `__exit__`: the top of the stack must `==` `overrides_dict`; then
        the stack saved by `__enter__` comes back. */
    method Exit() returns (out: Outcome)
      requires Valid() && conf.Valid()
      modifies this, conf
      ensures conf.original == old(conf.original) && conf.singletons == old(conf.singletons)
      ensures old(conf.overlays) == [] ==> out == Fail(IndexError)
      ensures (old(conf.overlays) != [] && !PyEq(VDict(Last(old(conf.overlays))), VDict(overridesDict)))
                ==> out == Fail(AssertionError)
      ensures (old(conf.overlays) != [] && PyEq(VDict(Last(old(conf.overlays))), VDict(overridesDict)))
                ==> if old(before).None? then out == Fail(AttributeError)
                    else if old(tokenUsed) then out == Fail(RuntimeError)
                    else out == Pass && conf.overlays == old(before).value && tokenUsed
      ensures out.Fail? ==> conf.overlays == old(conf.overlays) && tokenUsed == old(tokenUsed)
      ensures before == old(before) && Valid() && conf.Valid()
    {
      if conf.overlays == [] {
        return Fail(IndexError);
      }
      if !PyEq(VDict(conf.overlays[|conf.overlays| - 1]), VDict(overridesDict)) {
        return Fail(AssertionError);
      }
      if before.None? {
        return Fail(AttributeError);
      }
      if tokenUsed {
        return Fail(RuntimeError);
      }
      conf.overlays := before.value;
      tokenUsed := true;
      out := Pass;
    }
  }

  function Last<T>(s: seq<T>): T
    requires s != []
  {
    s[|s| - 1]
  }
}
