/** Properties of the `Conf` state machine: how the store is built, which
    value a read starts from, what `to_dict` returns, and what a read
    resolves to and caches. */
module ConfProps {
  import opened Values
  import opened Strings
  import opened Imports
  import opened ConfSpec

  // ---------------------------------------------------------------------
  // Building the store

  /** Without strict mode every entry is written: `c_original` ends as
      `c_original.update(d)`. */
  lemma {:induction false} AbsorbLenient(o: Dict, d: Dict)
    ensures Absorb(o, d, false) == (Update(o, d), Pass)
    decreases d
  {
    if d != [] { AbsorbLenient(Put(o, d[0].0, d[0].1), d[1..]); }
  }

  /** In strict mode a dict is refused exactly when one of its entries
      conflicts with the value already stored (an existing `None` never
      conflicts), the refusal names the first such entry, and a dict that is
      accepted is written in full. */
  lemma {:induction false} AbsorbStrict(o: Dict, d: Dict)
    requires UniqueKeys(d)
    ensures Absorb(o, d, true).1.Fail? <==> exists i :: 0 <= i < |d| && Conflicts(o, d[i].0, d[i].1)
    ensures Absorb(o, d, true).1.Fail? ==>
      exists i :: 0 <= i < |d| && Conflicts(o, d[i].0, d[i].1)
        && Absorb(o, d, true).1 == Fail(StrictConflict(d[i].0))
        && forall j :: 0 <= j < i ==> !Conflicts(o, d[j].0, d[j].1)
    ensures Absorb(o, d, true).1.Pass? ==> Absorb(o, d, true).0 == Update(o, d)
    decreases d
  {
    if d != [] && !Conflicts(o, d[0].0, d[0].1) {
      var o1 := Put(o, d[0].0, d[0].1);
      UniqueKeysTail(d);
      AbsorbStrict(o1, d[1..]);
      forall i | 1 <= i < |d| ensures Conflicts(o1, d[i].0, d[i].1) <==> Conflicts(o, d[i].0, d[i].1) {
        assert d[i].0 != d[0].0;
      }
      if Absorb(o, d, true).1.Fail? {
        var i :| 0 <= i < |d| - 1 && Conflicts(o1, d[1..][i].0, d[1..][i].1)
          && Absorb(o1, d[1..], true).1 == Fail(StrictConflict(d[1..][i].0))
          && forall j :: 0 <= j < i ==> !Conflicts(o1, d[1..][j].0, d[1..][j].1);
        assert d[1..][i] == d[i + 1];
        forall j | 0 <= j < i + 1 ensures !Conflicts(o, d[j].0, d[j].1) {
          if j > 0 { assert d[1..][j - 1] == d[j]; }
        }
      } else {
        forall i | 0 <= i < |d| ensures !Conflicts(o, d[i].0, d[i].1) {
          if i > 0 { assert d[1..][i - 1] == d[i]; }
        }
      }
    }
  }

  /** Without strict mode, folding the conf dicts leaves every key with the
      value from the last dict that defines it. */
  lemma {:induction false} LastDictWins(o: Dict, ds: seq<Dict>, k: string)
    requires forall i :: 0 <= i < |ds| ==> UniqueKeys(ds[i])
    ensures AbsorbAll(o, ds, false).1 == Pass
    ensures Get(AbsorbAll(o, ds, false).0, k) == if Latest(ds, k).Some? then Latest(ds, k) else Get(o, k)
    decreases |ds|
  {
    if ds != [] {
      var front := ds[..|ds| - 1];
      LastDictWins(o, front, k);
      var p := AbsorbAll(o, front, false).0;
      AbsorbLenient(p, ds[|ds| - 1]);
      UpdateGet(p, ds[|ds| - 1], k);
      if HasKey(ds[|ds| - 1], k) {
      } else {
        assert Latest(ds, k) == Latest(front, k);
      }
    }
  }

  /** A failure while absorbing the first `n` dicts is the constructor's. */
  lemma {:induction false} AbsorbAllStops(o: Dict, ds: seq<Dict>, n: nat, strict: bool)
    requires n <= |ds| && AbsorbAll(o, ds[..n], strict).1.Fail?
    ensures AbsorbAll(o, ds, strict) == AbsorbAll(o, ds[..n], strict)
    decreases |ds|
  {
    if n < |ds| {
      var front := ds[..|ds| - 1];
      assert front[..n] == ds[..n];
      AbsorbAllStops(o, front, n, strict);
    } else {
      assert ds[..n] == ds;
    }
  }

  /** `add_overrides` never adds a key, and it fails exactly when one of
      the overridden keys is missing. */
  lemma OverrideKeys(o: Dict, ov: Dict)
    ensures Keys(Override(o, ov).0) == Keys(o)
    ensures Override(o, ov).1.Fail? <==> exists i :: 0 <= i < |ov| && !HasKey(o, ov[i].0)
    ensures Override(o, ov).1.Fail? ==> Override(o, ov).1.error == KeyError
  {
    OverrideSameKeys(o, ov);
    OverrideFails(o, ov);
  }

  /** The first override applied: the dict the remaining ones start from. */
  function OverrideStep(o: Dict, k: string, v: Value): Dict
    requires HasKey(o, k)
  {
    if PyEq(Get(o, k).value, v) then o else Put(o, k, v)
  }

  lemma OverrideStepKeys(o: Dict, k: string, v: Value)
    requires HasKey(o, k)
    ensures Keys(OverrideStep(o, k, v)) == Keys(o)
    ensures forall j :: HasKey(OverrideStep(o, k, v), j) <==> HasKey(o, j)
  {
    PutKeys(o, k, v);
    forall j ensures HasKey(OverrideStep(o, k, v), j) <==> HasKey(o, j) {
      HasKeyInKeys(OverrideStep(o, k, v), j);
      HasKeyInKeys(o, j);
    }
  }

  lemma {:induction false} OverrideSameKeys(o: Dict, ov: Dict)
    ensures Keys(Override(o, ov).0) == Keys(o)
    decreases ov
  {
    if ov != [] && HasKey(o, ov[0].0) {
      var o1 := OverrideStep(o, ov[0].0, ov[0].1);
      assert Override(o, ov) == Override(o1, ov[1..]);
      OverrideStepKeys(o, ov[0].0, ov[0].1);
      OverrideSameKeys(o1, ov[1..]);
    }
  }

  lemma {:induction false} OverrideFails(o: Dict, ov: Dict)
    ensures Override(o, ov).1.Fail? <==> exists i :: 0 <= i < |ov| && !HasKey(o, ov[i].0)
    ensures Override(o, ov).1.Fail? ==> Override(o, ov).1.error == KeyError
    decreases ov
  {
    if ov != [] && HasKey(o, ov[0].0) {
      var o1 := OverrideStep(o, ov[0].0, ov[0].1);
      assert Override(o, ov) == Override(o1, ov[1..]);
      OverrideStepKeys(o, ov[0].0, ov[0].1);
      OverrideFails(o1, ov[1..]);
      if Override(o, ov).1.Fail? {
        var i :| 0 <= i < |ov| - 1 && !HasKey(o1, ov[1..][i].0);
        assert ov[i + 1] == ov[1..][i];
      } else {
        forall i | 0 <= i < |ov| ensures HasKey(o, ov[i].0) {
          if i > 0 { assert ov[1..][i - 1] == ov[i]; }
        }
      }
    } else if ov != [] {
      assert Override(o, ov) == (o, Fail(KeyError));
    }
  }

  /** After `add_overrides(ov)` succeeds, an overridden key holds the
      override (or its old value when that `==` the override) and every
      other key is unchanged. */
  lemma {:induction false} OverrideGet(o: Dict, ov: Dict, k: string)
    requires UniqueKeys(ov) && Override(o, ov).1.Pass?
    ensures HasKey(ov, k) ==> HasKey(o, k)
    ensures Get(Override(o, ov).0, k) ==
      if HasKey(ov, k) then Some(Pick(Get(o, k).value, Get(ov, k).value)) else Get(o, k)
    decreases ov
  {
    if ov != [] {
      var cur := Get(o, ov[0].0).value;
      var o1 := if PyEq(cur, ov[0].1) then o else Put(o, ov[0].0, ov[0].1);
      UniqueKeysTail(ov);
      FirstKeyNotInRest(ov);
      HasKeyFirstOrRest(ov, k);
      OverrideGet(o1, ov[1..], k);
      OverrideKeys(o1, ov[1..]);
      if k != ov[0].0 && HasKey(ov[1..], k) {
        PutShape(o, ov[0].0, ov[0].1);
      }
    }
  }

  // ---------------------------------------------------------------------
  // Overlays and to_dict

  /** `Latest` names the last dict holding the key, or none holds it. */
  lemma {:induction false} LatestSpec(ds: seq<Dict>, k: string)
    ensures Latest(ds, k).None? <==> forall j :: 0 <= j < |ds| ==> !HasKey(ds[j], k)
    ensures Latest(ds, k).Some? ==>
      exists j :: 0 <= j < |ds| && Get(ds[j], k) == Latest(ds, k)
        && forall j' :: j < j' < |ds| ==> !HasKey(ds[j'], k)
    decreases |ds|
  {
    if ds != [] {
      var front := ds[..|ds| - 1];
      LatestSpec(front, k);
      forall j | 0 <= j < |ds| - 1 ensures ds[j] == front[j] { }
      if !HasKey(ds[|ds| - 1], k) && Latest(ds, k).Some? {
        var j :| 0 <= j < |front| && Get(front[j], k) == Latest(front, k)
          && forall j' :: j < j' < |front| ==> !HasKey(front[j'], k);
        assert Get(ds[j], k) == Latest(ds, k);
      }
    }
  }

  /** The value at `k` after updating `d` with each of `ds` in turn. */
  lemma {:induction false} UpdateAllGet(d: Dict, ds: seq<Dict>, k: string)
    requires forall i :: 0 <= i < |ds| ==> UniqueKeys(ds[i])
    ensures Get(UpdateAll(d, ds), k) == if Latest(ds, k).Some? then Latest(ds, k) else Get(d, k)
    ensures UniqueKeys(d) ==> UniqueKeys(UpdateAll(d, ds))
    decreases |ds|
  {
    if ds != [] {
      UpdateAllGet(d, ds[..|ds| - 1], k);
      UpdateGet(UpdateAll(d, ds[..|ds| - 1]), ds[|ds| - 1], k);
      UpdateHasKey(UpdateAll(d, ds[..|ds| - 1]), ds[|ds| - 1], k);
    }
  }

  /** `to_dict()` holds every key that has a raw value or a cached object,
      with precedence last overlay, earlier overlays, cache, `c_original`;
      its keys are distinct. */
  lemma ToDictGet(st: State, k: string)
    requires Valid(st)
    ensures Get(ToDict(st), k) ==
      if Latest(st.overlays, k).Some? then Latest(st.overlays, k)
      else if HasKey(st.singletons, k) then Get(st.singletons, k)
      else Get(st.original, k)
    ensures HasKey(ToDict(st), k) <==> Raw(st, k).Some? || HasKey(st.singletons, k)
    ensures UniqueKeys(ToDict(st))
  {
    var base := Update(Update([], st.original), st.singletons);
    UpdateGet([], st.original, k);
    UpdateGet(Update([], st.original), st.singletons, k);
    UpdateHasKey([], st.original, k);
    UpdateHasKey(Update([], st.original), st.singletons, k);
    UpdateAllGet(base, st.overlays, k);
  }

  // ---------------------------------------------------------------------
  // Reads

  /** A string that names something to resolve. */
  predicate IsReference(v: Value) {
    v.VStr? && v.s != "" && v.s[0] in "@$"
  }

  /** A value that resolves to itself wherever it appears. */
  predicate Plain(v: Value) {
    !IsReference(v) && !v.VList? && !v.VDict? && v != VStr("")
  }

  /** No dict of `ds` after position `j` holds `k`. */
  predicate LastHolder(ds: seq<Dict>, k: string, j: nat) {
    forall j' :: j < j' < |ds| ==> !HasKey(ds[j'], k)
  }

  /** `self[k]` reads the most recently pushed overlay that holds `k`, else
      `c_original`; a key held by neither fails the assertion. */
  lemma ReadPrecedence(reg: Registry, st: State, k: string, depth: nat)
    ensures (forall j :: 0 <= j < |st.overlays| ==> !HasKey(st.overlays[j], k)) && !HasKey(st.original, k)
      ==> Item(reg, st, k, depth) == (Err(AssertionError), st)
    ensures (forall j :: 0 <= j < |st.overlays| ==> !HasKey(st.overlays[j], k)) && HasKey(st.original, k)
      ==> Item(reg, st, k, depth) == Resolve(reg, st, Some(k), Get(st.original, k).value, depth)
    ensures forall j ::
              0 <= j < |st.overlays| && HasKey(st.overlays[j], k) && LastHolder(st.overlays, k, j)
              ==> Item(reg, st, k, depth) == Resolve(reg, st, Some(k), Get(st.overlays[j], k).value, depth)
  {
    LatestSpec(st.overlays, k);
    forall j | 0 <= j < |st.overlays| && HasKey(st.overlays[j], k) && LastHolder(st.overlays, k, j)
      ensures Latest(st.overlays, k) == Get(st.overlays[j], k)
    {
      var i :| 0 <= i < |st.overlays| && Get(st.overlays[i], k) == Latest(st.overlays, k)
        && forall j' :: i < j' < |st.overlays| ==> !HasKey(st.overlays[j'], k);
      assert i == j;
    }
  }

  /** While `c_singletons[k]` holds something other than `None`, a
      top-level `"@..."` value at `k` reads as that object and nothing
      changes, whether the raw value came from an overlay or from
      `c_original`, and whatever `set` wrote there since. */
  lemma MemoHit(reg: Registry, st: State, k: string, s: string, depth: nat)
    requires Raw(st, k) == Some(VStr(s)) && s != "" && s[0] == '@'
    requires Get(st.singletons, k).Some? && Get(st.singletons, k).value != VNone
    ensures Item(reg, st, k, depth) == (Ok(Get(st.singletons, k).value), st)
  {
    assert Item(reg, st, k, depth) == Resolve(reg, st, Some(k), VStr(s), depth);
    assert Resolve(reg, st, Some(k), VStr(s), depth) == Memo(reg, st, k, s, depth);
  }

  /** `set(k, "@...")` does not clear the cache: with no overlay holding
      `k`, the next read returns the object cached before the write. */
  lemma SetKeepsCache(reg: Registry, st: State, k: string, s: string, depth: nat)
    requires Latest(st.overlays, k).None? && s != "" && s[0] == '@'
    requires Get(st.singletons, k).Some? && Get(st.singletons, k).value != VNone
    ensures var st1 := st.(original := Put(st.original, k, VStr(s)));
      Item(reg, st1, k, depth) == (Ok(Get(st.singletons, k).value), st1)
  {
    MemoHit(reg, st.(original := Put(st.original, k, VStr(s))), k, s, depth);
  }

  /** A top-level `"@..."` value that reads successfully leaves what it
      read cached under `k`. */
  lemma MemoCaches(reg: Registry, st: State, k: string, s: string, depth: nat)
    requires Raw(st, k) == Some(VStr(s)) && s != "" && s[0] == '@'
    ensures Item(reg, st, k, depth).0.Ok? ==>
      Get(Item(reg, st, k, depth).1.singletons, k) == Some(Item(reg, st, k, depth).0.value)
  {
    assert Item(reg, st, k, depth) == Resolve(reg, st, Some(k), VStr(s), depth);
    assert Resolve(reg, st, Some(k), VStr(s), depth) == Memo(reg, st, k, s, depth);
  }

  /** A top-level string that does not start with '@' is returned as it is,
      `"$name"` included. */
  lemma TopLevelVerbatim(reg: Registry, st: State, k: string, s: string, depth: nat)
    requires Raw(st, k) == Some(VStr(s)) && s != "" && s[0] != '@'
    ensures Item(reg, st, k, depth) == (Ok(VStr(s)), st)
  {
  }

  /** Plain values pass through unchanged, at the top level or nested. */
  lemma ResolvePlain(reg: Registry, st: State, k: Option<string>, v: Value, depth: nat)
    requires Plain(v)
    ensures Resolve(reg, st, k, v, depth) == (Ok(v), st)
  {
  }

  /** A nested `"$name"` reads `self[name]`, one level deeper. */
  lemma NestedReference(reg: Registry, st: State, name: string, depth: nat)
    ensures Resolve(reg, st, None, VStr("$" + name), depth) ==
      if depth == 0 then (Err(RecursionError), st) else Item(reg, st, name, depth - 1)
  {
    var s := "$" + name;
    assert !StartsWith(s, "@") by { assert s[..1][0] == '$'; }
  }

  /** A nested `"@path"` imports `path` on every read and caches nothing. */
  lemma NestedImport(reg: Registry, st: State, path: string, depth: nat)
    requires !EndsWith("@" + path, "()")
    ensures Resolve(reg, st, None, VStr("@" + path), depth) == (ImportObject(reg, path), st)
  {
    var s := "@" + path;
    assert StartsWith(s, "@") && s[1..] == path;
  }

  /** A nested `"@X()"` calls `X` with no arguments on every read, building
      a new object each time, and caches nothing. */
  lemma NestedConstruct(reg: Registry, st: State, x: string, depth: nat)
    requires Find(reg, x) == Ok(Factory)
    ensures Resolve(reg, st, None, VStr("@" + x + "()"), depth) ==
      (Ok(VObj(|st.calls|)), st.(calls := st.calls + [Call(x, [])]))
  {
    var s := "@" + x + "()";
    assert StartsWith(s, "@") && EndsWith(s, "()") && s[1..|s| - 2] == x;
    assert PyObject(reg, st, None, s, depth) == Construct(reg, st, None, x, depth);
    assert ImportObject(reg, x) == Ok(VFunc(x));
  }

  /** A singleton attribute may not itself be a constructor call. */
  lemma AttributeConstructorRefused(reg: Registry, st: State, y: string, depth: nat)
    ensures PyObject(reg, st, Some(SingletonAttribute), "@" + y + "()", depth) == (Err(AssertionError), st)
  {
    var s := "@" + y + "()";
    assert StartsWith(s, "@") && EndsWith(s, "()");
  }

  /** A list resolves element by element: as many items, plain items kept. */
  lemma {:induction false} ListElementwise(reg: Registry, st: State, v: Value, i: nat, acc: seq<Value>, depth: nat)
    requires v.VList? && i <= |v.items|
    ensures var r := ResolveList(reg, st, v, i, acc, depth);
      r.0.Ok? ==>
        && r.0.value.VList?
        && |r.0.value.items| == |acc| + |v.items| - i
        && r.0.value.items[..|acc|] == acc
        && forall j :: i <= j < |v.items| && Plain(v.items[j]) ==> r.0.value.items[|acc| + j - i] == v.items[j]
    decreases |v.items| - i
  {
    if i < |v.items| {
      var (x, st1) := Resolve(reg, st, None, v.items[i], depth);
      if x.Ok? {
        if Plain(v.items[i]) { ResolvePlain(reg, st, None, v.items[i], depth); }
        ListElementwise(reg, st1, v, i + 1, acc + [x.value], depth);
        var r := ResolveList(reg, st1, v, i + 1, acc + [x.value], depth);
        if r.0.Ok? {
          assert r.0.value.items[..|acc|] == (r.0.value.items[..|acc| + 1])[..|acc|];
        }
      }
    }
  }

  /** A dict resolves key by key: the same keys in the same order, plain
      values kept. */
  lemma {:induction false} DictKeywise(reg: Registry, st: State, v: Value, round: nat, i: nat, acc: Dict, depth: nat)
    requires v.VDict? && UniqueKeys(v.entries) && i <= |v.entries|
    requires DictRoundInv(v.entries, round, i, acc)
    ensures var r := ResolveDict(reg, st, v, round, i, acc, depth);
      r.0.Ok? ==> r.0.value.VDict? && DictRoundInv(v.entries, |v.entries|, |v.entries|, r.0.value.entries)
    decreases |v.entries| - round, |v.entries| - i
  {
    var d := v.entries;
    if round >= |d| {
      assert ResolveDict(reg, st, v, round, i, acc, depth) == (Ok(VDict(acc)), st);
      DictRoundDone(d, round, i, acc);
    } else if i == |d| {
      assert ResolveDict(reg, st, v, round, i, acc, depth) == ResolveDict(reg, st, v, round + 1, 0, acc, depth);
      DictRoundNext(d, round, acc);
      DictKeywise(reg, st, v, round + 1, 0, acc, depth);
    } else {
      var (x, st1) := Resolve(reg, st, None, d[i].1, depth);
      if x.Ok? {
        assert ResolveDict(reg, st, v, round, i, acc, depth)
          == ResolveDict(reg, st1, v, round, i + 1, Put(acc, d[i].0, x.value), depth);
        if Plain(d[i].1) { ResolvePlain(reg, st, None, d[i].1, depth); }
        DictRoundStep(d, round, i, acc, x.value);
        DictKeywise(reg, st1, v, round, i + 1, Put(acc, d[i].0, x.value), depth);
      }
    }
  }

  /** What the dict comprehension has built after `round` rounds and `i`
      more values: the keys seen so far in order, plain values as they are. */
  predicate DictRoundInv(d: Dict, round: nat, i: nat, acc: Dict)
    requires i <= |d|
  {
    && (round == 0 ==> Keys(acc) == Keys(d[..i]))
    && (round > 0 ==> Keys(acc) == Keys(d))
    && (forall p :: 0 <= p < |d| && Plain(d[p].1) && (round > 0 || p < i)
          ==> Get(acc, d[p].0) == Some(d[p].1))
  }

  /** Once every round has run, the invariant covers the whole dict. */
  lemma DictRoundDone(d: Dict, round: nat, i: nat, acc: Dict)
    requires round >= |d| && i <= |d| && DictRoundInv(d, round, i, acc)
    ensures DictRoundInv(d, |d|, |d|, acc)
  {
    if round == 0 { assert d[..i] == d; }
  }

  /** The end of one round starts the next with the same dict. */
  lemma DictRoundNext(d: Dict, round: nat, acc: Dict)
    requires DictRoundInv(d, round, |d|, acc)
    ensures DictRoundInv(d, round + 1, 0, acc)
  {
    assert d[..|d|] == d;
  }

  lemma DictRoundStep(d: Dict, round: nat, i: nat, acc: Dict, x: Value)
    requires UniqueKeys(d) && i < |d| && DictRoundInv(d, round, i, acc)
    requires Plain(d[i].1) ==> x == d[i].1
    ensures DictRoundInv(d, round, i + 1, Put(acc, d[i].0, x))
  {
    DictStepKeys(d, round, i, acc, x);
    var key := d[i].0;
    var acc1 := Put(acc, key, x);
    forall p | 0 <= p < |d| && Plain(d[p].1) && (round > 0 || p < i + 1)
      ensures Get(acc1, d[p].0) == Some(d[p].1)
    {
      if p != i { assert d[p].0 != key; }
    }
  }

  lemma DictStepKeys(d: Dict, round: nat, i: nat, acc: Dict, x: Value)
    requires UniqueKeys(d) && i < |d|
    requires round == 0 ==> Keys(acc) == Keys(d[..i])
    requires round > 0 ==> Keys(acc) == Keys(d)
    ensures round == 0 ==> Keys(Put(acc, d[i].0, x)) == Keys(d[..i + 1])
    ensures round > 0 ==> Keys(Put(acc, d[i].0, x)) == Keys(d)
  {
    if round == 0 { FirstRoundKeys(d, i, acc, x); } else { LaterRoundKeys(d, i, acc, x); }
  }

  /** In the first round each step appends the next key. */
  lemma FirstRoundKeys(d: Dict, i: nat, acc: Dict, x: Value)
    requires UniqueKeys(d) && i < |d| && Keys(acc) == Keys(d[..i])
    ensures Keys(Put(acc, d[i].0, x)) == Keys(d[..i + 1])
  {
    var key := d[i].0;
    assert !HasKey(acc, key) by {
      PrefixLacksKey(d, i);
      HasKeyInKeys(acc, key);
    }
    assert Put(acc, key, x) == acc + [(key, x)] by {
      PutAbsent(acc, key, x);
    }
    calc {
      Keys(Put(acc, key, x));
      Keys(acc + [(key, x)]);
      { KeysAppend(acc, (key, x)); }
      Keys(acc) + [key];
      Keys(d[..i]) + [d[i].0];
      { KeysAppend(d[..i], d[i]); }
      Keys(d[..i] + [d[i]]);
      { assert d[..i + 1] == d[..i] + [d[i]]; }
      Keys(d[..i + 1]);
    }
  }

  lemma PrefixLacksKey(d: Dict, i: nat)
    requires UniqueKeys(d) && i < |d|
    ensures d[i].0 !in Keys(d[..i])
  {
    forall p | 0 <= p < i ensures Keys(d[..i])[p] != d[i].0 { assert d[..i][p] == d[p]; }
  }

  lemma KeysAppend(d: Dict, e: (string, Value))
    ensures Keys(d + [e]) == Keys(d) + [e.0]
  {
    var l := Keys(d + [e]);
    var r := Keys(d) + [e.0];
    assert |l| == |r|;
    forall p | 0 <= p < |l| ensures l[p] == r[p] {
      if p < |d| { assert (d + [e])[p] == d[p]; }
    }
  }

  /** In later rounds every key is already there and keeps its place. */
  lemma LaterRoundKeys(d: Dict, i: nat, acc: Dict, x: Value)
    requires i < |d| && Keys(acc) == Keys(d)
    ensures Keys(Put(acc, d[i].0, x)) == Keys(d)
  {
    var key := d[i].0;
    assert HasKey(acc, key) by {
      HasKeyInKeys(acc, key);
      assert Keys(d)[i] == key;
    }
    PutKeys(acc, key, x);
  }

  /** A dict value read with `Resolve`: same keys in the same order, plain
      values kept. */
  lemma DictResolvesKeywise(reg: Registry, st: State, k: Option<string>, d: Dict, depth: nat)
    requires UniqueKeys(d)
    ensures var r := Resolve(reg, st, k, VDict(d), depth);
      r.0.Ok? ==>
        && r.0.value.VDict?
        && Keys(r.0.value.entries) == Keys(d)
        && forall p :: 0 <= p < |d| && Plain(d[p].1) ==> Get(r.0.value.entries, d[p].0) == Some(d[p].1)
  {
    assert d[..0] == [];
    DictKeywise(reg, st, VDict(d), 0, 0, [], depth);
    if d == [] {
      assert ResolveDict(reg, st, VDict(d), 0, 0, [], depth) == (Ok(VDict([])), st);
    }
  }

  /** A list value read with `Resolve`: item `j` is read in the state the
      reads of the items before it left, and a successful result holds the
      values of those reads in order, plain items unchanged, with the state
      of the last read. */
  lemma ListResolvesElementwise(reg: Registry, st: State, k: Option<string>, xs: seq<Value>, depth: nat)
    ensures var r := Resolve(reg, st, k, VList(xs), depth);
      r.0.Ok? ==>
        && r.0.value.VList?
        && |r.0.value.items| == |xs|
        && (forall j :: 0 <= j < |xs| ==> ListRead(reg, st, xs, j, depth).0 == Ok(r.0.value.items[j]))
        && (forall j :: 0 <= j < |xs| && Plain(xs[j]) ==> r.0.value.items[j] == xs[j])
        && r.1 == ListStateAt(reg, st, xs, |xs|, depth)
  {
    var r := Resolve(reg, st, k, VList(xs), depth);
    ListStart(reg, st, k, xs, depth);
    ListElementwise(reg, st, VList(xs), 0, [], depth);
    ListInOrder(reg, st, VList(xs), 0, [], depth);
    if r.0.Ok? {
      var items := r.0.value.items;
      forall j | 0 <= j < |xs| ensures ListRead(reg, st, xs, j, depth).0 == Ok(items[j]) {
        var none: seq<Value> := [];
        assert ListRead(reg, st, xs, j, depth).0 == Ok(items[|none| + j - 0]);
      }
    }
  }

  /** A list value read with `Resolve` fails exactly when some item read
      fails, and then as the first of them does. */
  lemma ListResolveFails(reg: Registry, st: State, k: Option<string>, xs: seq<Value>, depth: nat)
    ensures var r := Resolve(reg, st, k, VList(xs), depth);
      && (r.0.Err? <==> exists j :: 0 <= j < |xs| && ListRead(reg, st, xs, j, depth).0.Err?)
      && (r.0.Err? ==> exists j :: 0 <= j < |xs| && r == ListRead(reg, st, xs, j, depth) && ListFirstFailure(reg, st, xs, 0, j, depth))
  {
    var r := Resolve(reg, st, k, VList(xs), depth);
    ListStart(reg, st, k, xs, depth);
    ListInOrder(reg, st, VList(xs), 0, [], depth);
    var j := ListStopsFirst(reg, st, VList(xs), 0, [], depth);
    if r.0.Err? {
      assert 0 <= j < |xs| && r == ListRead(reg, st, xs, j, depth) && ListFirstFailure(reg, st, xs, 0, j, depth);
    }
  }

  /** `Resolve` on a list value starts the comprehension in its own state. */
  lemma ListStart(reg: Registry, st: State, k: Option<string>, xs: seq<Value>, depth: nat)
    ensures Resolve(reg, st, k, VList(xs), depth) == ListRun(reg, st, VList(xs), 0, [], depth)
  {
  }

  /** The state in which the list comprehension reads item `j` of `xs`:
      each item is read in the state the read of the item before it left. */
  function ListStateAt(reg: Registry, st: State, xs: seq<Value>, j: nat, depth: nat): State
    requires j <= |xs|
    decreases j
  {
    if j == 0 then st
    else Resolve(reg, ListStateAt(reg, st, xs, j - 1, depth), None, xs[j - 1], depth).1
  }

  /** The read of item `j` of `xs`, in that state. */
  function ListRead(reg: Registry, st: State, xs: seq<Value>, j: nat, depth: nat): Reply
    requires j < |xs|
  {
    Resolve(reg, ListStateAt(reg, st, xs, j, depth), None, xs[j], depth)
  }

  /** The list comprehension from item `i` on, in the state `ListStateAt`
      gives there. */
  function ListRun(reg: Registry, st: State, v: Value, i: nat, acc: seq<Value>, depth: nat): Reply
    requires v.VList? && i <= |v.items|
  {
    ResolveList(reg, ListStateAt(reg, st, v.items, i, depth), v, i, acc, depth)
  }

  /** The state once every item of `xs` has been read. */
  function ListEnd(reg: Registry, st: State, xs: seq<Value>, depth: nat): State {
    ListStateAt(reg, st, xs, |xs|, depth)
  }

  /** From item `i` on, a list comprehension that succeeds holds the
      values of the item reads in order and leaves the state of the last
      read. */
  lemma {:induction false} ListInOrder(reg: Registry, st: State, v: Value, i: nat, acc: seq<Value>, depth: nat)
    requires v.VList? && i <= |v.items|
    ensures var r := ListRun(reg, st, v, i, acc, depth);
      r.0.Ok? ==>
        && r.0.value.VList? && |r.0.value.items| == |acc| + |v.items| - i && r.0.value.items[..|acc|] == acc
        && (forall j :: i <= j < |v.items| ==> ListRead(reg, st, v.items, j, depth).0 == Ok(r.0.value.items[|acc| + j - i]))
        && r.1 == ListEnd(reg, st, v.items, depth)
    decreases |v.items| - i
  {
    if i < |v.items| {
      ListStep(reg, st, v, i, acc, depth);
      if ListRead(reg, st, v.items, i, depth).0.Ok? {
        var acc1 := acc + [ListRead(reg, st, v.items, i, depth).0.value];
        ListInOrder(reg, st, v, i + 1, acc1, depth);
        var r := ListRun(reg, st, v, i + 1, acc1, depth);
        if r.0.Ok? {
          var items := r.0.value.items;
          assert items[..|acc|] == items[..|acc| + 1][..|acc|];
          assert items[|acc|] == items[..|acc| + 1][|acc|];
        }
      }
    }
  }

  /** From item `i` on, a list comprehension that fails stops with the
      first item read that fails, item `j`. */
  lemma {:induction false} ListStopsFirst(reg: Registry, st: State, v: Value, i: nat, acc: seq<Value>, depth: nat)
    returns (j: nat)
    requires v.VList? && i <= |v.items|
    ensures ListRun(reg, st, v, i, acc, depth).0.Err? ==>
      i <= j < |v.items| && ListRun(reg, st, v, i, acc, depth) == ListRead(reg, st, v.items, j, depth) &&
      ListFirstFailure(reg, st, v.items, i, j, depth)
    decreases |v.items| - i
  {
    j := i;
    if i < |v.items| {
      ListStep(reg, st, v, i, acc, depth);
      if ListRead(reg, st, v.items, i, depth).0.Ok? {
        j := ListStopsFirst(reg, st, v, i + 1, acc + [ListRead(reg, st, v.items, i, depth).0.value], depth);
      }
    }
  }

  /** Item `j` is the first item from `i` on whose read fails. */
  predicate ListFirstFailure(reg: Registry, st: State, xs: seq<Value>, i: nat, j: nat, depth: nat)
    requires i <= j < |xs|
  {
    && ListRead(reg, st, xs, j, depth).0.Err?
    && forall q :: i <= q < j ==> ListRead(reg, st, xs, q, depth).0.Ok?
  }

  /** One step of the list comprehension, in the state `ListStateAt` gives. */
  lemma ListStep(reg: Registry, st: State, v: Value, i: nat, acc: seq<Value>, depth: nat)
    requires v.VList? && i < |v.items|
    ensures var r := ListRead(reg, st, v.items, i, depth);
      ListRun(reg, st, v, i, acc, depth) == if r.0.Err? then r else ListRun(reg, st, v, i + 1, acc + [r.0.value], depth)
  {
  }

  /** The state in which round `round` of the dict comprehension reads the
      value of entry `i` of `d`: every read starts from the state the read
      before it left, and a round starts where the previous one ended. */
  function DictStateAt(reg: Registry, st: State, d: Dict, round: nat, i: nat, depth: nat): State
    requires i <= |d|
    decreases round, i
  {
    if i > 0 then Resolve(reg, DictStateAt(reg, st, d, round, i - 1, depth), None, d[i - 1].1, depth).1
    else if round == 0 then st
    else DictStateAt(reg, st, d, round - 1, |d|, depth)
  }

  /** The read of the value of entry `i` in round `round`, in that state. */
  function DictRead(reg: Registry, st: State, d: Dict, round: nat, i: nat, depth: nat): Reply
    requires i < |d|
  {
    Resolve(reg, DictStateAt(reg, st, d, round, i, depth), None, d[i].1, depth)
  }

  /** The dict comprehension from round `round`, entry `i`, in the state
      `DictStateAt` gives there. */
  function DictRun(reg: Registry, st: State, v: Value, round: nat, i: nat, acc: Dict, depth: nat): Reply
    requires v.VDict? && i <= |v.entries|
  {
    ResolveDict(reg, DictStateAt(reg, st, v.entries, round, i, depth), v, round, i, acc, depth)
  }

  /** One read of the dict comprehension, in the state `DictStateAt` gives. */
  lemma DictStep(reg: Registry, st: State, v: Value, round: nat, i: nat, acc: Dict, depth: nat)
    requires v.VDict? && i < |v.entries| && round < |v.entries|
    ensures var r := DictRead(reg, st, v.entries, round, i, depth);
      DictRun(reg, st, v, round, i, acc, depth) ==
        if r.0.Err? then r
        else DictRun(reg, st, v, round, i + 1, Put(acc, v.entries[i].0, r.0.value), depth)
  {
  }

  /** The end of a round of the dict comprehension. */
  lemma DictRoundEnd(reg: Registry, st: State, v: Value, round: nat, acc: Dict, depth: nat)
    requires v.VDict? && round < |v.entries|
    ensures DictRun(reg, st, v, round, |v.entries|, acc, depth) ==
              DictRun(reg, st, v, round + 1, 0, acc, depth)
  {
  }

  /** For one entry `p`, whose read in the last round is `last`: a dict
      comprehension that succeeds holds for `d[p].0` the value of that read.
      In the last round the entries before `i` have been stored; once every
      round has run, all of them have. */
  lemma {:induction false} DictLastRoundAt(reg: Registry, st: State, v: Value, round: nat, i: nat, acc: Dict, depth: nat, p: nat, last: Reply)
    requires v.VDict? && UniqueKeys(v.entries) && i <= |v.entries| && round <= |v.entries| && p < |v.entries|
    requires round == |v.entries| ==> i == 0
    requires last == DictRead(reg, st, v.entries, |v.entries| - 1, p, depth)
    requires (round + 1 == |v.entries| && p < i) || round == |v.entries| ==>
      last.0.Ok? && Get(acc, v.entries[p].0) == Some(last.0.value)
    ensures HoldsRead(DictRun(reg, st, v, round, i, acc, depth), v.entries[p].0, last)
    decreases |v.entries| - round, |v.entries| - i, 3
  {
    if round == |v.entries| {
      DictLastDone(reg, st, v, round, i, acc, depth, v.entries[p].0, last);
    } else if i == |v.entries| {
      DictLastRoundEnd(reg, st, v, round, acc, depth, p, last);
    } else {
      DictLastRead(reg, st, v, round, i, acc, depth, p, last);
    }
  }

  /** `DictLastRoundAt` once every round has run. */
  lemma DictLastDone(reg: Registry, st: State, v: Value, round: nat, i: nat, acc: Dict, depth: nat, key: string, last: Reply)
    requires v.VDict? && i <= |v.entries| && round == |v.entries|
    requires last.0.Ok? && Get(acc, key) == Some(last.0.value)
    ensures HoldsRead(DictRun(reg, st, v, round, i, acc, depth), key, last)
  {
  }

  /** `DictLastRoundAt` at the end of a round. */
  lemma {:induction false} DictLastRoundEnd(reg: Registry, st: State, v: Value, round: nat, acc: Dict, depth: nat, p: nat, last: Reply)
    requires v.VDict? && UniqueKeys(v.entries) && round < |v.entries| && p < |v.entries|
    requires last == DictRead(reg, st, v.entries, |v.entries| - 1, p, depth)
    requires round + 1 == |v.entries| ==> last.0.Ok? && Get(acc, v.entries[p].0) == Some(last.0.value)
    ensures HoldsRead(DictRun(reg, st, v, round, |v.entries|, acc, depth), v.entries[p].0, last)
    decreases |v.entries| - round, 0, 0
  {
    DictLastRoundAt(reg, st, v, round + 1, 0, acc, depth, p, last);
    assert DictRun(reg, st, v, round, |v.entries|, acc, depth) ==
           DictRun(reg, st, v, round + 1, 0, acc, depth) by {
      DictRoundEnd(reg, st, v, round, acc, depth);
    }
  }

  /** `DictLastRoundAt` at the read of entry `i`. */
  lemma {:induction false} DictLastRead(reg: Registry, st: State, v: Value, round: nat, i: nat, acc: Dict, depth: nat, p: nat, last: Reply)
    requires v.VDict? && UniqueKeys(v.entries) && i < |v.entries| && round < |v.entries| && p < |v.entries|
    requires last == DictRead(reg, st, v.entries, |v.entries| - 1, p, depth)
    requires round + 1 == |v.entries| && p < i ==> last.0.Ok? && Get(acc, v.entries[p].0) == Some(last.0.value)
    ensures HoldsRead(DictRun(reg, st, v, round, i, acc, depth), v.entries[p].0, last)
    decreases |v.entries| - round, |v.entries| - i, 2
  {
    if DictRead(reg, st, v.entries, round, i, depth).0.Ok? {
      DictLastStore(reg, st, v, round, i, acc, depth, p, last);
    } else {
      DictStep(reg, st, v, round, i, acc, depth);
    }
  }

  /** `DictLastRoundAt` at a read of entry `i` that succeeds. */
  lemma {:induction false} DictLastStore(reg: Registry, st: State, v: Value, round: nat, i: nat, acc: Dict, depth: nat, p: nat, last: Reply)
    requires v.VDict? && UniqueKeys(v.entries) && i < |v.entries| && round < |v.entries| && p < |v.entries|
    requires last == DictRead(reg, st, v.entries, |v.entries| - 1, p, depth)
    requires round + 1 == |v.entries| && p < i ==> last.0.Ok? && Get(acc, v.entries[p].0) == Some(last.0.value)
    requires DictRead(reg, st, v.entries, round, i, depth).0.Ok?
    ensures HoldsRead(DictRun(reg, st, v, round, i, acc, depth), v.entries[p].0, last)
    decreases |v.entries| - round, |v.entries| - i, 1
  {
    DictLastNext(reg, st, v, round, i, acc, depth, p, last);
    DictHoldsStep(reg, st, v, round, i, acc, depth, v.entries[p].0, last);
  }

  /** What `DictLastRoundAt` gives after a read of entry `i` that succeeds. */
  lemma {:induction false} DictLastNext(reg: Registry, st: State, v: Value, round: nat, i: nat, acc: Dict, depth: nat, p: nat, last: Reply)
    requires v.VDict? && UniqueKeys(v.entries) && i < |v.entries| && round < |v.entries| && p < |v.entries|
    requires last == DictRead(reg, st, v.entries, |v.entries| - 1, p, depth)
    requires round + 1 == |v.entries| && p < i ==> last.0.Ok? && Get(acc, v.entries[p].0) == Some(last.0.value)
    requires DictRead(reg, st, v.entries, round, i, depth).0.Ok?
    ensures HoldsRead(DictRun(reg, st, v, round, i + 1, Put(acc, v.entries[i].0, DictRead(reg, st, v.entries, round, i, depth).0.value), depth), v.entries[p].0, last)
    decreases |v.entries| - round, |v.entries| - i, 0
  {
    var x := DictRead(reg, st, v.entries, round, i, depth).0;
    assert round + 1 == |v.entries| && p < i + 1 ==> last.0.Ok? && Get(Put(acc, v.entries[i].0, x.value), v.entries[p].0) == Some(last.0.value) by {
      DictStoreRead(reg, st, v.entries, round, i, acc, depth, p, last);
    }
    DictLastRoundAt(reg, st, v, round, i + 1, Put(acc, v.entries[i].0, DictRead(reg, st, v.entries, round, i, depth).0.value), depth, p, last);
  }

  /** Storing the read of entry `i` keeps what the last round has stored
      for entry `p`. */
  lemma DictStoreRead(reg: Registry, st: State, d: Dict, round: nat, i: nat, acc: Dict, depth: nat, p: nat, last: Reply)
    requires UniqueKeys(d) && i < |d| && p < |d| && last == DictRead(reg, st, d, |d| - 1, p, depth)
    requires round + 1 == |d| && p < i ==> last.0.Ok? && Get(acc, d[p].0) == Some(last.0.value)
    requires DictRead(reg, st, d, round, i, depth).0.Ok?
    ensures var acc1 := Put(acc, d[i].0, DictRead(reg, st, d, round, i, depth).0.value);
      round + 1 == |d| && p < i + 1 ==> last.0.Ok? && Get(acc1, d[p].0) == Some(last.0.value)
  {
    if round + 1 == |d| && p < i { assert d[p].0 != d[i].0; }
  }

  /** `HoldsRead` carries back over one read of the dict comprehension. */
  lemma DictHoldsStep(reg: Registry, st: State, v: Value, round: nat, i: nat, acc: Dict, depth: nat, key: string, last: Reply)
    requires v.VDict? && i < |v.entries| && round < |v.entries|
    requires DictRead(reg, st, v.entries, round, i, depth).0.Ok?
    requires HoldsRead(DictRun(reg, st, v, round, i + 1, Put(acc, v.entries[i].0, DictRead(reg, st, v.entries, round, i, depth).0.value), depth), key, last)
    ensures HoldsRead(DictRun(reg, st, v, round, i, acc, depth), key, last)
  {
    DictStep(reg, st, v, round, i, acc, depth);
  }

  /** A successful dict read `r` holds at `key` the value of the read `last`. */
  predicate HoldsRead(r: Reply, key: string, last: Reply) {
    r.0.Ok? ==> r.0.value.VDict? && last.0.Ok? && Get(r.0.value.entries, key) == Some(last.0.value)
  }

  /** Read `(r0, i0)`, entry `i0` of round `r0`, comes no later than read
      `(r1, i1)` in the order of the dict comprehension. */
  predicate DictReadsInOrder(r0: nat, i0: nat, r1: nat, i1: nat) {
    r0 < r1 || (r0 == r1 && i0 <= i1)
  }

  /** Read `(rr, p)` is the first read from `(round, i)` on that fails. */
  predicate DictFirstFailure(reg: Registry, st: State, d: Dict, round: nat, i: nat, rr: nat, p: nat, depth: nat)
    requires rr < |d| && p < |d|
  {
    && DictRead(reg, st, d, rr, p, depth).0.Err?
    && forall r0, q :: 0 <= r0 < |d| && 0 <= q < |d| && DictReadsInOrder(round, i, r0, q) && !DictReadsInOrder(rr, p, r0, q) ==>
         DictRead(reg, st, d, r0, q, depth).0.Ok?
  }

  /** A dict comprehension that fails stops with the first read that fails
      from round `round`, entry `i` on: the one of entry `p` in round `rr`. */
  lemma {:induction false} DictStopsAtRead(reg: Registry, st: State, v: Value, round: nat, i: nat, acc: Dict, depth: nat)
    returns (rr: nat, p: nat)
    requires v.VDict? && i <= |v.entries| && round <= |v.entries|
    ensures var r := DictRun(reg, st, v, round, i, acc, depth);
      r.0.Err? ==>
        && rr < |v.entries| && p < |v.entries| && r == DictRead(reg, st, v.entries, rr, p, depth)
        && DictReadsInOrder(round, i, rr, p) && DictFirstFailure(reg, st, v.entries, round, i, rr, p, depth)
    decreases |v.entries| - round, |v.entries| - i, 1
  {
    rr, p := 0, 0;
    if round < |v.entries| && i == |v.entries| {
      rr, p := DictStopsRoundEnd(reg, st, v, round, acc, depth);
    } else if round < |v.entries| {
      rr, p := DictStopsRead(reg, st, v, round, i, acc, depth);
    }
  }

  /** `DictStopsAtRead` at the end of a round. */
  lemma {:induction false} DictStopsRoundEnd(reg: Registry, st: State, v: Value, round: nat, acc: Dict, depth: nat)
    returns (rr: nat, p: nat)
    requires v.VDict? && round < |v.entries|
    ensures var r := DictRun(reg, st, v, round, |v.entries|, acc, depth);
      r.0.Err? ==>
        && rr < |v.entries| && p < |v.entries| && r == DictRead(reg, st, v.entries, rr, p, depth)
        && DictReadsInOrder(round, |v.entries|, rr, p) && DictFirstFailure(reg, st, v.entries, round, |v.entries|, rr, p, depth)
    decreases |v.entries| - round, 0, 0
  {
    rr, p := DictStopsAtRead(reg, st, v, round + 1, 0, acc, depth);
    assert DictRun(reg, st, v, round, |v.entries|, acc, depth) ==
           DictRun(reg, st, v, round + 1, 0, acc, depth) by {
      DictRoundEnd(reg, st, v, round, acc, depth);
    }
  }

  /** `DictStopsAtRead` at the read of entry `i`. */
  lemma {:induction false} DictStopsRead(reg: Registry, st: State, v: Value, round: nat, i: nat, acc: Dict, depth: nat)
    returns (rr: nat, p: nat)
    requires v.VDict? && i < |v.entries| && round < |v.entries|
    ensures var r := DictRun(reg, st, v, round, i, acc, depth);
      r.0.Err? ==>
        && rr < |v.entries| && p < |v.entries| && r == DictRead(reg, st, v.entries, rr, p, depth)
        && DictReadsInOrder(round, i, rr, p) && DictFirstFailure(reg, st, v.entries, round, i, rr, p, depth)
    decreases |v.entries| - round, |v.entries| - i, 0
  {
    DictStep(reg, st, v, round, i, acc, depth);
    if DictRead(reg, st, v.entries, round, i, depth).0.Ok? {
      rr, p := DictStopsAtRead(reg, st, v, round, i + 1, Put(acc, v.entries[i].0, DictRead(reg, st, v.entries, round, i, depth).0.value), depth);
    } else {
      rr, p := round, i;
    }
  }

  /** A dict comprehension that succeeds has read every entry without
      failure from round `round`, entry `i` on: the read of entry `p` in
      round `rr` succeeds. */
  lemma {:induction false} DictRunReads(reg: Registry, st: State, v: Value, round: nat, i: nat, acc: Dict, depth: nat, rr: nat, p: nat)
    requires v.VDict? && i <= |v.entries| && rr < |v.entries| && p < |v.entries|
    requires round < rr || (round == rr && i <= p)
    ensures DictRun(reg, st, v, round, i, acc, depth).0.Ok? ==> DictRead(reg, st, v.entries, rr, p, depth).0.Ok?
    decreases |v.entries| - round, |v.entries| - i, 1
  {
    if i == |v.entries| {
      DictRunReads(reg, st, v, round + 1, 0, acc, depth, rr, p);
      assert DictRun(reg, st, v, round, |v.entries|, acc, depth) == DictRun(reg, st, v, round + 1, 0, acc, depth) by {
        DictRoundEnd(reg, st, v, round, acc, depth);
      }
    } else {
      DictReadsFrom(reg, st, v, round, i, acc, depth, rr, p);
    }
  }

  /** `DictRunReads` at the read of entry `i`. */
  lemma {:induction false} DictReadsFrom(reg: Registry, st: State, v: Value, round: nat, i: nat, acc: Dict, depth: nat, rr: nat, p: nat)
    requires v.VDict? && i < |v.entries| && rr < |v.entries| && p < |v.entries|
    requires round < rr || (round == rr && i <= p)
    ensures DictRun(reg, st, v, round, i, acc, depth).0.Ok? ==> DictRead(reg, st, v.entries, rr, p, depth).0.Ok?
    decreases |v.entries| - round, |v.entries| - i, 0
  {
    DictStep(reg, st, v, round, i, acc, depth);
    if (round, i) != (rr, p) && DictRead(reg, st, v.entries, round, i, depth).0.Ok? {
      DictRunReads(reg, st, v, round, i + 1, Put(acc, v.entries[i].0, DictRead(reg, st, v.entries, round, i, depth).0.value), depth, rr, p);
    }
  }

  /** The state once every round of the dict comprehension has run. */
  function DictEnd(reg: Registry, st: State, d: Dict, depth: nat): State {
    DictStateAt(reg, st, d, |d|, 0, depth)
  }

  /** A dict comprehension that succeeds leaves the state of its last read. */
  lemma {:induction false} DictEndState(reg: Registry, st: State, v: Value, round: nat, i: nat, acc: Dict, depth: nat)
    requires v.VDict? && i <= |v.entries| && round <= |v.entries|
    requires round == |v.entries| ==> i == 0
    ensures DictRun(reg, st, v, round, i, acc, depth).0.Ok? ==>
              DictRun(reg, st, v, round, i, acc, depth).1 == DictEnd(reg, st, v.entries, depth)
    decreases |v.entries| - round, |v.entries| - i, 1
  {
    if round < |v.entries| && i == |v.entries| {
      DictEndRoundEnd(reg, st, v, round, acc, depth);
    } else if round < |v.entries| {
      DictEndRead(reg, st, v, round, i, acc, depth);
    }
  }

  /** `DictEndState` at the end of a round. */
  lemma {:induction false} DictEndRoundEnd(reg: Registry, st: State, v: Value, round: nat, acc: Dict, depth: nat)
    requires v.VDict? && round < |v.entries|
    ensures DictRun(reg, st, v, round, |v.entries|, acc, depth).0.Ok? ==>
              DictRun(reg, st, v, round, |v.entries|, acc, depth).1 == DictEnd(reg, st, v.entries, depth)
    decreases |v.entries| - round, 0, 0
  {
    DictEndState(reg, st, v, round + 1, 0, acc, depth);
    assert DictRun(reg, st, v, round, |v.entries|, acc, depth) == DictRun(reg, st, v, round + 1, 0, acc, depth) by {
      DictRoundEnd(reg, st, v, round, acc, depth);
    }
  }

  /** `DictEndState` at the read of entry `i`. */
  lemma {:induction false} DictEndRead(reg: Registry, st: State, v: Value, round: nat, i: nat, acc: Dict, depth: nat)
    requires v.VDict? && i < |v.entries| && round < |v.entries|
    ensures DictRun(reg, st, v, round, i, acc, depth).0.Ok? ==>
              DictRun(reg, st, v, round, i, acc, depth).1 == DictEnd(reg, st, v.entries, depth)
    decreases |v.entries| - round, |v.entries| - i, 0
  {
    DictStep(reg, st, v, round, i, acc, depth);
    if DictRead(reg, st, v.entries, round, i, depth).0.Ok? {
      DictEndState(reg, st, v, round, i + 1, Put(acc, v.entries[i].0, DictRead(reg, st, v.entries, round, i, depth).0.value), depth);
    }
  }

  /** `Resolve` on a dict value starts the comprehension in its own state. */
  lemma DictStart(reg: Registry, st: State, k: Option<string>, d: Dict, depth: nat)
    ensures Resolve(reg, st, k, VDict(d), depth) == DictRun(reg, st, VDict(d), 0, 0, [], depth)
  {
  }

  /** A dict value read with `Resolve`: the value stored for every key is
      the one its read gives in the last round of the comprehension, each
      read being made in the state the read before it left. */
  lemma DictResolvesLastRound(reg: Registry, st: State, k: Option<string>, d: Dict, depth: nat)
    requires UniqueKeys(d)
    ensures var r := Resolve(reg, st, k, VDict(d), depth);
      r.0.Ok? ==>
        && r.0.value.VDict?
        && (forall p :: 0 <= p < |d| ==>
              && DictRead(reg, st, d, |d| - 1, p, depth).0.Ok?
              && Get(r.0.value.entries, d[p].0) == Some(DictRead(reg, st, d, |d| - 1, p, depth).0.value))
  {
    var r := Resolve(reg, st, k, VDict(d), depth);
    DictStart(reg, st, k, d, depth);
    if d == [] {
      assert r == (Ok(VDict([])), st);
    }
    forall p | 0 <= p < |d|
      ensures r.0.Ok? ==> r.0.value.VDict? && DictRead(reg, st, d, |d| - 1, p, depth).0.Ok? &&
                          Get(r.0.value.entries, d[p].0) == Some(DictRead(reg, st, d, |d| - 1, p, depth).0.value)
    {
      DictLastRoundAt(reg, st, VDict(d), 0, 0, [], depth, p, DictRead(reg, st, d, |d| - 1, p, depth));
    }
    if d != [] && r.0.Ok? {
      assert DictRead(reg, st, d, |d| - 1, 0, depth).0.Ok?;
    }
    var last := |d| - 1;
    assert r.0.Ok? ==> r.0.value.VDict?;
    assert r.0.Ok? ==> forall p :: 0 <= p < |d| ==> DictRead(reg, st, d, last, p, depth).0.Ok?;
  }

  /** A dict value read with `Resolve` that succeeds leaves the state of the
      last read of the last round. */
  lemma DictResolveEndState(reg: Registry, st: State, k: Option<string>, d: Dict, depth: nat)
    ensures var r := Resolve(reg, st, k, VDict(d), depth);
      r.0.Ok? ==> r.1 == DictEnd(reg, st, d, depth)
  {
    DictStart(reg, st, k, d, depth);
    DictEndState(reg, st, VDict(d), 0, 0, [], depth);
  }

  /** A dict value read with `Resolve` fails exactly when some read of the
      comprehension fails, and then as the first of them does, rounds in
      turn and entries in order within a round. */
  lemma DictResolveFails(reg: Registry, st: State, k: Option<string>, d: Dict, depth: nat)
    ensures var r := Resolve(reg, st, k, VDict(d), depth);
      && (r.0.Err? <==> exists rr, p :: 0 <= rr < |d| && 0 <= p < |d| && DictRead(reg, st, d, rr, p, depth).0.Err?)
      && (r.0.Err? ==> exists rr, p :: 0 <= rr < |d| && 0 <= p < |d| && r == DictRead(reg, st, d, rr, p, depth) &&
                                       DictFirstFailure(reg, st, d, 0, 0, rr, p, depth))
  {
    var r := DictRun(reg, st, VDict(d), 0, 0, [], depth);
    DictStart(reg, st, k, d, depth);
    var rr, p := DictStopsAtRead(reg, st, VDict(d), 0, 0, [], depth);
    if r.0.Ok? {
      forall rr, p | 0 <= rr < |d| && 0 <= p < |d| ensures DictRead(reg, st, d, rr, p, depth).0.Ok? {
        DictRunReads(reg, st, VDict(d), 0, 0, [], depth, rr, p);
      }
    }
  }

  /** The keyword arguments a singleton receives: the entries under `prefix`
      with the prefix stripped, in order, unresolved. */
  function Attributes(td: Dict, prefix: string): (r: Dict)
    ensures forall a :: Get(r, a) == Get(td, prefix + a)
  {
    if td == [] then []
    else
      var rest := Attributes(td[1..], prefix);
      if StartsWith(td[0].0, prefix) then
        var b := td[0].0[|prefix|..];
        assert td[0].0 == prefix + b;
        forall a ensures (prefix + a)[|prefix|..] == a { }
        [(b, td[0].1)] + rest
      else
        forall a ensures StartsWith(prefix + a, prefix) { assert (prefix + a)[..|prefix|] == prefix; }
        rest
  }

  lemma {:induction false} AttributesUnique(td: Dict, prefix: string)
    requires UniqueKeys(td)
    ensures UniqueKeys(Attributes(td, prefix))
    decreases td
  {
    if td != [] {
      UniqueKeysTail(td);
      AttributesUnique(td[1..], prefix);
      var r := Attributes(td, prefix);
      if StartsWith(td[0].0, prefix) {
        FirstKeyNotInRest(td);
        var b := td[0].0[|prefix|..];
        assert td[0].0 == prefix + b;
        assert Get(Attributes(td[1..], prefix), b) == Get(td[1..], prefix + b);
        assert r[1..] == Attributes(td[1..], prefix);
        UniqueKeysCons(r);
      }
    }
  }

  /** Gathering keyword arguments from `td[i..]` adds exactly the keys of the
      attributes found there. */
  lemma {:induction false} CollectKeys(reg: Registry, st: State, td: Dict, prefix: string, i: nat, acc: Dict, depth: nat, a: string)
    requires i <= |td|
    ensures var r := Collect(reg, st, td, prefix, i, acc, depth);
      r.0.Ok? ==> (HasKey(r.0.value, a) <==> HasKey(acc, a) || HasKey(Attributes(td[i..], prefix), a))
    decreases |td| - i
  {
    if i < |td| {
      var rest := Attributes(td[i + 1..], prefix);
      assert td[i..][0] == td[i] && td[i..][1..] == td[i + 1..];
      if !StartsWith(td[i].0, prefix) {
        CollectKeys(reg, st, td, prefix, i + 1, acc, depth, a);
      } else {
        var key := td[i].0[|prefix|..];
        var v := td[i].1;
        assert Attributes(td[i..], prefix) == [(key, v)] + rest;
        HasKeyFirstOrRest([(key, v)] + rest, a);
        assert ([(key, v)] + rest)[1..] == rest;
        if v.VStr? && v.s == "" {
        } else if v.VStr? && v.s[0] in "@$" {
          var (x, st1) := PyObject(reg, st, Some(SingletonAttribute), v.s, depth);
          if x.Ok? {
            PutShape(acc, key, x.value);
            CollectKeys(reg, st1, td, prefix, i + 1, Put(acc, key, x.value), depth, a);
          }
        } else {
          PutShape(acc, key, v);
          CollectKeys(reg, st, td, prefix, i + 1, Put(acc, key, v), depth, a);
        }
      }
    }
  }

  /** An attribute that is not a reference is passed as it is; a key that
      is not an attribute keeps what `acc` held. */
  lemma {:induction false} CollectValues(reg: Registry, st: State, td: Dict, prefix: string, i: nat, acc: Dict, depth: nat, a: string)
    requires i <= |td| && UniqueKeys(Attributes(td[i..], prefix))
    ensures var r := Collect(reg, st, td, prefix, i, acc, depth);
      var attrs := Attributes(td[i..], prefix);
      r.0.Ok? ==>
        && (HasKey(attrs, a) && !IsReference(Get(attrs, a).value) ==> Get(r.0.value, a) == Get(attrs, a))
        && (!HasKey(attrs, a) ==> Get(r.0.value, a) == Get(acc, a))
    decreases |td| - i
  {
    if i < |td| {
      var rest := Attributes(td[i + 1..], prefix);
      assert td[i..][0] == td[i] && td[i..][1..] == td[i + 1..];
      if !StartsWith(td[i].0, prefix) {
        CollectValues(reg, st, td, prefix, i + 1, acc, depth, a);
      } else {
        var key := td[i].0[|prefix|..];
        var v := td[i].1;
        var attrs := [(key, v)] + rest;
        assert Attributes(td[i..], prefix) == attrs;
        assert attrs[1..] == rest;
        HasKeyFirstOrRest(attrs, a);
        UniqueKeysTail(attrs);
        FirstKeyNotInRest(attrs);
        if v.VStr? && v.s == "" {
        } else if v.VStr? && v.s[0] in "@$" {
          var (x, st1) := PyObject(reg, st, Some(SingletonAttribute), v.s, depth);
          if x.Ok? {
            CollectValues(reg, st1, td, prefix, i + 1, Put(acc, key, x.value), depth, a);
          }
        } else {
          CollectValues(reg, st, td, prefix, i + 1, Put(acc, key, v), depth, a);
        }
      }
    }
  }

  /** The state in which `Collect`, started in `st` at entry 0, reaches entry
      `i` of `td`: only the reads of reference attributes change it. */
  function CollectStateAt(reg: Registry, st: State, td: Dict, prefix: string, i: nat, depth: nat): State
    requires i <= |td|
    decreases i
  {
    if i == 0 then st
    else
      var s := CollectStateAt(reg, st, td, prefix, i - 1, depth);
      if StartsWith(td[i - 1].0, prefix) && IsReference(td[i - 1].1)
      then PyObject(reg, s, Some(SingletonAttribute), td[i - 1].1.s, depth).1
      else s
  }

  /** The read of the reference attribute at entry `p`, made as a singleton
      attribute in the state `Collect` reaches there. */
  function AttrRead(reg: Registry, st: State, td: Dict, prefix: string, p: nat, depth: nat): Reply
    requires p < |td| && IsReference(td[p].1)
  {
    PyObject(reg, CollectStateAt(reg, st, td, prefix, p, depth), Some(SingletonAttribute), td[p].1.s, depth)
  }

  /** `Collect` from entry `i` on, in the state it reaches there. */
  function CollectRun(reg: Registry, st: State, td: Dict, prefix: string, i: nat, acc: Dict, depth: nat): (Result<Dict>, State)
    requires i <= |td|
  {
    Collect(reg, CollectStateAt(reg, st, td, prefix, i, depth), td, prefix, i, acc, depth)
  }

  /** What the attribute at entry `i` passes: `IndexError` for an empty
      string, the read of a reference, any other value as it is. */
  function AttrValue(reg: Registry, st: State, td: Dict, prefix: string, i: nat, depth: nat): Result<Value>
    requires i < |td|
  {
    if td[i].1 == VStr("") then Err(IndexError)
    else if IsReference(td[i].1) then AttrRead(reg, st, td, prefix, i, depth).0
    else Ok(td[i].1)
  }

  /** The attribute at entry `p` stops `Collect`: it is empty, or a
      reference whose read fails. */
  predicate AttrFails(reg: Registry, st: State, td: Dict, prefix: string, p: nat, depth: nat)
    requires p < |td|
  {
    StartsWith(td[p].0, prefix) && AttrValue(reg, st, td, prefix, p, depth).Err?
  }

  /** Entry `p` holds the first failing attribute from entry `i` on. */
  predicate FirstFailingAttr(reg: Registry, st: State, td: Dict, prefix: string, i: nat, p: nat, depth: nat) {
    && i <= p < |td|
    && AttrFails(reg, st, td, prefix, p, depth)
    && forall q :: i <= q < p ==> !AttrFails(reg, st, td, prefix, q, depth)
  }

  /** The exception a failing attribute raises. */
  function AttrError(reg: Registry, st: State, td: Dict, prefix: string, p: nat, depth: nat): Error
    requires p < |td| && AttrFails(reg, st, td, prefix, p, depth)
  {
    AttrValue(reg, st, td, prefix, p, depth).error
  }

  /** One entry of `Collect`, in the state `CollectStateAt` gives. */
  lemma CollectStep(reg: Registry, st: State, td: Dict, prefix: string, i: nat, acc: Dict, depth: nat)
    requires i < |td|
    ensures var x := AttrValue(reg, st, td, prefix, i, depth);
      CollectRun(reg, st, td, prefix, i, acc, depth) ==
        if !StartsWith(td[i].0, prefix) then CollectRun(reg, st, td, prefix, i + 1, acc, depth)
        else if x.Err? then (Err(x.error), CollectStateAt(reg, st, td, prefix, i + 1, depth))
        else CollectRun(reg, st, td, prefix, i + 1, Put(acc, td[i].0[|prefix|..], x.value), depth)
  {
  }

  /** Two attributes under the same prefix at different entries of a dict
      with unique keys have different names. */
  lemma AttributeNamesDiffer(td: Dict, prefix: string, i: nat, p: nat)
    requires UniqueKeys(td) && i < |td| && p < |td| && i != p
    requires StartsWith(td[i].0, prefix) && StartsWith(td[p].0, prefix)
    ensures td[i].0[|prefix|..] != td[p].0[|prefix|..]
  {
    assert td[i].0 == prefix + td[i].0[|prefix|..];
    assert td[p].0 == prefix + td[p].0[|prefix|..];
  }

  /** The read `read` succeeded and `acc` holds its value at `a`. */
  predicate Stored(acc: Dict, a: string, read: Reply) {
    read.0.Ok? && Get(acc, a) == Some(read.0.value)
  }

  /** A gathering that succeeds holds at `a` the value of the read `read`. */
  predicate HoldsAttr(r: (Result<Dict>, State), a: string, read: Reply) {
    r.0.Ok? ==> Stored(r.0.value, a, read)
  }

  /** For the reference attribute at entry `p`: `Collect` from entry `i`
      that succeeds passes for it the value of its read. */
  lemma {:induction false} CollectRefAt(reg: Registry, st: State, td: Dict, prefix: string, i: nat, acc: Dict, depth: nat, p: nat)
    requires i <= |td| && p < |td| && UniqueKeys(td)
    requires StartsWith(td[p].0, prefix) && IsReference(td[p].1)
    requires p < i ==> Stored(acc, td[p].0[|prefix|..], AttrRead(reg, st, td, prefix, p, depth))
    ensures HoldsAttr(CollectRun(reg, st, td, prefix, i, acc, depth), td[p].0[|prefix|..], AttrRead(reg, st, td, prefix, p, depth))
    decreases |td| - i, 1
  {
    if i < |td| {
      CollectRefStep(reg, st, td, prefix, i, acc, depth, p);
    }
  }

  /** `CollectRefAt` at entry `i`. */
  lemma {:induction false} CollectRefStep(reg: Registry, st: State, td: Dict, prefix: string, i: nat, acc: Dict, depth: nat, p: nat)
    requires i < |td| && p < |td| && UniqueKeys(td)
    requires StartsWith(td[p].0, prefix) && IsReference(td[p].1)
    requires p < i ==> Stored(acc, td[p].0[|prefix|..], AttrRead(reg, st, td, prefix, p, depth))
    ensures HoldsAttr(CollectRun(reg, st, td, prefix, i, acc, depth), td[p].0[|prefix|..], AttrRead(reg, st, td, prefix, p, depth))
    decreases |td| - i, 0
  {
    CollectStep(reg, st, td, prefix, i, acc, depth);
    if !StartsWith(td[i].0, prefix) {
      CollectRefAt(reg, st, td, prefix, i + 1, acc, depth, p);
    } else if AttrValue(reg, st, td, prefix, i, depth).Ok? {
      CollectRefNext(reg, st, td, prefix, i, acc, depth, p, AttrValue(reg, st, td, prefix, i, depth).value);
    }
  }

  /** What `CollectRefAt` gives after the attribute at entry `i` is passed
      as `x`. */
  lemma {:induction false} CollectRefNext(reg: Registry, st: State, td: Dict, prefix: string, i: nat, acc: Dict, depth: nat, p: nat, x: Value)
    requires i < |td| && p < |td| && UniqueKeys(td)
    requires StartsWith(td[p].0, prefix) && IsReference(td[p].1) && StartsWith(td[i].0, prefix)
    requires p < i ==> Stored(acc, td[p].0[|prefix|..], AttrRead(reg, st, td, prefix, p, depth))
    requires p == i ==> AttrValue(reg, st, td, prefix, p, depth) == Ok(x)
    ensures HoldsAttr(CollectRun(reg, st, td, prefix, i + 1, Put(acc, td[i].0[|prefix|..], x), depth), td[p].0[|prefix|..], AttrRead(reg, st, td, prefix, p, depth))
    decreases |td| - i - 1, 2
  {
    CollectStoreRead(reg, st, td, prefix, i, acc, depth, p, x);
    CollectRefAt(reg, st, td, prefix, i + 1, Put(acc, td[i].0[|prefix|..], x), depth, p);
  }

  /** Passing the attribute at entry `i` keeps what has been passed for
      the attribute at entry `p`. */
  lemma CollectStoreRead(reg: Registry, st: State, td: Dict, prefix: string, i: nat, acc: Dict, depth: nat, p: nat, x: Value)
    requires i < |td| && p < |td| && UniqueKeys(td)
    requires StartsWith(td[p].0, prefix) && IsReference(td[p].1) && StartsWith(td[i].0, prefix)
    requires p < i ==> Stored(acc, td[p].0[|prefix|..], AttrRead(reg, st, td, prefix, p, depth))
    requires p == i ==> AttrValue(reg, st, td, prefix, p, depth) == Ok(x)
    ensures p < i + 1 ==> Stored(Put(acc, td[i].0[|prefix|..], x), td[p].0[|prefix|..], AttrRead(reg, st, td, prefix, p, depth))
  {
    if p < i {
      AttributeNamesDiffer(td, prefix, i, p);
    }
  }

  /** `Collect` from entry `i` that fails stops at the first failing
      attribute from there on, with its exception. */
  lemma {:induction false} CollectStops(reg: Registry, st: State, td: Dict, prefix: string, i: nat, acc: Dict, depth: nat)
    returns (p: nat)
    requires i <= |td|
    ensures CollectRun(reg, st, td, prefix, i, acc, depth).0.Err? ==>
      && FirstFailingAttr(reg, st, td, prefix, i, p, depth)
      && CollectRun(reg, st, td, prefix, i, acc, depth).0 == Err(AttrError(reg, st, td, prefix, p, depth))
    decreases |td| - i
  {
    p := i;
    if i < |td| {
      CollectStep(reg, st, td, prefix, i, acc, depth);
      if !StartsWith(td[i].0, prefix) {
        p := CollectStops(reg, st, td, prefix, i + 1, acc, depth);
      } else if AttrValue(reg, st, td, prefix, i, depth).Ok? {
        p := CollectStops(reg, st, td, prefix, i + 1, Put(acc, td[i].0[|prefix|..], AttrValue(reg, st, td, prefix, i, depth).value), depth);
      }
    }
  }

  /** `Collect` from entry `i` that succeeds met no failing attribute from
      there on. */
  lemma {:induction false} CollectPasses(reg: Registry, st: State, td: Dict, prefix: string, i: nat, acc: Dict, depth: nat, q: nat)
    requires i <= q < |td|
    ensures CollectRun(reg, st, td, prefix, i, acc, depth).0.Ok? ==> !AttrFails(reg, st, td, prefix, q, depth)
    decreases |td| - i
  {
    CollectStep(reg, st, td, prefix, i, acc, depth);
    if i == q {
    } else if !StartsWith(td[i].0, prefix) {
      CollectPasses(reg, st, td, prefix, i + 1, acc, depth, q);
    } else if AttrValue(reg, st, td, prefix, i, depth).Ok? {
      CollectPasses(reg, st, td, prefix, i + 1, Put(acc, td[i].0[|prefix|..], AttrValue(reg, st, td, prefix, i, depth).value), depth, q);
    }
  }

  /** Building the singleton at key `k` from `"@X()"` calls `X` once, last,
      with a keyword argument `a` for exactly the `to_dict()` entries
      `k + "/" + a`; those that are not references are passed unchanged. */
  lemma ConstructAtKey(reg: Registry, st: State, k: string, x: string, depth: nat)
    requires Valid(st) && Find(reg, x) == Ok(Factory)
    ensures var r := Construct(reg, st, Some(k), x, depth);
      r.0.Ok? ==>
        && |r.1.calls| > |st.calls|
        && r.0.value == VObj(|r.1.calls| - 1)
        && r.1.calls[|r.1.calls| - 1].callee == x
        && (forall a :: HasKey(r.1.calls[|r.1.calls| - 1].kwargs, a) <==> HasKey(ToDict(st), k + "/" + a))
        && (forall a :: HasKey(ToDict(st), k + "/" + a) && !IsReference(Get(ToDict(st), k + "/" + a).value)
              ==> Get(r.1.calls[|r.1.calls| - 1].kwargs, a) == Get(ToDict(st), k + "/" + a))
  {
    var td := ToDict(st);
    var prefix := k + "/";
    ToDictGet(st, k);
    AttributesUnique(td, prefix);
    assert td[0..] == td;
    var (kw, st1) := Collect(reg, st, td, prefix, 0, [], depth);
    assert ImportObject(reg, x) == Ok(VFunc(x));
    if kw.Ok? {
      forall a ensures HasKey(kw.value, a) <==> HasKey(td, prefix + a) {
        CollectKeys(reg, st, td, prefix, 0, [], depth, a);
        assert Get(Attributes(td, prefix), a) == Get(td, prefix + a);
      }
      forall a | HasKey(td, prefix + a) && !IsReference(Get(td, prefix + a).value)
        ensures Get(kw.value, a) == Get(td, prefix + a)
      {
        CollectValues(reg, st, td, prefix, 0, [], depth, a);
        assert Get(Attributes(td, prefix), a) == Get(td, prefix + a);
      }
      forall a ensures k + "/" + a == prefix + a { }
    }
  }

  /** Building the singleton at key `k` starts gathering its keyword
      arguments from `to_dict()` in its own state. */
  lemma ConstructCollects(reg: Registry, st: State, k: string, x: string, depth: nat)
    ensures var kw := CollectRun(reg, st, ToDict(st), k + "/", 0, [], depth);
      var r := Construct(reg, st, Some(k), x, depth);
      && (kw.0.Err? ==> r.0 == Err(kw.0.error))
      && (kw.0.Ok? && Find(reg, x) == Ok(Factory) ==>
            r.0.Ok? && |r.1.calls| > 0 && r.1.calls[|r.1.calls| - 1] == Call(x, kw.0.value))
  {
    assert CollectStateAt(reg, st, ToDict(st), k + "/", 0, depth) == st;
    assert Find(reg, x) == Ok(Factory) ==> ImportObject(reg, x) == Ok(VFunc(x));
  }

  /** Building the singleton at key `k`: the keyword argument `a` of a
      reference attribute, the entry `p` of `to_dict()`, is the value its
      read as a singleton attribute gives, in the state the reads of the
      attributes before it left. */
  lemma ConstructReferenceAttribute(reg: Registry, st: State, k: string, x: string, depth: nat, p: nat, a: string)
    requires Valid(st) && Find(reg, x) == Ok(Factory)
    requires p < |ToDict(st)| && ToDict(st)[p].0 == k + "/" + a && IsReference(ToDict(st)[p].1)
    ensures var r := Construct(reg, st, Some(k), x, depth);
      r.0.Ok? ==>
        && |r.1.calls| > 0
        && AttrRead(reg, st, ToDict(st), k + "/", p, depth).0.Ok?
        && Get(r.1.calls[|r.1.calls| - 1].kwargs, a) == Some(AttrRead(reg, st, ToDict(st), k + "/", p, depth).0.value)
  {
    ToDictGet(st, k);
    assert StartsWith(ToDict(st)[p].0, k + "/") && ToDict(st)[p].0[|k + "/"|..] == a;
    CollectRefAt(reg, st, ToDict(st), k + "/", 0, [], depth, p);
    ConstructCollects(reg, st, k, x, depth);
  }

  /** Building the singleton at key `k` fails as soon as one of its
      attributes does: with the exception of the first that fails; and when
      its factory can be called, only then. */
  lemma ConstructAttributeFails(reg: Registry, st: State, k: string, x: string, depth: nat)
    ensures var r := Construct(reg, st, Some(k), x, depth);
      && (forall p :: 0 <= p < |ToDict(st)| && AttrFails(reg, st, ToDict(st), k + "/", p, depth) ==> r.0.Err?)
      && (forall p :: FirstFailingAttr(reg, st, ToDict(st), k + "/", 0, p, depth) ==>
            r.0 == Err(AttrError(reg, st, ToDict(st), k + "/", p, depth)))
      && (Find(reg, x) == Ok(Factory) && r.0.Err? ==>
            exists p :: FirstFailingAttr(reg, st, ToDict(st), k + "/", 0, p, depth))
  {
    var kw := CollectRun(reg, st, ToDict(st), k + "/", 0, [], depth);
    ConstructCollects(reg, st, k, x, depth);
    var p0 := CollectStops(reg, st, ToDict(st), k + "/", 0, [], depth);
    forall p | 0 <= p < |ToDict(st)| && AttrFails(reg, st, ToDict(st), k + "/", p, depth)
      ensures kw.0.Err?
    {
      CollectPasses(reg, st, ToDict(st), k + "/", 0, [], depth, p);
    }
    forall p | FirstFailingAttr(reg, st, ToDict(st), k + "/", 0, p, depth)
      ensures p == p0
    {
      CollectPasses(reg, st, ToDict(st), k + "/", 0, [], depth, p);
    }
  }

  /** An attribute written as a constructor call `"@Y()"` makes building the
      singleton fail, with `AssertionError` when no attribute before it
      fails. */
  lemma ConstructorAttributeFails(reg: Registry, st: State, k: string, x: string, y: string, depth: nat, p: nat)
    requires p < |ToDict(st)| && StartsWith(ToDict(st)[p].0, k + "/") && ToDict(st)[p].1 == VStr("@" + y + "()")
    ensures Construct(reg, st, Some(k), x, depth).0.Err?
    ensures (forall q :: 0 <= q < p ==> !AttrFails(reg, st, ToDict(st), k + "/", q, depth)) ==>
              Construct(reg, st, Some(k), x, depth).0 == Err(AssertionError)
  {
    var s := "@" + y + "()";
    assert s[0] == '@' && s != "";
    AttributeConstructorRefused(reg, CollectStateAt(reg, st, ToDict(st), k + "/", p, depth), y, depth);
    assert AttrFails(reg, st, ToDict(st), k + "/", p, depth);
    assert AttrError(reg, st, ToDict(st), k + "/", p, depth) == AssertionError;
    ConstructAttributeFails(reg, st, k, x, depth);
    if forall q :: 0 <= q < p ==> !AttrFails(reg, st, ToDict(st), k + "/", q, depth) {
      assert FirstFailingAttr(reg, st, ToDict(st), k + "/", 0, p, depth);
    }
  }

  /** A top-level `"@X()"` read on a cache miss is that construction, and
      the object it builds is cached. */
  lemma ItemConstructs(reg: Registry, st: State, k: string, x: string, depth: nat)
    requires Raw(st, k) == Some(VStr("@" + x + "()")) && k != SingletonAttribute
    requires Get(st.singletons, k).None? || Get(st.singletons, k) == Some(VNone)
    ensures Item(reg, st, k, depth).0 == Construct(reg, st, Some(k), x, depth).0
    ensures Item(reg, st, k, depth).1.calls == Construct(reg, st, Some(k), x, depth).1.calls
  {
    var s := "@" + x + "()";
    assert StartsWith(s, "@") && EndsWith(s, "()") && s[1..|s| - 2] == x;
    assert Item(reg, st, k, depth) == Resolve(reg, st, Some(k), VStr(s), depth);
    assert Resolve(reg, st, Some(k), VStr(s), depth) == Memo(reg, st, k, s, depth);
    assert PyObject(reg, st, Some(k), s, depth) == Construct(reg, st, Some(k), x, depth);
  }

  /** `conf.get(k, default)` catches exactly the `AssertionError` of
      `self[k]`, keeping the state that read left behind; any other outcome
      of the read is its own. */
  lemma GetOrCatches(reg: Registry, st: State, k: string, default: Value)
    ensures Item(reg, st, k, MaxDepth).0 == Err(AssertionError) ==>
              GetOr(reg, st, k, default) == (Ok(default), Item(reg, st, k, MaxDepth).1)
    ensures Item(reg, st, k, MaxDepth).0 != Err(AssertionError) ==>
              GetOr(reg, st, k, default) == Item(reg, st, k, MaxDepth)
  {
  }

  /** `conf.get(k, default)` on a key no overlay and no conf dict holds. */
  lemma GetAbsent(reg: Registry, st: State, k: string, default: Value)
    requires Raw(st, k).None?
    ensures GetOr(reg, st, k, default) == (Ok(default), st)
  {
  }
}
