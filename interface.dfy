/** The module-level interface of `interface.py`: the global configuration
    and its context swap, the configuration key of each bound parameter,
    the input precedence chain, the validator dispatch and `to_dict`. */
module Interface {
  import opened Values
  import opened Strings
  import opened Imports
  import opened ConfSpec
  import opened Models
  import opened Trees
  import opened TreeProps
  import opened Interpolation
  import opened Plx

  // ---------------------------------------------------------------------
  // validate_conf

  /** What `validate_conf` can be given: `None`, a list or tuple, a
      callable (named), or anything else. */
  datatype Validable = NoValidator | Group(items: seq<Validable>) | Check(name: string) | Unsupported

  /** `validate_conf(v)`: the outcome and the validators called, in order;
      the validators named in `raising` raise when called. */
  function Validate(v: Validable, raising: set<string>): (r: (Outcome, seq<string>))
    decreases v, 1
  {
    match v
    case NoValidator => (Pass, [])
    case Check(n) => (if n in raising then Fail(ValidatorRaised(n)) else Pass, [n])
    case Group(items) => ValidateFrom(v, 0, raising)
    case Unsupported => (Fail(UnknownValidator), [])
  }

  /** The loop over a list or tuple from item `i` on. */
  function ValidateFrom(v: Validable, i: nat, raising: set<string>): (r: (Outcome, seq<string>))
    requires v.Group? && i <= |v.items|
    decreases v, 0, |v.items| - i
  {
    if i == |v.items| then (Pass, [])
    else
      var (out, called) := Validate(v.items[i], raising);
      if out.Fail? then (out, called)
      else
        var (out2, called2) := ValidateFrom(v, i + 1, raising);
        (out2, called + called2)
  }

  /** Every validator reachable in `v`, in order. */
  function Validators(v: Validable): seq<string>
    decreases v, 1
  {
    match v
    case Check(n) => [n]
    case Group(items) => ValidatorsFrom(v, 0)
    case _ => []
  }

  function ValidatorsFrom(v: Validable, i: nat): seq<string>
    requires v.Group? && i <= |v.items|
    decreases v, 0, |v.items| - i
  {
    if i == |v.items| then [] else Validators(v.items[i]) + ValidatorsFrom(v, i + 1)
  }

  /** `v` holds nothing `validate_conf` refuses. */
  predicate Supported(v: Validable)
    decreases v, 1
  {
    match v
    case Unsupported => false
    case Group(items) => SupportedFrom(v, 0)
    case _ => true
  }

  predicate SupportedFrom(v: Validable, i: nat)
    requires v.Group? && i <= |v.items|
    decreases v, 0, |v.items| - i
  {
    i == |v.items| || (Supported(v.items[i]) && SupportedFrom(v, i + 1))
  }

  /** The validators are called in order, each at most once, stopping at the
      first that raises or the first unsupported value; validation passes
      exactly when everything is supported and no validator raises, and
      then every validator has been called. */
  lemma {:induction false} ValidateCalls(v: Validable, raising: set<string>)
    ensures Validate(v, raising).1 <= Validators(v)
    ensures Validate(v, raising).0 == Pass <==>
              Supported(v) && forall n :: n in Validators(v) ==> n !in raising
    ensures Validate(v, raising).0 == Pass ==> Validate(v, raising).1 == Validators(v)
    ensures Validate(v, raising).0.Fail? && Validate(v, raising).0.error.ValidatorRaised? ==>
              var called := Validate(v, raising).1;
              called != [] && called[|called| - 1] == Validate(v, raising).0.error.name
              && called[|called| - 1] in raising
    decreases v, 1
  {
    if v.Group? { ValidateFromCalls(v, 0, raising); }
  }

  lemma {:induction false} ValidateFromCalls(v: Validable, i: nat, raising: set<string>)
    requires v.Group? && i <= |v.items|
    ensures ValidateFrom(v, i, raising).1 <= ValidatorsFrom(v, i)
    ensures ValidateFrom(v, i, raising).0 == Pass <==>
              SupportedFrom(v, i) && forall n :: n in ValidatorsFrom(v, i) ==> n !in raising
    ensures ValidateFrom(v, i, raising).0 == Pass ==> ValidateFrom(v, i, raising).1 == ValidatorsFrom(v, i)
    ensures ValidateFrom(v, i, raising).0.Fail? && ValidateFrom(v, i, raising).0.error.ValidatorRaised? ==>
              var called := ValidateFrom(v, i, raising).1;
              called != [] && called[|called| - 1] == ValidateFrom(v, i, raising).0.error.name
              && called[|called| - 1] in raising
    decreases v, 0, |v.items| - i
  {
    if i < |v.items| {
      ValidateCalls(v.items[i], raising);
      ValidateFromCalls(v, i + 1, raising);
      var (out, called) := Validate(v.items[i], raising);
      var (out2, called2) := ValidateFrom(v, i + 1, raising);
      if out.Pass? && out2.Fail? && out2.error.ValidatorRaised? {
        assert (called + called2)[|called + called2| - 1] == called2[|called2| - 1];
      }
    }
  }

  // ---------------------------------------------------------------------
  // The global configuration

  /** The module `interface.py`: the global `Conf` (`null` for `None`) and
      the validators called so far; the validators named in `raising`
      raise when called. */
  class Session {
    const raising: set<string>
    var globalConf: Conf?
    var validations: seq<string>

    constructor (raising: set<string>)
      ensures this.raising == raising && globalConf == null && validations == []
    {
      this.raising := raising;
      globalConf := null;
      validations := [];
    }

    /** `validate_conf(v)`. */
    method ValidateConf(v: Validable) returns (out: Outcome)
      modifies this
      ensures (out, validations) == (Validate(v, raising).0, old(validations) + Validate(v, raising).1)
      ensures globalConf == old(globalConf)
    {
      var res := Validate(v, raising);
      out := res.0;
      validations := validations + res.1;
    }

    /** `init(conf_dicts, overrides, strict, validate=v, ctx=ctx)`: a new
        `Conf` becomes the global and is validated, or with `ctx` is handed
        to a `ConfContext` that remembers the current global. */
    method Init(confDicts: seq<Dict>, overrides: Dict, strict: bool, v: Validable, ctx: bool, world: World)
      returns (r: Result<ConfContext?>)
      modifies this
      ensures Build(confDicts, overrides, strict).Err? ==>
                r == Err(Build(confDicts, overrides, strict).error) && unchanged(this)
      ensures Build(confDicts, overrides, strict).Ok? && ctx ==>
                && r.Ok? && r.value != null && fresh(r.value) && fresh(r.value.swappedConf)
                && r.value.session == this && r.value.oldConf == old(globalConf) && r.value.validate == v
                && r.value.swappedConf.original == Build(confDicts, overrides, strict).value
                && r.value.swappedConf.world == world && r.value.swappedConf.Valid()
                && unchanged(this)
      ensures Build(confDicts, overrides, strict).Ok? && !ctx ==>
                && globalConf != null && fresh(globalConf)
                && globalConf.original == Build(confDicts, overrides, strict).value
                && globalConf.world == world && globalConf.Valid()
                && validations == old(validations) + Validate(v, raising).1
                && (r.Ok? <==> Validate(v, raising).0 == Pass)
                && (r.Ok? ==> r.value == null)
                && (r.Err? ==> r.error == Validate(v, raising).0.error)
    {
      var c := Conf.New(confDicts, overrides, strict, world);
      if c.Err? {
        return Err(c.error);
      }
      if ctx {
        var cc := new ConfContext(this, globalConf, c.value, v);
        return Ok(cc);
      }
      globalConf := c.value;
      var out := ValidateConf(v);
      r := if out.Fail? then Err(out.error) else Ok(null);
    }

    /** `to_dict(*limit, flat=flat)`; with no global configuration, reading
        its `to_dict` raises `AttributeError`. */
    method ToDict(limit: seq<string>, flat: bool) returns (r: Result<Dict>)
      ensures globalConf == null ==> r == Err(AttributeError)
      ensures globalConf != null ==> r == Ok(View(ConfSpec.ToDict(globalConf.Snapshot()), limit, flat))
    {
      if globalConf == null {
        return Err(AttributeError);
      }
      var d := globalConf.ToDict();
      if limit != [] {
        d := WithKeys(d, limit, None);
      }
      if flat {
        d := Update([], Flattened(d, None));
      }
      r := Ok(d);
    }

    /** The keyword arguments `_get_call_overrides` finds for the bound
        parameters `params` under `subkeys`. */
    method GetCallOverrides(params: seq<Param>, subkeys: Option<string>) returns (r: Result<Dict>)
      requires globalConf != null ==> globalConf.Valid()
      modifies globalConf, if globalConf != null then globalConf.world else null
      ensures globalConf == old(globalConf)
      ensures globalConf == null ==> r == Err(AssertionError)
      ensures globalConf != null ==>
                (r, globalConf.Snapshot()) == CallOverrides(globalConf.world.registry, old(globalConf.Snapshot()), params, subkeys)
                && globalConf.Valid()
    {
      if globalConf == null {
        return Err(AssertionError);
      }
      var conf := globalConf;
      var sk := Interpolate(subkeys, conf);
      if sk.Err? {
        return Err(sk.error);
      }
      var ret: Dict := [];
      var i := 0;
      while i < |params|
        invariant 0 <= i <= |params| && conf.Valid() && globalConf == conf
        invariant CallOverrides(conf.world.registry, old(conf.Snapshot()), params, subkeys)
                  == OverridesFrom(conf.world.registry, conf.Snapshot(), params, sk.value, i, ret)
      {
        var plan := PlanKey(params[i], sk.value);
        if plan.Fails? {
          return Err(plan.error);
        }
        if plan.Lookup? {
          var key := Some(plan.key);
          if plan.interpolate {
            var k2 := Interpolate(Some(plan.key), conf);
            if k2.Err? {
              return Err(k2.error);
            }
            key := k2.value;
          }
          var x := conf.Get(key.value, plan.default);
          if x.Err? {
            return Err(x.error);
          }
          ret := Put(ret, params[i].name, x.value);
        }
        i := i + 1;
      }
      r := Ok(ret);
    }
  }

  /** `ConfContext(old_conf, swapped_conf, validate)`. */
  class ConfContext {
    const session: Session
    const oldConf: Conf?
    const swappedConf: Conf
    const validate: Validable

    constructor (session: Session, oldConf: Conf?, swappedConf: Conf, validate: Validable)
      ensures this.session == session && this.oldConf == oldConf
      ensures this.swappedConf == swappedConf && this.validate == validate
    {
      this.session := session;
      this.oldConf := oldConf;
      this.swappedConf := swappedConf;
      this.validate := validate;
    }

    /** `__enter__`: the swapped configuration becomes the global and is
        validated. */
    method Enter() returns (out: Outcome)
      modifies session
      ensures session.globalConf == swappedConf
      ensures (out, session.validations) ==
                (Validate(validate, session.raising).0, old(session.validations) + Validate(validate, session.raising).1)
    {
      session.globalConf := swappedConf;
      out := session.ValidateConf(validate);
    }

    /** `__exit__`: the configuration that was global when the context was
        made comes back. */
    method Exit()
      modifies session
      ensures session.globalConf == oldConf && session.validations == old(session.validations)
    {
      session.globalConf := oldConf;
    }
  }

  // ---------------------------------------------------------------------
  // to_dict

  /** `to_dict(*limit, flat=flat)` of the dict `d` the global `to_dict()`
      returned: the filter first, then the flattening. */
  function View(d: Dict, limit: seq<string>, flat: bool): Dict {
    if flat then Update([], Flattened(Limited(d, limit), None)) else Limited(d, limit)
  }

  /** `with_keys(d, limit)` when some keys are listed. */
  function Limited(d: Dict, limit: seq<string>): Dict {
    if limit != [] then WithKeys(d, limit, None) else d
  }

  /** Every value of `d` is something other than a dict. */
  predicate NoDicts(d: Dict) {
    forall i :: 0 <= i < |d| ==> !d[i].1.VDict?
  }

  lemma {:induction false} UpdateNoDicts(d: Dict, e: Dict)
    requires NoDicts(d) && NoDicts(e)
    ensures NoDicts(Update(d, e))
    decreases e
  {
    if e != [] {
      PutNoDicts(d, e[0].0, e[0].1);
      assert NoDicts(e[1..]) by {
        forall i | 0 <= i < |e| - 1 ensures !e[1..][i].1.VDict? { assert e[1..][i] == e[i + 1]; }
      }
      UpdateNoDicts(Put(d, e[0].0, e[0].1), e[1..]);
    }
  }

  lemma {:induction false} PutNoDicts(d: Dict, k: string, v: Value)
    requires NoDicts(d) && !v.VDict?
    ensures NoDicts(Put(d, k, v))
    decreases d
  {
    var r := Put(d, k, v);
    if d != [] && d[0].0 != k {
      PutNoDicts(d[1..], k, v);
      forall i | 0 <= i < |r| ensures !r[i].1.VDict? {
        if i > 0 { assert r[i] == Put(d[1..], k, v)[i - 1]; }
      }
    } else if d != [] {
      forall i | 0 <= i < |r| ensures !r[i].1.VDict? {
        if i > 0 { assert r[i] == d[i]; }
      }
    }
  }

  /** Some leaf of `d` has the dotted key `key`. */
  predicate LeafKey(d: Dict, key: string) {
    exists j :: 0 <= j < |Leaves(d)| && Dotted(None, Leaves(d)[j].0) == key
  }

  /** `to_dict(*limit, flat=True)` holds no nested dict, and its keys are
      exactly the dotted key paths of the leaves of the filtered dict. */
  lemma ViewFlat(d: Dict, limit: seq<string>)
    ensures NoDicts(View(d, limit, true))
    ensures forall key :: HasKey(View(d, limit, true), key) <==> LeafKey(Limited(d, limit), key)
  {
    var filtered := Limited(d, limit);
    var pairs := Flattened(filtered, None);
    FlattenedRendersLeaves(filtered, None);
    assert NoDicts(pairs) by {
      forall i | 0 <= i < |pairs| ensures !pairs[i].1.VDict? {
        assert pairs[i].1 == Leaves(filtered)[i].1;
      }
    }
    UpdateNoDicts([], pairs);
    forall key ensures HasKey(View(d, limit, true), key) <==> LeafKey(filtered, key) {
      UpdateHasKey([], pairs, key);
      if HasKey(pairs, key) {
        var j :| 0 <= j < |pairs| && pairs[j].0 == key;
        assert Dotted(None, Leaves(filtered)[j].0) == key;
      }
      if LeafKey(filtered, key) {
        var j :| 0 <= j < |Leaves(filtered)| && Dotted(None, Leaves(filtered)[j].0) == key;
        assert pairs[j].0 == key;
      }
    }
  }

  // ---------------------------------------------------------------------
  // _get_call_overrides

  /** What a parameter is bound to once defaults are applied: the function
      `value` itself, a `Value(key, default)` made by `value(...)`, or
      anything else. */
  datatype Bound = BareValue | ValueOf(key: Option<string>, default: Value) | Fixed

  datatype Param = Param(name: string, bound: Bound)

  /** Where a parameter is looked up: not at all, nowhere because deriving
      the key raised, or at `key` (interpolated first when `interpolate`)
      with `default`. */
  datatype Plan = Skip | Fails(error: Error) | Lookup(key: string, interpolate: bool, default: Value)

  /** The key derivation of `_get_call_overrides` for one parameter, with
      `subkeys` already interpolated. */
  function PlanKey(p: Param, subkeys: Option<string>): Plan {
    match p.bound
    case BareValue => Lookup(JoinKey(subkeys, p.name), false, VNone)
    case ValueOf(None, d) => Lookup(JoinKey(subkeys, p.name), false, d)
    case ValueOf(Some(key), d) =>
      if key == "" then Fails(IndexError)
      else if key[0] == '.' then Lookup(if subkeys.Some? && subkeys.value != "" then subkeys.value + key else key, true, d)
      else Lookup(key, true, d)
    case Fixed => Skip
  }

  /** The loop of `_get_call_overrides` from parameter `i` on, with `ret`
      so far. */
  function OverridesFrom(reg: Registry, st: State, params: seq<Param>, subkeys: Option<string>, i: nat, ret: Dict): (r: (Result<Dict>, State))
    requires i <= |params|
    decreases |params| - i
  {
    if i == |params| then (Ok(ret), st)
    else match PlanKey(params[i], subkeys)
      case Skip => OverridesFrom(reg, st, params, subkeys, i + 1, ret)
      case Fails(e) => (Err(e), st)
      case Lookup(key, interpolate, d) =>
        var (x, st2) := LookupValue(reg, st, key, interpolate, d);
        if x.Err? then (Err(x.error), st2)
        else OverridesFrom(reg, st2, params, subkeys, i + 1, Put(ret, params[i].name, x.value))
  }

  /** `global_conf.get(get_key, get_default)`, the key interpolated first
      when it came from `value(key)`. */
  function LookupValue(reg: Registry, st: State, key: string, interpolate: bool, d: Value): Reply {
    var (k, st1) := if interpolate then InterpolateKey(reg, st, Some(key)) else (Ok(Some(key)), st);
    if k.Err? then (Err(k.error), st1) else GetOr(reg, st1, k.value.value, d)
  }

  /** `_get_call_overrides` after binding: `subkeys` interpolated, then
      every configurable parameter looked up. */
  function CallOverrides(reg: Registry, st: State, params: seq<Param>, subkeys: Option<string>): (r: (Result<Dict>, State)) {
    var (sk, st1) := InterpolateKey(reg, st, subkeys);
    if sk.Err? then (Err(sk.error), st1) else OverridesFrom(reg, st1, params, sk.value, 0, [])
  }

  /** Parameter `n` is configurable: bound to `value` or a `Value`. */
  predicate Configurable(params: seq<Param>, i: nat, n: string) {
    exists j :: i <= j < |params| && params[j].name == n && !params[j].bound.Fixed?
  }

  lemma {:induction false} OverridesFromKeys(reg: Registry, st: State, params: seq<Param>, subkeys: Option<string>, i: nat, ret: Dict, n: string)
    requires i <= |params|
    ensures OverridesFrom(reg, st, params, subkeys, i, ret).0.Ok? ==>
              (HasKey(OverridesFrom(reg, st, params, subkeys, i, ret).0.value, n) <==> HasKey(ret, n) || Configurable(params, i, n))
    decreases |params| - i
  {
    if i < |params| {
      ConfigurableStep(params, i, n);
      match PlanKey(params[i], subkeys)
      case Skip =>
        assert OverridesFrom(reg, st, params, subkeys, i, ret) == OverridesFrom(reg, st, params, subkeys, i + 1, ret);
        OverridesFromKeys(reg, st, params, subkeys, i + 1, ret, n);
      case Fails(e) =>
      case Lookup(key, interpolate, d) =>
        var (x, st2) := LookupValue(reg, st, key, interpolate, d);
        if x.Ok? {
          var ret1 := Put(ret, params[i].name, x.value);
          assert OverridesFrom(reg, st, params, subkeys, i, ret) == OverridesFrom(reg, st2, params, subkeys, i + 1, ret1);
          PutHasKey(ret, params[i].name, x.value, n);
          OverridesFromKeys(reg, st2, params, subkeys, i + 1, ret1, n);
        }
    }
  }

  lemma ConfigurableStep(params: seq<Param>, i: nat, n: string)
    requires i < |params|
    ensures Configurable(params, i, n) <==>
      (params[i].name == n && !params[i].bound.Fixed?) || Configurable(params, i + 1, n)
  {
  }

  /** The keyword arguments found are exactly the configurable parameters. */
  lemma OverridesKeys(reg: Registry, st: State, params: seq<Param>, subkeys: Option<string>, n: string)
    ensures CallOverrides(reg, st, params, subkeys).0.Ok? ==>
              (HasKey(CallOverrides(reg, st, params, subkeys).0.value, n) <==> Configurable(params, 0, n))
  {
    var (sk, st1) := InterpolateKey(reg, st, subkeys);
    if sk.Ok? { OverridesFromKeys(reg, st1, params, sk.value, 0, [], n); }
  }

  /** Under non-empty subkeys `s`, a bare or key-less parameter `n` is
      looked up at `s.n`, and without them at `n`. A key with a leading '.'
      is relative: it is appended to non-empty subkeys and used as it is
      otherwise. Any other key is absolute, and an empty one raises. */
  lemma KeyDerivation(n: string, s: Option<string>, d: Value, key: string)
    ensures s.Some? && s.value != "" ==>
      && PlanKey(Param(n, BareValue), s) == Lookup(s.value + "." + n, false, VNone)
      && PlanKey(Param(n, ValueOf(None, d)), s) == Lookup(s.value + "." + n, false, d)
    ensures s.None? || s.value == "" ==>
      && PlanKey(Param(n, BareValue), s) == Lookup(n, false, VNone)
      && PlanKey(Param(n, ValueOf(None, d)), s) == Lookup(n, false, d)
    ensures key != "" && key[0] == '.' ==>
      PlanKey(Param(n, ValueOf(Some(key), d)), s) == Lookup(if s.Some? && s.value != "" then s.value + key else key, true, d)
    ensures key != "" && key[0] == '.' && s.Some? && s.value != "" ==>
      var p := PlanKey(Param(n, ValueOf(Some(key), d)), s).key;
      p[..|s.value|] == s.value && p[|s.value|] == '.'
    ensures key != "" && key[0] != '.' ==> PlanKey(Param(n, ValueOf(Some(key), d)), s) == Lookup(key, true, d)
    ensures PlanKey(Param(n, ValueOf(Some(""), d)), s) == Fails(IndexError)
    ensures PlanKey(Param(n, Fixed), s) == Skip
  {
    if key != "" && key[0] == '.' && s.Some? && s.value != "" {
      assert (s.value + key)[|s.value|] == key[0];
    }
  }

  // ---------------------------------------------------------------------
  // get_input

  /** `_get_cli_arg(name)` or `plx.inputs().get(name)` over the values
      given: `None` both when absent and when given as `None`. */
  function Given(d: Dict, name: string): (r: Option<Value>)
    ensures r.Some? ==> r.value != VNone
  {
    if HasKey(d, name) && Get(d, name).value != VNone then Get(d, name) else None
  }

  /** `get_input(k, alias, default)`: `cli` holds the command-line
      arguments and `plxIn` the platform inputs; `repl` is the platform's
      dot replacement. The platform name is encoded before any choice is
      made; an empty alias leaves the alias argument unbound. */
  function GetInput(k: string, alias: Option<string>, default: Value, cli: Dict, plxIn: Dict, repl: string): Result<Value> {
    match EncInput(k, repl)
    case Err(e) => Err(e)
    case Ok(enc) =>
      if alias == Some("") then Err(NameError)
      else if alias.Some? && Given(cli, "-" + alias.value).Some? then Ok(Given(cli, "-" + alias.value).value)
      else if Given(cli, "--" + k).Some? then Ok(Given(cli, "--" + k).value)
      else if Given(plxIn, enc).Some? then Ok(Given(plxIn, enc).value)
      else Ok(default)
  }

  /** The first given value among `cands`, else `default`. */
  function FirstGiven(cands: seq<Option<Value>>, default: Value): (r: Value)
    ensures r == default || exists i :: 0 <= i < |cands| && cands[i] == Some(r)
    ensures (forall i | 0 <= i < |cands| :: cands[i].None?) ==> r == default
    ensures forall i | 0 <= i < |cands| && cands[i].Some? && (forall j | 0 <= j < i :: cands[j].None?) :: r == cands[i].value
  {
    if cands == [] then default
    else if cands[0].Some? then cands[0].value
    else
      var r := FirstGiven(cands[1..], default);
      assert r != default ==> exists i :: 0 <= i < |cands| - 1 && cands[1..][i] == Some(r);
      if r != default then
        var i :| 0 <= i < |cands| - 1 && cands[1..][i] == Some(r);
        assert cands[i + 1] == Some(r);
        r
      else r
  }

  /** `get_input` fails exactly when the name holds the replacement (the
      assertion, checked first) or the alias is empty; otherwise it returns
      the alias argument, the long argument, the platform input or the
      default, the first of them that is given. */
  lemma GetInputPrecedence(k: string, alias: Option<string>, default: Value, cli: Dict, plxIn: Dict, repl: string)
    ensures Contains(k, repl) ==> GetInput(k, alias, default, cli, plxIn, repl) == Err(AssertionError)
    ensures !Contains(k, repl) && alias == Some("") ==> GetInput(k, alias, default, cli, plxIn, repl) == Err(NameError)
    ensures !Contains(k, repl) && alias != Some("") ==>
      GetInput(k, alias, default, cli, plxIn, repl) ==
        Ok(FirstGiven((if alias.Some? then [Given(cli, "-" + alias.value)] else [])
                      + [Given(cli, "--" + k), Given(plxIn, EncInput(k, repl).value)], default))
  {
    if !Contains(k, repl) && alias != Some("") {
      var last := [Given(plxIn, EncInput(k, repl).value)];
      var rest := [Given(cli, "--" + k)] + last;
      assert last[1..] == [] && rest[1..] == last;
      assert FirstGiven(last, default) == if last[0].Some? then last[0].value else default;
      assert FirstGiven(rest, default) == if rest[0].Some? then rest[0].value else FirstGiven(last, default);
      if alias.Some? {
        var all := [Given(cli, "-" + alias.value)] + rest;
        assert all[1..] == rest;
        assert FirstGiven(all, default) == if all[0].Some? then all[0].value else FirstGiven(rest, default);
      }
    }
  }
}
