/** `interpolate_key(k, conf)` of `utils.py`: every `${inner}` of a key is
    replaced by `conf.get(inner)`, which must be a string. */
module Interpolation {
  import opened Values
  import opened Strings
  import opened Imports
  import opened ConfSpec
  import opened ConfProps
  import opened Models

  /** `k` after the placeholders `ms` have been replaced in turn, each read
      with `conf.get(inner)` just before its replacement. */
  function Substitute(reg: Registry, st: State, k: string, ms: seq<string>): (r: (Result<string>, State))
    ensures Frame(st, r.1)
    decreases ms
  {
    if ms == [] then (Ok(k), st)
    else
      var (x, st1) := GetOr(reg, st, ms[0], VNone);
      if x.Err? then (Err(x.error), st1)
      else if !x.value.VStr? then (Err(AssertionError), st1)
      else Substitute(reg, st1, Replace(k, "${" + ms[0] + "}", x.value.s), ms[1..])
  }

  /** The substituted key as `interpolate_key` returns it. */
  function AsKey(x: (Result<string>, State)): (Result<Option<string>>, State) {
    (if x.0.Err? then Err(x.0.error) else Ok(Some(x.0.value)), x.1)
  }

  /** `interpolate_key(k, conf)`: `None` and the empty key come back as they
      are; the placeholders are those of the key as given. */
  function InterpolateKey(reg: Registry, st: State, k: Option<string>): (r: (Result<Option<string>>, State))
    ensures r.0.Ok? ==> (r.0.value.Some? <==> k.Some?)
    ensures Frame(st, r.1)
  {
    if k.None? || k.value == "" then (Ok(k), st)
    else AsKey(Substitute(reg, st, k.value, Matches(k.value)))
  }

  /** The loop of `interpolate_key` over the matches of the key. */
  method Interpolate(k: Option<string>, conf: Conf) returns (r: Result<Option<string>>)
    requires conf.Valid()
    modifies conf, conf.world
    ensures (r, conf.Snapshot()) == InterpolateKey(conf.world.registry, old(conf.Snapshot()), k)
    ensures conf.Valid()
  {
    if k.None? || k.value == "" {
      return Ok(k);
    }
    var key := k.value;
    var ms := Matches(key);
    var i := 0;
    while i < |ms|
      invariant 0 <= i <= |ms| && conf.Valid()
      invariant InterpolateKey(conf.world.registry, old(conf.Snapshot()), k)
                == AsKey(Substitute(conf.world.registry, conf.Snapshot(), key, ms[i..]))
    {
      var x := conf.Get(ms[i], VNone);
      if x.Err? {
        return Err(x.error);
      }
      if !x.value.VStr? {
        return Err(AssertionError);
      }
      key := Replace(key, "${" + ms[i] + "}", x.value.s);
      i := i + 1;
    }
    return Ok(Some(key));
  }

  /** Every placeholder read first, in order, stopping at the first failure
      or non-string. */
  function ReadAll(reg: Registry, st: State, ms: seq<string>): (r: (Result<seq<string>>, State))
    ensures r.0.Ok? ==> |r.0.value| == |ms|
    decreases ms
  {
    if ms == [] then (Ok([]), st)
    else
      var (x, st1) := GetOr(reg, st, ms[0], VNone);
      if x.Err? then (Err(x.error), st1)
      else if !x.value.VStr? then (Err(AssertionError), st1)
      else
        var (rest, st2) := ReadAll(reg, st1, ms[1..]);
        if rest.Err? then (Err(rest.error), st2) else (Ok([x.value.s] + rest.value), st2)
  }

  /** Reading each placeholder just before its replacement is the same as
      reading them all first and then replacing them in order. */
  lemma {:induction false} ReadThenSubstitute(reg: Registry, st: State, k: string, ms: seq<string>)
    ensures Substitute(reg, st, k, ms) ==
      var (vals, st') := ReadAll(reg, st, ms);
      (if vals.Err? then Err(vals.error) else Ok(SubstituteAll(k, ms, vals.value)), st')
    decreases ms
  {
    if ms != [] {
      var (x, st1) := GetOr(reg, st, ms[0], VNone);
      if x.Ok? && x.value.VStr? {
        ReadThenSubstitute(reg, st1, Replace(k, "${" + ms[0] + "}", x.value.s), ms[1..]);
      }
    }
  }

  /** A key without `${` comes back unchanged, and nothing is read. */
  lemma NoPlaceholder(reg: Registry, st: State, k: string)
    requires !Contains(k, "${")
    ensures InterpolateKey(reg, st, Some(k)) == (Ok(Some(k)), st)
  {
    NoOpenerNoMatches(k);
  }

  /** A key that is exactly `${x}` becomes the string `conf.get(x)`; a
      value that is not a string, an absent key included, fails the
      assertion. */
  lemma WholeKey(reg: Registry, st: State, x: string)
    requires '}' !in x
    ensures var (v, st1) := GetOr(reg, st, x, VNone);
      InterpolateKey(reg, st, Some("${" + x + "}")) ==
        if v.Err? then (Err(v.error), st1)
        else if v.value.VStr? then (Ok(Some(v.value.s)), st1)
        else (Err(AssertionError), st1)
  {
    var k := "${" + x + "}";
    WholeKeyPlaceholder(x, "");
    var (v, st1) := GetOr(reg, st, x, VNone);
    if v.Ok? && v.value.VStr? {
      WholeKeyPlaceholder(x, v.value.s);
      assert Substitute(reg, st, k, [x]) == Substitute(reg, st1, v.value.s, []);
    }
  }

  /** In particular, a placeholder naming an absent key fails. */
  lemma AbsentPlaceholder(reg: Registry, st: State, x: string)
    requires '}' !in x && Raw(st, x).None?
    ensures InterpolateKey(reg, st, Some("${" + x + "}")) == (Err(AssertionError), st)
  {
    WholeKey(reg, st, x);
    GetAbsent(reg, st, x, VNone);
  }
}
