/** Python values as confr stores them, Python dicts as ordered association
    lists, and Python's `==` on those values. */
module Values {

  datatype Option<+T> = None | Some(value: T)

  /** What a Python call returns: a value, or the exception it raises. */
  datatype Result<+T> = Ok(value: T) | Err(error: Error)

  /** What a Python statement that returns nothing does: finish, or raise. */
  datatype Outcome = Pass | Fail(error: Error)

  datatype Error =
    | AssertionError           // a failed `assert`; the only exception `Conf.get` recovers from
    | IndexError               // `s[0]` on an empty string, `stack[-1]` on an empty list
    | KeyError                 // `d[k]` for a key `d` does not hold
    | ValueError               // `importlib.import_module("")`
    | ImportError              // no module at a dotted path
    | TypeError                // calling something that is not callable
    | RecursionError           // nested lookups beyond the interpreter's recursion limit
    | AttributeError           // reading an attribute that does not exist
    | RuntimeError             // resetting a context-variable token a second time
    | NameError                // reading a local variable that was never bound
    | StrictConflict(key: string)      // `raise Exception("can't override ...")` in strict mode
    | UnknownValidator                 // `raise Exception("Unknown type ...")` in validate_conf
    | ValidatorRaised(name: string)    // a validator callable raised

  /** A configuration value. `VObj(id)` is an object built by a constructor
      call (its identity is the position of that call in the call log);
      `VFunc(path)` is an imported callable that was not called. */
  datatype Value =
    | VNone
    | VInt(i: int)
    | VStr(s: string)
    | VList(items: seq<Value>)
    | VDict(entries: seq<(string, Value)>)
    | VObj(id: nat)
    | VFunc(path: string)

  /** A Python dict with string keys, in insertion order. */
  type Dict = seq<(string, Value)>

  predicate HasKey(d: Dict, k: string) {
    exists i :: 0 <= i < |d| && d[i].0 == k
  }

  function Keys(d: Dict): (ks: seq<string>)
    ensures |ks| == |d|
    ensures forall i :: 0 <= i < |d| ==> ks[i] == d[i].0
  {
    if d == [] then [] else [d[0].0] + Keys(d[1..])
  }

  lemma HasKeyInKeys(d: Dict, k: string)
    ensures HasKey(d, k) <==> k in Keys(d)
  {
    if k in Keys(d) { var i :| 0 <= i < |d| && Keys(d)[i] == k; assert d[i].0 == k; }
  }

  predicate UniqueKeys(d: Dict) {
    forall i, j :: 0 <= i < j < |d| ==> d[i].0 != d[j].0
  }

  /** `d.get(k)`, with absence kept apart from a stored `None`. */
  function Get(d: Dict, k: string): (r: Option<Value>)
    ensures r.Some? <==> HasKey(d, k)
    ensures r.Some? ==> exists i :: 0 <= i < |d| && d[i] == (k, r.value)
  {
    if d == [] then None
    else if d[0].0 == k then Some(d[0].1)
    else
      var r := Get(d[1..], k);
      assert HasKey(d, k) <==> HasKey(d[1..], k) by {
        if HasKey(d, k) { var i :| 0 <= i < |d| && d[i].0 == k; assert d[1..][i - 1].0 == k; }
        if HasKey(d[1..], k) { var i :| 0 <= i < |d| - 1 && d[1..][i].0 == k; assert d[i + 1].0 == k; }
      }
      if r.Some? then
        var i :| 0 <= i < |d[1..]| && d[1..][i] == (k, r.value);
        assert d[i + 1] == (k, r.value);
        r
      else r
  }

  /** `d[k] = v`: a present key keeps its position, a new key goes last. */
  function Put(d: Dict, k: string, v: Value): (r: Dict)
    ensures Get(r, k) == Some(v)
    ensures forall j :: j != k ==> Get(r, j) == Get(d, j)
  {
    if d == [] then [(k, v)]
    else if d[0].0 == k then [(k, v)] + d[1..]
    else [d[0]] + Put(d[1..], k, v)
  }

  /** What `Put` does to the keys: a present key keeps its place, a new
      key goes last, and no other key appears or disappears. */
  lemma PutShape(d: Dict, k: string, v: Value)
    ensures HasKey(d, k) ==> Keys(Put(d, k, v)) == Keys(d)
    ensures !HasKey(d, k) ==> Put(d, k, v) == d + [(k, v)]
    ensures forall j :: HasKey(Put(d, k, v), j) <==> j == k || HasKey(d, j)
    ensures UniqueKeys(d) ==> UniqueKeys(Put(d, k, v))
  {
    PutKeys(d, k, v);
    forall j ensures HasKey(Put(d, k, v), j) <==> j == k || HasKey(d, j) {
      PutHasKey(d, k, v, j);
    }
    if UniqueKeys(d) {
      PutUnique(d, k, v);
    }
  }

  lemma PutKeys(d: Dict, k: string, v: Value)
    ensures HasKey(d, k) ==> Keys(Put(d, k, v)) == Keys(d)
    ensures !HasKey(d, k) ==> Put(d, k, v) == d + [(k, v)]
  {
    if HasKey(d, k) {
      PutPresent(d, k, v);
      assert Keys(Put(d, k, v)) == Keys(d);
    } else {
      PutAbsent(d, k, v);
    }
  }

  lemma {:induction false} PutPresent(d: Dict, k: string, v: Value)
    requires HasKey(d, k)
    ensures |Put(d, k, v)| == |d|
    ensures forall i :: 0 <= i < |d| ==> Put(d, k, v)[i].0 == d[i].0
  {
    if d[0].0 != k {
      HasKeyFirstOrRest(d, k);
      PutPresent(d[1..], k, v);
      var r := Put(d, k, v);
      assert r == [d[0]] + Put(d[1..], k, v);
      forall i | 0 < i < |d| ensures r[i].0 == d[i].0 {
        assert r[i] == Put(d[1..], k, v)[i - 1];
      }
    }
  }

  lemma {:induction false} PutAbsent(d: Dict, k: string, v: Value)
    requires !HasKey(d, k)
    ensures Put(d, k, v) == d + [(k, v)]
  {
    if d != [] {
      assert d[0].0 != k;
      assert !HasKey(d[1..], k) by {
        forall j | 0 <= j < |d| - 1 ensures d[1..][j].0 != k { assert d[1..][j] == d[j + 1]; }
      }
      PutAbsent(d[1..], k, v);
      calc {
        Put(d, k, v);
        [d[0]] + Put(d[1..], k, v);
        [d[0]] + (d[1..] + [(k, v)]);
        { assert d == [d[0]] + d[1..]; }
        d + [(k, v)];
      }
    }
  }

  lemma {:induction false} PutHasKey(d: Dict, k: string, v: Value, j: string)
    ensures HasKey(Put(d, k, v), j) <==> j == k || HasKey(d, j)
  {
    if d == [] {
      assert Put(d, k, v)[0] == (k, v);
    } else if d[0].0 != k {
      PutHasKey(d[1..], k, v, j);
      HasKeyFirstOrRest(d, j);
      HasKeyFirstOrRest(Put(d, k, v), j);
      assert Put(d, k, v)[1..] == Put(d[1..], k, v);
    } else {
      HasKeyFirstOrRest(d, j);
      HasKeyFirstOrRest(Put(d, k, v), j);
      assert Put(d, k, v)[1..] == d[1..];
    }
  }

  lemma {:induction false} PutUnique(d: Dict, k: string, v: Value)
    requires UniqueKeys(d)
    ensures UniqueKeys(Put(d, k, v))
  {
    if d != [] && d[0].0 != k {
      UniqueKeysTail(d);
      PutUnique(d[1..], k, v);
      FirstKeyNotInRest(d);
      var r := Put(d, k, v);
      assert r[1..] == Put(d[1..], k, v);
      PutHasKey(d[1..], k, v, d[0].0);
      UniqueKeysCons(r);
    } else if d != [] {
      var r := Put(d, k, v);
      forall i, j | 0 <= i < j < |r| ensures r[i].0 != r[j].0 {
        assert r[i].0 == d[i].0 && r[j].0 == d[j].0;
      }
    }
  }

  /** `d.update(e)`. */
  function Update(d: Dict, e: Dict): Dict
    decreases e
  {
    if e == [] then d else Update(Put(d, e[0].0, e[0].1), e[1..])
  }

  lemma {:induction false} UpdateHasKey(d: Dict, e: Dict, k: string)
    ensures HasKey(Update(d, e), k) <==> HasKey(d, k) || HasKey(e, k)
    ensures UniqueKeys(d) ==> UniqueKeys(Update(d, e))
    decreases e
  {
    if e != [] {
      PutShape(d, e[0].0, e[0].1);
      UpdateHasKey(Put(d, e[0].0, e[0].1), e[1..], k);
      HasKeyFirstOrRest(e, k);
    }
  }

  /** After `d.update(e)`, a key of `e` holds `e`'s value and every other key
      holds what it held in `d`. */
  lemma {:induction false} UpdateGet(d: Dict, e: Dict, k: string)
    requires UniqueKeys(e)
    ensures Get(Update(d, e), k) == if HasKey(e, k) then Get(e, k) else Get(d, k)
    decreases e
  {
    if e != [] {
      UniqueKeysTail(e);
      FirstKeyNotInRest(e);
      UpdateGet(Put(d, e[0].0, e[0].1), e[1..], k);
      HasKeyFirstOrRest(e, k);
    }
  }

  lemma HasKeyFirstOrRest(d: Dict, k: string)
    requires d != []
    ensures HasKey(d, k) <==> d[0].0 == k || HasKey(d[1..], k)
  {
    if HasKey(d, k) && d[0].0 != k { var i :| 0 <= i < |d| && d[i].0 == k; assert d[1..][i - 1].0 == k; }
    if HasKey(d[1..], k) { var i :| 0 <= i < |d| - 1 && d[1..][i].0 == k; assert d[i + 1].0 == k; }
  }

  lemma UniqueKeysTail(d: Dict)
    requires d != [] && UniqueKeys(d)
    ensures UniqueKeys(d[1..])
  {
    forall i, j | 0 <= i < j < |d| - 1 ensures d[1..][i].0 != d[1..][j].0 {
      assert d[1..][i] == d[i + 1] && d[1..][j] == d[j + 1];
    }
  }

  lemma FirstKeyNotInRest(d: Dict)
    requires d != [] && UniqueKeys(d)
    ensures !HasKey(d[1..], d[0].0)
  {
    forall i | 0 <= i < |d| - 1 ensures d[1..][i].0 != d[0].0 {
      assert d[1..][i] == d[i + 1];
    }
  }

  lemma UniqueKeysCons(d: Dict)
    requires d != [] && UniqueKeys(d[1..]) && !HasKey(d[1..], d[0].0)
    ensures UniqueKeys(d)
  {
    forall i, j | 0 <= i < j < |d| ensures d[i].0 != d[j].0 {
      assert d[j] == d[1..][j - 1];
      if i > 0 { assert d[i] == d[1..][i - 1]; }
    }
  }

  /** Python's `==`: lists compare element by element, dicts compare as
      mappings (insertion order does not matter), objects by identity. */
  predicate PyEq(a: Value, b: Value)
    decreases a, 0
  {
    match a
    case VList(xs) =>
      b.VList? && |xs| == |b.items| && forall i :: 0 <= i < |xs| ==> PyEq(xs[i], b.items[i])
    case VDict(xs) =>
      && b.VDict?
      && (forall i :: 0 <= i < |b.entries| ==> HasKey(xs, b.entries[i].0))
      && (forall i :: 0 <= i < |xs| ==> HoldsEqual(b.entries, xs[i].0, xs[i].1))
    case _ => a == b
  }

  /** `d` maps `k` to a value `==` to `v`. */
  predicate HoldsEqual(d: Dict, k: string, v: Value)
    decreases v, 1
  {
    exists j :: 0 <= j < |d| && d[j].0 == k && PyEq(v, d[j].1)
  }

  /** Every value is `==` to itself (`ModifiedConf.__exit__` relies on it). */
  lemma {:induction false} PyEqReflexive(a: Value)
    ensures PyEq(a, a)
    decreases a
  {
    match a
    case VList(xs) =>
      forall i | 0 <= i < |xs| ensures PyEq(xs[i], xs[i]) { PyEqReflexive(xs[i]); }
    case VDict(xs) =>
      forall i | 0 <= i < |xs| ensures HasKey(xs, xs[i].0) {
        assert xs[i].0 == xs[i].0;
      }
      forall i | 0 <= i < |xs| ensures HoldsEqual(xs, xs[i].0, xs[i].1) {
        PyEqReflexive(xs[i].1);
        assert xs[i].0 == xs[i].0 && PyEq(xs[i].1, xs[i].1);
      }
    case _ =>
  }
}
