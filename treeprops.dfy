/** Properties of the dict-tree helpers. */
module TreeProps {
  import opened Values
  import opened Trees

  /** Every dict in the tree, at any depth, has distinct keys. */
  predicate WellFormed(d: Dict)
    decreases VDict(d)
  {
    && UniqueKeys(d)
    && forall i :: 0 <= i < |d| ==> d[i] in d && (d[i].1.VDict? ==> WellFormed(d[i].1.entries))
  }

  lemma GetAt(d: Dict, i: nat)
    requires UniqueKeys(d) && i < |d|
    ensures Get(d, d[i].0) == Some(d[i].1)
  {
    var r := Get(d, d[i].0);
    var j :| 0 <= j < |d| && d[j] == (d[i].0, r.value);
    assert i == j;
  }

  /** Two dicts with distinct keys that hold the same keys in the same order
      and the same value at each key are the same dict. */
  lemma DictExt(a: Dict, b: Dict)
    requires UniqueKeys(a) && UniqueKeys(b) && Keys(a) == Keys(b)
    requires forall k :: Get(a, k) == Get(b, k)
    ensures a == b
  {
    forall i | 0 <= i < |a| ensures a[i] == b[i] {
      GetAt(a, i);
      GetAt(b, i);
    }
  }

  lemma HasKeySlice(d: Dict, i: nat, k: string)
    requires i < |d|
    ensures HasKey(d[i..], k) <==> d[i].0 == k || HasKey(d[i + 1..], k)
    ensures d[i..][1..] == d[i + 1..] && d[i..][0] == d[i]
  {
    HasKeyFirstOrRest(d[i..], k);
    assert d[i..][1..] == d[i + 1..];
  }

  // ---------------------------------------------------------------------
  // recursive_merge

  lemma {:induction false} MergeFromKeys(src: Dict, i: nat, dst: Dict, k: string)
    requires i <= |src|
    ensures HasKey(MergeFrom(src, i, dst), k) <==> HasKey(dst, k) || HasKey(src[i..], k)
    ensures !HasKey(src[i..], k) ==> Get(MergeFrom(src, i, dst), k) == Get(dst, k)
    decreases |src| - i
  {
    if i < |src| {
      HasKeySlice(src, i, k);
      var dst1 := MergeEntry(dst, src[i].0, src[i].1);
      PutShape(dst, src[i].0, MergedValue(Get(dst, src[i].0), src[i].1));
      MergeFromKeys(src, i + 1, dst1, k);
    }
  }

  lemma {:induction false} MergeFromAt(src: Dict, i: nat, dst: Dict, k: string)
    requires i <= |src| && UniqueKeys(src[i..]) && HasKey(src[i..], k)
    ensures Get(MergeFrom(src, i, dst), k) == Some(MergedValue(Get(dst, k), Get(src[i..], k).value))
    decreases |src| - i
  {
    HasKeySlice(src, i, k);
    UniqueKeysTail(src[i..]);
    FirstKeyNotInRest(src[i..]);
    var dst1 := MergeEntry(dst, src[i].0, src[i].1);
    if src[i].0 == k {
      MergeFromKeys(src, i + 1, dst1, k);
    } else {
      MergeFromAt(src, i + 1, dst1, k);
    }
  }

  /** After `recursive_merge(src, dst)`, `dst` holds every key of `src` and
      of its own; a key only `dst` had is unchanged; a key of `src` holds
      `src`'s value unless both sides held dicts, which are merged. */
  lemma MergeGet(src: Dict, dst: Dict, k: string)
    requires UniqueKeys(src)
    ensures HasKey(Merge(src, dst), k) <==> HasKey(src, k) || HasKey(dst, k)
    ensures Get(Merge(src, dst), k) ==
      if HasKey(src, k) then Some(MergedValue(Get(dst, k), Get(src, k).value)) else Get(dst, k)
  {
    assert src[0..] == src;
    MergeFromKeys(src, 0, dst, k);
    if HasKey(src, k) { MergeFromAt(src, 0, dst, k); }
  }

  /** The value at a key path. */
  function At(d: Dict, path: seq<string>): Option<Value>
    decreases |path|
  {
    if path == [] then None
    else match Get(d, path[0])
      case None => None
      case Some(v) =>
        if |path| == 1 then Some(v)
        else if v.VDict? then At(v.entries, path[1..])
        else None
  }

  /** No value of `src` along `path` replaces what `dst` holds there:
      every key of the path that `src` has leads to a dict on both sides. */
  predicate Untouched(src: Dict, dst: Dict, path: seq<string>)
    decreases |path|
  {
    && path != []
    && var k := path[0];
       !HasKey(src, k)
       || (&& |path| > 1
           && Get(src, k).value.VDict?
           && Get(dst, k).Some? && Get(dst, k).value.VDict?
           && Untouched(Get(src, k).value.entries, Get(dst, k).value.entries, path[1..]))
  }

  /** A leaf of `dst` survives the merge unless `src` replaces it or one of
      the dicts above it. */
  lemma {:induction false} MergeKeepsLeaves(src: Dict, dst: Dict, path: seq<string>)
    requires WellFormed(src) && Untouched(src, dst, path)
    ensures At(Merge(src, dst), path) == At(dst, path)
    decreases |path|
  {
    var k := path[0];
    MergeGet(src, dst, k);
    if HasKey(src, k) {
      var sv := Get(src, k).value;
      var j :| 0 <= j < |src| && src[j] == (k, sv);
      assert src[j] in src && WellFormed(sv.entries);
      MergeKeepsLeaves(sv.entries, Get(dst, k).value.entries, path[1..]);
    }
  }

  /** The nested case of tests/test_utils.py: a dict of `src` meets a
      dict of `dst` and the two merge, while a string of `dst` is replaced
      by a dict of `src`. */
  lemma MergeExample()
    ensures Merge([("k3", VDict([("k4", VDict([("k5", VStr("a"))]))]))],
                  [("k3", VDict([("k4", VStr("b")), ("k41", VStr("c"))]))])
      == [("k3", VDict([("k4", VDict([("k5", VStr("a"))])), ("k41", VStr("c"))]))]
  {
    var inner: Dict := [("k4", VStr("b")), ("k41", VStr("c"))];
    var k5 := VDict([("k5", VStr("a"))]);
    assert Get(inner, "k4") == Some(VStr("b"));
    assert MergedValue(Some(VStr("b")), k5) == k5;
    assert Put(inner, "k4", k5) == [("k4", k5), ("k41", VStr("c"))];
    assert Merge([("k4", k5)], inner) == [("k4", k5), ("k41", VStr("c"))] by {
      assert Merge([("k4", k5)], inner) == MergeFrom([("k4", k5)], 1, MergeEntry(inner, "k4", k5));
    }
    var outer := [("k3", VDict([("k4", k5)]))];
    assert Merge(outer, [("k3", VDict(inner))]) == MergeFrom(outer, 1, MergeEntry([("k3", VDict(inner))], "k3", VDict([("k4", k5)])));
  }

  // ---------------------------------------------------------------------
  // strip_keys

  /** Whether `strip_keys` keeps key `k` of a dict at `prefix`. */
  predicate KeptBy(d: Dict, except: seq<string>, prefix: Option<string>, k: string) {
    HasKey(d, k) && JoinKey(prefix, k) !in except
  }

  lemma {:induction false} StripFromKeys(d: Dict, except: seq<string>, prefix: Option<string>, i: nat, ret: Dict, k: string)
    requires i <= |d|
    ensures HasKey(StripFrom(d, except, prefix, i, ret), k) <==> HasKey(ret, k) || KeptBy(d[i..], except, prefix, k)
    ensures !KeptBy(d[i..], except, prefix, k) ==> Get(StripFrom(d, except, prefix, i, ret), k) == Get(ret, k)
    ensures UniqueKeys(ret) ==> UniqueKeys(StripFrom(d, except, prefix, i, ret))
    decreases |d| - i
  {
    if i < |d| {
      HasKeySlice(d, i, k);
      var path := JoinKey(prefix, d[i].0);
      if path in except {
        StripFromKeys(d, except, prefix, i + 1, ret, k);
      } else {
        var v := Stripped(d[i].1, except, path);
        PutShape(ret, d[i].0, v);
        StripFromKeys(d, except, prefix, i + 1, Put(ret, d[i].0, v), k);
      }
    }
  }

  lemma {:induction false} StripFromAt(d: Dict, except: seq<string>, prefix: Option<string>, i: nat, ret: Dict, k: string)
    requires i <= |d| && UniqueKeys(d[i..]) && KeptBy(d[i..], except, prefix, k)
    ensures Get(StripFrom(d, except, prefix, i, ret), k) == Some(Stripped(Get(d[i..], k).value, except, JoinKey(prefix, k)))
    decreases |d| - i
  {
    HasKeySlice(d, i, k);
    UniqueKeysTail(d[i..]);
    FirstKeyNotInRest(d[i..]);
    var path := JoinKey(prefix, d[i].0);
    if path in except {
      StripFromAt(d, except, prefix, i + 1, ret, k);
    } else {
      var ret1 := Put(ret, d[i].0, Stripped(d[i].1, except, path));
      if d[i].0 == k {
        StripFromKeys(d, except, prefix, i + 1, ret1, k);
      } else {
        StripFromAt(d, except, prefix, i + 1, ret1, k);
      }
    }
  }

  /** `strip_keys` keeps exactly the keys whose dotted path is not listed;
      a kept dict is stripped below its own path, any other value is kept
      as it is. */
  lemma StripKeysGet(d: Dict, except: seq<string>, prefix: Option<string>, k: string)
    requires UniqueKeys(d)
    ensures HasKey(StripKeys(d, except, prefix), k) <==> HasKey(d, k) && JoinKey(prefix, k) !in except
    ensures Get(StripKeys(d, except, prefix), k) ==
      if HasKey(d, k) && JoinKey(prefix, k) !in except
      then Some(Stripped(Get(d, k).value, except, JoinKey(prefix, k)))
      else None
    ensures UniqueKeys(StripKeys(d, except, prefix))
  {
    assert d[0..] == d;
    StripFromKeys(d, except, prefix, 0, [], k);
    if KeptBy(d, except, prefix, k) { StripFromAt(d, except, prefix, 0, [], k); }
  }

  lemma {:induction false} StripFromAllListed(d: Dict, except: seq<string>, prefix: Option<string>, i: nat, ret: Dict)
    requires i <= |d|
    requires forall j :: i <= j < |d| ==> JoinKey(prefix, d[j].0) in except
    ensures StripFrom(d, except, prefix, i, ret) == ret
    decreases |d| - i
  {
    if i < |d| { StripFromAllListed(d, except, prefix, i + 1, ret); }
  }

  /** A kept dict whose every child path is listed stays behind empty. */
  lemma StripLeavesEmptyDict(d: Dict, except: seq<string>, prefix: Option<string>, k: string)
    requires UniqueKeys(d) && HasKey(d, k) && JoinKey(prefix, k) !in except
    requires Get(d, k).value.VDict?
    requires forall j :: 0 <= j < |Get(d, k).value.entries| ==>
               JoinKey(Some(JoinKey(prefix, k)), Get(d, k).value.entries[j].0) in except
    ensures Get(StripKeys(d, except, prefix), k) == Some(VDict([]))
  {
    StripKeysGet(d, except, prefix, k);
    StripFromAllListed(Get(d, k).value.entries, except, Some(JoinKey(prefix, k)), 0, []);
  }

  /** Writing the next entry of a dict with distinct keys onto its prefix
      extends the prefix by that entry. */
  lemma PutExtendsPrefix(d: Dict, i: nat)
    requires UniqueKeys(d) && i < |d|
    ensures Put(d[..i], d[i].0, d[i].1) == d[..i + 1]
  {
    PrefixLacksNext(d, i);
    calc {
      Put(d[..i], d[i].0, d[i].1);
      { PutAbsent(d[..i], d[i].0, d[i].1); }
      d[..i] + [d[i]];
      d[..i + 1];
    }
  }

  lemma PrefixLacksNext(d: Dict, i: nat)
    requires UniqueKeys(d) && i < |d|
    ensures !HasKey(d[..i], d[i].0)
  {
    forall j | 0 <= j < i ensures d[..i][j].0 != d[i].0 {
      assert d[..i][j] == d[j];
    }
  }

  lemma {:induction false} StripFromNothing(d: Dict, prefix: Option<string>, i: nat)
    requires i <= |d| && WellFormed(d)
    ensures StripFrom(d, [], prefix, i, d[..i]) == d
    decreases VDict(d), 0, |d| - i
  {
    if i < |d| {
      var (k, v) := d[i];
      assert d[i] in d;
      assert Stripped(v, [], JoinKey(prefix, k)) == v by {
        if v.VDict? { StripNothing(v.entries, Some(JoinKey(prefix, k))); }
      }
      assert StripFrom(d, [], prefix, i, d[..i]) == StripFrom(d, [], prefix, i + 1, Put(d[..i], k, v));
      PutExtendsPrefix(d, i);
      StripFromNothing(d, prefix, i + 1);
    } else {
      assert d[..i] == d;
    }
  }

  /** With nothing listed, `strip_keys` gives back the dict it was given. */
  lemma StripNothing(d: Dict, prefix: Option<string>)
    requires WellFormed(d)
    ensures StripKeys(d, [], prefix) == d
    decreases VDict(d), 1
  {
    assert d[..0] == [];
    StripFromNothing(d, prefix, 0);
  }

  // ---------------------------------------------------------------------
  // with_keys

  lemma {:induction false} WithFromKeys(d: Dict, limit: seq<string>, prefix: Option<string>, i: nat, ret: Dict, k: string)
    requires i <= |d|
    ensures !HasKey(d[i..], k) ==> Get(WithFrom(d, limit, prefix, i, ret), k) == Get(ret, k)
    ensures UniqueKeys(ret) ==> UniqueKeys(WithFrom(d, limit, prefix, i, ret))
    decreases |d| - i
  {
    if i < |d| {
      HasKeySlice(d, i, k);
      var (key, v) := d[i];
      var path := JoinKey(prefix, key);
      var ret1 := if path in limit then Put(ret, key, v) else ret;
      if UniqueKeys(ret) { PutUnique(ret, key, v); }
      var ret2 := ret1;
      if v.VDict? {
        var sub := WithKeys(v.entries, limit, Some(path));
        if UniqueKeys(ret1) { PutUnique(ret1, key, VDict(sub)); }
        ret2 := if sub != [] then Put(ret1, key, VDict(sub)) else ret1;
      }
      assert WithFrom(d, limit, prefix, i, ret) == WithFrom(d, limit, prefix, i + 1, ret2);
      WithFromKeys(d, limit, prefix, i + 1, ret2, k);
    }
  }

  lemma {:induction false} WithFromAt(d: Dict, limit: seq<string>, prefix: Option<string>, i: nat, ret: Dict, k: string)
    requires i <= |d| && UniqueKeys(d[i..]) && HasKey(d[i..], k)
    ensures Get(WithFrom(d, limit, prefix, i, ret), k) ==
      var sel := Selected(Get(d[i..], k).value, limit, JoinKey(prefix, k));
      if sel.Some? then sel else Get(ret, k)
    decreases |d| - i
  {
    HasKeySlice(d, i, k);
    UniqueKeysTail(d[i..]);
    FirstKeyNotInRest(d[i..]);
    var (key, v) := d[i];
    var path := JoinKey(prefix, key);
    var ret1 := if path in limit then Put(ret, key, v) else ret;
    var ret2 := if v.VDict? && WithKeys(v.entries, limit, Some(path)) != [] then Put(ret1, key, VDict(WithKeys(v.entries, limit, Some(path)))) else ret1;
    assert WithFrom(d, limit, prefix, i, ret) == WithFrom(d, limit, prefix, i + 1, ret2);
    if key == k {
      WithFromKeys(d, limit, prefix, i + 1, ret2, k);
    } else {
      WithFromAt(d, limit, prefix, i + 1, ret2, k);
    }
  }

  /** `with_keys` keeps a key exactly when its dotted path is listed or
      something below it is: the value is the filtered sub-dict when that is
      non-empty, the whole value otherwise. */
  lemma WithKeysGet(d: Dict, limit: seq<string>, prefix: Option<string>, k: string)
    requires UniqueKeys(d)
    ensures Get(WithKeys(d, limit, prefix), k) ==
      if HasKey(d, k) then Selected(Get(d, k).value, limit, JoinKey(prefix, k)) else None
    ensures UniqueKeys(WithKeys(d, limit, prefix))
  {
    assert d[0..] == d;
    WithFromKeys(d, limit, prefix, 0, [], k);
    if HasKey(d, k) { WithFromAt(d, limit, prefix, 0, [], k); }
  }

  // ---------------------------------------------------------------------
  // flattened_items

  /** The non-dict leaves of a tree with their key paths, in insertion
      order, depth first. */
  function Leaves(d: Dict): (ls: seq<(seq<string>, Value)>)
    ensures forall j :: 0 <= j < |ls| ==> ls[j].0 != [] && !ls[j].1.VDict?
    decreases VDict(d), 1
  {
    LeavesFrom(d, 0)
  }

  function LeavesFrom(d: Dict, i: nat): (ls: seq<(seq<string>, Value)>)
    requires i <= |d|
    ensures forall j :: 0 <= j < |ls| ==> ls[j].0 != [] && !ls[j].1.VDict?
    decreases VDict(d), 0, |d| - i
  {
    if i == |d| then []
    else
      assert d[i] in d;
      LeavesOf(d[i].0, d[i].1) + LeavesFrom(d, i + 1)
  }

  /** The leaves below the entry `(k, v)`. */
  function LeavesOf(k: string, v: Value): (ls: seq<(seq<string>, Value)>)
    ensures forall j :: 0 <= j < |ls| ==> ls[j].0 != [] && !ls[j].1.VDict?
    decreases v, 2
  {
    if v.VDict? then
      var sub := Leaves(v.entries);
      seq(|sub|, j requires 0 <= j < |sub| => ([k] + sub[j].0, sub[j].1))
    else [([k], v)]
  }

  /** The key `flattened_items` builds for a key path below `prefix`. */
  function Dotted(prefix: Option<string>, path: seq<string>): string
    requires path != []
    decreases |path|
  {
    if |path| == 1 then FlatKey(prefix, path[0]) else Dotted(Some(FlatKey(prefix, path[0])), path[1..])
  }

  function Render(prefix: Option<string>, ls: seq<(seq<string>, Value)>): (r: seq<(string, Value)>)
    requires forall j :: 0 <= j < |ls| ==> ls[j].0 != []
    ensures |r| == |ls|
  {
    seq(|ls|, j requires 0 <= j < |ls| => (Dotted(prefix, ls[j].0), ls[j].1))
  }

  lemma {:induction false} LeavesSound(d: Dict)
    requires WellFormed(d)
    ensures forall x :: x in Leaves(d) ==> At(d, x.0) == Some(x.1) && !x.1.VDict?
    decreases VDict(d), 1
  {
    assert d[0..] == d;
    LeavesFromSound(d, 0);
  }

  lemma {:induction false} LeavesFromSound(d: Dict, i: nat)
    requires WellFormed(d) && i <= |d|
    ensures forall x :: x in LeavesFrom(d, i) ==> At(d, x.0) == Some(x.1) && !x.1.VDict?
    decreases VDict(d), 0, |d| - i
  {
    if i < |d| {
      EntryLeavesSound(d, i);
      LeavesFromSound(d, i + 1);
      assert d[i] in d;
      assert LeavesFrom(d, i) == LeavesOf(d[i].0, d[i].1) + LeavesFrom(d, i + 1);
    }
  }

  /** The leaves below entry `i` of `d` are reached from `d`. */
  lemma {:induction false} EntryLeavesSound(d: Dict, i: nat)
    requires WellFormed(d) && i < |d|
    ensures forall x :: x in LeavesOf(d[i].0, d[i].1) ==> At(d, x.0) == Some(x.1) && !x.1.VDict?
    decreases VDict(d), 0, |d| - i - 1
  {
    var (k, v) := d[i];
    assert d[i] in d;
    GetAt(d, i);
    if v.VDict? {
      LeavesSound(v.entries);
      var sub := Leaves(v.entries);
      forall x | x in LeavesOf(k, v) ensures At(d, x.0) == Some(x.1) && !x.1.VDict? {
        var j :| 0 <= j < |sub| && x == ([k] + sub[j].0, sub[j].1);
        assert sub[j] in sub;
        assert x.0[1..] == sub[j].0;
      }
    }
  }

  lemma {:induction false} LeavesFromContains(d: Dict, i: nat, j: nat)
    requires i <= j < |d|
    ensures forall x :: x in LeavesOf(d[j].0, d[j].1) ==> x in LeavesFrom(d, i)
    decreases j - i
  {
    if i < j { LeavesFromContains(d, i + 1, j); }
  }

  lemma {:induction false} LeavesComplete(d: Dict, path: seq<string>, v: Value)
    requires At(d, path) == Some(v) && !v.VDict?
    ensures (path, v) in Leaves(d)
    decreases |path|
  {
    var k := path[0];
    var w := Get(d, k).value;
    var i :| 0 <= i < |d| && d[i] == (k, w);
    LeavesFromContains(d, 0, i);
    if |path| == 1 {
      assert path == [k];
    } else {
      LeavesComplete(w.entries, path[1..], v);
      var sub := Leaves(w.entries);
      var j :| 0 <= j < |sub| && sub[j] == (path[1..], v);
      assert LeavesOf(k, w)[j] == ([k] + path[1..], v);
      assert [k] + path[1..] == path;
    }
  }

  /** The leaves are exactly the key paths that end at a non-dict value. */
  lemma LeavesAreLeaves(d: Dict, path: seq<string>, v: Value)
    requires WellFormed(d)
    ensures (path, v) in Leaves(d) <==> At(d, path) == Some(v) && !v.VDict?
  {
    LeavesSound(d);
    if At(d, path) == Some(v) && !v.VDict? { LeavesComplete(d, path, v); }
  }

  lemma RenderAppend(prefix: Option<string>, a: seq<(seq<string>, Value)>, b: seq<(seq<string>, Value)>)
    requires forall j :: 0 <= j < |a| ==> a[j].0 != []
    requires forall j :: 0 <= j < |b| ==> b[j].0 != []
    ensures Render(prefix, a + b) == Render(prefix, a) + Render(prefix, b)
  {
    var ab := a + b;
    assert forall j :: 0 <= j < |ab| ==> ab[j].0 != [] by {
      forall j | 0 <= j < |ab| ensures ab[j].0 != [] {
        if j < |a| { assert ab[j] == a[j]; } else { assert ab[j] == b[j - |a|]; }
      }
    }
    assert Render(prefix, a + b) == Render(prefix, a) + Render(prefix, b) by {
      forall j | 0 <= j < |ab| ensures Render(prefix, ab)[j] == (Render(prefix, a) + Render(prefix, b))[j] {
        if j < |a| { assert ab[j] == a[j]; } else { assert ab[j] == b[j - |a|]; }
      }
    }
  }

  /** `flattened_items(d, prefix)` yields the leaves of `d` in order, each
      under its dotted key. */
  lemma {:induction false} FlattenedRendersLeaves(d: Dict, prefix: Option<string>)
    ensures Flattened(d, prefix) == Render(prefix, Leaves(d))
    decreases VDict(d), 1
  {
    FlattenFromRenders(d, prefix, 0);
  }

  lemma {:induction false} FlattenFromRenders(d: Dict, prefix: Option<string>, i: nat)
    requires i <= |d|
    ensures FlattenFrom(d, prefix, i) == Render(prefix, LeavesFrom(d, i))
    decreases VDict(d), 0, |d| - i
  {
    if i < |d| {
      var (k, v) := d[i];
      assert d[i] in d;
      FlattenFromRenders(d, prefix, i + 1);
      RenderAppend(prefix, LeavesOf(k, v), LeavesFrom(d, i + 1));
      if v.VDict? { FlattenedRendersLeaves(v.entries, Some(FlatKey(prefix, k))); }
      RenderLeavesOf(prefix, k, v);
    }
  }

  lemma RenderLeavesOf(prefix: Option<string>, k: string, v: Value)
    ensures Render(prefix, LeavesOf(k, v)) ==
      if v.VDict? then Render(Some(FlatKey(prefix, k)), Leaves(v.entries)) else [(FlatKey(prefix, k), v)]
  {
    if v.VDict? {
      var sub := Leaves(v.entries);
      forall j | 0 <= j < |sub| ensures Render(prefix, LeavesOf(k, v))[j] == Render(Some(FlatKey(prefix, k)), sub)[j] {
        var q := [k] + sub[j].0;
        assert q[1..] == sub[j].0;
      }
    }
  }

  /** A dict holding no dict is its own flattening. */
  lemma {:induction false} FlattenedFlat(d: Dict, i: nat)
    requires i <= |d| && forall j :: 0 <= j < |d| ==> !d[j].1.VDict?
    ensures FlattenFrom(d, None, i) == d[i..]
    decreases |d| - i
  {
    if i < |d| {
      FlattenedFlat(d, i + 1);
      assert d[i..] == [d[i]] + d[i + 1..];
    }
  }

  /** An empty nested dict yields no pair; the others come out in order. */
  lemma FlattenedExample()
    ensures Flattened([("a", VDict([])), ("b", VDict([("c", VInt(1))])), ("d", VInt(2))], None)
      == [("b.c", VInt(1)), ("d", VInt(2))]
  {
    var d := [("a", VDict([])), ("b", VDict([("c", VInt(1))])), ("d", VInt(2))];
    assert Flattened([], Some("a")) == [];
    assert FlattenFrom([("c", VInt(1))], Some("b"), 1) == [];
    assert FlatKey(Some("b"), "c") == "b.c";
    assert Flattened([("c", VInt(1))], Some("b")) == [("b.c", VInt(1))];
    assert FlattenFrom(d, None, 2) == [("d", VInt(2))];
  }
}
