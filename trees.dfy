/** The dict-tree helpers of `utils.py`: dotted-path stripping, filtering
    and flattening, and the in-place deep merge. */
module Trees {
  import opened Values

  /** `f"{prefix}.{k}" if prefix else k`: an empty prefix counts as none. */
  function JoinKey(prefix: Option<string>, k: string): string {
    if prefix.Some? && prefix.value != "" then prefix.value + "." + k else k
  }

  /** `k if prefix is None else f"{prefix}.{k}"`, the rule of
      `flattened_items`: only `None` counts as no prefix. */
  function FlatKey(prefix: Option<string>, k: string): string {
    if prefix.None? then k else prefix.value + "." + k
  }

  // ---------------------------------------------------------------------
  // strip_keys

  /** `strip_keys(d, except_keys, prefix)`. */
  function StripKeys(d: Dict, except: seq<string>, prefix: Option<string>): Dict
    decreases VDict(d), 1
  {
    StripFrom(d, except, prefix, 0, [])
  }

  /** The loop of `strip_keys` from entry `i` on, with `ret` so far. */
  function StripFrom(d: Dict, except: seq<string>, prefix: Option<string>, i: nat, ret: Dict): Dict
    requires i <= |d|
    decreases VDict(d), 0, |d| - i
  {
    if i == |d| then ret
    else
      var (k, v) := d[i];
      var path := JoinKey(prefix, k);
      if path in except then StripFrom(d, except, prefix, i + 1, ret)
      else
        assert d[i] in d;
        StripFrom(d, except, prefix, i + 1, Put(ret, k, Stripped(v, except, path)))
  }

  /** The value `strip_keys` keeps for an entry at dotted path `path`: a
      dict is stripped below that path, anything else is kept as it is. */
  function Stripped(v: Value, except: seq<string>, path: string): Value
    decreases v, 2
  {
    if v.VDict? then VDict(StripKeys(v.entries, except, Some(path))) else v
  }

  // ---------------------------------------------------------------------
  // with_keys

  /** `with_keys(d, limit_keys, prefix)`. */
  function WithKeys(d: Dict, limit: seq<string>, prefix: Option<string>): Dict
    decreases VDict(d), 1
  {
    WithFrom(d, limit, prefix, 0, [])
  }

  /** The loop of `with_keys` from entry `i` on, with `ret` so far. */
  function WithFrom(d: Dict, limit: seq<string>, prefix: Option<string>, i: nat, ret: Dict): Dict
    requires i <= |d|
    decreases VDict(d), 0, |d| - i
  {
    if i == |d| then ret
    else
      var (k, v) := d[i];
      var path := JoinKey(prefix, k);
      var ret1 := if path in limit then Put(ret, k, v) else ret;
      if v.VDict? then
        assert d[i] in d;
        var sub := WithKeys(v.entries, limit, Some(path));
        WithFrom(d, limit, prefix, i + 1, if sub != [] then Put(ret1, k, VDict(sub)) else ret1)
      else WithFrom(d, limit, prefix, i + 1, ret1)
  }

  /** What `with_keys` stores for an entry at dotted path `path` holding
      `v`: the filtered sub-dict when it is non-empty, else `v` when the path
      is listed, else nothing. */
  function Selected(v: Value, limit: seq<string>, path: string): Option<Value>
    decreases v, 2
  {
    if v.VDict? && WithKeys(v.entries, limit, Some(path)) != [] then Some(VDict(WithKeys(v.entries, limit, Some(path))))
    else if path in limit then Some(v)
    else None
  }

  // ---------------------------------------------------------------------
  // flattened_items

  /** The pairs `flattened_items(d, prefix)` yields, in order. */
  function Flattened(d: Dict, prefix: Option<string>): seq<(string, Value)>
    decreases VDict(d), 1
  {
    FlattenFrom(d, prefix, 0)
  }

  function FlattenFrom(d: Dict, prefix: Option<string>, i: nat): seq<(string, Value)>
    requires i <= |d|
    decreases VDict(d), 0, |d| - i
  {
    if i == |d| then []
    else
      var (k, v) := d[i];
      var key := FlatKey(prefix, k);
      assert d[i] in d;
      (if v.VDict? then Flattened(v.entries, Some(key)) else [(key, v)]) + FlattenFrom(d, prefix, i + 1)
  }

  // ---------------------------------------------------------------------
  // recursive_merge

  /** What `recursive_merge(src, dst)` leaves in `dst`. */
  function Merge(src: Dict, dst: Dict): Dict
    decreases VDict(src), 1
  {
    MergeFrom(src, 0, dst)
  }

  function MergeFrom(src: Dict, i: nat, dst: Dict): Dict
    requires i <= |src|
    decreases VDict(src), 0, |src| - i
  {
    if i == |src| then dst
    else
      var (k, v) := src[i];
      assert src[i] in src;
      MergeFrom(src, i + 1, MergeEntry(dst, k, v))
  }

  /** One entry of `src` merged into `dst`. */
  function MergeEntry(dst: Dict, k: string, v: Value): Dict
    decreases v, 3
  {
    Put(dst, k, MergedValue(Get(dst, k), v))
  }

  /** The value `dst[k]` ends with when `src[k]` is `v` and `dst[k]` was
      `cur`: two dicts merge, anything else is replaced by `v`. */
  function MergedValue(cur: Option<Value>, v: Value): Value
    decreases v, 2
  {
    if v.VDict? && cur.Some? && cur.value.VDict? then VDict(Merge(v.entries, cur.value.entries)) else v
  }

  /** A Python dict object, which `recursive_merge` updates in place. */
  class PyDict {
    var entries: Dict

    constructor (entries: Dict)
      ensures this.entries == entries
    {
      this.entries := entries;
    }
  }

  /** `recursive_merge(src, dst)`: a nested dict present on both sides is
      merged in place, any other value of `src` overwrites. */
  method RecursiveMerge(src: Dict, dst: PyDict)
    modifies dst
    ensures dst.entries == Merge(src, old(dst.entries))
    decreases VDict(src)
  {
    var i := 0;
    while i < |src|
      invariant 0 <= i <= |src|
      invariant Merge(src, old(dst.entries)) == MergeFrom(src, i, dst.entries)
    {
      var (k, v) := src[i];
      assert src[i] in src;
      ghost var before := dst.entries;
      if v.VDict? {
        var cur := Get(dst.entries, k);
        if cur.Some? {
          if cur.value.VDict? {
            var child := new PyDict(cur.value.entries);
            RecursiveMerge(v.entries, child);
            dst.entries := Put(dst.entries, k, VDict(child.entries));
          } else {
            dst.entries := Put(dst.entries, k, v);
          }
        } else {
          dst.entries := Put(dst.entries, k, v);
        }
      } else {
        dst.entries := Put(dst.entries, k, v);
      }
      assert dst.entries == MergeEntry(before, k, v);
      i := i + 1;
    }
  }
}
