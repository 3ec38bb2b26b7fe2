/** `import_python_object` over an abstract module registry, and calls of the
    constructors that registry holds. */
module Imports {
  import opened Values

  /** What a module attribute is: a plain value, or a class/function whose
      call builds a new object. */
  datatype Entry = Data(v: Value) | Factory

  /** The modules that can be imported, each with its attributes. */
  type Registry = map<string, map<string, Entry>>

  /** One call `func(**kwargs)` of a factory found at dotted path `callee`. */
  datatype Call = Call(callee: string, kwargs: Dict)

  /** The position of the last '.' in `p`, if any. */
  function LastDot(p: string): (r: Option<nat>)
    ensures r.None? <==> '.' !in p
    ensures r.Some? ==> r.value < |p| && p[r.value] == '.' && '.' !in p[r.value + 1..]
  {
    if p == [] then None
    else if p[|p| - 1] == '.' then Some(|p| - 1)
    else
      var r := LastDot(p[..|p| - 1]);
      assert p[..|p| - 1] + [p[|p| - 1]] == p;
      if r.Some? then
        assert p[r.value + 1..] == p[..|p| - 1][r.value + 1..] + [p[|p| - 1]];
        r
      else r
  }

  /** `path.split(".")`: everything before the last '.' names the module and
      the rest the attribute; without a '.', the module name is empty. */
  function SplitPath(path: string): (mn: (string, string))
    ensures mn.0 + (if '.' in path then "." else "") + mn.1 == path
    ensures '.' !in mn.1
  {
    match LastDot(path)
    case None => ("", path)
    case Some(i) =>
      assert path[..i] + "." + path[i + 1..] == path;
      (path[..i], path[i + 1..])
  }

  /** The registry entry found at a dotted path: an empty path fails the
      assertion, an empty module name is a `ValueError`, a missing module an
      `ImportError` from `importlib`, and a missing attribute of a module
      that exists an `AttributeError` from `getattr`. */
  function Find(reg: Registry, path: string): (r: Result<Entry>)
    ensures r == Err(AssertionError) <==> path == ""
    ensures r == Err(ValueError) <==> path != "" && SplitPath(path).0 == ""
    ensures r == Err(ImportError) <==> path != "" && SplitPath(path).0 != "" && SplitPath(path).0 !in reg
    ensures r == Err(AttributeError) <==>
      path != "" && SplitPath(path).0 != "" && SplitPath(path).0 in reg && SplitPath(path).1 !in reg[SplitPath(path).0]
    ensures r.Ok? <==> path != "" && SplitPath(path).0 != "" && SplitPath(path).0 in reg && SplitPath(path).1 in reg[SplitPath(path).0]
    ensures r.Ok? ==> r.value == reg[SplitPath(path).0][SplitPath(path).1]
  {
    if path == "" then Err(AssertionError)
    else
      var (m, n) := SplitPath(path);
      if m == "" then Err(ValueError)
      else if m !in reg then Err(ImportError)
      else if n !in reg[m] then Err(AttributeError)
      else Ok(reg[m][n])
  }

  /** `import_python_object(path)`: a factory is returned uncalled. */
  function ImportObject(reg: Registry, path: string): (r: Result<Value>)
    ensures r.Err? <==> Find(reg, path).Err?
    ensures r.Err? ==> r.error == Find(reg, path).error
    ensures Find(reg, path) == Ok(Factory) ==> r == Ok(VFunc(path))
    ensures forall v :: Find(reg, path) == Ok(Data(v)) ==> r == Ok(v)
  {
    match Find(reg, path)
    case Err(e) => Err(e)
    case Ok(Data(v)) => Ok(v)
    case Ok(Factory) => Ok(VFunc(path))
  }

  /** Whether `fn` can be called: only factories can. */
  predicate Callable(reg: Registry, fn: Value) {
    fn.VFunc? && Find(reg, fn.path) == Ok(Factory)
  }

  /** `fn(**kwargs)` after `calls` earlier calls: a factory logs the call and
      returns a new object whose identity is its position in the log;
      anything else raises `TypeError`. */
  function Invoke(reg: Registry, calls: seq<Call>, fn: Value, kwargs: Dict): (r: (Result<Value>, seq<Call>))
    ensures r.0.Ok? <==> Callable(reg, fn)
    ensures r.0.Ok? ==> r.0.value == VObj(|calls|) && r.1 == calls + [Call(fn.path, kwargs)]
    ensures r.0.Err? ==> r.0.error == TypeError && r.1 == calls
    ensures r.0.Ok? ==> r.0.value !in ObjectsOf(calls) && r.0.value in ObjectsOf(r.1)
  {
    if Callable(reg, fn) then (Ok(VObj(|calls|)), calls + [Call(fn.path, kwargs)])
    else (Err(TypeError), calls)
  }

  /** The objects built by the logged calls. */
  function ObjectsOf(calls: seq<Call>): (objs: set<Value>)
    ensures forall o :: o in objs <==> o.VObj? && o.id < |calls|
  {
    set i | 0 <= i < |calls| :: VObj(i)
  }
}
