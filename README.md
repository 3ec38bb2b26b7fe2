# confr configuration engine in Dafny

This project models the in-memory configuration engine of confr.

**The `Conf` object** (`models.py`) holds three things:
- `c_original`, the merged configuration;
- `c_singletons`, the memo of top-level `"@..."` values;
- a stack of overlay dicts pushed by `ModifiedConf`.

It is built by folding the conf dicts in order, with an optional strict mode, and then applying post-hoc overrides. A read resolves what it finds:
- `"@mod.name"` imports an object;
- `"@mod.name()"` constructs one from the `key/attr` entries of the configuration;
- `"$key"` reads another key.

Lists and dicts are resolved element by element.

**The dict-tree helpers** (`utils.py`):
- `recursive_merge`, which mutates `dst` in place;
- `strip_keys`, `with_keys` and `flattened_items`;
- the `${...}` key interpolation;
- the dot escaping.

**The interface functions** (`interface.py`):
- the global configuration and its `ConfContext` swap;
- the configuration key derived for each bound parameter;
- the precedence chain of `get_input`;
- `validate_conf` over lists and callables;
- `to_dict`.

**The input-name encoding** (`plx.py`).

## Module layout

- `values.dfy`: the shared types.
  - Configuration values form a datatype: `None`, int, str, list, dict, an object id, or an importable callable.
  - Python dicts are ordered association lists. `Get` returns the first match. `Put` replaces in place or appends, as dict assignment does.
  - `PyEq` is Python's `==`: dict comparison ignores order.
  - Errors are the exception classes the code raises.
- `strings.dfy`: `str.replace`, `startswith`, `endswith`, `in`, and the non-greedy `\$\{(.*?)\}` matcher.
- `imports.dfy`: `import_python_object` over an abstract registry of modules.
  - A registry name holds either a value or a constructor.
  - A constructor call appends to a call log. The object it returns is identified by its position in that log, so every constructed object is fresh.
- `confspec.dfy`: the specification functions of `Conf`.
  - Each read is a function from a `State` (`c_original`, `c_singletons`, the overlay stack, the call log) to its result and the next state.
- `confprops.dfy`: the lemmas about those functions.
- `models.dfy`: the imperative classes `Conf`, `ModifiedConf` and `World`.
  - `World` holds the registry and call log.
  - Each method is proved equal to its specification function.
- `trees.dfy`: the dict-tree helpers and the in-place `RecursiveMerge` on a `PyDict` object.
- `treeprops.dfy`: their properties.
- `interpolation.dfy`: `interpolate_key`, as a function and as the loop that rebinds `k`.
- `escaping.dfy`: `escape` and `unescape`, with `DOT_REPLACEMENT` as a parameter.
- `plx.dfy`: `enc_input` and `dec_input`, with `PLX_DOT_REPLACEMENT` as a parameter.
- `interface.dfy`: the `Session` class, which holds the module-level `global_conf`, and `ConfContext`, plus the pure functions of `interface.py`.

## Model

| member | source | states |
|---|---|---|
| Strings.ReplaceRoundTrip | src/confr/utils.py:99-104 | replacing one character by a text that shares no character with `s`, and back, gives `s` again |
| Strings.NoOpenerNoMatches | src/confr/utils.py:75-76 | a key without `${` has no placeholder matches |
| Strings.MatchesOccur | src/confr/utils.py:75-78 | every match is a `}`-free text whose `${inner}` occurs in the key |
| Strings.WholeKeyPlaceholder | src/confr/utils.py:75-81 | the key `${x}` has the single match `x`, and substituting it gives the value read |
| Imports.SplitPath | src/confr/utils.py:12-14 | the module part, a dot and the name rebuild the path; the name holds no dot |
| Imports.Find | src/confr/utils.py:10-16 | empty path → AssertionError; no module part → ValueError; a missing module → ImportError; a missing name in an existing module → AttributeError; otherwise the entry found |
| Imports.ImportObject | src/confr/utils.py:10-17 | it fails exactly when the lookup fails, with the same error; a value is returned as is; a constructor is returned as a callable |
| Imports.Invoke | src/confr/models.py:110-111 | calling a constructor returns a fresh object id and logs the call with its keyword arguments; calling anything else is a TypeError and changes nothing |
| ConfSpec.Item | src/confr/models.py:51-57 | a read changes neither `c_original` nor the overlays; the cache only gains keys and the call log only grows |
| ConfSpec.Resolve | src/confr/models.py:62-79 | resolving a value writes only the cache and the call log |
| ConfSpec.ResolveList | src/confr/models.py:74-75 | resolving a list writes only the cache and the call log |
| ConfSpec.ResolveDict | src/confr/models.py:76-77 | resolving a dict writes only the cache and the call log |
| ConfSpec.Memo | src/confr/models.py:64-68 | the memoised top-level read writes only the cache and the call log |
| ConfSpec.PyObject | src/confr/models.py:81-95 | resolving an `@`/`$` string writes only the cache and the call log |
| ConfSpec.Construct | src/confr/models.py:97-111 | constructing an object writes only the cache and the call log |
| ConfSpec.Collect | src/confr/models.py:101-108 | collecting constructor attributes writes only the cache and the call log |
| ConfSpec.GetOr | src/confr/models.py:41-46 | `get` never raises AssertionError and writes only the cache and the call log |
| ConfProps.AbsorbLenient | src/confr/models.py:30-39 | in lenient mode, absorbing a dict is `dict.update` and always passes |
| ConfProps.AbsorbStrict | src/confr/models.py:30-39 | strict mode fails iff some entry conflicts with an existing non-None, `!=` value; it fails at the first such entry with that key; if nothing conflicts the result is `dict.update` |
| ConfProps.LastDictWins | src/confr/models.py:19-20 | after folding the conf dicts leniently, `c_original[k]` is the value from the last dict defining `k`, else the earlier value |
| ConfProps.AbsorbAllStops | src/confr/models.py:19-20 | once a conf dict fails, the later dicts change nothing |
| ConfProps.OverrideKeys | src/confr/models.py:113-120 | overrides never add or remove keys; they fail iff some override key is absent, with KeyError |
| ConfProps.OverrideGet | src/confr/models.py:113-120 | after passing overrides, an overridden key holds the override (or the `==` old value) and every other key is unchanged |
| ConfProps.LatestSpec | src/confr/models.py:52-54 | the overlay lookup finds `k` iff some overlay holds it, and it returns the value of the most recently pushed one |
| ConfProps.UpdateAllGet | src/confr/models.py:127-128 | updating with overlays in order: the last overlay holding `k` wins, else the base value |
| ConfProps.ToDictGet | src/confr/models.py:122-129 | `to_dict()[k]` comes from the latest overlay, else `c_singletons`, else `c_original`; its keys are the union; keys are unique |
| ConfProps.ReadPrecedence | src/confr/models.py:51-57 | `self[k]` resolves the value of the most recently pushed overlay holding `k`, else `c_original[k]`; an absent key is an AssertionError and changes nothing |
| ConfProps.MemoHit | src/confr/models.py:64-68 | a top-level `"@..."` read with a non-None cached object returns it and changes nothing, whether the raw value is in an overlay or in `c_original` |
| ConfProps.SetKeepsCache | src/confr/models.py:48-49 | `set(k, "@...")` does not clear the cache: the next read still returns the earlier object |
| ConfProps.MemoCaches | src/confr/models.py:64-68 | a successful top-level `"@..."` read leaves its result cached under `k` |
| ConfProps.TopLevelVerbatim | src/confr/models.py:63-73 | a top-level string not starting with `@`, `"$x"` included, is returned verbatim |
| ConfProps.ResolvePlain | src/confr/models.py:72-79 | ints, None, objects and strings not starting with `@`/`$` pass through unchanged |
| ConfProps.NestedReference | src/confr/models.py:92-93 | a nested `"$name"` reads `self[name]` one level deeper; at the recursion limit it is a RecursionError |
| ConfProps.NestedImport | src/confr/models.py:90-91 | a nested `"@path"` imports the object, uncached |
| ConfProps.NestedConstruct | src/confr/models.py:82-89 | a nested `"@X()"` calls `X` with no arguments and returns a fresh object |
| ConfProps.AttributeConstructorRefused | src/confr/models.py:82-88 | an attribute value `"@Y()"` fails the assertion and changes nothing |
| ConfProps.ListElementwise | src/confr/models.py:74-75 | the list loop keeps what it has and yields one element per input element; plain elements are copied |
| ConfProps.ListResolvesElementwise | src/confr/models.py:74-75 | a resolved list has the input's length; item `j` is the value of `_get_val(None, xs[j])` read in the state the earlier items left; plain elements are unchanged; the final state is that of the last read |
| ConfProps.ListResolveFails | src/confr/models.py:74-75 | a list read fails iff some element read fails, and then with the result of the first failing read |
| ConfProps.DictKeywise | src/confr/models.py:76-77 | the rounds of the double comprehension keep the round invariant to the end |
| ConfProps.DictRoundStep | src/confr/models.py:77 | one step of the comprehension keeps the round invariant |
| ConfProps.DictStepKeys | src/confr/models.py:77 | one step keeps the key order: the first round builds the keys in order, later rounds keep them |
| ConfProps.DictResolvesKeywise | src/confr/models.py:76-77 | the double-loop comprehension yields a dict with the input's keys in order, with plain values unchanged |
| ConfProps.DictResolvesLastRound | src/confr/models.py:76-77 | the value stored for each key is the one its read gives in the last round of the comprehension, each read made in the state the read before it left |
| ConfProps.DictResolveEndState | src/confr/models.py:76-77 | a successful dict read leaves the state of the last read of the last round |
| ConfProps.DictResolveFails | src/confr/models.py:76-77 | a dict read fails iff some read of the comprehension fails, and then with the result of the first failing read in comprehension order (rounds in turn, entries in order within a round); every earlier read succeeds |
| ConfProps.Attributes | src/confr/models.py:101-103 | attribute `a` of the prefix is exactly entry `prefix + a` |
| ConfProps.AttributesUnique | src/confr/models.py:101-103 | stripping the prefix keeps keys unique |
| ConfProps.CollectKeys | src/confr/models.py:101-108 | the constructor keywords are exactly the prefixed keys, with the prefix stripped |
| ConfProps.CollectValues | src/confr/models.py:104-108 | a keyword whose value is not an `@`/`$` string is passed as it is |
| ConfProps.ConstructAtKey | src/confr/models.py:97-111 | constructing `"@X()"` at key `k` logs one fresh call to `X` whose keywords are exactly the `to_dict()` keys starting with `k/`, minus the prefix; non-reference values are passed as they are |
| ConfProps.ConstructCollects | src/confr/models.py:97-111 | a failing attribute loop fails the construction with its error; a successful one, with a callable `X`, ends in the call of `X` with exactly the collected keywords |
| ConfProps.ConstructReferenceAttribute | src/confr/models.py:101-108 | the keyword of an `@`/`$` attribute is the value `_get_python_object("__SINGLETON_ATTRIBUTE__", v)` gives in the state the earlier attributes left |
| ConfProps.ConstructAttributeFails | src/confr/models.py:101-111 | any failing attribute fails the construction, with the error of the first one that fails; with a callable `X`, the construction fails only so |
| ConfProps.ConstructorAttributeFails | src/confr/models.py:82-89 | an attribute `"@Y()"` fails the construction, with AssertionError when no earlier attribute fails |
| ConfProps.ItemConstructs | src/confr/models.py:64-67 | an uncached top-level `"@X()"` read constructs at its own key |
| ConfProps.GetOrCatches | src/confr/models.py:41-46 | when `self[k]` raises AssertionError, `get` returns the default with the state that read left; any other result of `self[k]`, value or error, is returned as it is |
| ConfProps.GetAbsent | src/confr/models.py:41-46 | a key that no overlay and no conf dict holds reads as the default, with nothing changed |
| Models.World.Invoke | src/confr/models.py:110-111 | a call on the world's registry matches the constructor-call specification and updates the call log |
| Models.Conf.constructor | src/confr/models.py:15-17 | an empty store: no configuration, no cache, no overlays |
| Models.Conf.New | src/confr/models.py:7-28 | it fails exactly when folding or overriding fails, with that error; otherwise `c_original` is the folded and overridden configuration, with an empty cache and stack |
| Models.Conf.InitConfDicts | src/confr/models.py:19-20 | the dicts are absorbed in order and the first failure stops the loop, exactly as the fold of the absorb specification; the cache and overlays are untouched |
| Models.Conf.InitConfDict | src/confr/models.py:30-39 | the loop writes `c_original` as the absorb specification says; the cache and overlays are untouched |
| Models.Conf.AddOverrides | src/confr/models.py:113-120 | the loop writes `c_original` as the override specification says; the cache and overlays are untouched |
| Models.Conf.Set | src/confr/models.py:48-49 | only `c_original[k]` changes; the cache and overlays are untouched |
| Models.Conf.SetItem | src/confr/models.py:59-60 | only `c_original[k]` changes; the cache and overlays are untouched |
| Models.Conf.ToDict | src/confr/models.py:122-129 | the loop over the overlays returns the `to_dict` specification and changes nothing |
| Models.Conf.Get | src/confr/models.py:41-46 | the result and new state are those of the `get` specification |
| Models.Conf.GetItem | src/confr/models.py:51-57 | the result and new state are those of the `self[k]` specification |
| Models.Conf.Read | src/confr/models.py:51-57 | `self[k]` at a given remaining recursion depth: the overlay loop matches the specification |
| Models.Conf.GetVal | src/confr/models.py:62-79 | `_get_val` matches the resolution specification |
| Models.Conf.GetSingleton | src/confr/models.py:64-68 | the memo branch matches the specification |
| Models.Conf.GetList | src/confr/models.py:74-75 | the list comprehension loop matches the specification |
| Models.Conf.GetDict | src/confr/models.py:76-77 | the double-loop comprehension matches the specification |
| Models.Conf.GetPythonObject | src/confr/models.py:81-95 | `_get_python_object` matches the specification |
| Models.Conf.InitPythonObject | src/confr/models.py:97-111 | the attribute loop and the call match the specification |
| Models.KwargsWin | src/confr/models.py:145-150 | the overlay built from `overrides` and `kwargs` takes each key from `kwargs` first, then `overrides`; keys are unique |
| Models.ModifiedConf.constructor | src/confr/models.py:145-150 | the overlay dict is `overrides` updated by `kwargs` |
| Models.ModifiedConf.Enter | src/confr/models.py:152-155 | pushes exactly that one dict on top and remembers the prior stack |
| Models.ModifiedConf.Exit | src/confr/models.py:157-160 | an empty stack is an IndexError; a top not `==` the dict fails the assertion; otherwise the exact prior stack is restored (a second reset of the same token is a RuntimeError); nothing else changes |
| Trees.RecursiveMerge | src/confr/utils.py:85-96 | the in-place loop leaves `dst` equal to the merge specification |
| TreeProps.MergeGet | src/confr/utils.py:85-96 | the merged dict holds every key of `src` and of `dst`; a key of `src` merges two dicts or takes `src`'s value wholesale; other `dst` keys are unchanged |
| TreeProps.MergeKeepsLeaves | src/confr/utils.py:89-90 | a `dst` path that `src` does not reach survives the merge |
| TreeProps.MergeExample | tests/test_utils.py:24-39 | a nested dict merged into a dict holding a string at that key replaces it, and the sibling leaf survives |
| TreeProps.StripKeysGet | src/confr/utils.py:38-47 | an entry is kept iff its dotted path is not excepted; a kept dict is stripped below its path; keys stay unique |
| TreeProps.StripLeavesEmptyDict | src/confr/utils.py:38-47 | stripping every child of a dict leaves an empty dict, not a missing key |
| TreeProps.StripNothing | src/confr/utils.py:38-47 | with nothing excepted, a well-formed dict comes back unchanged |
| TreeProps.StripFromAllListed | src/confr/utils.py:40-42 | entries whose paths are all excepted add nothing |
| TreeProps.WithKeysGet | src/confr/utils.py:50-60 | entry `k` is the non-empty filtered sub-dict, else the value when its path is listed, else absent; keys stay unique |
| TreeProps.Leaves | src/confr/utils.py:63-70 | every leaf has a non-empty path and a non-dict value |
| TreeProps.LeavesAreLeaves | src/confr/utils.py:63-70 | a (path, value) pair is listed iff the path reaches a non-dict value |
| TreeProps.FlattenedRendersLeaves | src/confr/utils.py:63-70 | `flattened_items` yields exactly the leaves, in order, with dotted paths |
| TreeProps.FlattenedFlat | src/confr/utils.py:63-70 | a dict without nested dicts flattens to itself |
| TreeProps.FlattenedExample | src/confr/utils.py:63-70 | an empty nested dict yields nothing, and nested leaves get dotted keys |
| Escaping.EscapeRemovesDots | src/confr/utils.py:99-100 | no '.' survives escaping when the replacement has none |
| Escaping.EscapeDotless | src/confr/utils.py:99-100 | a dotless string is unchanged by escaping |
| Escaping.EscapeRoundTrip | src/confr/utils.py:99-104 | `unescape(escape(s)) == s` for a one-character replacement absent from `s` |
| Escaping.EscapeRoundTripText | src/confr/utils.py:99-104 | the same for a longer replacement none of whose characters occurs in `s` |
| Plx.EncInput | src/confr/plx.py:4-8 | it fails iff the name holds the replacement, with AssertionError; when the replacement has no '.', the output has none |
| Plx.EncEmptyReplacement | src/confr/plx.py:5 | an empty replacement makes every name fail |
| Plx.EncDotless | src/confr/plx.py:8 | an accepted dotless name is unchanged |
| Plx.DecAbsent | src/confr/plx.py:12 | a name without the replacement is unchanged by decoding |
| Plx.EncDecRoundTrip | src/confr/plx.py:4-12 | with a one-character replacement, decoding undoes encoding on every accepted name |
| Plx.EncDecTwoChars | src/confr/plx.py:4-12 | with a two-character replacement the round trip fails: `"_."` is accepted and decodes to `"._"` |
| Interpolation.Substitute | src/confr/utils.py:76-81 | the substitution loop writes only the cache and the call log |
| Interpolation.InterpolateKey | src/confr/utils.py:73-82 | a present key stays present and None stays None; only the cache and the call log change |
| Interpolation.Interpolate | src/confr/utils.py:73-82 | the loop rebinding `k` matches the interpolation specification |
| Interpolation.ReadAll | src/confr/utils.py:76-79 | one value is read per match |
| Interpolation.ReadThenSubstitute | src/confr/utils.py:76-81 | interpolation reads every placeholder, then substitutes each one in turn |
| Interpolation.NoPlaceholder | src/confr/utils.py:73-82 | a key without `${` is returned unchanged and nothing is read |
| Interpolation.WholeKey | src/confr/utils.py:76-81 | `${x}` becomes `conf.get(x)` if that is a str, else the assertion fails; errors of the read propagate |
| Interpolation.AbsentPlaceholder | src/confr/utils.py:79-80 | a placeholder naming an absent key fails the `str` assertion |
| Interface.ValidateCalls | src/confr/interface.py:89-107 | validators are called in order, stopping at the first that raises; the result passes iff the value is supported and no validator raises, and then every validator was called once |
| Interface.ValidateFromCalls | src/confr/interface.py:99-101 | the same for a list or tuple from item `i` on |
| Interface.Session.ValidateConf | src/confr/interface.py:89-107 | the outcome and the calls logged are those of the validation specification; the global is untouched |
| Interface.Session.Init | src/confr/interface.py:65-86 | a failing `Conf` raises and changes nothing; `ctx=True` returns a fresh context holding the current global and changes nothing; otherwise the new conf becomes the global and is validated |
| Interface.Session.ToDict | src/confr/interface.py:120-126 | no global is an AttributeError; otherwise the global's `to_dict`, limited and then optionally flattened |
| Interface.Session.GetCallOverrides | src/confr/interface.py:145-179 | no global fails the assertion; otherwise the loop matches the override specification |
| Interface.ConfContext.constructor | src/confr/interface.py:182-186 | the context keeps the old conf, the swapped conf and the validator |
| Interface.ConfContext.Enter | src/confr/interface.py:188-191 | the swapped conf becomes the global and is validated |
| Interface.ConfContext.Exit | src/confr/interface.py:193-195 | the global becomes the conf that was global when `init` ran |
| Interface.ViewFlat | src/confr/interface.py:120-126 | the flat view holds no dicts, and its keys are the dotted leaf paths of the limited dict (limit before flatten) |
| Interface.OverridesFromKeys | src/confr/interface.py:158-175 | the loop adds exactly the configurable parameters from `i` on |
| Interface.OverridesKeys | src/confr/interface.py:158-175 | the result holds exactly the parameters bound to `value` or a `Value` |
| Interface.KeyDerivation | src/confr/interface.py:159-172 | bare `value` and `Value(key=None)` use `subkeys.name`, or `name` when subkeys are empty or absent; every key with a leading '.' is appended to truthy subkeys (else kept) and interpolated; other keys are absolute; an empty key is an IndexError; fixed defaults are skipped |
| Interface.Given | src/confr/interface.py:23-25 | a given input is never None |
| Interface.FirstGiven | src/confr/interface.py:27-34 | the result is the first given candidate; with none given, the default |
| Interface.GetInputPrecedence | src/confr/interface.py:21-34 | a name holding the replacement fails first; an empty alias leaves the alias unbound (NameError); otherwise the first given of alias, `--k`, and the platform input, else the default |

## Left out

- File I/O: `read_yaml`, `write_yaml` and the file write in `write_conf` are not modelled. YAML serialisation is also left out.
- `import_python_object`: importlib and `getattr` reflection is replaced by the registry. Module import side effects are not modelled.
- `_set_seed` and its `self["seed"]` read in the `Conf` constructor: these seed foreign random number generators.
- Models.Conf.New: does not perform the seed step, because `_set_seed` is left out.
- Task-locality of the `aiocontextvars` variable: the model holds one overlay stack. `reset` is modelled as restoring the stack saved by `__enter__`, and its token is single-use.
- `bind` and the `inspect.signature` binding in `_get_call_overrides`: these are runtime reflection. The model starts from the bound parameters, each marked as bound to `value`, a `Value(key, default)`, or anything else.
- The wrapping `except` of `_get_call_overrides` only prints and re-raises, so the model propagates the error.
- The `inspect.ismodule` branch of `validate_conf`: this is reflection. Callables are named, and a given set of names raise when called.
- `_get_cli_arg` and `plx.inputs()`: they are not defined in this snapshot. They are given to `get_input` as dicts.
- All printing and the `verbose` flag.
- `DOT_REPLACEMENT` and `PLX_DOT_REPLACEMENT`: `settings.py` does not define them, so they are parameters.
- Python's recursion limit: it is modelled as a depth budget of 1000 nested `$name` reads, after which a read is a RecursionError.
- `interface.get`, `set` and `modified_conf` only forward to the global `Conf`, and are covered by `Conf.Get`, `Conf.Set` and `ModifiedConf`.
- `write_conf` and `get_global_conf`: `write_conf` is `strip_keys` over `to_dict` followed by I/O, and `get_global_conf` is a field read.
- `types`, `get_type` and `conf_patches` read attributes this snapshot of `Conf` does not have.
- Escaping.EscapeRoundTripText: the round trip is stated only when the replacement shares no character with the string. Plx.EncDecTwoChars shows that the assertion in `enc_input` does not protect longer replacements.
- Values: `Get` and `Put` take a dict's order to be insertion order. Dict equality (`PyEq`) ignores order, as Python's does.
- Calling a constructor with keyword arguments it does not accept is not modelled. Every registry constructor accepts any keywords.
- Trees.RecursiveMerge: `dst` receives copies of `src`'s nested dicts, not the dict objects themselves. In Python, `dst[k] = v` shares `v`, so a later merge into `dst` also changes `src`. This aliasing is not modelled.
- ConfProps.DictResolvesKeywise: the comprehension at `models.py:77` resolves every value once per key, so with |d| keys a nested `"@X()"` value is constructed |d| times. The model keeps all the rounds; only the reads of the last round are tied to the result, and the result is not shown equal to a single key-wise pass.
- Values: floats and booleans are not value kinds, and keys are strings only. So `PyEq` does not equate `1`, `1.0` and `True` as Python does, in the strict-conflict test and in the `!=` test of `add_overrides`.
