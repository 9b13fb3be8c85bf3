# MLServer model registry and data-plane dispatch, in Dafny

This project models the model registry of MLServer (`mlserver/registry.py`) and the dispatch
rules of its data plane (`mlserver/handlers/dataplane.py`), and proves properties of both.

- `SingleModelRegistry` keeps every loaded version of one model:
  - a dict from version string to model, in insertion order;
  - a default slot, resolved lazily and cached.
- `MultiModelRegistry` keeps one `SingleModelRegistry` per model name. It creates the registry
  on the first load of a name and forgets it once the name is unloaded or its last version goes.
- The data plane answers liveness and readiness, and for inference it decides whether a model is
  asked to predict and which id the answer carries.

Layout:

- `wrappers.dfy`: `Option` and `Result`.
- `py_dict.dfy`: a Python `dict` as keys in insertion order plus a map.
- `versions.dfy`: version truthiness, `_is_newer`, and the `max` that picks the default.
- `registry.dfy`: the two registries as classes that update their fields in place, plus the
  functions that specify them.
- `dataplane.dfy`: `DataPlane` over a `MultiModelRegistry`.

Behaviours of the source that the proofs bring out:

- **Empty-string versions.** Truthiness decides whether a version is stored (`if model.version:`),
  but `is None` decides the default ordering. A model with version `""` is therefore never put in
  the dict. Looking up `""` resolves to the default, and the model can be listed only while it
  holds the default slot. `Load` promises that the new model is what its version resolves to for
  every version except `""`.
- **No global order.** `_is_newer` compares all-digit versions as numbers and everything else as
  strings. Across the two schemes it is not transitive: `"2"` is older than `"10"`, `"10"` is
  older than `"1a"`, and `"1a"` is older than `"2"` (`Versions.MixedSchemesCycle`). So
  "the newest model" is only proved within one scheme.
- **The default slot after clearing.** `_refresh_default` compares a new model only with the
  current holder of the default slot. Once the slot is empty, the next registered model takes it
  even if a newer stored version exists: with `"3"` stored and the slot empty, loading `"1"` makes
  `"1"` the default. The slot is emptied when the default is unloaded, or when a reload replaces
  the default with a model that does not take the slot (a reload under version `""` of a versioned
  default, say). Reloading the default under its own version keeps the new model in the slot, since
  a tie counts as newer. `Registry.TakesDefault` and `Registry.SlotAfterLoad` state the rule as the
  source applies it.
- **Reloading over a versioned default without a version.** A `load` with no version (or version
  `""`) while the default is a versioned model `A` takes the reload path over `A`. The new model
  stores nothing, since its version is not truthy, and `A` is unloaded but stays in the dict under
  its version. So `get_model` with `A`'s version still resolves `A`, and `get_models` still lists it.
  `Registry.SingleModelRegistry.Load` states this through `versions == Stored(old(versions), new)`.
- **A name whose first load failed.** `MultiModelRegistry.load` creates the name's registry before
  loading, and a raising first load rolls back inside it, so the name stays mapped to an empty
  registry. `unload_version` cannot remove that name: nothing resolves, so it raises
  `ModelNotFound` before its emptiness check. Only `unload(name)` removes it, and a later
  successful load fills the registry again. `Registry.MultiModelRegistry.Load` states the empty
  registry left behind.

## Model

| member | source | states |
|---|---|---|
| Versions.Truthy | mlserver/registry.py:262 | `if version:` on an optional string: false for `None` and for `""` |
| Versions.IsDecimal | mlserver/registry.py:39-42 | the strings `int()` turns into a number here: one or more ASCII decimal digits |
| Versions.DecimalValue | mlserver/registry.py:39-42 | the value `int()` gives a string of decimal digits |
| Versions.StrLess | mlserver/registry.py:44-47 | Python `str` `<`: lexicographic by code point, a proper prefix first |
| Versions.Supersedes | mlserver/registry.py:112-127 | with a default in the slot: an unversioned new model takes it, an unversioned default keeps it, otherwise `_is_newer(new, default) >= 0` decides |
| Versions.IsNewer | mlserver/registry.py:26-49 | `_is_newer` on two versions; for two versions that are not both numeric, the answer is -1, 0 or 1 |
| Versions.IsNewerReflexive | mlserver/registry.py:26-49 | every present version compares equal to itself |
| Versions.IsNewerAntisymmetric | mlserver/registry.py:26-49 | swapping the arguments flips the sign of the answer, in both directions |
| Versions.IsNewerTies | mlserver/registry.py:34-49 | two versions tie exactly when they are the same string or two spellings of the same number |
| Versions.IsNewerTransitive | mlserver/registry.py:26-49 | within one scheme the ordering is transitive, and strictly so when one step is strict |
| Versions.MixedSchemesCycle | mlserver/registry.py:34-49 | "2" < "10" < "1a" < "2": mixing numeric and non-numeric versions gives a cycle |
| Versions.StrLessIrreflexive | mlserver/registry.py:44-49 | Python string `<` never holds between a string and itself |
| Versions.StrLessAsymmetric | mlserver/registry.py:44-49 | string `<` never holds in both directions |
| Versions.StrLessTotal | mlserver/registry.py:44-49 | two strings are equal or ordered one way or the other |
| Versions.StrLessTransitive | mlserver/registry.py:44-49 | string `<` is transitive |
| Versions.LatestIndex | mlserver/registry.py:89-90 | the position `max(..., key=cmp_to_key(_is_newer))` picks lies within the sequence |
| Versions.LatestIsNewest | mlserver/registry.py:89-90 | within one scheme the pick is a newest version, and every version before it is strictly older (the first maximum wins) |
| Versions.SupersedesKeepsNewest | mlserver/registry.py:101-127 | updating the default one model at a time agrees with a full scan: whichever of the old default and the new model is kept is a newest version |
| PyDict.Empty | mlserver/registry.py:70 | `{}` is a valid dict with no entries |
| PyDict.Put | mlserver/registry.py:262-263 | `d[k] = v` maps `k` to `v`; a new key goes to the end of the order and an existing key keeps its place |
| PyDict.Delete | mlserver/registry.py:219-220 | `del d[k]` removes exactly `k`, keeps the order of the other keys, and shortens the order by one |
| PyDict.PutThenDelete | mlserver/registry.py:159-176 | inserting a new key and deleting it again restores the dict, order included |
| PyDict.Values | mlserver/registry.py:252 | `list(d.values())` lists each key's value in key order, so every stored value appears in it |
| Registry.GetVersion | mlserver/registry.py:19-23 | a version is present only when the settings have parameters, and it is the parameters' version |
| Registry.Model.constructor | mlserver/registry.py:145 | a new model carries the settings' name and version and is not ready |
| Registry.Newest | mlserver/registry.py:86-93 | null exactly for an empty dict; otherwise a stored model kept under its own version, and within one scheme a newest one |
| Registry.Stored | mlserver/registry.py:261-263 | registering stores a model under a truthy version and leaves every other version entry as it was; an untruthy version stores nothing |
| Registry.TakesDefault | mlserver/registry.py:106-127 | the refresh decision with a new model: an empty slot is taken, otherwise `Supersedes` decides |
| Registry.SlotAfterLoad | mlserver/registry.py:139-153 | after a load the slot is empty only when a model was replaced; otherwise it holds the new model or the earlier holder, and the new model whenever it takes the slot and replaced nothing else |
| Registry.Unstored | mlserver/registry.py:219-220 | unloading deletes exactly the model's truthy version key and leaves an untruthy version's dict alone |
| Registry.UnstoredUndoesStored | mlserver/registry.py:159-176 | registering a model whose version is not stored and unloading it again restores the dict, order included |
| Registry.SlotAfterUnload | mlserver/registry.py:222-223 | the model leaves the slot, another holder stays, and an empty slot is resolved again from the remaining versions |
| Registry.StoredTwice | mlserver/registry.py:159-167 | registering the same model a second time (after the load hooks) stores nothing new |
| Registry.SingleModelRegistry.constructor | mlserver/registry.py:62-77 | a new registry has the settings' name, no versions and no default |
| Registry.SingleModelRegistry.FindDefault | mlserver/registry.py:86-93 | the cached default, otherwise the newest stored model; null exactly when there is neither a default nor a stored version |
| Registry.SingleModelRegistry.Lookup | mlserver/registry.py:233-240 | a truthy version resolves to the model stored under it, or to nothing when absent; any other version resolves to the default |
| Registry.SingleModelRegistry.Served | mlserver/registry.py:250-259 | the listing holds every stored model, plus the default when it has no truthy version, and nothing else |
| Registry.SingleModelRegistry.ServedDistinct | mlserver/registry.py:250-259 | the listing has no duplicates and each versioned model in it is stored under its version |
| Registry.SingleModelRegistry.Default | mlserver/registry.py:79-84 | the `default` property returns the cached default or caches the newest stored model; what later lookups see does not change |
| Registry.SingleModelRegistry.ClearDefault | mlserver/registry.py:95-96 | the default slot is emptied |
| Registry.SingleModelRegistry.RefreshDefault | mlserver/registry.py:98-137 | a new model takes an empty slot; an unversioned one always takes it; an unversioned holder keeps it; otherwise the new model takes it when `_is_newer(new, default) >= 0`. Without a model, the default is resolved as the property does |
| Registry.SingleModelRegistry.Register | mlserver/registry.py:261-265 | the dict becomes `Stored(old, model)` and the default slot follows the refresh rule |
| Registry.SingleModelRegistry.FindModel | mlserver/registry.py:233-240 | returns what `Lookup` resolves to; only an untruthy version may cache the default, and no answer changes |
| Registry.SingleModelRegistry.GetModel | mlserver/registry.py:242-248 | `ModelNotFound(name, version)` exactly when nothing resolves, otherwise the resolved model |
| Registry.SingleModelRegistry.GetModels | mlserver/registry.py:250-259 | returns the `Served` listing, with no duplicates, and each versioned model in it is stored |
| Registry.SingleModelRegistry.Empty | mlserver/registry.py:267-271 | true exactly when no version is stored and no default resolves |
| Registry.SingleModelRegistry.UnloadModel | mlserver/registry.py:210-231 | a versioned model's key is deleted, the model leaves the default slot if it held it, `ready` becomes the negation of what `unload()` returned, and the registry no longer refers to the model |
| Registry.SingleModelRegistry.LoadModel | mlserver/registry.py:155-177 | success registers the model and stores `load()`'s flag; a raising load removes the model's key again, empties the slot if the model took it, and fails with the load error |
| Registry.SingleModelRegistry.ReloadModel | mlserver/registry.py:179-195 | a raising load changes nothing; otherwise the new model is loaded and registered first, then the old model leaves the default slot if it held it, and then it is unloaded |
| Registry.SingleModelRegistry.Load | mlserver/registry.py:139-153 | reload exactly when the version already resolves; on success the new dict is `Stored(old, new)`, so every other version entry stays, and the slot is `SlotAfterLoad` of the slot after the lookup and the replaced model; the new model is what its version resolves to (unless the version is ""); only the replaced model's flag changes; a failed first load leaves the dict as it was; a failed reload leaves the dict, the default and the old model's flag alone |
| Registry.SingleModelRegistry.FirstLoad | mlserver/registry.py:150-151 | the `_load_model` branch: on success the dict is `Stored(old, new)` and the new model takes the slot by the refresh rule; on failure the dict is restored |
| Registry.SingleModelRegistry.Reload | mlserver/registry.py:148-149 | the `_reload_model` branch: on success the dict is `Stored(old, new)`, so an unversioned new model stores nothing and the old model stays stored under its version; the old model leaves the slot if it would keep it; on failure nothing changes |
| Registry.SingleModelRegistry.Unload | mlserver/registry.py:197-204 | every listed model gets the negation of what its `unload()` returned; afterwards no version is stored and no default resolves, so `empty()` holds |
| Registry.SingleModelRegistry.Clear | mlserver/registry.py:201-202 | the dict and the default slot are emptied |
| Registry.SingleModelRegistry.GatherUnloads | mlserver/registry.py:198-199 | unloading the distinct listed models one after another reaches every one of them, since each is still stored when its turn comes |
| Registry.SingleModelRegistry.UnloadVersion | mlserver/registry.py:206-208 | `ModelNotFound` exactly when nothing resolves; otherwise only the resolved model's key is deleted (`Unstored`), the slot follows `SlotAfterUnload`, only that model's flag changes, and it no longer resolves; `ModelNotFound` changes neither the dict nor the slot |
| Registry.MultiModelRegistry.constructor | mlserver/registry.py:279-290 | a new multi-registry knows no names |
| Registry.MultiModelRegistry.Resolve | mlserver/registry.py:315-336 | an unknown name resolves to nothing; a known name resolves as its registry does |
| Registry.MultiModelRegistry.ServedUpTo | mlserver/registry.py:324-328 | chaining the first `i` registries' listings holds exactly their models |
| Registry.MultiModelRegistry.AllServed | mlserver/registry.py:324-328 | the chained listing holds exactly the models of every registry |
| Registry.MultiModelRegistry.GetModelRegistry | mlserver/registry.py:330-336 | `ModelNotFound(name, version)` exactly for an unknown name, otherwise that name's registry |
| Registry.MultiModelRegistry.Load | mlserver/registry.py:292-302 | an unseen name gets a fresh registry appended to the name map, which stays even when the load fails, and on success holds just the new model, which has the slot; a known name keeps its map and its registry changes as a single registry's `load` does; only the replaced model's flag changes; a failed load leaves the version resolving as before, keeps a known name's dict (and, on a failed reload, its default and the old model's flag), and leaves a new name mapped to an empty registry |
| Registry.MultiModelRegistry.LoadIn | mlserver/registry.py:302 | loading into a known name's registry: the dict becomes `Stored(old, new)`, the slot follows `SlotAfterLoad`, and the new model is what its version resolves to; on failure the dict is kept and the version resolves as before, a failed first load at most empties the slot, and a failed reload keeps the default and the old model's flag |
| Registry.MultiModelRegistry.Unload | mlserver/registry.py:304-307 | `ModelNotFound` for an unknown name; otherwise every listed model of the name is unloaded and the name is deleted |
| Registry.MultiModelRegistry.UnloadVersion | mlserver/registry.py:309-313 | `ModelNotFound` exactly when nothing resolves; otherwise only the model's key leaves the name's registry, the slot follows `SlotAfterUnload`, only that model's flag changes, and the name is deleted exactly when its registry is then empty; `ModelNotFound` leaves the name map and a known name's dict and slot as they were |
| Registry.MultiModelRegistry.UnloadIn | mlserver/registry.py:311 | inside a known name's registry: `ModelNotFound` exactly when nothing resolves; otherwise the resolved model gets the negation of what `unload()` returned, its key is deleted and the slot follows `SlotAfterUnload`; `ModelNotFound` leaves the dict and slot as they were |
| Registry.MultiModelRegistry.ForgetIfEmpty | mlserver/registry.py:312-313 | the name is deleted exactly when its registry has no version and no default |
| Registry.MultiModelRegistry.GetModel | mlserver/registry.py:315-317 | `ModelNotFound` exactly when nothing resolves, otherwise the resolved model; no lookup or listing answer changes |
| Registry.MultiModelRegistry.GetModels | mlserver/registry.py:319-328 | with a name, that registry's listing or `ModelNotFound(name, None)`; without one, every registry's listing chained in insertion order |
| Registry.MultiModelRegistry.ListAll | mlserver/registry.py:324-328 | the loop over the registries produces the chained listing and changes no answer |
| Registry.MultiModelRegistry.ListRegistry | mlserver/registry.py:325 | one registry's listing, as it was before the call |
| DataPlane.CheckAll | mlserver/handlers/dataplane.py:66 | `all(...)` is true exactly when every listed model is ready |
| DataPlane.ReadyMeans | mlserver/handlers/dataplane.py:64-66 | server readiness means every model of every registry is ready, and holds when no name is loaded |
| DataPlane.DataPlane.constructor | mlserver/handlers/dataplane.py:26-28 | the data plane answers from the registry it is given |
| DataPlane.DataPlane.Live | mlserver/handlers/dataplane.py:61-62 | liveness is always true |
| DataPlane.DataPlane.Ready | mlserver/handlers/dataplane.py:64-66 | true exactly when every model the registry lists is ready |
| DataPlane.DataPlane.ModelReady | mlserver/handlers/dataplane.py:68-70 | the resolved model's `ready` flag, or `ModelNotFound` when nothing resolves |
| DataPlane.DataPlane.Infer | mlserver/handlers/dataplane.py:87-128 | a missing request id is filled in before the lookup; `ModelNotFound` or `ModelNotReady` leave the response untouched; success exactly for a resolved ready model, returning the response with the request's id |
| DataPlane.DataPlane.Admit | mlserver/handlers/dataplane.py:108-113 | the request has an id afterwards; the lookup fails with `ModelNotFound` or `ModelNotReady` exactly as resolution and readiness say |
| DataPlane.DataPlane.ServingModel | mlserver/handlers/dataplane.py:111-113 | the resolved model when it is ready, `ModelNotReady` when it is not, `ModelNotFound` when nothing resolves |

## Left out

- Versions.IsNewer: Python's `int()` also accepts signs, surrounding whitespace and underscores. It also accepts non-ASCII Unicode decimal digits. Here only strings of ASCII digits `0`-`9` take the numeric branch.
- Registry.Newest: states "newest" only when all stored versions use one scheme, because across schemes `_is_newer` has no maximum (see `Versions.MixedSchemesCycle`).
- Versions.LatestIsNewest: requires a uniform scheme, for the same reason.
- Registry.SingleModelRegistry.Load: the error of a failed load is `LoadFailed(name)` rather than the exception `load()` raised, which is re-raised unchanged in the source.
- Registry.Model.constructor: a new model is taken to be not ready. `MLModel` is not part of this model.
- Registry.SingleModelRegistry.RefreshDefault: `if new_model:` (registry.py:106) is taken to be true for every model object, as no model class here defines truthiness. The same holds for `self._default and` (registry.py:129), `if previous_loaded_model:` (registry.py:148, in `Registry.SingleModelRegistry.Load`) and `self.default and` (registry.py:256, in `Registry.SingleModelRegistry.GetModels`): each is read as "is not None".
- The load, reload and unload hooks are treated as identity functions; they are user-supplied coroutines with no body to model. Exceptions they raise, and exceptions raised while registering, are not modelled; only `model.load()` raising is (as `LoadOutcome.Raised`).
- `model.load()`, `model.unload()` and `model.predict()` become parameters: the load outcome, the boolean `unload()` returned (a function of the model for a whole-registry unload), and the response object `predict` produced. `model.unload()` raising is not modelled.
- `asyncio.gather` runs the unloads of `unload()` one after another in list order, and the registries' listings in `get_models()` one after another. Interleavings with other coroutines are not modelled.
- `generate_uuid()` becomes the `generatedId` parameter of `Infer`.
- Metrics, the SLA extraction, `model_context`, logging, the inference middlewares and CloudEvents are left out. Apart from the SLA extraction (next line) they do not affect the registry or the ids.
- DataPlane.DataPlane.Infer: the SLA extraction (dataplane.py:101-104) catches only `AttributeError` and `TypeError`. A request with no inputs raises `IndexError`, and extended parameters without an `sla` key raise `KeyError`, both before the id is assigned. That failure path is not modelled, so `Infer` promises an id and a lookup only for requests that get past the SLA extraction.
- `DataPlane.metadata` and `model_metadata` only forward settings and `model.metadata()` and are not modelled.
- `runtimes/huggingface/mlserver_huggingface/common.py` (pipeline construction and a JSON encoder) and the tensor and parameter codecs are not part of this model.
