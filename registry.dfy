/** The model registry of mlserver/registry.py: `SingleModelRegistry` keeps the versions of one
    model and its default, `MultiModelRegistry` keeps one such registry per model name. */
module Registry {
  import opened Wrappers
  import opened Versions
  import PyDict

  datatype ModelParameters = ModelParameters(version: Option<string>)

  datatype ModelSettings = ModelSettings(name: string, parameters: Option<ModelParameters>)

  /** `_get_version`: the version named in the settings' parameters, `None` without parameters. */
  function GetVersion(settings: ModelSettings): (v: Option<string>)
    ensures v.Some? ==> settings.parameters.Some? && settings.parameters.value.version == v
  {
    if settings.parameters.Some? then settings.parameters.value.version else None
  }

  datatype Error =
    | ModelNotFound(name: string, version: Option<string>)
    | ModelNotReady(name: string, version: Option<string>)
    | LoadFailed(name: string)

  /** What awaiting `model.load()` produced: the readiness flag it returned, or an exception. */
  datatype LoadOutcome = Loaded(ready: bool) | Raised

  /** A served model. Its identity is the object; `ready` is the flag the registry and the
      data plane flip in place. */
  class Model {
    const name: string
    const version: Option<string>
    var ready: bool

    /** `model_initialiser(settings)`: a new, not yet loaded model. */
    constructor (settings: ModelSettings)
      ensures name == settings.name && version == GetVersion(settings) && !ready
    {
      name := settings.name;
      version := GetVersion(settings);
      ready := false;
    }
  }

  function VersionsOf(ms: seq<Model>): (vs: seq<Option<string>>)
    ensures |vs| == |ms| && forall i :: 0 <= i < |ms| ==> vs[i] == ms[i].version
  {
    seq(|ms|, i requires 0 <= i < |ms| => ms[i].version)
  }

  /** The versions dict of a registry: every key is a non-empty version and holds the model
      carrying that version. */
  ghost predicate Keyed(versions: PyDict.Dict<string, Model>)
  {
    && PyDict.Valid(versions)
    && forall k :: k in versions.entries ==> k != "" && versions.entries[k].version == Some(k)
  }

  /** `max(versions.values(), key=cmp_to_key(_is_newer))`, or null for an empty dict. Within one
      version scheme it is a newest model. */
  function Newest(versions: PyDict.Dict<string, Model>): (m: Model?)
    requires Keyed(versions)
    ensures m == null <==> versions.entries == map[]
    ensures m != null ==> m.version.Some? && m.version.value in versions.entries && versions.entries[m.version.value] == m
    ensures m != null && Uniform(VersionsOf(PyDict.Values(versions))) ==>
      forall k :: k in versions.entries ==> IsNewer(versions.entries[k].version, m.version) <= 0
  {
    if versions.entries == map[] then null
    else
      var ms := PyDict.Values(versions);
      assert versions.keys[0] in versions.entries;
      var m := ms[LatestIndex(VersionsOf(ms))];
      assert m in versions.entries.Values;
      NewestIsNewest(versions, ms, m);
      m
  }

  lemma NewestIsNewest(versions: PyDict.Dict<string, Model>, ms: seq<Model>, m: Model)
    requires Keyed(versions) && ms == PyDict.Values(versions) && |ms| > 0
    requires m == ms[LatestIndex(VersionsOf(ms))]
    ensures Uniform(VersionsOf(ms)) ==>
      forall k :: k in versions.entries ==> IsNewer(versions.entries[k].version, m.version) <= 0
  {
    if Uniform(VersionsOf(ms)) {
      LatestIsNewest(VersionsOf(ms));
      forall k | k in versions.entries ensures IsNewer(versions.entries[k].version, m.version) <= 0 {
        var i :| 0 <= i < |versions.keys| && versions.keys[i] == k;
        assert ms[i] == versions.entries[k];
      }
    }
  }

  /** `versions` after `_register` stores `m`: only a truthy version is stored. */
  function Stored(versions: PyDict.Dict<string, Model>, m: Model): (r: PyDict.Dict<string, Model>)
    requires Keyed(versions)
    ensures Keyed(r)
    ensures Truthy(m.version) ==> r.entries == versions.entries[m.version.value := m]
    ensures !Truthy(m.version) ==> r == versions
    ensures forall k :: k in versions.entries && Some(k) != m.version ==> k in r.entries && r.entries[k] == versions.entries[k]
  {
    if Truthy(m.version) then PyDict.Put(versions, m.version.value, m) else versions
  }

  /** Whether `_refresh_default(m)` moves `m` into the default slot currently holding `current`. */
  predicate TakesDefault(current: Model?, m: Model)
  {
    current == null || Supersedes(m.version, current.version)
  }

  /** The default slot once `load` has put `m` in a registry whose slot held `cached` after the
      version was looked up, where `previous` is what that version resolved to (null on a first
      load): `m` takes the slot by the refresh rule, then a reloaded `previous` leaves it. */
  function SlotAfterLoad(cached: Model?, previous: Model?, m: Model): (d: Model?)
    ensures d == null ==> previous != null
    ensures d != null ==> d == m || d == cached
    ensures TakesDefault(cached, m) && m != previous ==> d == m
  {
    var taken := if TakesDefault(cached, m) then m else cached;
    if taken == previous then null else taken
  }

  /** `versions` after `_unload_model` deletes `m`'s key: only a truthy version has one. */
  function Unstored(versions: PyDict.Dict<string, Model>, m: Model): (r: PyDict.Dict<string, Model>)
    requires Keyed(versions)
    requires Truthy(m.version) ==> m.version.value in versions.entries
    ensures Keyed(r)
    ensures Truthy(m.version) ==> r.entries == versions.entries - {m.version.value}
    ensures !Truthy(m.version) ==> r == versions
  {
    if Truthy(m.version) then PyDict.Delete(versions, m.version.value) else versions
  }

  /** Registering a model whose version is not stored yet and unloading it again restores the
      dict, order included (the rollback of a failed first load). */
  lemma UnstoredUndoesStored(versions: PyDict.Dict<string, Model>, m: Model)
    requires Keyed(versions)
    requires Truthy(m.version) ==> m.version.value !in versions.entries
    ensures Unstored(Stored(versions, m), m) == versions
  {
    if Truthy(m.version) {
      PyDict.PutThenDelete(versions, m.version.value, m);
    }
  }

  /** The default slot once `_unload_model(m)` has run with `cached` in the slot: `m` leaves it,
      another holder stays, and an empty slot is resolved again from the `remaining` versions. */
  function SlotAfterUnload(cached: Model?, m: Model, remaining: PyDict.Dict<string, Model>): Model?
    requires Keyed(remaining)
  {
    if cached == m then null else if cached != null then cached else Newest(remaining)
  }

  class SingleModelRegistry {
    const name: string
    var versions: PyDict.Dict<string, Model>
    var defaultModel: Model?

    /** The model is stored under its own version. */
    ghost predicate Holds(m: Model)
      reads this
    {
      m.version.Some? && m.version.value in versions.entries && versions.entries[m.version.value] == m
    }

    /** The dict is keyed by versions and a versioned default is one of the stored models. */
    ghost predicate Valid()
      reads this
    {
      && Keyed(versions)
      && (defaultModel != null && Truthy(defaultModel.version) ==> Holds(defaultModel))
    }

    /** Every model object the registry refers to. */
    ghost function Models(): set<Model>
      reads this
    {
      versions.entries.Values + (if defaultModel == null then {} else {defaultModel})
    }

    constructor (settings: ModelSettings)
      ensures Valid() && name == settings.name
      ensures versions == PyDict.Empty() && defaultModel == null
    {
      name := settings.name;
      versions := PyDict.Empty();
      defaultModel := null;
    }

    /** `_find_default`: the cached default, else the newest stored model, else null. */
    function FindDefault(): (m: Model?)
      reads this
      requires Valid()
      ensures defaultModel != null ==> m == defaultModel
      ensures m == null <==> defaultModel == null && versions.entries == map[]
      ensures m != null && Truthy(m.version) ==> Holds(m)
      ensures m != null && m != defaultModel ==> m in versions.entries.Values
    {
      if defaultModel == null then Newest(versions) else defaultModel
    }

    /** `_find_model(version)`: a truthy version is looked up in the dict, anything else
        resolves to the default. */
    function Lookup(version: Option<string>): (m: Model?)
      reads this
      requires Valid()
      ensures Truthy(version) ==> (m != null <==> version.value in versions.entries)
      ensures Truthy(version) && m != null ==> m.version == version && Holds(m)
      ensures !Truthy(version) ==> m == FindDefault()
      ensures m != null ==> m in Models() && (Truthy(m.version) ==> Holds(m))
    {
      if Truthy(version) then
        if version.value in versions.entries then versions.entries[version.value] else null
      else FindDefault()
    }

    /** The slot once `_find_model(version)` has run: only an untruthy version resolves and
        caches the default. */
    ghost function CachedFor(version: Option<string>): Model?
      reads this
      requires Valid()
    {
      if Truthy(version) then defaultModel else FindDefault()
    }

    /** The model `version` resolves to, as a frame: the one model `load` or `unload_version`
        of that version changes. */
    ghost function Touched(version: Option<string>): set<Model>
      reads this
      requires Valid()
    {
      if Lookup(version) == null then {} else {Lookup(version)}
    }

    /** What `get_models` lists: the stored models in insertion order, then the default when it
        has no (truthy) version, since such a default is not in the dict. */
    function Served(): (ms: seq<Model>)
      reads this
      requires Valid()
      ensures forall k :: k in versions.entries ==> versions.entries[k] in ms
      ensures FindDefault() != null && !Truthy(FindDefault().version) ==> FindDefault() in ms
      ensures forall i :: 0 <= i < |ms| ==>
        ms[i] in versions.entries.Values || (ms[i] == FindDefault() && !Truthy(ms[i].version))
    {
      var d := FindDefault();
      PyDict.Values(versions) + (if d != null && !Truthy(d.version) then [d] else [])
    }

    /** The listing depends only on the stored versions and the default. */
    twostate lemma SameServed()
      requires old(Valid()) && Valid()
      requires versions == old(versions) && FindDefault() == old(FindDefault())
      ensures Served() == old(Served())
    {
    }

    /** The listed models are distinct, all referred to by the registry, and each versioned one
        is stored under its version. */
    lemma ServedDistinct()
      requires Valid()
      ensures var ms := Served();
        && PyDict.Distinct(ms)
        && (forall i :: 0 <= i < |ms| ==> ms[i] in Models() && (Truthy(ms[i].version) ==> Holds(ms[i])))
    {
      var stored := PyDict.Values(versions);
      var ms := Served();
      assert ms[..|stored|] == stored;
      forall i | 0 <= i < |stored| ensures stored[i].version == Some(versions.keys[i]) {
        assert stored[i] == versions.entries[versions.keys[i]];
      }
      forall i, j | 0 <= i < j < |ms| ensures ms[i] != ms[j] {
        assert ms[i] == stored[i];
        if j < |stored| {
          assert ms[j] == stored[j];
        }
      }
    }

    /** The `default` property: resolves the default once and caches it. */
    method Default() returns (d: Model?)
      requires Keyed(versions)
      modifies this`defaultModel
      ensures d == (if old(defaultModel) != null then old(defaultModel) else Newest(versions))
      ensures defaultModel == d
      ensures old(Valid()) ==> Valid() && FindDefault() == old(FindDefault())
    {
      if defaultModel == null {
        defaultModel := Newest(versions);
      }
      d := defaultModel;
    }

    /** `_clear_default` */
    method ClearDefault()
      requires Keyed(versions)
      modifies this`defaultModel
      ensures Valid() && defaultModel == null
    {
      defaultModel := null;
    }

    /** `_refresh_default(new_model)`. With a model, it decides the default slot from the slot's
        current holder alone (see `TakesDefault`); without one, it resolves the default as the
        `default` property does. It runs right after `_register` has stored the model, when a
        versioned default may have just been replaced in the dict by a model of its version. */
    method RefreshDefault(newModel: Model?) returns (d: Model?)
      requires Keyed(versions)
      requires newModel != null && Truthy(newModel.version) ==> Holds(newModel)
      requires defaultModel != null && Truthy(defaultModel.version) && !Holds(defaultModel) ==>
        newModel != null && newModel.version == defaultModel.version
      requires newModel == null ==> Valid()
      modifies this`defaultModel
      ensures Valid() && defaultModel == d
      ensures newModel != null ==> d == if TakesDefault(old(defaultModel), newModel) then newModel else old(defaultModel)
      ensures newModel == null ==> d == old(FindDefault())
    {
      if newModel != null {
        if defaultModel == null {
          defaultModel := newModel;
          return newModel;
        }
        if newModel.version.None? {
          defaultModel := newModel;
          return newModel;
        }
        if defaultModel.version.None? {
          return defaultModel;
        }
        if !Holds(defaultModel) {
          IsNewerReflexive(newModel.version);
        }
        if IsNewer(newModel.version, defaultModel.version) >= 0 {
          defaultModel := newModel;
          return newModel;
        }
        return defaultModel;
      }
      if defaultModel != null && defaultModel.version.None? {
        return defaultModel;
      }
      defaultModel := FindDefault();
      return defaultModel;
    }

    /** `_register(model)`: store the model under a truthy version, then refresh the default.
        No other version entry changes. */
    method Register(model: Model)
      requires Valid()
      modifies this`versions, this`defaultModel
      ensures Valid()
      ensures versions == Stored(old(versions), model)
      ensures defaultModel == if TakesDefault(old(defaultModel), model) then model else old(defaultModel)
    {
      if Truthy(model.version) {
        versions := PyDict.Put(versions, model.version.value, model);
      }
      var _ := RefreshDefault(model);
    }

    /** `_find_model(version)`, which may resolve and cache the default. */
    method FindModel(version: Option<string>) returns (m: Model?)
      requires Valid()
      modifies this`defaultModel
      ensures Valid() && versions == old(versions)
      ensures FindDefault() == old(FindDefault())
      ensures defaultModel == old(CachedFor(version))
      ensures m == old(Lookup(version))
    {
      if Truthy(version) {
        if version.value !in versions.entries {
          return null;
        }
        return versions.entries[version.value];
      }
      m := Default();
    }

    /** `get_model(version)`: `ModelNotFound` exactly when nothing resolves. */
    method GetModel(version: Option<string>) returns (r: Result<Model, Error>)
      requires Valid()
      modifies this`defaultModel
      ensures Valid() && versions == old(versions)
      ensures FindDefault() == old(FindDefault()) && defaultModel == old(CachedFor(version))
      ensures old(Lookup(version)) == null ==> r == Failure(ModelNotFound(name, version))
      ensures old(Lookup(version)) != null ==> r == Success(old(Lookup(version)))
    {
      var m := FindModel(version);
      if m == null {
        return Failure(ModelNotFound(name, version));
      }
      return Success(m);
    }

    /** `get_models()` */
    method GetModels() returns (ms: seq<Model>)
      requires Valid()
      modifies this`defaultModel
      ensures Valid() && versions == old(versions)
      ensures FindDefault() == old(FindDefault())
      ensures ms == old(Served()) && Served() == old(Served())
      ensures PyDict.Distinct(ms)
      ensures forall i :: 0 <= i < |ms| ==> ms[i] in old(Models()) && (Truthy(ms[i].version) ==> Holds(ms[i]))
    {
      ServedDistinct();
      ms := PyDict.Values(versions);
      var d := Default();
      if d != null && !Truthy(d.version) {
        ms := ms + [d];
      }
    }

    /** `empty()`: no stored version and no default. */
    method Empty() returns (e: bool)
      requires Valid()
      modifies this`defaultModel
      ensures Valid() && versions == old(versions)
      ensures FindDefault() == old(FindDefault())
      ensures e <==> versions.entries == map[] && FindDefault() == null
      ensures defaultModel == old(defaultModel)
      ensures e <==> versions.entries == map[] && defaultModel == null
    {
      if versions.entries != map[] {
        return false;
      }
      var d := Default();
      return d == null;
    }

    /** `_unload_model(model)`: the unload callbacks (whose exceptions are swallowed) have no
        effect here; the model's version key is deleted, the model leaves the default slot if it
        holds it, and its `ready` flag becomes the negation of what `model.unload()` returned.
        The source only unloads models it holds, so the `del` finds its key. */
    method UnloadModel(model: Model, unloaded: bool)
      requires Valid()
      requires Truthy(model.version) ==> Holds(model)
      modifies this`versions, this`defaultModel, model
      ensures Valid()
      ensures versions == Unstored(old(versions), model)
      ensures defaultModel == SlotAfterUnload(old(defaultModel), model, versions)
      ensures model.ready == !unloaded
      ensures model !in versions.entries.Values && defaultModel != model
    {
      if Truthy(model.version) {
        versions := PyDict.Delete(versions, model.version.value);
      }
      var d := Default();
      if model == d {
        ClearDefault();
      }
      model.ready := !unloaded;
    }

    /** `_load_model(model)` with identity load hooks: register (so the model shows as not
        ready while loading), register again, then store what `model.load()` returned in
        `ready`. If loading raises, the model is unloaded again and the error re-raised. */
    method LoadModel(model: Model, loading: LoadOutcome, unloaded: bool) returns (r: Result<(), Error>)
      requires Valid()
      requires model !in Models()
      modifies this`versions, this`defaultModel, model
      ensures Valid()
      ensures r.Success? <==> loading.Loaded?
      ensures loading.Loaded? ==>
        && versions == Stored(old(versions), model)
        && defaultModel == (if TakesDefault(old(defaultModel), model) then model else old(defaultModel))
        && model.ready == loading.ready
      ensures loading.Raised? ==>
        && r == Failure(LoadFailed(model.name))
        && versions == (if Truthy(model.version) then PyDict.Delete(Stored(old(versions), model), model.version.value) else old(versions))
        && defaultModel == (if TakesDefault(old(defaultModel), model) then null else old(defaultModel))
        && model.ready == !unloaded
    {
      ghost var before := versions;
      Register(model);
      ghost var afterFirst := defaultModel;
      if afterFirst == model {
        IsNewerReflexiveOrUnversioned(model);
      }
      Register(model);
      StoredTwice(before, model);
      assert versions == Stored(before, model) && defaultModel == afterFirst;
      match loading {
        case Loaded(flag) =>
          model.ready := flag;
          r := Success(());
        case Raised =>
          UnloadModel(model, unloaded);
          r := Failure(LoadFailed(model.name));
      }
    }

    /** `_reload_model(old, new)` with identity reload hooks: the new model is loaded before
        anything changes, so a raising `load()` leaves the registry as it was. Otherwise the
        new model is registered, the old one leaves the default slot if it holds it, and the
        old one is unloaded. */
    method ReloadModel(oldModel: Model, newModel: Model, loading: LoadOutcome, unloaded: bool)
      returns (r: Result<(), Error>)
      requires Valid()
      requires oldModel != newModel
      modifies this`versions, this`defaultModel, oldModel, newModel
      ensures Valid()
      ensures r.Success? <==> loading.Loaded?
      ensures loading.Raised? ==>
        && r == Failure(LoadFailed(newModel.name))
        && versions == old(versions) && defaultModel == old(defaultModel)
        && oldModel.ready == old(oldModel.ready)
      ensures loading.Loaded? ==>
        && versions == Stored(old(versions), newModel)
        && newModel.ready == loading.ready
        && oldModel.ready == !unloaded
        && (var taken := if TakesDefault(old(defaultModel), newModel) then newModel else old(defaultModel);
            defaultModel == (if taken == oldModel then null else taken))
    {
      if loading.Raised? {
        return Failure(LoadFailed(newModel.name));
      }
      newModel.ready := loading.ready;
      Register(newModel);
      var d := Default();
      if oldModel == d {
        ClearDefault();
      }
      oldModel.ready := !unloaded;
      r := Success(());
    }

    /** `load(settings)`: the reload path is taken exactly when a model already resolves for
        the settings' version; otherwise the fresh model goes through `_load_model`. */
    method Load(settings: ModelSettings, loading: LoadOutcome, unloaded: bool) returns (r: Result<Model, Error>)
      requires Valid()
      modifies this`versions, this`defaultModel, Touched(GetVersion(settings))
      ensures Valid()
      ensures r.Success? <==> loading.Loaded?
      ensures r.Failure? ==> r.error == LoadFailed(settings.name)
      ensures r.Success? ==>
        && fresh(r.value) && r.value.name == settings.name
        && r.value.version == GetVersion(settings) && r.value.ready == loading.ready
      // only the new model's version entry changes, and the slot follows the refresh rule
      ensures r.Success? ==>
        && versions == Stored(old(versions), r.value)
        && defaultModel == SlotAfterLoad(old(CachedFor(GetVersion(settings))), old(Lookup(GetVersion(settings))), r.value)
      // a successful load makes the new model what its version resolves to
      ensures r.Success? && GetVersion(settings) != Some("") ==> Lookup(GetVersion(settings)) == r.value
      // first load of a version that fails leaves the stored versions as they were
      ensures old(Lookup(GetVersion(settings))) == null && r.Failure? ==>
        versions == old(versions) && (defaultModel == old(defaultModel) || defaultModel == null)
      // reload: the previous model is unloaded only once the new one has loaded
      ensures old(Lookup(GetVersion(settings))) != null && r.Success? ==>
        old(Lookup(GetVersion(settings))).ready == !unloaded
      // a failed load leaves what the version resolves to as it was
      ensures r.Failure? ==> Lookup(GetVersion(settings)) == old(Lookup(GetVersion(settings)))
      ensures old(Lookup(GetVersion(settings))) != null && r.Failure? ==>
        && versions == old(versions) && FindDefault() == old(FindDefault())
        && old(Lookup(GetVersion(settings))).ready == old(Lookup(GetVersion(settings)).ready)
    {
      var version := GetVersion(settings);
      var previous := FindModel(version);
      var model := new Model(settings);
      if previous != null {
        r := Reload(previous, model, loading, unloaded);
      } else {
        r := FirstLoad(model, loading, unloaded);
      }
    }

    /** The `_load_model` branch of `load`, for a version nothing resolves to yet. */
    method FirstLoad(model: Model, loading: LoadOutcome, unloaded: bool) returns (r: Result<Model, Error>)
      requires Valid() && model !in Models() && Lookup(model.version) == null
      modifies this`versions, this`defaultModel, model
      ensures Valid()
      ensures r.Success? <==> loading.Loaded?
      ensures r.Failure? ==> r.error == LoadFailed(model.name)
      ensures r.Success? ==> r.value == model && model.ready == loading.ready
      ensures r.Success? ==> versions == Stored(old(versions), model) && defaultModel == SlotAfterLoad(old(defaultModel), null, model)
      ensures r.Success? && model.version != Some("") ==> Lookup(model.version) == model
      ensures r.Failure? ==> versions == old(versions) && (defaultModel == old(defaultModel) || defaultModel == null)
    {
      if Truthy(model.version) {
        PyDict.PutThenDelete(versions, model.version.value, model);
      }
      var res := LoadModel(model, loading, unloaded);
      if res.Failure? {
        return Failure(res.error);
      }
      if model.version == None {
        assert TakesDefault(old(defaultModel), model);
      }
      return Success(model);
    }

    /** The `_reload_model` branch of `load`, replacing the model its version resolves to. */
    method Reload(previous: Model, model: Model, loading: LoadOutcome, unloaded: bool) returns (r: Result<Model, Error>)
      requires Valid() && previous != model && previous == Lookup(model.version)
      modifies this`versions, this`defaultModel, previous, model
      ensures Valid()
      ensures r.Success? <==> loading.Loaded?
      ensures r.Failure? ==> r.error == LoadFailed(model.name)
      ensures r.Success? ==> r.value == model && model.ready == loading.ready && previous.ready == !unloaded
      ensures r.Success? ==> versions == Stored(old(versions), model) && defaultModel == SlotAfterLoad(old(defaultModel), previous, model)
      ensures r.Success? && model.version != Some("") ==> Lookup(model.version) == model
      ensures r.Failure? ==>
        versions == old(versions) && defaultModel == old(defaultModel) && previous.ready == old(previous.ready)
    {
      var res := ReloadModel(previous, model, loading, unloaded);
      if res.Failure? {
        return Failure(res.error);
      }
      if model.version == None {
        assert TakesDefault(old(defaultModel), model);
      }
      return Success(model);
    }

    /** `unload()`: unload every listed model, then clear the dict and the default. */
    method Unload(unloadResult: Model -> bool)
      requires Valid()
      modifies this`versions, this`defaultModel, Models()
      ensures Valid() && versions.entries == map[] && defaultModel == null
      ensures FindDefault() == null
      ensures forall m :: m in old(Served()) ==> m.ready == !unloadResult(m)
    {
      var models := GetModels();
      GatherUnloads(models, unloadResult);
      Clear();
    }

    /** `_versions.clear()` followed by `_clear_default()`. */
    method Clear()
      modifies this`versions, this`defaultModel
      ensures Valid() && versions.entries == map[] && defaultModel == null
    {
      versions := PyDict.Empty();
      defaultModel := null;
    }

    /** `asyncio.gather` over `_unload_model` of the listed models, run here one after another.
        Each listed versioned model is still stored when its turn comes, since the list holds
        distinct models. */
    method GatherUnloads(models: seq<Model>, unloadResult: Model -> bool)
      requires Valid()
      requires PyDict.Distinct(models)
      requires forall j :: 0 <= j < |models| && Truthy(models[j].version) ==> Holds(models[j])
      modifies this`versions, this`defaultModel, models
      ensures Valid()
      ensures forall m :: m in models ==> m.ready == !unloadResult(m)
    {
      var i := 0;
      while i < |models|
        invariant 0 <= i <= |models|
        invariant Valid()
        invariant forall j :: i <= j < |models| && Truthy(models[j].version) ==> Holds(models[j])
        invariant forall j :: 0 <= j < i ==> models[j].ready == !unloadResult(models[j])
      {
        var m := models[i];
        ghost var before := versions;
        assert forall j :: 0 <= j < i ==> models[j] != m;
        UnloadModel(m, unloadResult(m));
        RemainingHeld(before, versions, models, i);
        i := i + 1;
      }
    }

    /** `unload_version(version)`: `ModelNotFound` when nothing resolves, otherwise that model
        is unloaded. */
    method UnloadVersion(version: Option<string>, unloaded: bool) returns (r: Result<(), Error>)
      requires Valid()
      modifies this`versions, this`defaultModel, Touched(version)
      ensures Valid()
      ensures r.Failure? <==> old(Lookup(version)) == null
      ensures r.Failure? ==> r.error == ModelNotFound(name, version) && versions == old(versions) && defaultModel == old(defaultModel)
      ensures r.Success? ==>
        && versions == Unstored(old(versions), old(Lookup(version)))
        && defaultModel == SlotAfterUnload(old(CachedFor(version)), old(Lookup(version)), versions)
      ensures r.Success? ==>
        && old(Lookup(version)).ready == !unloaded
        && old(Lookup(version)) !in versions.entries.Values
        && Lookup(version) != old(Lookup(version))
    {
      var found := GetModel(version);
      if found.Failure? {
        return Failure(found.error);
      }
      UnloadModel(found.value, unloaded);
      r := Success(());
    }
  }

  /** One `SingleModelRegistry` per model name, created on the first load of that name. */
  class MultiModelRegistry {
    var models: PyDict.Dict<string, SingleModelRegistry>

    ghost function Registries(): set<SingleModelRegistry>
      reads this
    {
      models.entries.Values
    }

    /** Each name maps to a valid registry of that name (so distinct names never share one). */
    ghost predicate Valid()
      reads this, Registries()
    {
      && PyDict.Valid(models)
      && forall n :: n in models.entries ==> models.entries[n].name == n && models.entries[n].Valid()
    }

    /** The registry of `name`, as a frame. */
    ghost function RegistryOf(name: string): set<SingleModelRegistry>
      reads this
    {
      if name in models.entries then {models.entries[name]} else {}
    }

    /** The models of `name`'s registry, as a frame. */
    ghost function ModelsOf(name: string): set<Model>
      reads this, Registries()
    {
      if name in models.entries then models.entries[name].Models() else {}
    }

    /** The model `get_model(name, version)` resolves to, as a frame. */
    ghost function TouchedOf(name: string, version: Option<string>): set<Model>
      reads this, Registries()
      requires Valid()
    {
      if name in models.entries then models.entries[name].Touched(version) else {}
    }

    constructor ()
      ensures Valid() && models.entries == map[]
    {
      models := PyDict.Empty();
    }

    /** What `get_model(name, version)` resolves to, null when it raises `ModelNotFound`. */
    ghost function Resolve(name: string, version: Option<string>): (m: Model?)
      reads this, Registries()
      requires Valid()
      ensures name !in models.entries ==> m == null
      ensures name in models.entries ==> m == models.entries[name].Lookup(version)
      ensures m != null && Truthy(version) ==> m.version == version
    {
      if name in models.entries then models.entries[name].Lookup(version) else null
    }

    /** What `get_models()` lists: each registry's models, registries in insertion order. */
    ghost function ServedUpTo(i: nat): (ms: seq<Model>)
      reads this, Registries()
      requires Valid() && i <= |models.keys|
      ensures forall j, m :: 0 <= j < i && m in models.entries[models.keys[j]].Served() ==> m in ms
      ensures forall m :: m in ms ==> exists j :: 0 <= j < i && m in models.entries[models.keys[j]].Served()
    {
      if i == 0 then []
      else
        assert models.keys[i - 1] in models.entries;
        ServedUpTo(i - 1) + models.entries[models.keys[i - 1]].Served()
    }

    ghost function AllServed(): (ms: seq<Model>)
      reads this, Registries()
      requires Valid()
      ensures forall n, m :: n in models.entries && m in models.entries[n].Served() ==> m in ms
      ensures forall m :: m in ms ==> exists n :: n in models.entries && m in models.entries[n].Served()
    {
      var ms := ServedUpTo(|models.keys|);
      assert forall n :: n in models.entries ==> exists j :: 0 <= j < |models.keys| && models.keys[j] == n;
      ms
    }

    /** `_get_model_registry(name, version)`: `ModelNotFound` for an unknown name. */
    function GetModelRegistry(name: string, version: Option<string>): (r: Result<SingleModelRegistry, Error>)
      reads this
      ensures r.Success? <==> name in models.entries
      ensures r.Success? ==> r.value == models.entries[name]
      ensures r.Failure? ==> r.error == ModelNotFound(name, version)
    {
      if name !in models.entries then Failure(ModelNotFound(name, version)) else Success(models.entries[name])
    }

    /** `load(settings)`: create the name's registry when the name is new, then load into it.
        The registry stays even if that load fails. */
    method Load(settings: ModelSettings, loading: LoadOutcome, unloaded: bool) returns (r: Result<Model, Error>)
      requires Valid()
      modifies this, RegistryOf(settings.name), TouchedOf(settings.name, GetVersion(settings))
      ensures Valid()
      ensures settings.name in models.entries
      ensures old(settings.name in models.entries) ==>
        models.keys == old(models.keys) && models.entries == old(models.entries)
      ensures old(settings.name !in models.entries) ==>
        && fresh(models.entries[settings.name])
        && models == PyDict.Put(old(models), settings.name, models.entries[settings.name])
      ensures r.Success? <==> loading.Loaded?
      ensures r.Failure? ==> r.error == LoadFailed(settings.name)
      ensures r.Success? ==> fresh(r.value) && r.value.version == GetVersion(settings) && r.value.ready == loading.ready
      ensures r.Success? && GetVersion(settings) != Some("") ==> Resolve(settings.name, GetVersion(settings)) == r.value
      // a known name's registry changes only in the new model's version entry and the slot
      ensures r.Success? && old(settings.name in models.entries) ==>
        var registry := old(models.entries[settings.name]);
        && registry.versions == Stored(old(registry.versions), r.value)
        && registry.defaultModel ==
             SlotAfterLoad(old(registry.CachedFor(GetVersion(settings))), old(registry.Lookup(GetVersion(settings))), r.value)
      // a new name's registry holds just the new model, which has the slot
      ensures r.Success? && old(settings.name !in models.entries) ==>
        && models.entries[settings.name].versions == Stored(PyDict.Empty(), r.value)
        && models.entries[settings.name].defaultModel == r.value
      // a failed load rolls back: the version resolves as before, a known name's dict is kept,
      // and a new name stays mapped to an empty registry
      ensures r.Failure? ==> Resolve(settings.name, GetVersion(settings)) == old(Resolve(settings.name, GetVersion(settings)))
      ensures r.Failure? && old(settings.name in models.entries) ==>
        old(models.entries[settings.name]).versions == old(models.entries[settings.name].versions)
      ensures r.Failure? && old(settings.name in models.entries) && old(Resolve(settings.name, GetVersion(settings))) == null ==>
        var registry := old(models.entries[settings.name]);
        registry.defaultModel == old(registry.defaultModel) || registry.defaultModel == null
      ensures r.Failure? && old(Resolve(settings.name, GetVersion(settings))) != null ==>
        && models.entries[settings.name].FindDefault() == old(models.entries[settings.name].FindDefault())
        && old(Resolve(settings.name, GetVersion(settings))).ready == old(Resolve(settings.name, GetVersion(settings)).ready)
      ensures r.Failure? && old(settings.name !in models.entries) ==>
        models.entries[settings.name].versions == PyDict.Empty() && models.entries[settings.name].defaultModel == null
    {
      if settings.name !in models.entries {
        var created := new SingleModelRegistry(settings);
        models := PyDict.Put(models, settings.name, created);
      }
      r := LoadIn(settings, loading, unloaded);
    }

    /** `model_registry.load(model_settings)` inside `load`. */
    method LoadIn(settings: ModelSettings, loading: LoadOutcome, unloaded: bool) returns (r: Result<Model, Error>)
      requires Valid() && settings.name in models.entries
      modifies RegistryOf(settings.name), TouchedOf(settings.name, GetVersion(settings))
      ensures Valid()
      ensures r.Success? <==> loading.Loaded?
      ensures r.Failure? ==> r.error == LoadFailed(settings.name)
      ensures r.Success? ==> fresh(r.value) && r.value.version == GetVersion(settings) && r.value.ready == loading.ready
      ensures r.Success? && GetVersion(settings) != Some("") ==> Resolve(settings.name, GetVersion(settings)) == r.value
      ensures r.Success? ==>
        var registry := models.entries[settings.name];
        && registry.versions == Stored(old(registry.versions), r.value)
        && registry.defaultModel ==
             SlotAfterLoad(old(registry.CachedFor(GetVersion(settings))), old(registry.Lookup(GetVersion(settings))), r.value)
      ensures r.Failure? ==>
        && models.entries[settings.name].versions == old(models.entries[settings.name].versions)
        && Resolve(settings.name, GetVersion(settings)) == old(Resolve(settings.name, GetVersion(settings)))
      ensures r.Failure? && old(Resolve(settings.name, GetVersion(settings))) == null ==>
        var registry := models.entries[settings.name];
        registry.defaultModel == old(registry.defaultModel) || registry.defaultModel == null
      ensures r.Failure? && old(Resolve(settings.name, GetVersion(settings))) != null ==>
        && models.entries[settings.name].FindDefault() == old(models.entries[settings.name].FindDefault())
        && old(Resolve(settings.name, GetVersion(settings))).ready == old(Resolve(settings.name, GetVersion(settings)).ready)
    {
      r := models.entries[settings.name].Load(settings, loading, unloaded);
    }

    /** `unload(name)`: unload every version of the name, then forget the name. */
    method Unload(name: string, unloadResult: Model -> bool) returns (r: Result<(), Error>)
      requires Valid()
      modifies this, RegistryOf(name), ModelsOf(name)
      ensures Valid()
      ensures r.Failure? <==> name !in old(models.entries)
      ensures r.Failure? ==> r.error == ModelNotFound(name, None) && models == old(models)
      ensures r.Success? ==> models == PyDict.Delete(old(models), name)
      ensures r.Success? ==> forall m :: m in old(models.entries[name].Served()) ==> m.ready == !unloadResult(m)
    {
      var found := GetModelRegistry(name, None);
      if found.Failure? {
        return Failure(found.error);
      }
      var registry := found.value;
      registry.Unload(unloadResult);
      models := PyDict.Delete(models, name);
      r := Success(());
    }

    /** `unload_version(name, version)`: unload one version; the name is forgotten once its
        registry is empty. */
    method UnloadVersion(name: string, version: Option<string>, unloaded: bool) returns (r: Result<(), Error>)
      requires Valid()
      modifies this, RegistryOf(name), TouchedOf(name, version)
      ensures Valid()
      ensures r.Failure? <==> old(Resolve(name, version)) == null
      ensures r.Failure? ==> r.error == ModelNotFound(name, version)
      ensures r.Success? ==> old(Resolve(name, version)).ready == !unloaded
      // the name's registry loses only the unloaded model's version entry
      ensures r.Success? ==>
        var registry := old(models.entries[name]);
        && registry.versions == Unstored(old(registry.versions), old(Resolve(name, version)))
        && registry.defaultModel ==
             SlotAfterUnload(old(registry.CachedFor(version)), old(Resolve(name, version)), registry.versions)
      ensures r.Failure? ==> models == old(models)
      ensures r.Failure? && old(name in models.entries) ==>
        var registry := old(models.entries[name]);
        registry.versions == old(registry.versions) && registry.defaultModel == old(registry.defaultModel)
      ensures r.Success? ==>
        var registry := old(models.entries[name]);
        models == if registry.versions.entries == map[] && registry.defaultModel == null
                  then PyDict.Delete(old(models), name) else old(models)
    {
      var found := GetModelRegistry(name, version);
      if found.Failure? {
        return Failure(found.error);
      }
      r := UnloadIn(name, version, unloaded);
      if r.Success? {
        ghost var registry := models.entries[name];
        ghost var remaining := registry.versions;
        ghost var slot := registry.defaultModel;
        ForgetIfEmpty(name);
        assert registry.versions == remaining && registry.defaultModel == slot;
      }
    }

    /** `model_registry.unload_version(version)` inside `unload_version`. */
    method UnloadIn(name: string, version: Option<string>, unloaded: bool) returns (r: Result<(), Error>)
      requires Valid() && name in models.entries
      modifies RegistryOf(name), TouchedOf(name, version)
      ensures Valid()
      ensures r.Failure? <==> old(Resolve(name, version)) == null
      ensures r.Failure? ==> r.error == ModelNotFound(name, version)
      ensures r.Success? ==> old(Resolve(name, version)).ready == !unloaded
      ensures r.Failure? ==>
        var registry := models.entries[name];
        registry.versions == old(registry.versions) && registry.defaultModel == old(registry.defaultModel)
      ensures r.Success? ==>
        var registry := models.entries[name];
        && registry.versions == Unstored(old(registry.versions), old(Resolve(name, version)))
        && registry.defaultModel ==
             SlotAfterUnload(old(registry.CachedFor(version)), old(Resolve(name, version)), registry.versions)
    {
      r := models.entries[name].UnloadVersion(version, unloaded);
    }

    /** The tail of `unload_version`: the name is forgotten once its registry is empty. */
    method ForgetIfEmpty(name: string)
      requires Valid() && name in models.entries
      modifies this, RegistryOf(name)
      ensures Valid() && old(models.entries[name]).versions == old(models.entries[name].versions)
      ensures old(models.entries[name]).defaultModel == old(models.entries[name].defaultModel)
      ensures models == if old(models.entries[name].versions.entries) == map[] && old(models.entries[name].defaultModel) == null
                        then PyDict.Delete(old(models), name) else old(models)
    {
      var registry := models.entries[name];
      var isEmpty := registry.Empty();
      if isEmpty {
        models := PyDict.Delete(models, name);
      }
    }

    /** `get_model(name, version)` */
    method GetModel(name: string, version: Option<string>) returns (r: Result<Model, Error>)
      requires Valid()
      modifies RegistryOf(name)
      ensures Valid() && Undisturbed()
      ensures old(Resolve(name, version)) == null ==> r == Failure(ModelNotFound(name, version))
      ensures old(Resolve(name, version)) != null ==> r == Success(old(Resolve(name, version)))
    {
      var found := GetModelRegistry(name, version);
      if found.Failure? {
        return Failure(found.error);
      }
      r := found.value.GetModel(version);
      OnlyCacheTouched(name);
    }

    /** `get_models(name)`: one name's models (`ModelNotFound` for an unknown name), or without a
        name every registry's models chained in insertion order. */
    method GetModels(name: Option<string>) returns (r: Result<seq<Model>, Error>)
      requires Valid()
      modifies Registries()
      ensures Valid() && Undisturbed()
      ensures name.Some? && name.value !in models.entries ==> r == Failure(ModelNotFound(name.value, None))
      ensures name.Some? && name.value in models.entries ==> r == Success(old(models.entries[name.value].Served()))
      ensures name.None? ==> r == Success(old(AllServed()))
    {
      if name.None? {
        var chained := ListAll();
        return Success(chained);
      }
      if name.value !in models.entries {
        return Failure(ModelNotFound(name.value, None));
      }
      var listed := ListRegistry(name.value);
      return Success(listed);
    }

    /** The listing loop of `get_models()`: each registry in insertion order. */
    method ListAll() returns (chained: seq<Model>)
      requires Valid()
      modifies Registries()
      ensures Valid() && Undisturbed()
      ensures chained == old(AllServed())
    {
      chained := [];
      var i := 0;
      ghost var stored := map n | n in models.entries :: models.entries[n].versions;
      ghost var defaults := map n | n in models.entries :: models.entries[n].FindDefault();
      while i < |models.keys|
        invariant 0 <= i <= |models.keys|
        invariant Valid() && models == old(models)
        invariant forall n :: n in models.entries ==>
          models.entries[n].versions == stored[n] && models.entries[n].FindDefault() == defaults[n]
        invariant chained == old(ServedUpTo(i))
      {
        assert old(ServedUpTo(i + 1)) == old(ServedUpTo(i)) + old(models.entries[models.keys[i]].Served());
        models.entries[models.keys[i]].SameServed();
        var listed := ListRegistry(models.keys[i]);
        chained := chained + listed;
        i := i + 1;
      }
    }

    /** One registry's `get_models()`, as the listing loop calls it. */
    method ListRegistry(name: string) returns (listed: seq<Model>)
      requires Valid() && name in models.entries
      modifies RegistryOf(name)
      ensures Valid() && Undisturbed()
      ensures listed == old(models.entries[name].Served())
    {
      listed := models.entries[name].GetModels();
      OnlyCacheTouched(name);
    }

    /** A lookup in one registry that keeps its answers leaves every registry's answers as
        they were. */
    twostate lemma OnlyCacheTouched(name: string)
      requires old(Valid()) && models == old(models) && name in models.entries
      requires forall n :: n in models.entries && n != name ==> unchanged(models.entries[n])
      requires models.entries[name].Valid()
      requires models.entries[name].versions == old(models.entries[name].versions)
      requires models.entries[name].FindDefault() == old(models.entries[name].FindDefault())
      ensures Valid() && Undisturbed()
    {
    }

    /** Nothing a lookup may do (resolve and cache a default) changes what any lookup or listing
        answers. */
    twostate predicate Undisturbed()
      requires old(Valid()) && Valid()
      reads this, Registries()
    {
      && models == old(models)
      && forall n :: n in models.entries ==>
           && models.entries[n].versions == old(models.entries[n].versions)
           && models.entries[n].FindDefault() == old(models.entries[n].FindDefault())
    }
  }

  /** Deleting the key of the `i`-th listed model keeps every later listed model stored. */
  lemma RemainingHeld(before: PyDict.Dict<string, Model>, after: PyDict.Dict<string, Model>, models: seq<Model>, i: nat)
    requires Keyed(before) && i < |models|
    requires PyDict.Distinct(models)
    requires forall j :: i <= j < |models| && Truthy(models[j].version) ==>
      models[j].version.value in before.entries && before.entries[models[j].version.value] == models[j]
    requires after == if Truthy(models[i].version) then PyDict.Delete(before, models[i].version.value) else before
    ensures forall j :: i < j < |models| && Truthy(models[j].version) ==>
      models[j].version.value in after.entries && after.entries[models[j].version.value] == models[j]
  {
  }

  /** Registering the same model twice stores it once. */
  lemma StoredTwice(versions: PyDict.Dict<string, Model>, m: Model)
    requires Keyed(versions)
    ensures Stored(Stored(versions, m), m) == Stored(versions, m)
  {
  }

  /** Reflexivity of the default-slot decision: a model that holds the slot keeps it when it
      is registered again. */
  lemma IsNewerReflexiveOrUnversioned(m: Model)
    ensures Supersedes(m.version, m.version)
  {
    if m.version.Some? {
      IsNewerReflexive(m.version);
    }
  }
}
