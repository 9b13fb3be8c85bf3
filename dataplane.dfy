/**
  The data plane's dispatch rules over the multi-model registry: liveness, server and model
  readiness, and the part of inference that decides whether a model is asked to predict and
  which id the answer carries.
*/
module DataPlane {
  import opened Wrappers
  import opened Registry

  /** The inference request; only its id matters here. */
  class InferenceRequest {
    var id: Option<string>

    constructor (id: Option<string>)
      ensures this.id == id
    {
      this.id := id;
    }
  }

  /** The inference response a model's `predict` returns; only its id matters here. */
  class InferenceResponse {
    var id: Option<string>

    constructor (id: Option<string>)
      ensures this.id == id
    {
      this.id := id;
    }
  }

  /** Every listed model has its ready flag set (`all(...)` over the list). */
  ghost predicate AllReady(ms: seq<Model>)
    reads set i | 0 <= i < |ms| :: ms[i]
  {
    forall i :: 0 <= i < |ms| ==> ms[i].ready
  }

  /** `all([model.ready for model in models])` */
  method CheckAll(models: seq<Model>) returns (r: bool)
    ensures r <==> AllReady(models)
  {
    r := true;
    var i := 0;
    while i < |models|
      invariant 0 <= i <= |models|
      invariant r <==> forall j :: 0 <= j < i ==> models[j].ready
    {
      r := r && models[i].ready;
      i := i + 1;
    }
  }

  /** Server readiness is exactly "every model of every registry is ready", and holds for a
      registry that holds no name at all. */
  lemma ReadyMeans(registry: MultiModelRegistry)
    requires registry.Valid()
    ensures AllReady(registry.AllServed()) <==>
      forall n, m :: n in registry.models.entries && m in registry.models.entries[n].Served() ==> m.ready
    ensures registry.models.entries == map[] ==> AllReady(registry.AllServed())
  {
    var all := registry.AllServed();
    if AllReady(all) {
      forall n, m | n in registry.models.entries && m in registry.models.entries[n].Served()
        ensures m.ready
      {
        assert m in all;
        var k :| 0 <= k < |all| && all[k] == m;
      }
    } else {
      var j :| 0 <= j < |all| && !all[j].ready;
      assert all[j] in all;
    }
  }

  class DataPlane {
    const registry: MultiModelRegistry

    ghost predicate Valid()
      reads this, registry, registry.Registries()
    {
      registry.Valid()
    }

    constructor (registry: MultiModelRegistry)
      requires registry.Valid()
      ensures Valid() && this.registry == registry
    {
      this.registry := registry;
    }

    /** `live()`: the server is live whenever it answers. */
    function Live(): (r: bool)
      ensures r
    {
      true
    }

    /** `ready()`: every model the registry lists is ready (see `ReadyMeans` for what that
        says about the registries). */
    method Ready() returns (r: bool)
      requires Valid()
      modifies registry.Registries()
      ensures Valid() && registry.Undisturbed()
      ensures r <==> AllReady(old(registry.AllServed()))
    {
      var listed := registry.GetModels(None);
      r := CheckAll(listed.value);
    }

    /** `model_ready(name, version)`: the ready flag of the model the registry resolves;
        `ModelNotFound` when it resolves none. */
    method ModelReady(name: string, version: Option<string>) returns (r: Result<bool, Error>)
      requires Valid()
      modifies registry.RegistryOf(name)
      ensures Valid() && registry.Undisturbed()
      ensures old(registry.Resolve(name, version)) == null ==> r == Failure(ModelNotFound(name, version))
      ensures old(registry.Resolve(name, version)) != null ==> r == Success(old(registry.Resolve(name, version)).ready)
    {
      var found := registry.GetModel(name, version);
      if found.Failure? {
        return Failure(found.error);
      }
      return Success(found.value.ready);
    }

    /** `infer(payload, name, version)`: a request without an id gets `generatedId` before the
        lookup; an unknown model raises `ModelNotFound`, a model that is not ready raises
        `ModelNotReady` and never predicts; otherwise the model's `prediction` is returned
        carrying the request's id. */
    method Infer(payload: InferenceRequest, name: string, version: Option<string>,
                 generatedId: string, prediction: InferenceResponse)
      returns (r: Result<InferenceResponse, Error>)
      requires Valid()
      modifies payload, prediction, registry.RegistryOf(name)
      ensures Valid()
      ensures registry.Undisturbed()
      ensures payload.id == if old(payload.id).None? then Some(generatedId) else old(payload.id)
      ensures payload.id.Some?
      ensures old(registry.Resolve(name, version)) == null ==>
        r == Failure(ModelNotFound(name, version)) && unchanged(prediction)
      ensures old(registry.Resolve(name, version)) != null && !old(registry.Resolve(name, version)).ready ==>
        r == Failure(ModelNotReady(name, version)) && unchanged(prediction)
      ensures r.Success? <==> old(registry.Resolve(name, version)) != null && old(registry.Resolve(name, version)).ready
      ensures r.Success? ==> r.value == prediction && prediction.id == payload.id
    {
      var found := Admit(payload, generatedId, name, version);
      if found.Failure? {
        return Failure(found.error);
      }
      prediction.id := payload.id;
      r := Success(prediction);
    }

    /** What `infer` does before predicting: give the request an id, then look the model up and
        check that it is ready. */
    method Admit(payload: InferenceRequest, generatedId: string, name: string, version: Option<string>)
      returns (r: Result<Model, Error>)
      requires Valid()
      modifies payload, registry.RegistryOf(name)
      ensures Valid() && registry.Undisturbed()
      ensures payload.id == if old(payload.id).None? then Some(generatedId) else old(payload.id)
      ensures old(registry.Resolve(name, version)) == null ==> r == Failure(ModelNotFound(name, version))
      ensures old(registry.Resolve(name, version)) != null && !old(registry.Resolve(name, version)).ready ==>
        r == Failure(ModelNotReady(name, version))
      ensures old(registry.Resolve(name, version)) != null && old(registry.Resolve(name, version)).ready ==>
        r.Success?
    {
      if payload.id.None? {
        payload.id := Some(generatedId);
      }
      assert registry.Resolve(name, version) == old(registry.Resolve(name, version));
      label looked:
      r := ServingModel(name, version);
      assert registry.Undisturbed@looked();
    }

    /** The lookup and readiness check `infer` makes before predicting. */
    method ServingModel(name: string, version: Option<string>) returns (r: Result<Model, Error>)
      requires Valid()
      modifies registry.RegistryOf(name)
      ensures Valid() && registry.Undisturbed()
      ensures old(registry.Resolve(name, version)) == null ==> r == Failure(ModelNotFound(name, version))
      ensures old(registry.Resolve(name, version)) != null && !old(registry.Resolve(name, version)).ready ==>
        r == Failure(ModelNotReady(name, version))
      ensures old(registry.Resolve(name, version)) != null && old(registry.Resolve(name, version)).ready ==>
        r == Success(old(registry.Resolve(name, version)))
    {
      r := registry.GetModel(name, version);
      if r.Success? && !r.value.ready {
        r := Failure(ModelNotReady(name, version));
      }
    }
  }
}
