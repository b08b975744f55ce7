/** The non-web part of the POST handler `form_post` (main.py:73-85): fetch
    the pipeline of the chosen task through the cache and adapt the submitted
    text to the argument list it is called with. */
module Form {
  import opened Tasks
  import opened InputAdapter
  import opened PipelineCache

  /** One POST of the form: the handle that will run, and its input. */
  method FormPost(cache: Cache, text: string, modelName: Task) returns (p: Pipeline, input: seq<string>)
    requires cache.Valid()
    modifies cache
    ensures cache.Valid()
    ensures modelName in cache.pipelines && cache.pipelines[modelName] == p
    ensures p.task == modelName && p.model == SpecificModel(modelName)
    ensures modelName in old(cache.pipelines) ==>
      p == old(cache.pipelines)[modelName] && cache.pipelines == old(cache.pipelines)
    ensures modelName !in old(cache.pipelines) ==>
      fresh(p) && cache.pipelines == old(cache.pipelines)[modelName := p]
    ensures cache.pipelines.Keys == old(cache.pipelines).Keys + {modelName}
    ensures forall t :: t in old(cache.pipelines) ==> cache.pipelines[t] == old(cache.pipelines)[t]
    ensures input == AdaptInput(modelName, text)
  {
    p := cache.GetPipeline(modelName, None);
    input := AdaptInput(modelName, text);
  }

  /** Two requests for the same task are served by the same handle, and the
      second one adds nothing to the table. */
  method RepeatedRequests(cache: Cache, task: Task, first: string, second: string)
    returns (p1: Pipeline, p2: Pipeline)
    requires cache.Valid()
    modifies cache
    ensures cache.Valid()
    ensures p1 == p2
    ensures cache.pipelines.Keys == old(cache.pipelines).Keys + {task}
  {
    var input1, input2;
    p1, input1 := FormPost(cache, first, task);
    ghost var between := cache.pipelines;
    p2, input2 := FormPost(cache, second, task);
    assert cache.pipelines.Keys == between.Keys;
  }
}
