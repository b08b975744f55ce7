/** The pipeline cache of main.py:40-51: a process-wide table from task to
    the inference handle built for it, filled on first use and never emptied. */
module PipelineCache {
  import opened Tasks

  /** A handle produced by the inference library's `pipeline(task, model=...)`.
      The library itself is not part of this model: a handle is a fresh object
      that remembers only the two arguments it was built from. */
  class Pipeline {
    const task: Task
    const model: Option<string>

    constructor (task: Task, model: Option<string>)
      ensures this.task == task && this.model == model
    {
      this.task := task;
      this.model := model;
    }
  }

  /** The module-level dictionary `pipelines`. */
  class Cache {
    var pipelines: map<Task, Pipeline>

    /** Every cached handle was built for its own task, with the model that
        `specific_models` pins for that task. */
    ghost predicate Valid()
      reads this
    {
      forall t :: t in pipelines ==> pipelines[t].task == t && pipelines[t].model == SpecificModel(t)
    }

    /** `pipelines = {}` at start-up. */
    constructor ()
      ensures Valid() && pipelines == map[]
    {
      pipelines := map[];
    }

    /** `get_pipeline(name, model)`. On a hit the stored handle comes back and
        the table is left alone; on a miss one handle is built for `name` with
        the model identifier `specific_models.get(name)`, stored under `name`
        and returned. The caller's `model` is overwritten before use, so it has
        no effect. */
    method GetPipeline(name: Task, model: Option<string>) returns (p: Pipeline)
      requires Valid()
      modifies this
      ensures Valid()
      ensures name in pipelines && pipelines[name] == p
      ensures p.task == name && p.model == SpecificModel(name)
      ensures name in old(pipelines) ==> p == old(pipelines)[name] && pipelines == old(pipelines)
      ensures name !in old(pipelines) ==> fresh(p) && pipelines == old(pipelines)[name := p]
      ensures pipelines.Keys == old(pipelines).Keys + {name}
      ensures forall t :: t in old(pipelines) ==> pipelines[t] == old(pipelines)[t]
    {
      if name in pipelines {
        p := pipelines[name];
      } else {
        var pinned := SpecificModel(name);
        p := new Pipeline(name, pinned);
        pipelines := pipelines[name := p];
      }
    }
  }
}
