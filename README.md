# simple-transformers-webapp: the pipeline cache and the input adapter

The web application forwards text typed into a form to a pre-trained NLP
pipeline (translation, sentiment analysis, text generation, summarization)
and renders the result. Two pieces of it are logic of its own and are
modelled here, both from `main.py`:

- **The pipeline cache** (`get_pipeline` with the tables `specific_models`
  and `pipelines`). A process-wide dictionary maps each task to the handle
  built for it. On a miss, one handle is built with the model identifier the
  `specific_models` table pins for that NLP task (or none, so that the library
  loads its default model) and stored. On a hit, the stored handle is
  returned and the table is left alone. The model is a class `Cache` whose
  field `pipelines` is a map the method `GetPipeline` reassigns. The
  inference library's constructor `pipeline(...)` is a class `Pipeline`
  whose constructor yields a fresh object that records the NLP task and the
  model identifier it was given.
- **The input adapter** (inside `form_post`). For the three tasks of
  `models_to_split` the text is cut at every `'.'`, each piece is stripped of
  surrounding whitespace and the empty pieces are dropped; every other task
  gets `[text]`. It is the pure function `InputAdapter.AdaptInput`, built from
  models of Python's `str.split`, `str.strip` and `filter`. The lemmas prove
  the following:
  - Split and join are inverse to each other.
  - `Strip` is determined by "a slice with whitespace-only margins and no
    whitespace at its own ends".
  - The adapter works sentence by sentence (`AdaptSentence` and
    `AdaptConcat`), and these two facts determine it (`AdaptDetermined`).
  - The adapter loses nothing but periods and whitespace (`AdaptKeepsText`).

Files: `tasks.dfy` (the enumeration of NLP tasks and the two tables),
`input_adapter.dfy`, `pipeline_cache.dfy`, `form.dfy` (the part of
`form_post` that joins the two).

The module docstring of `main.py` (main.py:5-10) shows a question/context
example, but no task in `dropdownChoices` splits its text at a delimiter into
two parts (question and context, or labels and text), so none is modelled.
Every task in the dropdown goes through the same adapter.

## Model

| member | source | states |
|---|---|---|
| Tasks.SpecificModel | main.py:27-32 | `specific_models.get(t)`. The four listed tasks get their fixed model identifiers. The two others (English-to-French translation, text2text generation) get `None`, so the library's default model is used. |
| Tasks.NeedsSplit | main.py:34-39 | A task is in `models_to_split` exactly when it is one of the two translations or sentiment analysis. |
| PipelineCache.Pipeline.constructor | main.py:49 | The stand-in for `pipeline(name, model=model)`: a new handle that records the NLP task and model identifier it was built from. |
| PipelineCache.Cache.constructor | main.py:40 | The table starts empty and satisfies the cache invariant. |
| PipelineCache.Cache.GetPipeline | main.py:42-51 | Afterwards `pipelines[name]` is the returned handle. On a hit, the stored handle is returned and the table is unchanged. On a miss, a fresh handle is built for `name` with `SpecificModel(name)`, whatever `model` the caller passed, and only the key `name` is added. Other keys keep their handles. The invariant "each handle was built for its own task and pinned model" is kept. |
| Form.FormPost | main.py:73-83 | One request: the handle comes from `GetPipeline` for the chosen task, with all of its guarantees. The handle is stored under the task and built with the pinned model. A hit returns the stored handle and leaves the table unchanged. A miss stores a fresh handle under that key only, and the other keys keep their handles. The pipeline's input is `AdaptInput(model_name, text)`. |
| Form.RepeatedRequests | main.py:45-51 | Two requests for the same task are served by the same handle, and the table gains at most that one key. |
| InputAdapter.Split | main.py:80 | `text.split('.')` always yields one piece more than there are separators. |
| InputAdapter.SplitPiecesWithoutSeparator | main.py:80 | No piece of a split contains the separator. |
| InputAdapter.SplitWithoutSeparator | main.py:80 | A text without the separator splits into itself alone. |
| InputAdapter.JoinSplit | main.py:80 | Joining the pieces with the separator gives back the text. |
| InputAdapter.SplitJoin | main.py:80 | Splitting the join of separator-free pieces gives back the pieces, so split and join are inverse. |
| InputAdapter.SplitConcat | main.py:80 | Order is kept: the pieces of `a + "." + b` are the pieces of `a` followed by those of `b`. |
| InputAdapter.SkipSpaces | main.py:80 | The leading-whitespace scan of `strip`: from index `k` it stops at the first character that is not whitespace (or the end), and everything it stepped over is whitespace. |
| InputAdapter.SkipSpacesBack | main.py:80 | The trailing-whitespace scan of `strip`: from the end it stops just after the last character that is not whitespace, never passing the start index, and everything it stepped over is whitespace. |
| InputAdapter.SkipSpacesUnique | main.py:80 | The leading scan stops at exactly the first index preceded only by whitespace and not itself at whitespace, and nowhere else. |
| InputAdapter.SkipSpacesBackUnique | main.py:80 | The trailing scan stops at exactly the last index followed only by whitespace and not just after whitespace, and nowhere else. |
| InputAdapter.Strip | main.py:80 | `s.strip()` has no whitespace at either end. It is empty exactly when `s` is all whitespace (Python's `str.isspace` set). |
| InputAdapter.StripSlice | main.py:80 | What `strip` keeps is a slice of `s`, and what it removes on each side is whitespace. |
| InputAdapter.StripUnique | main.py:80 | Conversely, any slice with whitespace-only margins and no whitespace at its ends is `strip`'s result. |
| InputAdapter.StripIdempotent | main.py:80 | Stripping twice equals stripping once. |
| InputAdapter.StripKeepsOut | main.py:80 | Stripping adds no character, so a stripped piece of a split holds no `'.'`. |
| InputAdapter.StripEach | main.py:80 | `map(lambda s: s.strip(), pieces)`: as many results as pieces, the `k`-th being `Strip` of the `k`-th piece. |
| InputAdapter.DropEmpty | main.py:81 | `filter(lambda x: len(x) > 0, ...)` returns no empty string and is no longer than its input. |
| InputAdapter.DropEmptyKeeps | main.py:81 | The filter keeps exactly the non-empty pieces: a string is in the result if and only if it is a non-empty piece of the input. |
| InputAdapter.DropEmptyConcat | main.py:81 | The filter works piece by piece and keeps the order. |
| InputAdapter.Sentences | main.py:80-81 | The sentence list of a split task, used as `AdaptInput`'s result for those tasks: each sentence is non-empty, holds no `'.'` and has no whitespace at either end, and there are at most (number of `'.'`) + 1 of them. |
| InputAdapter.AdaptInput | main.py:79-83 | A task outside `models_to_split` gets exactly `[text]`. For a split task: no element is empty, none contains `'.'`, none has whitespace at either end, and there are at most (number of `'.'` in `text`) + 1 elements. |
| InputAdapter.AdaptSentence | main.py:79-81 | For a split task, a text without `'.'` becomes `[text.strip()]`, or `[]` when it is all whitespace. |
| InputAdapter.SentencesConcat | main.py:80-81 | Split, strip and filter together work sentence by sentence: the sentences of `a + "." + b` are those of `a` followed by those of `b`. |
| InputAdapter.AdaptConcat | main.py:79-81 | For a split task, the input of `a + "." + b` is the input of `a` followed by the input of `b`. |
| InputAdapter.AdaptDetermined | main.py:79-81 | Any function that satisfies AdaptSentence and AdaptConcat equals the adapter on every text. |
| InputAdapter.VisibleStrip | main.py:80 | Stripping removes whitespace only: the characters that are neither whitespace nor `'.'` are the same before and after. |
| InputAdapter.AdaptKeepsText | main.py:79-81 | For a split task, the sentences together hold every character of the text that is neither whitespace nor `'.'`, in the text's order. |
| InputAdapter.ThreeSentences | main.py:79-81 | `"A. B. C."` (and every text of that shape) becomes `["A", "B", "C"]`. The empty piece after the last period is dropped. |

## Left out

- The HTTP routes, form parsing, Jinja templates and the static page (main.py:16-17, 53-71, 73-77, 87-93): web plumbing with no logic of its own.
- The inference call `p(input)` (main.py:85) and everything the inference library does: it is a foreign library. Its constructor is modelled only as a fresh handle that records its arguments.
- PipelineCache.Cache.GetPipeline: does not model a failing `pipeline(...)` call (a model that cannot be loaded). In the source, that exception propagates and the table is left unchanged. In the model, construction always succeeds.
- The `print` diagnostic on a miss (main.py:48): output only.
- Concurrent first use of the shared `pipelines` table by simultaneous requests: the model is sequential.
- The string values of the NLP-task enumeration and the `Enum` machinery (main.py:19-25): tasks are the six constructors of `Tasks.Task`.
- Python truthiness in `if(not p)` (main.py:46): an absent key is a miss, and a present handle is always a hit. A handle that is present but falsy is not modelled.
- Strings are sequences of Unicode scalar values. Python strings may also hold lone surrogate code points, which the model cannot express.
- InputAdapter.ThreeSentences: proved for every text of the shape "x. y. z." with one whitespace character after each period, rather than for the one literal string "A. B. C."; that string is the instance x = 'A', y = 'B', z = 'C' with a space.
