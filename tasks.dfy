/** The fixed configuration tables of main.py: the dropdown of NLP tasks, the
    model identifier pinned for some of them, and the tasks whose input is cut
    into sentences. */
module Tasks {

  datatype Option<+T> = None | Some(value: T)

  /** One entry of the dropdown (`dropdownChoices`); each names an NLP task
      of the inference library. */
  datatype Task =
    | TranslationEnToFr
    | TranslationFrToEn
    | SentimentAnalysis
    | TextGeneration
    | Text2TextGeneration
    | Summarization

  /** `specific_models`: the tasks that load a named model instead of the
      library's default one. */
  const SpecificModels: map<Task, string> := map[
    TranslationFrToEn := "Helsinki-NLP/opus-mt-fr-en",
    TextGeneration := "EleutherAI/gpt-neo-1.3B",
    SentimentAnalysis := "finiteautomata/beto-sentiment-analysis",
    Summarization := "sshleifer/distilbart-cnn-12-6"
  ]

  /** `models_to_split`: the tasks that take their text one sentence at a time. */
  const ModelsToSplit: seq<Task> := [TranslationEnToFr, TranslationFrToEn, SentimentAnalysis]

  /** `specific_models.get(t)`: the model identifier handed to the library,
      `None` (the library's default model) for a task that is not in the table. */
  function SpecificModel(t: Task): (m: Option<string>)
    ensures m.None? <==> t == TranslationEnToFr || t == Text2TextGeneration
    ensures t == TranslationFrToEn ==> m == Some("Helsinki-NLP/opus-mt-fr-en")
    ensures t == TextGeneration ==> m == Some("EleutherAI/gpt-neo-1.3B")
    ensures t == SentimentAnalysis ==> m == Some("finiteautomata/beto-sentiment-analysis")
    ensures t == Summarization ==> m == Some("sshleifer/distilbart-cnn-12-6")
  {
    if t in SpecificModels then Some(SpecificModels[t])
    else
      assert t.TranslationEnToFr? || t.Text2TextGeneration?;
      None
  }

  /** `t in models_to_split`: the two translation tasks and sentiment analysis. */
  function NeedsSplit(t: Task): (b: bool)
    ensures b <==> t.TranslationEnToFr? || t.TranslationFrToEn? || t.SentimentAnalysis?
  {
    t in ModelsToSplit
  }
}
