/** The entities of a criminal case and their fields, one datatype per interface of
    the application's type declarations. */
module Types {
  import opened Wrappers

  /** The four pillars of data collection; a closed set. */
  datatype Pillar = Victim | Scene | Reconstruction | Author

  /** One objective data point. `victimIndex` is set only on Victim items; for
      those it says which victim of the case the item describes. */
  datatype DataItem = DataItem(
    id: string,
    pillar: Pillar,
    code: string,
    content: string,
    victimIndex: Option<nat>)

  /** An inference drawn from data items, which it names by their codes. */
  datatype Inference = Inference(
    id: string,
    code: string,
    content: string,
    sourceDataIds: seq<string>)

  /** A hypothesis built on inferences, which it names by their codes. */
  datatype Hypothesis = Hypothesis(
    id: string,
    code: string,
    content: string,
    sourceInferenceIds: seq<string>)

  /** A case owns its three ordered lists and the free-text suggestions. */
  datatype CriminalCase = CriminalCase(
    id: string,
    title: string,
    createdAt: string,
    data: seq<DataItem>,
    inferences: seq<Inference>,
    hypotheses: seq<Hypothesis>,
    suggestions: string)
}
