/** A spec's scenarios, their kinds and what makes two of them the same. */
module Scenarios {
  import opened Text

  datatype Keyword = Given | When | Then | And | But

  datatype Step = Step(keyword: Keyword, text: string)

  datatype Origin = Draft | Expansion | Reviewer

  datatype Scenario = Scenario(
    id: string,
    kind: string,
    title: string,
    steps: seq<Step>,
    origin: Origin,
    weight: Option<string>,
    weightReason: Option<string>
  )

  /** The registry of kinds, in the order a reader meets them. */
  const KINDS := ["happy", "boundary", "unhappy", "recovery", "permission", "concurrency", "non-functional"]

  // ---- identity -----------------------------------------------------------

  /** A text of a kind and a title. */
  type Keying = (string, string) -> string

  /**
   * `scenarioKey`: what makes two scenarios the same one across revisions is
   * their kind and their title, however the title is folded.
   */
  function KeyOf(key: Keying, s: Scenario): string {
    key(s.kind, s.title)
  }

  function Keys(key: Keying, scenarios: seq<Scenario>): set<string> {
    set s | s in scenarios :: KeyOf(key, s)
  }

  function Ids(scenarios: seq<Scenario>): set<string> {
    set s | s in scenarios :: s.id
  }

  predicate UniqueIds(scenarios: seq<Scenario>) {
    forall i, j :: 0 <= i < j < |scenarios| ==> scenarios[i].id != scenarios[j].id
  }

  predicate UniqueKeys(key: Keying, scenarios: seq<Scenario>) {
    forall i, j :: 0 <= i < j < |scenarios| ==> KeyOf(key, scenarios[i]) != KeyOf(key, scenarios[j])
  }

  predicate KnownKinds(scenarios: seq<Scenario>) {
    forall s :: s in scenarios ==> s.kind in KINDS
  }
}
