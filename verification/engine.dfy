/** The handlers of the case view as one state machine over a case, and the store
    around it. The invariant `CaseInvariant` holds for every case the application can
    reach. With the application's inference numbering a step can make a dangling
    hypothesis citation resolve again, to a new inference; with the model's numbering
    (`ApplyCorrected`) no step makes a citation resolve to a different inference. */
module Engine {
  import opened Wrappers
  import opened Text
  import opened Seqs
  import opened Types
  import opened Codes
  import opened DataCollection
  import opened Lineage
  import opened Deletion
  import opened Selection
  import opened Inferences
  import opened Hypotheses
  import opened CaseStore
  import opened Report

  /** One user action on the open case. Deletes are the confirmed ones; a declined
      prompt changes nothing and is not an action. Clock readings come in as `now`. */
  datatype Action =
    | AddManual(g: Group, variable: string, value: string)
    | AddBatch(g: Group, pairs: seq<(string, string)>)
    | SaveItemEdit(itemId: string, variable: string, value: string)
    | DeleteItem(itemId: string)
    | AddInferenceFrom(draft: Draft, now: nat)
    | DeleteInferenceWithId(infId: string)
    | AddHypothesisFrom(draft: Draft, now: nat)
    | DeleteHypothesisWithId(hypId: string)
    | EditSuggestions(text: string)

  /** The data-entry cards only offer groups they can show. */
  predicate ValidAction(a: Action) {
    match a
    case AddManual(g, _, _) => ValidGroup(g)
    case AddBatch(g, _) => ValidGroup(g)
    case _ => true
  }

  /** One step as the application takes it. Each handler writes only its own part of
      the case: the id, title and creation time never change, and the suggestions
      change only through the suggestions editor. */
  function Apply(c: CriminalCase, a: Action): (r: CriminalCase)
    ensures r.id == c.id && r.title == c.title && r.createdAt == c.createdAt
    ensures a.EditSuggestions? ==> r == c.(suggestions := a.text)
    ensures a.AddManual? || a.AddBatch? || a.SaveItemEdit? ==> r == c.(data := r.data)
    ensures a.DeleteItem? ==> r == c.(data := r.data, inferences := r.inferences)
    ensures a.AddInferenceFrom? || a.DeleteInferenceWithId? ==> r == c.(inferences := r.inferences)
    ensures a.AddHypothesisFrom? || a.DeleteHypothesisWithId? ==> r == c.(hypotheses := r.hypotheses)
  {
    match a
    case AddManual(g, variable, value) => AddDataManual(c, g, variable, value)
    case AddBatch(g, pairs) => AddDataBatch(c, g, pairs)
    case SaveItemEdit(itemId, variable, value) => SaveEdit(c, itemId, variable, value)
    case DeleteItem(itemId) => DeleteDataItem(c, itemId)
    case AddInferenceFrom(draft, now) => AddInferenceAsWritten(c, draft, now).0
    case DeleteInferenceWithId(infId) => DeleteInference(c, infId, true)
    case AddHypothesisFrom(draft, now) => AddHypothesis(c, draft, now).0
    case DeleteHypothesisWithId(hypId) => DeleteHypothesis(c, hypId, true)
    case EditSuggestions(text) => SetSuggestions(c, text)
  }

  function ApplyAll(c: CriminalCase, actions: seq<Action>): CriminalCase
    decreases |actions|
  {
    if |actions| == 0 then c else ApplyAll(Apply(c, actions[0]), actions[1..])
  }

  /** One step with the model's inference numbering (`FreshInferenceNumber`); every
      other action is taken as the application takes it. */
  function ApplyCorrected(c: CriminalCase, a: Action): CriminalCase {
    match a
    case AddInferenceFrom(draft, now) => AddInference(c, draft, now).0
    case _ => Apply(c, a)
  }

  function ApplyAllCorrected(c: CriminalCase, actions: seq<Action>): CriminalCase
    decreases |actions|
  {
    if |actions| == 0 then c else ApplyAllCorrected(ApplyCorrected(c, actions[0]), actions[1..])
  }

  /** What every reachable case satisfies: the data list is well formed, and the
      inference codes and the hypothesis codes are each unique and readable. */
  ghost predicate CaseInvariant(c: CriminalCase) {
    && WellFormed(c.data)
    && UniqueInferenceCodes(c.inferences)
    && ReadableInferenceCodes(c.inferences)
    && UniqueHypothesisCodes(c.hypotheses)
    && ReadableHypothesisCodes(c.hypotheses)
  }

  lemma EmptyDataWellFormed()
    ensures WellFormed([])
  {
    forall g | ValidGroup(g) ensures Dense(Members([], g), g) {
      assert Members([], g) == [];
    }
  }

  /** A new case satisfies the invariant. */
  lemma NewCaseSatisfiesInvariant(now: nat, localTime: string, isoTime: string)
    ensures CaseInvariant(NewCase(now, localTime, isoTime))
  {
    EmptyDataWellFormed();
  }

  /** A confirmed inference delete keeps codes unique and readable. */
  lemma DeleteInferenceKeepsCodesUnique(c: CriminalCase, infId: string)
    requires UniqueInferenceCodes(c.inferences) && ReadableInferenceCodes(c.inferences)
    ensures UniqueInferenceCodes(DeleteInference(c, infId, true).inferences)
    ensures ReadableInferenceCodes(DeleteInference(c, infId, true).inferences)
  {
    var key := (e: Inference) => e.code;
    assert DistinctBy(c.inferences, key);
    FilterKeepsDistinct(c.inferences, key, InferenceWithoutId(infId));
    var r := DeleteInference(c, infId, true).inferences;
    assert DistinctBy(r, key);
  }

  /** A confirmed hypothesis delete keeps codes unique and readable. */
  lemma DeleteHypothesisKeepsCodes(c: CriminalCase, hypId: string)
    requires UniqueHypothesisCodes(c.hypotheses) && ReadableHypothesisCodes(c.hypotheses)
    ensures UniqueHypothesisCodes(DeleteHypothesis(c, hypId, true).hypotheses)
    ensures ReadableHypothesisCodes(DeleteHypothesis(c, hypId, true).hypotheses)
  {
    var key := (h: Hypothesis) => h.code;
    assert DistinctBy(c.hypotheses, key);
    FilterKeepsDistinct(c.hypotheses, key, HypothesisWithoutId(hypId));
    var r := DeleteHypothesis(c, hypId, true).hypotheses;
    assert DistinctBy(r, key);
  }

  /** A data delete keeps inference codes (it only rewrites their sources). */
  lemma DeleteItemKeepsInferenceCodes(c: CriminalCase, itemId: string)
    requires UniqueInferenceCodes(c.inferences) && ReadableInferenceCodes(c.inferences)
    ensures UniqueInferenceCodes(DeleteDataItem(c, itemId).inferences)
    ensures ReadableInferenceCodes(DeleteDataItem(c, itemId).inferences)
  {
    var r := DeleteDataItem(c, itemId).inferences;
    forall i, j | 0 <= i < j < |r| ensures r[i].code != r[j].code {
      assert r[i].code == c.inferences[i].code && r[j].code == c.inferences[j].code;
    }
    forall e | e in r ensures ParseLetterCode('I', e.code).Some? {
      var i :| 0 <= i < |r| && r[i] == e;
      assert c.inferences[i] in c.inferences;
    }
  }

  /** Every action, as the application takes it, keeps the invariant. */
  lemma ApplyKeepsInvariant(c: CriminalCase, a: Action)
    requires CaseInvariant(c) && ValidAction(a)
    ensures CaseInvariant(Apply(c, a))
  {
    match a
    case AddManual(g, variable, value) =>
      AddManualKeepsWellFormed(c, g, variable, value);
    case AddBatch(g, pairs) =>
      AddBatchKeepsWellFormed(c, g, pairs);
    case SaveItemEdit(itemId, variable, value) =>
      SaveEditKeepsWellFormed(c, itemId, variable, value);
    case DeleteItem(itemId) =>
      DeleteKeepsWellFormed(c, itemId);
      DeleteItemKeepsInferenceCodes(c, itemId);
    case AddInferenceFrom(draft, now) =>
      AddInferenceKeepsCodesUnique(c, draft, now);
    case DeleteInferenceWithId(infId) =>
      DeleteInferenceKeepsCodesUnique(c, infId);
    case AddHypothesisFrom(draft, now) =>
      AddHypothesisKeepsCodesUnique(c, draft, now);
    case DeleteHypothesisWithId(hypId) =>
      DeleteHypothesisKeepsCodes(c, hypId);
    case EditSuggestions(text) =>
  }

  /** Any run of valid actions keeps the invariant. */
  lemma {:induction false} ApplyAllKeepsInvariant(c: CriminalCase, actions: seq<Action>)
    requires CaseInvariant(c)
    requires forall i :: 0 <= i < |actions| ==> ValidAction(actions[i])
    ensures CaseInvariant(ApplyAll(c, actions))
    decreases |actions|
  {
    if |actions| > 0 {
      ApplyKeepsInvariant(c, actions[0]);
      assert forall i :: 0 <= i < |actions[1..]| ==> actions[1..][i] == actions[i + 1];
      ApplyAllKeepsInvariant(Apply(c, actions[0]), actions[1..]);
    }
  }

  /** The model's numbering keeps the invariant too. */
  lemma ApplyCorrectedKeepsInvariant(c: CriminalCase, a: Action)
    requires CaseInvariant(c) && ValidAction(a)
    ensures CaseInvariant(ApplyCorrected(c, a))
  {
    match a
    case AddInferenceFrom(draft, now) =>
      FreshAddKeepsCodesUnique(c, draft, now);
    case _ =>
      ApplyKeepsInvariant(c, a);
  }

  /** The id of the inference a code resolves to, if any. */
  function ResolvedId(infs: seq<Inference>, x: string): Option<string> {
    match InferenceByCode(infs, x)
    case None => None
    case Some(e) => Some(e.id)
  }

  /** Resolution looks only at ids and codes. */
  lemma ResolvedIdByIdsAndCodes(a: seq<Inference>, b: seq<Inference>, x: string)
    requires |a| == |b|
    requires forall i :: 0 <= i < |a| ==> a[i].id == b[i].id && a[i].code == b[i].code
    ensures ResolvedId(a, x) == ResolvedId(b, x)
  {
    var fa := (e: Inference) => e.code == x;
    var ka, kb := FindIndex(a, fa), FindIndex(b, fa);
    if ka.Some? && kb.Some? {
      assert !(ka.value < kb.value) && !(kb.value < ka.value);
    } else {
      assert ka.None? == kb.None?;
    }
  }

  /** With unique codes, removing inferences can only unresolve a code. */
  lemma ResolvedIdAfterFilter(infs: seq<Inference>, keep: Inference -> bool, x: string)
    requires UniqueInferenceCodes(infs)
    ensures var after := ResolvedId(Filter(infs, keep), x);
      after == ResolvedId(infs, x) || after.None?
  {
    var r := Filter(infs, keep);
    match InferenceByCode(r, x)
    case None =>
    case Some(e) =>
      var i :| 0 <= i < |infs| && infs[i] == e;
      InferenceByCodeUnique(infs, i);
  }

  /** With the model's numbering no step redirects a citation: a code a hypothesis
      cites resolves afterwards to the inference it resolved to before, or to none. */
  lemma StepNeverRedirectsCitation(c: CriminalCase, a: Action, x: string)
    requires UniqueInferenceCodes(c.inferences) && UsedInHypothesis(c.hypotheses, x)
    ensures var after := ResolvedId(ApplyCorrected(c, a).inferences, x);
      after == ResolvedId(c.inferences, x) || after.None?
  {
    match a
    case DeleteItem(itemId) =>
      DeleteItemKeepsResolution(c, itemId, x);
    case AddInferenceFrom(draft, now) =>
      AddInferenceKeepsResolution(c, draft, now, x);
    case DeleteInferenceWithId(infId) =>
      ResolvedIdAfterFilter(c.inferences, InferenceWithoutId(infId), x);
    case _ =>
      OtherStepsKeepInferences(c, a);
  }

  /** Deleting an item rewrites only the sources of inferences, so every code names the
      same inference as before. */
  lemma DeleteItemKeepsResolution(c: CriminalCase, itemId: string, x: string)
    ensures ResolvedId(DeleteDataItem(c, itemId).inferences, x) == ResolvedId(c.inferences, x)
  {
    ResolvedIdByIdsAndCodes(c.inferences, DeleteDataItem(c, itemId).inferences, x);
  }

  /** Adding an inference with the model's numbering leaves a cited code naming the
      inference it named before. */
  lemma AddInferenceKeepsResolution(c: CriminalCase, d: Draft, now: nat, x: string)
    requires UsedInHypothesis(c.hypotheses, x)
    ensures ResolvedId(AddInference(c, d, now).0.inferences, x) == ResolvedId(c.inferences, x)
  {
    AddInferenceKeepsCitations(c, d, now, x);
  }

  /** Only deleting an item, adding an inference and deleting one touch the inference
      list. */
  lemma OtherStepsKeepInferences(c: CriminalCase, a: Action)
    requires !a.DeleteItem? && !a.AddInferenceFrom? && !a.DeleteInferenceWithId?
    ensures ApplyCorrected(c, a).inferences == c.inferences
  {
  }

  /** A run with the model's numbering in which `x` stays cited before every step. */
  ghost predicate CitedThroughout(c: CriminalCase, actions: seq<Action>, x: string)
    decreases |actions|
  {
    UsedInHypothesis(c.hypotheses, x)
    && (|actions| > 0 ==> CitedThroughout(ApplyCorrected(c, actions[0]), actions[1..], x))
  }

  /** With the model's numbering, over a run of valid actions during which a code stays
      cited, the code never comes to name a different inference: at the end it names
      the inference it named at the start, or none. */
  lemma {:induction false} RunNeverRedirectsCitation(c: CriminalCase, actions: seq<Action>, x: string)
    requires CaseInvariant(c)
    requires forall i :: 0 <= i < |actions| ==> ValidAction(actions[i])
    requires CitedThroughout(c, actions, x)
    ensures var after := ResolvedId(ApplyAllCorrected(c, actions).inferences, x);
      after == ResolvedId(c.inferences, x) || after.None?
    decreases |actions|
  {
    if |actions| > 0 {
      var next := ApplyCorrected(c, actions[0]);
      StepNeverRedirectsCitation(c, actions[0], x);
      ApplyCorrectedKeepsInvariant(c, actions[0]);
      assert forall i :: 0 <= i < |actions[1..]| ==> actions[1..][i] == actions[i + 1];
      RunNeverRedirectsCitation(next, actions[1..], x);
      if ResolvedId(next.inferences, x).None? {
        UnresolvedStaysUnresolved(next, actions[1..], x);
      }
    }
  }

  /** With the model's numbering, once a cited code resolves to nothing, it keeps
      resolving to nothing while it stays cited. */
  lemma {:induction false} UnresolvedStaysUnresolved(c: CriminalCase, actions: seq<Action>, x: string)
    requires CaseInvariant(c)
    requires forall i :: 0 <= i < |actions| ==> ValidAction(actions[i])
    requires CitedThroughout(c, actions, x)
    requires ResolvedId(c.inferences, x).None?
    ensures ResolvedId(ApplyAllCorrected(c, actions).inferences, x).None?
    decreases |actions|
  {
    if |actions| > 0 {
      StepNeverRedirectsCitation(c, actions[0], x);
      ApplyCorrectedKeepsInvariant(c, actions[0]);
      assert forall i :: 0 <= i < |actions[1..]| ==> actions[1..][i] == actions[i + 1];
      UnresolvedStaysUnresolved(ApplyCorrected(c, actions[0]), actions[1..], x);
    }
  }

  /** The application's own step does not keep a dangling citation dangling: the
      sample case after deleting `I2` satisfies the invariant, `H1` cites `I2`, which
      resolves to nothing, and adding an inference makes `I2` resolve to the new one. */
  lemma AsWrittenStepRevivesCitation()
    ensures var c := SampleCase.(inferences := [SampleFirst]);
      var x := LetterCode('I', 2);
      && CaseInvariant(c)
      && UsedInHypothesis(c.hypotheses, x)
      && ResolvedId(c.inferences, x).None?
      && ResolvedId(Apply(c, AddInferenceFrom(SampleDraft, 3)).inferences, x) == Some(NewInferenceId(3))
  {
    SampleRemainderSatisfiesInvariant();
    SampleRemainderCitesDanglingCode();
    SampleAsWrittenAddResolves();
  }

  lemma SampleRemainderCitesDanglingCode()
    ensures var c := SampleCase.(inferences := [SampleFirst]);
      UsedInHypothesis(c.hypotheses, LetterCode('I', 2)) && ResolvedId(c.inferences, LetterCode('I', 2)).None?
  {
    SampleCodesDiffer();
    assert SampleHypothesis in SampleCase.hypotheses;
  }

  lemma SampleAsWrittenAddResolves()
    ensures var c := SampleCase.(inferences := [SampleFirst]);
      ResolvedId(Apply(c, AddInferenceFrom(SampleDraft, 3)).inferences, LetterCode('I', 2)) == Some(NewInferenceId(3))
  {
    SampleAddAfterDelete();
    SampleReissuedResolves();
  }

  /** The sample case with only `I1` left satisfies the invariant. */
  lemma SampleRemainderSatisfiesInvariant()
    ensures CaseInvariant(SampleCase.(inferences := [SampleFirst]))
  {
    EmptyDataWellFormed();
    LetterCodeRoundTrip('I', 1);
    LetterCodeRoundTrip('H', 1);
  }

  /** The store invariant: the store is consistent and every listed case satisfies
      the case invariant. */
  ghost predicate StoreInvariant(s: Store) {
    Consistent(s) && forall c :: c in s.cases ==> CaseInvariant(c)
  }

  /** An action in the case view: applied to the open case and saved through
      `updateCase`, which shows the changed case and writes it over the listed case
      with its id; with no case open there is no case view, and nothing happens. */
  function ApplyToActive(s: Store, a: Action): (r: Store)
    ensures s.active.None? ==> r == s
    ensures s.active.Some? ==> r.active == Some(Apply(s.active.value, a))
    ensures |r.cases| == |s.cases|
    ensures forall i :: 0 <= i < |s.cases| ==> r.cases[i].id == s.cases[i].id
    ensures s.active.Some? ==> forall i :: 0 <= i < |s.cases| ==>
      r.cases[i] == if s.cases[i].id == s.active.value.id then Apply(s.active.value, a) else s.cases[i]
  {
    match s.active
    case None => s
    case Some(c) =>
      UpdateCase(s, Apply(c, a))
  }

  /** Every handler of the application keeps the store invariant. */
  lemma ApplyToActiveKeepsStoreInvariant(s: Store, a: Action)
    requires StoreInvariant(s) && ValidAction(a)
    ensures StoreInvariant(ApplyToActive(s, a))
  {
    if s.active.Some? {
      var c := s.active.value;
      var u := Apply(c, a);
      ApplyKeepsInvariant(c, a);
      UpdateKeepsConsistent(s, u);
      var r := UpdateCase(s, u);
      forall d | d in r.cases ensures CaseInvariant(d) {
        var i :| 0 <= i < |r.cases| && r.cases[i] == d;
        if s.cases[i].id != u.id {
          assert d == s.cases[i];
        }
      }
    }
  }

  lemma CreateKeepsStoreInvariant(s: Store, now: nat, localTime: string, isoTime: string)
    requires StoreInvariant(s)
    requires forall c :: c in s.cases ==> c.id != CaseId(now)
    ensures StoreInvariant(CreateNewCase(s, now, localTime, isoTime))
  {
    CreateKeepsConsistent(s, now, localTime, isoTime);
    NewCaseSatisfiesInvariant(now, localTime, isoTime);
    var r := CreateNewCase(s, now, localTime, isoTime);
    assert r.cases == s.cases + [NewCase(now, localTime, isoTime)];
  }

  lemma SelectAndBackKeepStoreInvariant(s: Store, caseId: string)
    requires StoreInvariant(s)
    ensures StoreInvariant(SelectCase(s, caseId))
    ensures StoreInvariant(GoBackToDashboard(s))
  {
  }
}
