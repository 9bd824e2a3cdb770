/** The inference builder: inferences are drawn from selected data items, numbered
    `I1, I2, ...`, and deleted by id. A hypothesis refers to an inference by its code,
    so the numbering decides which inference a hypothesis points at. */
module Inferences {
  import opened Wrappers
  import opened Text
  import opened Seqs
  import opened Types
  import opened Codes
  import opened DataCollection
  import opened Selection
  import opened Lineage

  function InferenceCodes(infs: seq<Inference>): (r: seq<string>)
    ensures |r| == |infs|
    ensures forall i :: 0 <= i < |infs| ==> r[i] == infs[i].code
  {
    seq(|infs|, i requires 0 <= i < |infs| => infs[i].code)
  }

  /** `caseData.inferences.find(i => i.code === code)`: the first inference with that
      code, or none. */
  function InferenceByCode(infs: seq<Inference>, code: string): (r: Option<Inference>)
    ensures r.Some? ==> r.value in infs && r.value.code == code
    ensures r.None? <==> forall e :: e in infs ==> e.code != code
    ensures forall i ::
      (0 <= i < |infs| && infs[i].code == code && forall j :: 0 <= j < i ==> infs[j].code != code)
      ==> r == Some(infs[i])
  {
    match FindIndex(infs, (e: Inference) => e.code == code)
    case None => None
    case Some(i) => Some(infs[i])
  }

  /** `caseData.data.find(d => d.code === code)`: the first data item with that code. */
  function DataItemByCode(data: seq<DataItem>, code: string): (r: Option<DataItem>)
    ensures r.Some? ==> r.value in data && r.value.code == code
    ensures r.None? <==> forall d :: d in data ==> d.code != code
    ensures forall i ::
      (0 <= i < |data| && data[i].code == code && forall j :: 0 <= j < i ==> data[j].code != code)
      ==> r == Some(data[i])
  {
    match FindIndex(data, (d: DataItem) => d.code == code)
    case None => None
    case Some(i) => Some(data[i])
  }

  /** On a well-formed list, `getDataItemByCode` finds the one item carrying the code. */
  lemma DataItemByCodeUnique(data: seq<DataItem>, i: nat)
    requires WellFormed(data) && i < |data|
    ensures DataItemByCode(data, data[i].code) == Some(data[i])
  {
    CodesUnique(data);
    var r := DataItemByCode(data, data[i].code);
    var j :| 0 <= j < |data| && data[j] == r.value;
  }

  predicate UniqueInferenceIds(infs: seq<Inference>) {
    DistinctBy(infs, (e: Inference) => e.id)
  }

  predicate UniqueInferenceCodes(infs: seq<Inference>) {
    DistinctBy(infs, (e: Inference) => e.code)
  }

  /** With unique codes, the lookup finds the one inference carrying the code. */
  lemma InferenceByCodeUnique(infs: seq<Inference>, i: nat)
    requires UniqueInferenceCodes(infs) && i < |infs|
    ensures InferenceByCode(infs, infs[i].code) == Some(infs[i])
  {
    var r := InferenceByCode(infs, infs[i].code);
    var j :| 0 <= j < |infs| && infs[j] == r.value;
  }

  /** Every code some hypothesis cites, hypothesis by hypothesis. */
  function CitedCodes(hyps: seq<Hypothesis>): (r: seq<string>)
    ensures forall x :: x in r <==> exists h :: h in hyps && x in h.sourceInferenceIds
  {
    if |hyps| == 0 then []
    else
      assert forall h :: h in hyps <==> h == hyps[0] || h in hyps[1..];
      hyps[0].sourceInferenceIds + CitedCodes(hyps[1..])
  }

  /** `hypotheses.some(h => h.sourceInferenceIds.includes(code))`. */
  predicate UsedInHypothesis(hyps: seq<Hypothesis>, code: string) {
    exists h :: h in hyps && code in h.sourceInferenceIds
  }

  /** The scan behind the delete warning: stops at the first hypothesis citing `code`. */
  method IsUsedInHypothesis(hyps: seq<Hypothesis>, code: string) returns (used: bool)
    ensures used <==> UsedInHypothesis(hyps, code)
  {
    used := false;
    var i := 0;
    while i < |hyps| && !used
      invariant 0 <= i <= |hyps|
      invariant used <==> exists j :: 0 <= j < i && code in hyps[j].sourceInferenceIds
    {
      used := code in hyps[i].sourceInferenceIds;
      i := i + 1;
    }
    if !used {
      forall h | h in hyps ensures code !in h.sourceInferenceIds {
        var j :| 0 <= j < |hyps| && hyps[j] == h;
      }
    }
  }

  /** The id stamped on a new inference from the clock reading `now`. */
  function NewInferenceId(now: nat): string {
    "INF-" + NatToString(now)
  }

  function NewInference(d: Draft, now: nat, n: nat): Inference {
    Inference(NewInferenceId(now), LetterCode('I', n), Trim(d.content), d.selection)
  }

  /** The number `handleAddInference` gives the next inference: one more than the
      largest number among the current inference codes, or 1 once one is unreadable. */
  function NextInferenceNumber(c: CriminalCase): nat {
    NextLetterNumber('I', InferenceCodes(c.inferences))
  }

  /** The next inference number used by this model: one more than the largest number
      among the current inference codes and the codes hypotheses cite, so that a code
      is never handed out while a hypothesis still refers to it. */
  function FreshInferenceNumber(c: CriminalCase): (n: nat)
    ensures n >= 1
    ensures LetterCode('I', n) !in InferenceCodes(c.inferences)
    ensures !UsedInHypothesis(c.hypotheses, LetterCode('I', n))
  {
    var known := InferenceCodes(c.inferences) + CitedCodes(c.hypotheses);
    var nums := ParsedLetterNumbers('I', known);
    var n := MaxParsed(nums) + 1;
    ParsedLetterNumbersAt('I', known);
    LetterCodeRoundTrip('I', n);
    assert LetterCode('I', n) !in known;
    n
  }

  /** Submits the form with the given number: a rejected submit changes nothing, an
      accepted one appends the inference and clears the form. */
  function Submit(c: CriminalCase, d: Draft, now: nat, n: nat): (r: (CriminalCase, Draft))
    ensures !Submittable(d) ==> r == (c, d)
    ensures Submittable(d) ==>
      && r.1 == EmptyDraft
      && r.0 == c.(inferences := r.0.inferences)
      && r.0.inferences == c.inferences + [NewInference(d, now, n)]
  {
    if !Submittable(d) then (c, d)
    else (c.(inferences := c.inferences + [NewInference(d, now, n)]), EmptyDraft)
  }

  /** `handleAddInference` as the application numbers it. */
  function AddInferenceAsWritten(c: CriminalCase, d: Draft, now: nat): (r: (CriminalCase, Draft))
    ensures !Submittable(d) ==> r == (c, d)
    ensures Submittable(d) ==>
      && r.1 == EmptyDraft
      && r.0 == c.(inferences := r.0.inferences)
      && |r.0.inferences| == |c.inferences| + 1
      && r.0.inferences[..|c.inferences|] == c.inferences
      && r.0.inferences[|c.inferences|].content == Trim(d.content)
      && r.0.inferences[|c.inferences|].sourceDataIds == d.selection
      && r.0.inferences[|c.inferences|] == NewInference(d, now, NextInferenceNumber(c))
  {
    Submit(c, d, now, NextInferenceNumber(c))
  }

  /** As the application numbers them, a new inference code differs from the current
      ones as long as all of them are readable; it is `I1` once one is not. */
  lemma AsWrittenCodeFreshAmongInferences(c: CriminalCase, d: Draft, now: nat)
    requires Submittable(d)
    ensures (forall e :: e in c.inferences ==> ParseLetterCode('I', e.code).Some?) ==>
      AddInferenceAsWritten(c, d, now).0.inferences[|c.inferences|].code !in InferenceCodes(c.inferences)
    ensures (exists e :: e in c.inferences && ParseLetterCode('I', e.code).None?) ==>
      AddInferenceAsWritten(c, d, now).0.inferences[|c.inferences|].code == LetterCode('I', 1)
  {
    var codes := InferenceCodes(c.inferences);
    assert forall i :: 0 <= i < |codes| ==> codes[i] == c.inferences[i].code;
    if forall e :: e in c.inferences ==> ParseLetterCode('I', e.code).Some? {
      NextLetterCodeIsFresh('I', codes);
    } else {
      NextLetterNumberBounds('I', codes);
      var e :| e in c.inferences && ParseLetterCode('I', e.code).None?;
      var i :| 0 <= i < |c.inferences| && c.inferences[i] == e;
      assert ParseLetterCode('I', codes[i]).None?;
    }
  }

  /** `handleAddInference` with the numbering of `FreshInferenceNumber`: the new code
      is neither a current inference code nor one that a hypothesis cites. */
  function AddInference(c: CriminalCase, d: Draft, now: nat): (r: (CriminalCase, Draft))
    ensures !Submittable(d) ==> r == (c, d)
    ensures Submittable(d) ==>
      && r.1 == EmptyDraft
      && r.0 == c.(inferences := r.0.inferences)
      && |r.0.inferences| == |c.inferences| + 1
      && r.0.inferences[..|c.inferences|] == c.inferences
      && r.0.inferences[|c.inferences|].content == Trim(d.content)
      && r.0.inferences[|c.inferences|].sourceDataIds == d.selection
      && r.0.inferences[|c.inferences|].code !in InferenceCodes(c.inferences)
      && !UsedInHypothesis(c.hypotheses, r.0.inferences[|c.inferences|].code)
  {
    Submit(c, d, now, FreshInferenceNumber(c))
  }

  /** Codes `I<n>` as the builder writes them. */
  predicate ReadableInferenceCodes(infs: seq<Inference>) {
    forall e :: e in infs ==> ParseLetterCode('I', e.code).Some?
  }

  /** Submitting with a number whose code is not in use keeps the codes unique and
      readable. */
  lemma SubmitKeepsCodes(c: CriminalCase, d: Draft, now: nat, n: nat)
    requires UniqueInferenceCodes(c.inferences) && ReadableInferenceCodes(c.inferences)
    requires LetterCode('I', n) !in InferenceCodes(c.inferences)
    ensures var r := Submit(c, d, now, n).0.inferences;
      UniqueInferenceCodes(r) && ReadableInferenceCodes(r)
  {
    if Submittable(d) {
      var r := Submit(c, d, now, n).0.inferences;
      LetterCodeRoundTrip('I', n);
      forall i, j | 0 <= i < j < |r| ensures r[i].code != r[j].code {
        if j == |c.inferences| {
          assert r[i].code == InferenceCodes(c.inferences)[i];
        } else {
          assert r[i] == c.inferences[i] && r[j] == c.inferences[j];
        }
      }
    }
  }

  /** As the application numbers them, adding an inference keeps the codes unique and
      readable, provided they were so before. */
  lemma AddInferenceKeepsCodesUnique(c: CriminalCase, d: Draft, now: nat)
    requires UniqueInferenceCodes(c.inferences) && ReadableInferenceCodes(c.inferences)
    ensures var r := AddInferenceAsWritten(c, d, now).0.inferences;
      UniqueInferenceCodes(r) && ReadableInferenceCodes(r)
  {
    if Submittable(d) {
      var n := NextInferenceNumber(c);
      AsWrittenCodeFreshAmongInferences(c, d, now);
      assert AddInferenceAsWritten(c, d, now).0.inferences[|c.inferences|] == NewInference(d, now, n);
      SubmitKeepsCodes(c, d, now, n);
    }
  }

  /** The model's numbering keeps the codes unique and readable as well. */
  lemma FreshAddKeepsCodesUnique(c: CriminalCase, d: Draft, now: nat)
    requires UniqueInferenceCodes(c.inferences) && ReadableInferenceCodes(c.inferences)
    ensures var r := AddInference(c, d, now).0.inferences;
      UniqueInferenceCodes(r) && ReadableInferenceCodes(r)
  {
    if Submittable(d) {
      SubmitKeepsCodes(c, d, now, FreshInferenceNumber(c));
    }
  }

  /** Appending an inference with another code does not change what a code resolves to. */
  lemma InferenceByCodeAppend(infs: seq<Inference>, e: Inference, x: string)
    requires e.code != x
    ensures InferenceByCode(infs + [e], x) == InferenceByCode(infs, x)
  {
    var all := infs + [e];
    var f := (g: Inference) => g.code == x;
    assert forall j :: 0 <= j < |infs| ==> all[j] == infs[j];
    match FindIndex(infs, f)
    case Some(i) =>
      assert FindIndex(all, f) == Some(i);
    case None =>
      assert FindIndex(all, f) == None;
  }

  /** Adding an inference leaves every hypothesis citation pointing where it pointed. */
  lemma AddInferenceKeepsCitations(c: CriminalCase, d: Draft, now: nat, x: string)
    requires UsedInHypothesis(c.hypotheses, x)
    ensures InferenceByCode(AddInference(c, d, now).0.inferences, x) == InferenceByCode(c.inferences, x)
  {
    if Submittable(d) {
      var r := AddInference(c, d, now).0.inferences;
      InferenceByCodeAppend(c.inferences, r[|c.inferences|], x);
      assert r == c.inferences + [r[|c.inferences|]];
    }
  }

  /** The prompt `handleDeleteInference` shows before deleting. */
  datatype DeletePrompt = NoSuchInference | ConfirmDelete | ConfirmBrokenLink

  function InferenceWithId(infId: string): Inference -> bool {
    (e: Inference) => e.id == infId
  }

  function InferenceWithoutId(infId: string): Inference -> bool {
    (e: Inference) => e.id != infId
  }

  /** The warning variant is chosen exactly when some hypothesis cites the code. */
  function DeleteInferencePrompt(c: CriminalCase, infId: string): (p: DeletePrompt)
    ensures p == NoSuchInference <==> forall e :: e in c.inferences ==> e.id != infId
    ensures p != NoSuchInference ==>
      var e := c.inferences[FindIndex(c.inferences, InferenceWithId(infId)).value];
      e.id == infId && (p == ConfirmBrokenLink <==> UsedInHypothesis(c.hypotheses, e.code))
  {
    match FindIndex(c.inferences, InferenceWithId(infId))
    case None => NoSuchInference
    case Some(i) =>
      if UsedInHypothesis(c.hypotheses, c.inferences[i].code) then ConfirmBrokenLink else ConfirmDelete
  }

  /** `handleDeleteInference` after the prompt: nothing happens for an unknown id or a
      declined prompt; otherwise every inference with the id is dropped, and the
      hypotheses are left as they are. */
  function DeleteInference(c: CriminalCase, infId: string, confirmed: bool): (r: CriminalCase)
    ensures FindIndex(c.inferences, InferenceWithId(infId)).None? || !confirmed ==> r == c
    ensures r == c.(inferences := r.inferences)
    ensures confirmed ==> forall e :: e in r.inferences <==> e in c.inferences && e.id != infId
  {
    match FindIndex(c.inferences, InferenceWithId(infId))
    case None => c
    case Some(_) =>
      if !confirmed then c
      else c.(inferences := Filter(c.inferences, InferenceWithoutId(infId)))
  }

  /** Deleting a just-submitted inference by its id undoes the submit, when no earlier
      inference carried that id, whatever number the submit used. */
  lemma DeleteUndoesSubmit(c: CriminalCase, d: Draft, now: nat, n: nat)
    requires Submittable(d)
    requires forall e :: e in c.inferences ==> e.id != NewInferenceId(now)
    ensures DeleteInference(Submit(c, d, now, n).0, NewInferenceId(now), true) == c
  {
    var r := Submit(c, d, now, n).0;
    var e := NewInference(d, now, n);
    var keep := InferenceWithoutId(NewInferenceId(now));
    assert r.inferences == c.inferences + [e];
    assert InferenceWithId(NewInferenceId(now))(r.inferences[|c.inferences|]);
    assert FindIndex(r.inferences, InferenceWithId(NewInferenceId(now))).Some?;
    FilterAppend(c.inferences, [e], keep);
    FilterKeepsAll(c.inferences, keep);
    FilterSingleton(e, keep);
  }

  /** Deleting the inference `handleAddInference` just added, by its id, gives back the
      case as it was, when no earlier inference carried that id. */
  lemma DeleteUndoesAdd(c: CriminalCase, d: Draft, now: nat)
    requires Submittable(d)
    requires forall e :: e in c.inferences ==> e.id != NewInferenceId(now)
    ensures DeleteInference(AddInferenceAsWritten(c, d, now).0, NewInferenceId(now), true) == c
  {
    DeleteUndoesSubmit(c, d, now, NextInferenceNumber(c));
  }

  /** With unique ids a confirmed delete removes the one inference with the id and
      keeps the others in their order. */
  lemma DeleteInferenceRemovesInPlace(c: CriminalCase, i: nat)
    requires UniqueInferenceIds(c.inferences) && i < |c.inferences|
    ensures DeleteInference(c, c.inferences[i].id, true)
      == c.(inferences := c.inferences[..i] + c.inferences[i + 1..])
  {
    var infId := c.inferences[i].id;
    assert FindIndex(c.inferences, InferenceWithId(infId)).Some?;
    FilterRemovesOne(c.inferences, InferenceWithoutId(infId), i);
  }

  /** Codes are handed out again: with unique ids and readable codes, deleting the
      inference `I<m>` whose number is one more than the largest other number (or is
      1) and then adding an inference gives the new one the deleted code. */
  lemma AsWrittenReissuesDeletedCode(c: CriminalCase, i: nat, m: nat, d: Draft, now: nat)
    requires UniqueInferenceIds(c.inferences) && ReadableInferenceCodes(c.inferences)
    requires i < |c.inferences| && m >= 1 && c.inferences[i].code == LetterCode('I', m)
    requires Submittable(d)
    requires forall j :: 0 <= j < |c.inferences| && j != i ==>
      ParseLetterCode('I', c.inferences[j].code).value < m
    requires m == 1 || exists j ::
      0 <= j < |c.inferences| && j != i && ParseLetterCode('I', c.inferences[j].code) == Some(m - 1)
    ensures var r := AddInferenceAsWritten(DeleteInference(c, c.inferences[i].id, true), d, now).0;
      |r.inferences| == |c.inferences| && r.inferences[|c.inferences| - 1].code == c.inferences[i].code
  {
    var infs := c.inferences;
    var codes := InferenceCodes(infs);
    forall j | 0 <= j < |codes|
      ensures ParseLetterCode('I', codes[j]).Some?
      ensures j != i ==> ParseLetterCode('I', codes[j]).value < m
    {
      assert infs[j] in infs;
    }
    if m != 1 {
      var j :| 0 <= j < |infs| && j != i && ParseLetterCode('I', infs[j].code) == Some(m - 1);
      assert codes[j] == infs[j].code;
    }
    NextNumberAfterRemoving('I', codes, i, m);
    DeleteInferenceRemovesInPlace(c, i);
    InferenceCodesOfCut(infs, i);
  }

  lemma InferenceCodesOfCut(infs: seq<Inference>, i: nat)
    requires i < |infs|
    ensures InferenceCodes(infs[..i] + infs[i + 1..])
      == InferenceCodes(infs)[..i] + InferenceCodes(infs)[i + 1..]
  {
    var rest := infs[..i] + infs[i + 1..];
    var codes := InferenceCodes(infs);
    var cut := codes[..i] + codes[i + 1..];
    forall j | 0 <= j < |rest| ensures InferenceCodes(rest)[j] == cut[j] {
      if j < i {
        assert rest[j] == infs[j] && cut[j] == codes[j];
      } else {
        assert rest[j] == infs[j + 1] && cut[j] == codes[j + 1];
      }
    }
  }

  /** Some hypothesis citation resolved before and resolves to nothing after. */
  predicate BreaksLink(before: seq<Inference>, after: seq<Inference>, hyps: seq<Hypothesis>) {
    exists h, x :: h in hyps && x in h.sourceInferenceIds
      && InferenceByCode(before, x).Some? && InferenceByCode(after, x).None?
  }

  /** The delete warning is honest: with unique ids and codes, the prompt warns of a
      broken link exactly when confirming it leaves a hypothesis citation dangling. */
  lemma DeleteWarnsIffLinkBreaks(c: CriminalCase, infId: string)
    requires UniqueInferenceIds(c.inferences) && UniqueInferenceCodes(c.inferences)
    ensures DeleteInferencePrompt(c, infId) == ConfirmBrokenLink <==>
      BreaksLink(c.inferences, DeleteInference(c, infId, true).inferences, c.hypotheses)
  {
    match FindIndex(c.inferences, InferenceWithId(infId))
    case None =>
      assert DeleteInference(c, infId, true).inferences == c.inferences;
    case Some(i) =>
      var r := Filter(c.inferences, InferenceWithoutId(infId));
      assert DeleteInference(c, infId, true).inferences == r;
      if UsedInHypothesis(c.hypotheses, c.inferences[i].code) {
        DeleteOfCitedBreaksLink(c, infId, i);
      } else {
        DeleteOfUncitedKeepsLinks(c, infId, i);
      }
  }

  lemma DeleteOfCitedBreaksLink(c: CriminalCase, infId: string, i: nat)
    requires UniqueInferenceIds(c.inferences) && UniqueInferenceCodes(c.inferences)
    requires FindIndex(c.inferences, InferenceWithId(infId)) == Some(i)
    requires UsedInHypothesis(c.hypotheses, c.inferences[i].code)
    ensures BreaksLink(c.inferences, Filter(c.inferences, InferenceWithoutId(infId)), c.hypotheses)
  {
    var e := c.inferences[i];
    var r := Filter(c.inferences, InferenceWithoutId(infId));
    var h :| h in c.hypotheses && e.code in h.sourceInferenceIds;
    InferenceByCodeUnique(c.inferences, i);
    assert InferenceByCode(r, e.code).None? by {
      forall f | f in r ensures f.code != e.code {
        var j :| 0 <= j < |c.inferences| && c.inferences[j] == f;
        assert j != i;
      }
    }
  }

  lemma DeleteOfUncitedKeepsLinks(c: CriminalCase, infId: string, i: nat)
    requires UniqueInferenceIds(c.inferences) && UniqueInferenceCodes(c.inferences)
    requires FindIndex(c.inferences, InferenceWithId(infId)) == Some(i)
    requires !UsedInHypothesis(c.hypotheses, c.inferences[i].code)
    ensures !BreaksLink(c.inferences, Filter(c.inferences, InferenceWithoutId(infId)), c.hypotheses)
  {
  }

  /** After a confirmed delete of an inference a hypothesis cites, the citation stays
      in the hypothesis and resolves to no inference. */
  lemma DeleteLeavesDanglingCitation(c: CriminalCase, i: nat, h: Hypothesis)
    requires UniqueInferenceIds(c.inferences) && UniqueInferenceCodes(c.inferences)
    requires i < |c.inferences| && h in c.hypotheses && c.inferences[i].code in h.sourceInferenceIds
    ensures var r := DeleteInference(c, c.inferences[i].id, true);
      && h in r.hypotheses
      && InferenceByCode(r.inferences, c.inferences[i].code).None?
  {
    var e := c.inferences[i];
    var r := DeleteInference(c, e.id, true);
    var k := FindIndex(c.inferences, InferenceWithId(e.id));
    assert k == Some(i);
    forall f | f in r.inferences ensures f.code != e.code {
      var j :| 0 <= j < |c.inferences| && c.inferences[j] == f;
      assert j != i;
    }
  }

  /** A case with inferences `I1` and `I2` and a hypothesis `H1` citing `I2`. */
  const SampleFirst: Inference := Inference("INF-1", LetterCode('I', 1), "a", ["DE-1"])
  const SampleSecond: Inference := Inference("INF-2", LetterCode('I', 2), "b", ["DE-1"])
  const SampleHypothesis: Hypothesis := Hypothesis("HYP-1", LetterCode('H', 1), "h", [LetterCode('I', 2)])
  const SampleCase: CriminalCase :=
    CriminalCase("CASO-1", "t", "d", [], [SampleFirst, SampleSecond], [SampleHypothesis], "")
  const SampleDraft: Draft := Draft("c", ["DE-1"])

  lemma SampleCodesDiffer()
    ensures SampleFirst.code != SampleSecond.code
  {
    LetterCodeRoundTrip('I', 1);
    LetterCodeRoundTrip('I', 2);
  }

  /** Deleting `I2` from the sample warns of a broken link and keeps only `I1`. */
  lemma SampleDelete()
    ensures DeleteInferencePrompt(SampleCase, "INF-2") == ConfirmBrokenLink
    ensures DeleteInference(SampleCase, "INF-2", true) == SampleCase.(inferences := [SampleFirst])
  {
    var c := SampleCase;
    assert FindIndex(c.inferences, InferenceWithId("INF-2")) == Some(1);
    assert SampleHypothesis in c.hypotheses;
    assert UsedInHypothesis(c.hypotheses, SampleSecond.code);
    FilterSingleton(SampleFirst, InferenceWithoutId("INF-2"));
    FilterSingleton(SampleSecond, InferenceWithoutId("INF-2"));
    FilterAppend([SampleFirst], [SampleSecond], InferenceWithoutId("INF-2"));
    assert [SampleFirst, SampleSecond] == [SampleFirst] + [SampleSecond];
  }

  /** With only `I1` left, the application numbers the next inference 2. */
  lemma SampleAddAfterDelete()
    ensures AddInferenceAsWritten(SampleCase.(inferences := [SampleFirst]), SampleDraft, 3).0.inferences
      == [SampleFirst, NewInference(SampleDraft, 3, 2)]
  {
    SampleNextNumberIsTwo();
    assert IsTrimmed("c");
    assert Submittable(SampleDraft);
  }

  lemma SampleNextNumberIsTwo()
    ensures NextInferenceNumber(SampleCase.(inferences := [SampleFirst])) == 2
  {
    var c := SampleCase.(inferences := [SampleFirst]);
    LetterCodeRoundTrip('I', 1);
    assert InferenceCodes(c.inferences) == [LetterCode('I', 1)];
    NextLetterNumberBounds('I', [LetterCode('I', 1)]);
    assert NextInferenceNumber(c) == 2;
  }

  /** The citation capture the numbering of `handleAddInference` allows: in the sample
      case, deleting `I2` (the prompt warns that the link breaks) and adding a new
      inference hands out `I2` again, and `H1` now cites the new inference instead of
      showing a broken link. */
  lemma ReissuedCodeCapturesCitation()
    ensures var deleted := DeleteInference(SampleCase, "INF-2", true);
      var added := AddInferenceAsWritten(deleted, SampleDraft, 3).0;
      && DeleteInferencePrompt(SampleCase, "INF-2") == ConfirmBrokenLink
      && InferenceByCode(deleted.inferences, LetterCode('I', 2)).None?
      && SampleHypothesis in added.hypotheses
      && LetterCode('I', 2) in SampleHypothesis.sourceInferenceIds
      && InferenceByCode(added.inferences, LetterCode('I', 2)).Some?
      && InferenceByCode(added.inferences, LetterCode('I', 2)).value.content == "c"
  {
    SampleDelete();
    SampleAddAfterDelete();
    SampleCodesDiffer();
    SampleReissuedResolves();
  }

  /** After the re-issue, code `I2` resolves to the new inference, whose text is "c". */
  lemma SampleReissuedResolves()
    ensures var found := InferenceByCode([SampleFirst, NewInference(SampleDraft, 3, 2)], LetterCode('I', 2));
      found == Some(NewInference(SampleDraft, 3, 2)) && found.value.content == "c"
  {
    var added := [SampleFirst, NewInference(SampleDraft, 3, 2)];
    SampleCodesDiffer();
    assert FindIndex(added, (e: Inference) => e.code == LetterCode('I', 2)) == Some(1);
    assert IsTrimmed("c");
  }

  /** With the model's numbering the same steps give the new inference `I3`, and `H1`
      keeps showing that its source is gone. */
  lemma FreshCodeKeepsCitationBroken()
    ensures var deleted := DeleteInference(SampleCase, "INF-2", true);
      var added := AddInference(deleted, SampleDraft, 3).0;
      InferenceByCode(added.inferences, LetterCode('I', 2)).None?
  {
    SampleDelete();
    SampleCodesDiffer();
    var deleted := SampleCase.(inferences := [SampleFirst]);
    assert InferenceByCode(deleted.inferences, LetterCode('I', 2)).None?;
    assert UsedInHypothesis(deleted.hypotheses, LetterCode('I', 2)) by {
      assert SampleHypothesis in deleted.hypotheses;
    }
    AddInferenceKeepsCitations(deleted, SampleDraft, 3, LetterCode('I', 2));
  }
}
