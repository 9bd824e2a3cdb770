/** The hypothesis builder: hypotheses are built on selected inferences, numbered
    `H1, H2, ...`, and deleted by id. Nothing cites a hypothesis. */
module Hypotheses {
  import opened Wrappers
  import opened Text
  import opened Seqs
  import opened Types
  import opened Codes
  import opened Selection
  import opened Inferences

  function HypothesisCodes(hyps: seq<Hypothesis>): (r: seq<string>)
    ensures |r| == |hyps|
    ensures forall i :: 0 <= i < |hyps| ==> r[i] == hyps[i].code
  {
    seq(|hyps|, i requires 0 <= i < |hyps| => hyps[i].code)
  }

  /** The id stamped on a new hypothesis from the clock reading `now`. */
  function NewHypothesisId(now: nat): string {
    "HYP-" + NatToString(now)
  }

  function NewHypothesis(d: Draft, now: nat, n: nat): Hypothesis {
    Hypothesis(NewHypothesisId(now), LetterCode('H', n), Trim(d.content), d.selection)
  }

  /** `handleAddHypothesis`: a rejected submit changes nothing; an accepted one appends
      a hypothesis numbered one more than the largest current number (or 1 once a
      current code is unreadable), with the trimmed text and the selected inference
      codes, and clears the form. */
  function AddHypothesis(c: CriminalCase, d: Draft, now: nat): (r: (CriminalCase, Draft))
    ensures !Submittable(d) ==> r == (c, d)
    ensures Submittable(d) ==>
      && r.1 == EmptyDraft
      && r.0 == c.(hypotheses := r.0.hypotheses)
      && |r.0.hypotheses| == |c.hypotheses| + 1
      && r.0.hypotheses[..|c.hypotheses|] == c.hypotheses
      && r.0.hypotheses[|c.hypotheses|].id == NewHypothesisId(now)
      && r.0.hypotheses[|c.hypotheses|].content == Trim(d.content)
      && r.0.hypotheses[|c.hypotheses|].sourceInferenceIds == d.selection
      && r.0.hypotheses[|c.hypotheses|] == NewHypothesis(d, now, NextLetterNumber('H', HypothesisCodes(c.hypotheses)))
  {
    if !Submittable(d) then (c, d)
    else
      var n := NextLetterNumber('H', HypothesisCodes(c.hypotheses));
      (c.(hypotheses := c.hypotheses + [NewHypothesis(d, now, n)]), EmptyDraft)
  }

  predicate UniqueHypothesisCodes(hyps: seq<Hypothesis>) {
    DistinctBy(hyps, (h: Hypothesis) => h.code)
  }

  /** Codes `H<n>` as the builder writes them. */
  predicate ReadableHypothesisCodes(hyps: seq<Hypothesis>) {
    forall e :: e in hyps ==> ParseLetterCode('H', e.code).Some?
  }

  /** While every hypothesis code is readable, a new hypothesis gets a code no other
      hypothesis has, and the codes stay unique and readable. */
  lemma AddHypothesisKeepsCodesUnique(c: CriminalCase, d: Draft, now: nat)
    requires UniqueHypothesisCodes(c.hypotheses) && ReadableHypothesisCodes(c.hypotheses)
    ensures var r := AddHypothesis(c, d, now).0.hypotheses;
      UniqueHypothesisCodes(r) && ReadableHypothesisCodes(r)
  {
    if Submittable(d) {
      var codes := HypothesisCodes(c.hypotheses);
      var n := NextLetterNumber('H', codes);
      NextLetterCodeIsFresh('H', codes);
      LetterCodeRoundTrip('H', n);
      var r := AddHypothesis(c, d, now).0.hypotheses;
      assert r == c.hypotheses + [NewHypothesis(d, now, n)];
      forall i, j | 0 <= i < j < |r| ensures r[i].code != r[j].code {
        assert r[i].code == codes[i];
      }
    }
  }

  /** An unreadable hypothesis code makes the next one `H1`, whatever is in use. */
  lemma UnreadableCodeRestartsNumbering(c: CriminalCase, d: Draft, now: nat)
    requires Submittable(d) && !ReadableHypothesisCodes(c.hypotheses)
    ensures AddHypothesis(c, d, now).0.hypotheses[|c.hypotheses|].code == LetterCode('H', 1)
  {
    var e :| e in c.hypotheses && ParseLetterCode('H', e.code).None?;
    var i :| 0 <= i < |c.hypotheses| && c.hypotheses[i] == e;
    assert ParseLetterCode('H', HypothesisCodes(c.hypotheses)[i]).None?;
    NextLetterNumberBounds('H', HypothesisCodes(c.hypotheses));
  }

  function HypothesisWithoutId(hypId: string): Hypothesis -> bool {
    (h: Hypothesis) => h.id != hypId
  }

  /** `handleDeleteHypothesis`: on confirmation every hypothesis with the id is dropped;
      the inferences it cited are untouched. */
  function DeleteHypothesis(c: CriminalCase, hypId: string, confirmed: bool): (r: CriminalCase)
    ensures !confirmed ==> r == c
    ensures r == c.(hypotheses := r.hypotheses)
    ensures confirmed ==> forall h :: h in r.hypotheses <==> h in c.hypotheses && h.id != hypId
  {
    if !confirmed then c
    else c.(hypotheses := Filter(c.hypotheses, HypothesisWithoutId(hypId)))
  }

  predicate UniqueHypothesisIds(hyps: seq<Hypothesis>) {
    DistinctBy(hyps, (h: Hypothesis) => h.id)
  }

  /** With unique ids a confirmed delete removes the one hypothesis with the id and
      keeps the others in their order. */
  lemma DeleteHypothesisRemovesInPlace(c: CriminalCase, i: nat)
    requires UniqueHypothesisIds(c.hypotheses) && i < |c.hypotheses|
    ensures DeleteHypothesis(c, c.hypotheses[i].id, true)
      == c.(hypotheses := c.hypotheses[..i] + c.hypotheses[i + 1..])
  {
    FilterRemovesOne(c.hypotheses, HypothesisWithoutId(c.hypotheses[i].id), i);
  }

  /** Deleting drops exactly the hypotheses with the id: the survivors and the
      dropped ones together are as many as before. */
  lemma DeleteHypothesisCount(c: CriminalCase, hypId: string)
    ensures |DeleteHypothesis(c, hypId, true).hypotheses|
      + |Filter(c.hypotheses, (h: Hypothesis) => h.id == hypId)| == |c.hypotheses|
  {
    FilterSplitsLength(c.hypotheses, HypothesisWithoutId(hypId), (h: Hypothesis) => h.id == hypId);
  }

  /** Deleting a just-added hypothesis by its id undoes the add, when no earlier
      hypothesis carried that id. */
  lemma DeleteUndoesAddHypothesis(c: CriminalCase, d: Draft, now: nat)
    requires Submittable(d)
    requires forall h :: h in c.hypotheses ==> h.id != NewHypothesisId(now)
    ensures DeleteHypothesis(AddHypothesis(c, d, now).0, NewHypothesisId(now), true) == c
  {
    var e := NewHypothesis(d, now, NextLetterNumber('H', HypothesisCodes(c.hypotheses)));
    var keep := HypothesisWithoutId(NewHypothesisId(now));
    assert AddHypothesis(c, d, now).0 == c.(hypotheses := c.hypotheses + [e]);
    assert forall q :: 0 <= q < |c.hypotheses| ==> keep(c.hypotheses[q]);
    FilterDropsLast(c.hypotheses, e, keep);
  }
}
