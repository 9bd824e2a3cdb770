/** The form state shared by the inference and hypothesis builders: the text typed so
    far and the list of selected source codes, which a click toggles. */
module Selection {
  import opened Text
  import opened Seqs
  import opened DataCollection

  /** The text area and the selected codes, in the order they were clicked. */
  datatype Draft = Draft(content: string, selection: seq<string>)

  /** The form after a successful submit: both parts cleared. */
  const EmptyDraft: Draft := Draft("", [])

  /** A submit is accepted only with some non-blank text and at least one source. */
  predicate Submittable(d: Draft) {
    Trim(d.content) != "" && |d.selection| > 0
  }

  predicate NoDuplicates(s: seq<string>) {
    forall i, j :: 0 <= i < j < |s| ==> s[i] != s[j]
  }

  /** `toggleDataSelection` / `toggleInferenceSelection`: a selected code is removed
      (every occurrence of it), an unselected one is appended. */
  function Toggle(sel: seq<string>, x: string): (r: seq<string>)
    ensures forall y :: y in r <==> (y in sel <==> y != x)
    ensures x !in sel ==> r == sel + [x]
    ensures x in sel ==> |r| < |sel|
  {
    if x in sel then
      var same := (y: string) => y == x;
      FilterSplitsLength(sel, NotCode(x), same);
      assert x in Filter(sel, same);
      Filter(sel, NotCode(x))
    else sel + [x]
  }

  /** Clicking twice on a code that was not selected leaves the selection as it was. */
  lemma ToggleTwiceRestores(sel: seq<string>, x: string)
    requires x !in sel
    ensures Toggle(Toggle(sel, x), x) == sel
  {
    var once := sel + [x];
    assert forall i :: 0 <= i < |sel| ==> NotCode(x)(once[i]);
    FilterAppend(sel, [x], NotCode(x));
    FilterKeepsAll(sel, NotCode(x));
    FilterSingleton(x, NotCode(x));
  }

  /** Without duplicates, unselecting a code cuts it out of its place and keeps the
      order of the others. */
  lemma ToggleRemovesInPlace(sel: seq<string>, i: nat)
    requires NoDuplicates(sel) && i < |sel|
    ensures Toggle(sel, sel[i]) == sel[..i] + sel[i + 1..]
  {
    FilterRemovesOne(sel, NotCode(sel[i]), i);
  }

  /** Since every click goes through the toggle, a selection never lists a code twice. */
  lemma ToggleKeepsNoDuplicates(sel: seq<string>, x: string)
    requires NoDuplicates(sel)
    ensures NoDuplicates(Toggle(sel, x))
  {
    if x in sel {
      var key := (y: string) => y;
      assert DistinctBy(sel, key);
      FilterKeepsDistinct(sel, key, NotCode(x));
      assert DistinctBy(Toggle(sel, x), key);
    }
  }
}
