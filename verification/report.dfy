/** The final report: the data grouped by pillar (victims further grouped by victim
    index), each inference with the data it comes from, each hypothesis with the
    inferences it rests on, and the free-text suggestions. */
module Report {
  import opened Wrappers
  import opened Seqs
  import opened Types
  import opened Codes
  import opened DataCollection
  import opened Lineage
  import opened Deletion
  import opened Inferences

  function OfPillar(p: Pillar): DataItem -> bool {
    (d: DataItem) => d.pillar == p
  }

  /** `dataByPillar`: the items of one pillar, in data order. */
  function DataByPillar(data: seq<DataItem>, p: Pillar): (r: seq<DataItem>)
    ensures forall d :: d in r <==> d in data && d.pillar == p
  {
    Filter(data, OfPillar(p))
  }

  /** The pillar's items keep their data order: the items of a joined list are those
      of the front followed by those of the back. */
  lemma DataByPillarAppend(a: seq<DataItem>, b: seq<DataItem>, p: Pillar)
    ensures DataByPillar(a + b, p) == DataByPillar(a, p) + DataByPillar(b, p)
  {
    FilterAppend(a, b, OfPillar(p));
  }

  /** An item added at the end shows last among its pillar's items, and nowhere else. */
  lemma DataByPillarSnoc(a: seq<DataItem>, d: DataItem, p: Pillar)
    ensures DataByPillar(a + [d], p) == DataByPillar(a, p) + (if d.pillar == p then [d] else [])
  {
    DataByPillarAppend(a, [d], p);
    FilterSingleton(d, OfPillar(p));
  }

  /** The heading a victim item is grouped under: `item.victimIndex || 1`, so an
      absent index and the index 0 both go to victim 1. */
  function VictimKey(d: DataItem): (k: nat)
    ensures k >= 1
    ensures d.victimIndex.Some? && d.victimIndex.value >= 1 ==> k == d.victimIndex.value
    ensures d.victimIndex.None? || d.victimIndex == Some(0) ==> k == 1
  {
    match d.victimIndex
    case Some(v) => if v != 0 then v else 1
    case None => 1
  }

  function KeyIs(k: nat): DataItem -> bool {
    (d: DataItem) => VictimKey(d) == k
  }

  function KeyAtMost(k: nat): DataItem -> bool {
    (d: DataItem) => VictimKey(d) <= k
  }

  /** One "Víctima <index>" block of the report. */
  datatype VictimSection = VictimSection(index: nat, items: seq<DataItem>)

  predicate KeyUsed(victims: seq<DataItem>, k: nat) {
    exists d :: d in victims && VictimKey(d) == k
  }

  /** The headings `1..k` that some item falls under, ascending. */
  function UsedKeysUpTo(victims: seq<DataItem>, k: nat): (r: seq<nat>)
    ensures forall i :: 0 <= i < |r| ==> 1 <= r[i] <= k && KeyUsed(victims, r[i])
    ensures forall i, j :: 0 <= i < j < |r| ==> r[i] < r[j]
    ensures forall j :: 1 <= j <= k && KeyUsed(victims, j) ==> j in r
  {
    if k == 0 then []
    else
      var init := UsedKeysUpTo(victims, k - 1);
      if KeyUsed(victims, k) then init + [k] else init
  }

  /** One block per given heading, holding the items under it in data order. */
  function SectionsFor(victims: seq<DataItem>, keys: seq<nat>): (r: seq<VictimSection>)
    ensures |r| == |keys|
    ensures forall i :: 0 <= i < |keys| ==> r[i] == VictimSection(keys[i], Filter(victims, KeyIs(keys[i])))
  {
    if |keys| == 0 then []
    else
      var last := keys[|keys| - 1];
      SectionsFor(victims, keys[..|keys| - 1]) + [VictimSection(last, Filter(victims, KeyIs(last)))]
  }

  /** The largest heading among the items, 0 for none. */
  function MaxKey(victims: seq<DataItem>): (m: nat)
    ensures forall i :: 0 <= i < |victims| ==> VictimKey(victims[i]) <= m
  {
    if |victims| == 0 then 0
    else
      var rest := MaxKey(victims[1..]);
      assert forall i :: 1 <= i < |victims| ==> victims[i] == victims[1..][i - 1];
      if VictimKey(victims[0]) > rest then VictimKey(victims[0]) else rest
  }

  /** `renderVictimData`: one block per heading in use, in ascending order of the
      heading (the order `Object.entries` gives integer keys); none at all when there
      are no victim items. Each block lists the items under its heading in data
      order, and no block is empty. */
  function VictimSections(data: seq<DataItem>): (r: seq<VictimSection>)
    ensures forall i, j :: 0 <= i < j < |r| ==> r[i].index < r[j].index
    ensures forall i :: 0 <= i < |r| ==>
      r[i].index >= 1 && |r[i].items| > 0
      && r[i].items == Filter(DataByPillar(data, Victim), KeyIs(r[i].index))
  {
    var victims := DataByPillar(data, Victim);
    var keys := UsedKeysUpTo(victims, MaxKey(victims));
    var r := SectionsFor(victims, keys);
    assert forall i :: 0 <= i < |r| ==> |r[i].items| > 0 by {
      forall i | 0 <= i < |r| ensures |r[i].items| > 0 {
        var d :| d in victims && VictimKey(d) == keys[i];
        assert d in r[i].items;
      }
    }
    r
  }

  /** The items of the blocks, block after block. */
  function Flatten(sections: seq<VictimSection>): seq<DataItem> {
    if |sections| == 0 then []
    else Flatten(sections[..|sections| - 1]) + sections[|sections| - 1].items
  }

  /** Raising the bound by one adds the items with exactly that heading. */
  lemma KeyAtMostStep(victims: seq<DataItem>, k: nat)
    requires k >= 1
    ensures multiset(Filter(victims, KeyAtMost(k)))
      == multiset(Filter(victims, KeyAtMost(k - 1))) + multiset(Filter(victims, KeyIs(k)))
  {
    FilterDisjointUnion(victims, KeyAtMost(k), KeyAtMost(k - 1), KeyIs(k));
  }

  lemma FlattenSnoc(sections: seq<VictimSection>, x: VictimSection)
    ensures Flatten(sections + [x]) == Flatten(sections) + x.items
  {
    assert (sections + [x])[..|sections|] == sections;
  }

  lemma SectionsForSnoc(victims: seq<DataItem>, keys: seq<nat>, k: nat)
    ensures SectionsFor(victims, keys + [k])
      == SectionsFor(victims, keys) + [VictimSection(k, Filter(victims, KeyIs(k)))]
  {
    assert (keys + [k])[..|keys|] == keys;
  }

  /** A heading no item falls under selects nothing. */
  lemma UnusedKeySelectsNothing(victims: seq<DataItem>, k: nat)
    requires !KeyUsed(victims, k)
    ensures Filter(victims, KeyIs(k)) == []
  {
    forall i | 0 <= i < |victims| ensures !KeyIs(k)(victims[i]) {
      assert victims[i] in victims;
    }
    FilterKeepsNone(victims, KeyIs(k));
  }

  /** The blocks for the headings up to `k` read as those up to `k - 1` followed by
      the items headed `k`. */
  lemma FlattenStep(victims: seq<DataItem>, k: nat)
    requires k >= 1
    ensures Flatten(SectionsFor(victims, UsedKeysUpTo(victims, k)))
      == Flatten(SectionsFor(victims, UsedKeysUpTo(victims, k - 1))) + Filter(victims, KeyIs(k))
  {
    var init := UsedKeysUpTo(victims, k - 1);
    if KeyUsed(victims, k) {
      assert UsedKeysUpTo(victims, k) == init + [k];
      SectionsForSnoc(victims, init, k);
      FlattenSnoc(SectionsFor(victims, init), VictimSection(k, Filter(victims, KeyIs(k))));
    } else {
      assert UsedKeysUpTo(victims, k) == init;
      UnusedKeySelectsNothing(victims, k);
    }
  }

  /** No heading is 0: the blocks up to 0 are none, and no item is headed up to 0. */
  lemma SectionsUpToZero(victims: seq<DataItem>)
    ensures multiset(Flatten(SectionsFor(victims, UsedKeysUpTo(victims, 0))))
      == multiset(Filter(victims, KeyAtMost(0)))
  {
    assert UsedKeysUpTo(victims, 0) == [];
    FilterKeepsNone(victims, KeyAtMost(0));
  }

  /** The step of the induction below: the items headed `k` join both sides. */
  lemma SectionsStep(victims: seq<DataItem>, k: nat)
    requires k >= 1
    requires multiset(Flatten(SectionsFor(victims, UsedKeysUpTo(victims, k - 1))))
      == multiset(Filter(victims, KeyAtMost(k - 1)))
    ensures multiset(Flatten(SectionsFor(victims, UsedKeysUpTo(victims, k))))
      == multiset(Filter(victims, KeyAtMost(k)))
  {
    FlattenStep(victims, k);
    KeyAtMostStep(victims, k);
  }

  /** The blocks up to `k` list exactly the items with a heading up to `k`, each once. */
  lemma {:induction false} SectionsListEachItemOnce(victims: seq<DataItem>, k: nat)
    ensures multiset(Flatten(SectionsFor(victims, UsedKeysUpTo(victims, k))))
      == multiset(Filter(victims, KeyAtMost(k)))
    decreases k, 1
  {
    if k == 0 {
      SectionsUpToZero(victims);
    } else {
      SectionsListSucc(victims, k - 1);
    }
  }

  /** The same for `j + 1`, from the case `j`. */
  lemma {:induction false} SectionsListSucc(victims: seq<DataItem>, j: nat)
    ensures multiset(Flatten(SectionsFor(victims, UsedKeysUpTo(victims, j + 1))))
      == multiset(Filter(victims, KeyAtMost(j + 1)))
    decreases j + 1, 0
  {
    SectionsListEachItemOnce(victims, j);
    SectionsStep(victims, j + 1);
  }

  /** The victim part of the report lists every victim item exactly once. */
  lemma VictimSectionsListEachVictimOnce(data: seq<DataItem>)
    ensures multiset(Flatten(VictimSections(data))) == multiset(DataByPillar(data, Victim))
  {
    var victims := DataByPillar(data, Victim);
    SectionsListEachItemOnce(victims, MaxKey(victims));
    FilterKeepsAll(victims, KeyAtMost(MaxKey(victims)));
  }

  /** Every victim item sits in the block headed by its own key. */
  lemma VictimItemInItsSection(data: seq<DataItem>, d: DataItem)
    requires d in data && d.pillar == Victim
    ensures exists i ::
      (0 <= i < |VictimSections(data)| && VictimSections(data)[i].index == VictimKey(d)
       && d in VictimSections(data)[i].items)
  {
    var victims := DataByPillar(data, Victim);
    var t :| 0 <= t < |victims| && victims[t] == d;
    assert VictimKey(victims[t]) <= MaxKey(victims);
    var keys := UsedKeysUpTo(victims, MaxKey(victims));
    assert KeyUsed(victims, VictimKey(d));
    var i :| 0 <= i < |keys| && keys[i] == VictimKey(d);
    assert VictimSections(data)[i] == VictimSection(keys[i], Filter(victims, KeyIs(keys[i])));
  }

  /** The data section of the report in reading order. */
  function ReportedData(data: seq<DataItem>): seq<DataItem> {
    Flatten(VictimSections(data)) + DataByPillar(data, Scene)
      + DataByPillar(data, Reconstruction) + DataByPillar(data, Author)
  }

  /** The four pillars split the data: every item lies in exactly one of them. */
  lemma PillarsPartitionData(data: seq<DataItem>)
    ensures multiset(data) == multiset(DataByPillar(data, Victim)) + multiset(DataByPillar(data, Scene))
      + multiset(DataByPillar(data, Reconstruction)) + multiset(DataByPillar(data, Author))
  {
    FilterCounts(data, OfPillar(Victim));
    FilterCounts(data, OfPillar(Scene));
    FilterCounts(data, OfPillar(Reconstruction));
    FilterCounts(data, OfPillar(Author));
    var b := multiset(DataByPillar(data, Victim)) + multiset(DataByPillar(data, Scene))
      + multiset(DataByPillar(data, Reconstruction)) + multiset(DataByPillar(data, Author));
    forall x ensures multiset(data)[x] == b[x] {
    }
    assert multiset(data) == b;
  }

  /** The data section lists every data item of the case exactly once. */
  lemma ReportListsEveryItemOnce(data: seq<DataItem>)
    ensures multiset(ReportedData(data)) == multiset(data)
  {
    VictimSectionsListEachVictimOnce(data);
    PillarsPartitionData(data);
  }

  /** One "comes from" / "rests on" line: the cited code, and the content of the first
      entry with that code, or nothing for a code that resolves to no entry. */
  datatype SourceLine = SourceLine(code: string, text: string)

  function DataSourceLine(data: seq<DataItem>, x: string): (l: SourceLine)
    ensures l.code == x
    ensures (forall d :: d in data ==> d.code != x) ==> l.text == ""
    ensures forall i ::
      (0 <= i < |data| && data[i].code == x && forall j :: 0 <= j < i ==> data[j].code != x)
      ==> l.text == data[i].content
  {
    match DataItemByCode(data, x)
    case None => SourceLine(x, "")
    case Some(d) => SourceLine(x, d.content)
  }

  /** The lines under an inference, one per cited data code, in citation order. */
  function InferenceSourceLines(data: seq<DataItem>, inf: Inference): (r: seq<SourceLine>)
    ensures |r| == |inf.sourceDataIds|
    ensures forall i :: 0 <= i < |r| ==> r[i] == DataSourceLine(data, inf.sourceDataIds[i])
  {
    seq(|inf.sourceDataIds|, i requires 0 <= i < |inf.sourceDataIds| => DataSourceLine(data, inf.sourceDataIds[i]))
  }

  function InferenceSourceLine(infs: seq<Inference>, x: string): (l: SourceLine)
    ensures l.code == x
    ensures (forall e :: e in infs ==> e.code != x) ==> l.text == ""
    ensures forall i ::
      (0 <= i < |infs| && infs[i].code == x && forall j :: 0 <= j < i ==> infs[j].code != x)
      ==> l.text == infs[i].content
  {
    match InferenceByCode(infs, x)
    case None => SourceLine(x, "")
    case Some(e) => SourceLine(x, e.content)
  }

  /** The lines under a hypothesis, one per cited inference code, in citation order. */
  function HypothesisSourceLines(infs: seq<Inference>, h: Hypothesis): (r: seq<SourceLine>)
    ensures |r| == |h.sourceInferenceIds|
    ensures forall i :: 0 <= i < |r| ==> r[i] == InferenceSourceLine(infs, h.sourceInferenceIds[i])
  {
    seq(|h.sourceInferenceIds|, i requires 0 <= i < |h.sourceInferenceIds| =>
      InferenceSourceLine(infs, h.sourceInferenceIds[i]))
  }

  /** On a well-formed case a data code shows the content of the one item carrying it. */
  lemma DataSourceLineShowsItem(data: seq<DataItem>, d: DataItem)
    requires WellFormed(data) && d in data
    ensures DataSourceLine(data, d.code) == SourceLine(d.code, d.content)
  {
    var i :| 0 <= i < |data| && data[i] == d;
    DataItemByCodeUnique(data, i);
  }

  /** With unique inference codes, a cited code shows the one inference carrying it. */
  lemma InferenceSourceLineShowsInference(infs: seq<Inference>, i: nat)
    requires UniqueInferenceCodes(infs) && i < |infs|
    ensures InferenceSourceLine(infs, infs[i].code) == SourceLine(infs[i].code, infs[i].content)
  {
    InferenceByCodeUnique(infs, i);
  }

  /** The report after a delete still shows, under an inference, the content of every
      surviving item the inference cited. */
  lemma ReportKeepsSourceTextAfterDelete(c: CriminalCase, itemId: string, idx: nat, inf: nat, i: nat)
    requires WellFormed(c.data)
    requires FindIndex(c.data, HasId(itemId)) == Some(idx)
    requires inf < |c.inferences| && i < |c.data| && i != idx
    requires c.data[i].code in c.inferences[inf].sourceDataIds
    ensures var r := DeleteDataItem(c, itemId);
      exists y :: y in r.inferences[inf].sourceDataIds
        && DataSourceLine(r.data, y) == SourceLine(y, c.data[i].content)
  {
    var r := DeleteDataItem(c, itemId);
    DeleteKeepsCitationsResolving(c, itemId, idx, inf, i);
    DeleteKeepsWellFormed(c, itemId);
    var y, d :| y in r.inferences[inf].sourceDataIds && d in r.data && d.code == y
      && d.content == c.data[i].content && GroupOf(d) == GroupOf(c.data[i]);
    DataSourceLineShowsItem(r.data, d);
  }

  /** `handleSuggestionsChange`: the suggestions text is replaced; the lineage (data,
      inferences, hypotheses) is untouched. */
  function SetSuggestions(c: CriminalCase, text: string): (r: CriminalCase)
    ensures r.suggestions == text
    ensures r.data == c.data && r.inferences == c.inferences && r.hypotheses == c.hypotheses
    ensures r.id == c.id && r.title == c.title && r.createdAt == c.createdAt
  {
    c.(suggestions := text)
  }
}
