/** The data-collection handlers: manual entry, the numbering of an extracted batch,
    editing, the choice of a new victim index, and deletion with renumbering of the
    group and repair of the inferences that cite renumbered codes. Each handler is a
    function from the case it was given to the case it hands to `updateCase`. */
module DataCollection {
  import opened Wrappers
  import opened Text
  import opened Seqs
  import opened Types
  import opened Codes
  import opened Sorting

  function InGroupOf(g: Group): DataItem -> bool {
    d => InGroup(d, g)
  }

  function OutsideGroupOf(g: Group): DataItem -> bool {
    d => !InGroup(d, g)
  }

  /** The items of a group, in data order. */
  function Members(data: seq<DataItem>, g: Group): (r: seq<DataItem>)
    ensures forall d :: d in r <==> d in data && InGroup(d, g)
  {
    Filter(data, InGroupOf(g))
  }

  function ItemNumber(d: DataItem): nat {
    SortKey(d.code)
  }

  /** `pillarData`: the items of the card's group, sorted by their number. */
  function PillarData(data: seq<DataItem>, g: Group): (r: seq<DataItem>)
    ensures forall d :: d in r <==> d in data && InGroup(d, g)
    ensures multiset(r) == multiset(Members(data, g))
    ensures SortedBy(r, ItemNumber)
  {
    var m := Members(data, g);
    var r := SortBy(m, ItemNumber);
    assert forall d :: d in r <==> d in multiset(m);
    r
  }

  /** `Math.max` over the numbers that parsed (NaN filtered out), 0 when none did. */
  function MaxParsed(nums: seq<Option<nat>>): (m: nat)
    ensures forall i :: 0 <= i < |nums| && nums[i].Some? ==> nums[i].value <= m
    ensures m == 0 || exists i :: 0 <= i < |nums| && nums[i] == Some(m)
  {
    if |nums| == 0 then 0
    else
      var init := nums[..|nums| - 1];
      assert forall i :: 0 <= i < |init| ==> init[i] == nums[i];
      var acc := MaxParsed(init);
      match nums[|nums| - 1]
      case None => acc
      case Some(n) => if n >= acc then n else acc
  }

  function CodeNumbers(items: seq<DataItem>): (r: seq<Option<nat>>)
    ensures |r| == |items|
    ensures forall i :: 0 <= i < |items| ==> r[i] == NumberForNext(items[i].code)
  {
    seq(|items|, i requires 0 <= i < |items| => NumberForNext(items[i].code))
  }

  /** Every number that parsed is at most the maximum. */
  lemma MaxBoundsItems(items: seq<DataItem>, d: DataItem)
    requires d in items && NumberForNext(d.code).Some?
    ensures NumberForNext(d.code).value <= MaxParsed(CodeNumbers(items))
  {
    var i :| 0 <= i < |items| && items[i] == d;
    assert CodeNumbers(items)[i] == NumberForNext(d.code);
  }

  /** A positive maximum is the number of some item's code. */
  lemma MaxIsSomeItem(items: seq<DataItem>) returns (d: DataItem)
    requires MaxParsed(CodeNumbers(items)) != 0
    ensures d in items && NumberForNext(d.code) == Some(MaxParsed(CodeNumbers(items)))
  {
    var nums := CodeNumbers(items);
    var i :| 0 <= i < |nums| && nums[i] == Some(MaxParsed(nums));
    d := items[i];
  }

  /** `getNextId`: one more than the largest number among the codes of the group that
      have a dash and a numeric tail, or 1 when there is none. */
  function NextNumber(items: seq<DataItem>): (r: nat)
    ensures r >= 1
  {
    MaxParsed(CodeNumbers(items)) + 1
  }

  /** The next number is above every number read from the list, and is either 1 or
      one more than a number read from it. */
  lemma NextNumberBounds(items: seq<DataItem>)
    ensures forall d {:trigger NumberForNext(d.code)} :: d in items && NumberForNext(d.code).Some? ==>
      NumberForNext(d.code).value < NextNumber(items)
    ensures NextNumber(items) == 1 || exists d :: d in items && NumberForNext(d.code) == Some(NextNumber(items) - 1)
  {
    NextNumberAbove(items);
    NextNumberReached(items);
  }

  lemma NextNumberAbove(items: seq<DataItem>)
    ensures forall d {:trigger NumberForNext(d.code)} :: d in items && NumberForNext(d.code).Some? ==>
      NumberForNext(d.code).value < NextNumber(items)
  {
    forall d | d in items && NumberForNext(d.code).Some? {
      MaxBoundsItems(items, d);
    }
  }

  lemma NextNumberReached(items: seq<DataItem>)
    ensures NextNumber(items) == 1 || exists d :: d in items && NumberForNext(d.code) == Some(NextNumber(items) - 1)
  {
    if MaxParsed(CodeNumbers(items)) != 0 {
      var d := MaxIsSomeItem(items);
    }
  }

  /** Two lists holding the same items lead to the same next number. */
  lemma NextNumberOfSameItems(a: seq<DataItem>, b: seq<DataItem>)
    requires forall d :: d in a <==> d in b
    ensures NextNumber(a) == NextNumber(b)
  {
    NextNumberBounds(a);
    NextNumberBounds(b);
  }

  /** `getNextId` is applied to `pillarData`, the group sorted by number; the maximum
      does not depend on the order, so the handlers below apply it to the group in
      data order. */
  lemma NextNumberOfPillarData(data: seq<DataItem>, g: Group)
    ensures NextNumber(PillarData(data, g)) == NextNumber(Members(data, g))
  {
    NextNumberOfSameItems(PillarData(data, g), Members(data, g));
  }

  /** The item a card creates: the code is both id and code, and only a victim card
      sets the victim index. */
  function NewDataItem(g: Group, n: nat, content: string): DataItem {
    var code := FormatDataCode(g, n);
    DataItem(code, g.pillar, code, content, if g.pillar == Victim then g.victimIndex else None)
  }

  lemma NewDataItemGroup(g: Group, n: nat, content: string)
    requires ValidGroup(g)
    ensures GroupOf(NewDataItem(g, n, content)) == g
    ensures NewDataItem(g, n, content).id == NewDataItem(g, n, content).code
    ensures NewDataItem(g, n, content).code == FormatDataCode(g, n)
  {
  }

  lemma NewDataItemFacts(g: Group, n: nat, content: string)
    requires ValidGroup(g)
    ensures GroupOf(NewDataItem(g, n, content)) == g
    ensures InGroup(NewDataItem(g, n, content), g)
    ensures ParseDataCode(NewDataItem(g, n, content).code) == Some(DataCode(g, n))
    ensures NumberForNext(NewDataItem(g, n, content).code) == Some(n)
  {
    FormatParseRoundTrip(g, n);
    NumbersOfFormattedCode(g, n);
  }

  /** The stored form of a manually entered data point, `"<variable>: <value>"`. */
  function ManualContent(variable: string, value: string): string {
    Trim(variable) + ": " + Trim(value)
  }

  /** `handleAddDataManual`: a blank variable or value is rejected; otherwise one item
      is appended, with the trimmed texts joined by a colon. */
  function AddDataManual(c: CriminalCase, g: Group, variable: string, value: string): (r: CriminalCase)
    ensures Trim(variable) == "" || Trim(value) == "" ==> r == c
    ensures r == c.(data := r.data)
    ensures Trim(variable) != "" && Trim(value) != "" ==>
      && |r.data| == |c.data| + 1
      && r.data[..|c.data|] == c.data
      && r.data[|c.data|].id == r.data[|c.data|].code
      && r.data[|c.data|].content == Trim(variable) + ": " + Trim(value)
  {
    if Trim(variable) == "" || Trim(value) == "" then c
    else
      var n := NextNumber(Members(c.data, g));
      c.(data := c.data + [NewDataItem(g, n, ManualContent(variable, value))])
  }

  /** The new item lands in the card's group, numbered by `getNextId`. */
  lemma ManualNumbering(c: CriminalCase, g: Group, variable: string, value: string)
    requires ValidGroup(g) && Trim(variable) != "" && Trim(value) != ""
    ensures var d := AddDataManual(c, g, variable, value).data[|c.data|];
      && GroupOf(d) == g
      && ParseDataCode(d.code) == Some(DataCode(g, NextNumber(Members(c.data, g))))
  {
    var n := NextNumber(Members(c.data, g));
    NewDataItemFacts(g, n, ManualContent(variable, value));
  }

  /** The stored form of an extracted pair (the batch path does not trim). */
  function PairContent(pair: (string, string)): string {
    pair.0 + ": " + pair.1
  }

  /** The items of a batch, numbered consecutively from `first`. */
  function BatchItems(g: Group, first: nat, pairs: seq<(string, string)>): (r: seq<DataItem>)
    ensures |r| == |pairs|
    ensures forall i :: 0 <= i < |pairs| ==> r[i] == NewDataItem(g, first + i, PairContent(pairs[i]))
  {
    seq(|pairs|, i requires 0 <= i < |pairs| => NewDataItem(g, first + i, PairContent(pairs[i])))
  }

  /** The numbering `handleAiBreakdown` applies to the (variable, value) pairs the
      extraction service returned; an empty list changes nothing. */
  function AddDataBatch(c: CriminalCase, g: Group, pairs: seq<(string, string)>): (r: CriminalCase)
    ensures |pairs| == 0 ==> r == c
    ensures r == c.(data := r.data)
    ensures |r.data| == |c.data| + |pairs|
    ensures r.data[..|c.data|] == c.data
    ensures forall i :: 0 <= i < |pairs| ==>
      && r.data[|c.data| + i].id == r.data[|c.data| + i].code
      && r.data[|c.data| + i].content == pairs[i].0 + ": " + pairs[i].1
  {
    if |pairs| == 0 then c
    else
      var base := NextNumber(Members(c.data, g)) - 1;
      c.(data := c.data + BatchItems(g, base + 1, pairs))
  }

  lemma BatchItemFacts(g: Group, first: nat, pairs: seq<(string, string)>, i: nat)
    requires ValidGroup(g) && i < |pairs|
    ensures GroupOf(BatchItems(g, first, pairs)[i]) == g
    ensures ParseDataCode(BatchItems(g, first, pairs)[i].code) == Some(DataCode(g, first + i))
  {
    assert BatchItems(g, first, pairs)[i] == NewDataItem(g, first + i, PairContent(pairs[i]));
    NewDataItemFacts(g, first + i, PairContent(pairs[i]));
  }

  /** The batch continues the group's numbering: the i-th pair gets the number that
      `getNextId` gives before the batch, plus i. */
  lemma BatchNumbering(c: CriminalCase, g: Group, pairs: seq<(string, string)>, i: nat)
    requires ValidGroup(g) && i < |pairs|
    ensures var d := AddDataBatch(c, g, pairs).data[|c.data| + i];
      && GroupOf(d) == g
      && ParseDataCode(d.code) == Some(DataCode(g, NextNumber(Members(c.data, g)) + i))
  {
    var first := NextNumber(Members(c.data, g));
    var items := BatchItems(g, first, pairs);
    assert AddDataBatch(c, g, pairs).data == c.data + items;
    assert (c.data + items)[|c.data| + i] == items[i];
    BatchItemFacts(g, first, pairs, i);
  }

  /** `handleAiBreakdown` as written: the numbering and the list the batch is appended
      to come from `snapshot`, the case the card showed when the button was pressed;
      the result replaces whatever case (`current`) the store holds when the response
      arrives. An empty extraction leaves `current` alone. */
  function AddDataBatchFrom(snapshot: CriminalCase, current: CriminalCase, g: Group,
                            pairs: seq<(string, string)>): (r: CriminalCase)
    ensures |pairs| == 0 ==> r == current
    ensures |pairs| > 0 ==>
      && |r.data| == |snapshot.data| + |pairs|
      && r.data[..|snapshot.data|] == snapshot.data
      && r == snapshot.(data := r.data)
      && forall i :: 0 <= i < |pairs| ==>
        r.data[|snapshot.data| + i] == NewDataItem(g, NextNumber(Members(snapshot.data, g)) + i, PairContent(pairs[i]))
    ensures |pairs| > 0 ==> forall i :: 0 <= i < |pairs| ==>
      && r.data[|snapshot.data| + i].id == r.data[|snapshot.data| + i].code
      && r.data[|snapshot.data| + i].content == pairs[i].0 + ": " + pairs[i].1
  {
    if |pairs| == 0 then current
    else
      var items := BatchItems(g, NextNumber(Members(snapshot.data, g)), pairs);
      assert AddDataBatch(snapshot, g, pairs).data == snapshot.data + items;
      AddDataBatch(snapshot, g, pairs)
  }

  /** With nothing in between, the as-written handler is `AddDataBatch` on the case. */
  lemma BatchFromCurrentCase(c: CriminalCase, g: Group, pairs: seq<(string, string)>)
    ensures AddDataBatchFrom(c, c, g, pairs) == AddDataBatch(c, g, pairs)
  {
  }

  /** A manual item added while the extraction request is pending (the manual form
      stays enabled) is lost: the batch result has one item fewer than the batch
      applied to the current case, and its first item takes the manual item's code. */
  lemma StaleBatchDropsManualItem(c: CriminalCase, g: Group, variable: string, value: string,
                                  pairs: seq<(string, string)>)
    requires Trim(variable) != "" && Trim(value) != "" && |pairs| > 0
    ensures var current := AddDataManual(c, g, variable, value);
      var r := AddDataBatchFrom(c, current, g, pairs);
      && |r.data| == |current.data| + |pairs| - 1
      && |AddDataBatch(current, g, pairs).data| == |current.data| + |pairs|
      && r.data[|c.data|].code == current.data[|c.data|].code
  {
    var n := NextNumber(Members(c.data, g));
    var current := AddDataManual(c, g, variable, value);
    assert current.data[|c.data|] == NewDataItem(g, n, ManualContent(variable, value));
    var items := BatchItems(g, n, pairs);
    assert AddDataBatch(c, g, pairs).data == c.data + items;
    assert (c.data + items)[|c.data|] == items[0];
  }

  /** The fields the edit form is filled with, `handleStartEdit`: the text before the
      first colon, and the rest after it, trimmed. */
  function EditFields(content: string): (r: (string, string))
    ensures ':' !in r.0 && |r.0| <= |content| && r.0 == content[..|r.0|]
    ensures |r.0| < |content| ==> content[|r.0|] == ':' && r.1 == Trim(content[|r.0| + 1..])
    ensures |r.0| == |content| ==> r.1 == ""
  {
    var parts := SplitAtFirst(content, ':');
    (parts.0, Trim(parts.1))
  }

  /** Opening the edit form on a manually entered item shows the variable and value it
      was entered with, provided the variable holds no colon. */
  lemma EditFieldsRoundTrip(variable: string, value: string)
    requires ':' !in Trim(variable)
    ensures EditFields(ManualContent(variable, value)) == (Trim(variable), Trim(value))
  {
    var v, w := Trim(variable), Trim(value);
    var content := ManualContent(variable, value);
    assert content == v + [':'] + (" " + w);
    var r := EditFields(content);
    assert content[..|v|] == v && content[|v|] == ':';
    assert |r.0| == |v|;
    assert content[|v| + 1..] == " " + w;
    TrimOfSpacePrefixed(w);
  }

  /** `handleSaveEdit`: every item with the edited id gets the new content. */
  function SaveEdit(c: CriminalCase, itemId: string, variable: string, value: string): (r: CriminalCase)
    ensures r == c.(data := r.data)
    ensures |r.data| == |c.data|
    ensures forall i :: 0 <= i < |c.data| ==>
      && r.data[i].id == c.data[i].id
      && r.data[i].code == c.data[i].code
      && GroupOf(r.data[i]) == GroupOf(c.data[i])
    ensures forall i :: 0 <= i < |c.data| ==>
      r.data[i].content == if c.data[i].id == itemId then ManualContent(variable, value) else c.data[i].content
  {
    c.(data := seq(|c.data|, i requires 0 <= i < |c.data| =>
      if c.data[i].id == itemId then c.data[i].(content := ManualContent(variable, value)) else c.data[i]))
  }

  function VictimIndices(data: seq<DataItem>): (r: seq<Option<nat>>)
    ensures |r| == |data|
    ensures forall i :: 0 <= i < |data| ==>
      r[i] == if data[i].pillar == Victim then data[i].victimIndex else None
  {
    seq(|data|, i requires 0 <= i < |data| => if data[i].pillar == Victim then data[i].victimIndex else None)
  }

  /** `handleAddVictim`: one more than the largest victim index in use, or 1. */
  function NewVictimIndex(data: seq<DataItem>): (r: nat)
    ensures r >= 1
    ensures forall d :: d in data && d.pillar == Victim && d.victimIndex.Some? ==> d.victimIndex.value < r
    ensures r == 1 || exists d :: d in data && d.pillar == Victim && d.victimIndex == Some(r - 1)
  {
    var nums := VictimIndices(data);
    var m := MaxParsed(nums);
    assert forall d :: d in data && d.pillar == Victim && d.victimIndex.Some? ==> d.victimIndex.value <= m by {
      forall d | d in data && d.pillar == Victim && d.victimIndex.Some? ensures d.victimIndex.value <= m {
        var i :| 0 <= i < |data| && data[i] == d;
        assert nums[i] == d.victimIndex;
      }
    }
    var r := m + 1;
    assert r == 1 || exists d :: d in data && d.pillar == Victim && d.victimIndex == Some(r - 1) by {
      if m != 0 {
        var i :| 0 <= i < |nums| && nums[i] == Some(m);
        var d := data[i];
        assert d in data && d.pillar == Victim && d.victimIndex == Some(r - 1);
      }
    }
    r
  }

  function HasId(itemId: string): DataItem -> bool {
    (d: DataItem) => d.id == itemId
  }

  function NotId(itemId: string): DataItem -> bool {
    (d: DataItem) => d.id != itemId
  }

  function NotCode(code: string): string -> bool {
    x => x != code
  }

  /** The survivors of a delete, sorted by their old number. */
  function SortedSurvivors(data: seq<DataItem>, g: Group, itemId: string): seq<DataItem> {
    SortBy(Filter(Members(data, g), NotId(itemId)), ItemNumber)
  }

  /** Gives the survivors the codes 1..k of their group, keeping everything else. */
  function Renumber(s: seq<DataItem>, g: Group): (r: seq<DataItem>)
    ensures |r| == |s|
  {
    seq(|s|, i requires 0 <= i < |s| => s[i].(id := FormatDataCode(g, i + 1), code := FormatDataCode(g, i + 1)))
  }

  /** `codeChangeMap`: old code to new code, for the survivors whose code changes; the
      entries are written in order, a later one overwriting an earlier one. */
  function RenameMap(s: seq<DataItem>, g: Group): (m: map<string, string>)
    ensures forall x :: x in m ==> m[x] != x
    ensures forall i :: 0 <= i < |s| && s[i].code != FormatDataCode(g, i + 1) ==> s[i].code in m
  {
    if |s| == 0 then map[]
    else
      var init := s[..|s| - 1];
      assert forall i :: 0 <= i < |init| ==> init[i] == s[i];
      var m := RenameMap(init, g);
      var last := s[|s| - 1];
      var newCode := FormatDataCode(g, |s|);
      if last.code != newCode then m[last.code := newCode] else m
  }

  /** `codeChangeMap[id] || id`. */
  function Lookup(m: map<string, string>, x: string): string {
    if x in m then m[x] else x
  }

  /** One inference's sources after a delete: the deleted code is dropped, and each
      remaining entry is looked up once in the rename map. */
  function RepairSources(src: seq<string>, deletedCode: string, m: map<string, string>): (r: seq<string>)
    ensures |r| == |src| - multiset(src)[deletedCode]
    ensures |r| == |Filter(src, NotCode(deletedCode))|
    ensures forall i :: 0 <= i < |r| ==> r[i] == Lookup(m, Filter(src, NotCode(deletedCode))[i])
  {
    var kept := Filter(src, NotCode(deletedCode));
    FilterCounts(src, NotCode(deletedCode));
    assert multiset(kept) == multiset(src)[deletedCode := 0];
    seq(|kept|, i requires 0 <= i < |kept| => Lookup(m, kept[i]))
  }

  function RepairInferences(infs: seq<Inference>, deletedCode: string, m: map<string, string>): (r: seq<Inference>)
    ensures |r| == |infs|
    ensures forall i :: 0 <= i < |infs| ==>
      r[i] == infs[i].(sourceDataIds := RepairSources(infs[i].sourceDataIds, deletedCode, m))
  {
    seq(|infs|, i requires 0 <= i < |infs| =>
      infs[i].(sourceDataIds := RepairSources(infs[i].sourceDataIds, deletedCode, m)))
  }

  /** `confirmDeleteItem` (the confirmation already given). */
  function DeleteDataItem(c: CriminalCase, itemId: string): (r: CriminalCase)
    ensures FindIndex(c.data, HasId(itemId)).None? ==> r == c
    ensures r == c.(data := r.data, inferences := r.inferences)
    ensures |r.inferences| == |c.inferences|
    ensures forall i :: 0 <= i < |c.inferences| ==>
      && r.inferences[i].id == c.inferences[i].id
      && r.inferences[i].code == c.inferences[i].code
      && r.inferences[i].content == c.inferences[i].content
  {
    match FindIndex(c.data, HasId(itemId))
    case None => c
    case Some(idx) =>
      var del := c.data[idx];
      var g := GroupOf(del);
      var others := Filter(c.data, OutsideGroupOf(g));
      var sorted := SortedSurvivors(c.data, g, itemId);
      c.(data := others + Renumber(sorted, g),
         inferences := RepairInferences(c.inferences, del.code, RenameMap(sorted, g)))
  }
}
