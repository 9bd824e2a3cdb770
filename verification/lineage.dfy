/** The invariant the data-collection handlers keep: every item's id is its code, and
    within each group the codes run `1, 2, ..., k` in data order. From it follow the
    uniqueness of codes and the facts about deletion: the survivors are renumbered
    without gaps, and every reference an inference holds to a surviving item is
    re-pointed to that same item's new code. */
module Lineage {
  import opened Wrappers
  import opened Text
  import opened Seqs
  import opened Types
  import opened Codes
  import opened Sorting
  import opened DataCollection

  /** The codes of a group's items are `1..k` of that group, in order. */
  predicate Dense(m: seq<DataItem>, g: Group) {
    forall i :: 0 <= i < |m| ==> m[i].code == FormatDataCode(g, i + 1)
  }

  /** An item as the cards create it: id equal to code, in a group a card can show. */
  predicate ItemWellFormed(d: DataItem) {
    d.id == d.code && ValidGroup(GroupOf(d))
  }

  ghost predicate WellFormed(data: seq<DataItem>) {
    && (forall i :: 0 <= i < |data| ==> ItemWellFormed(data[i]))
    && (forall g :: ValidGroup(g) ==> Dense(Members(data, g), g))
  }

  /** The position of `data[i]` among the members of its group. */
  function Rank(data: seq<DataItem>, i: nat): nat
    requires i < |data|
  {
    |Members(data[..i], GroupOf(data[i]))|
  }

  lemma InOwnGroup(d: DataItem)
    ensures InGroup(d, GroupOf(d))
  {
  }

  /** The member at an item's rank is the item itself. */
  lemma MemberAtRank(data: seq<DataItem>, i: nat)
    requires i < |data|
    ensures Rank(data, i) < |Members(data, GroupOf(data[i]))|
    ensures Members(data, GroupOf(data[i]))[Rank(data, i)] == data[i]
  {
    var g := GroupOf(data[i]);
    var front, back := data[..i], data[i + 1..];
    assert data == front + ([data[i]] + back);
    FilterAppend(front, [data[i]] + back, InGroupOf(g));
    FilterAppend([data[i]], back, InGroupOf(g));
    FilterSingleton(data[i], InGroupOf(g));
  }

  /** A later item of the same group has a strictly larger rank. */
  lemma RankIncreases(data: seq<DataItem>, i: nat, j: nat)
    requires i < j < |data| && GroupOf(data[i]) == GroupOf(data[j])
    ensures Rank(data, i) < Rank(data, j)
  {
    var g := GroupOf(data[i]);
    var a, b := data[..i], data[i + 1..j];
    assert data[..j] == a + ([data[i]] + b);
    FilterAppend(a, [data[i]] + b, InGroupOf(g));
    FilterAppend([data[i]], b, InGroupOf(g));
    FilterSingleton(data[i], InGroupOf(g));
  }

  /** In a well-formed list an item's code is its rank in its group, plus one. */
  lemma CodeIsRank(data: seq<DataItem>, i: nat)
    requires WellFormed(data) && i < |data|
    ensures data[i].code == FormatDataCode(GroupOf(data[i]), Rank(data, i) + 1)
  {
    MemberAtRank(data, i);
    assert ItemWellFormed(data[i]);
    assert Dense(Members(data, GroupOf(data[i])), GroupOf(data[i]));
  }

  /** No two data items of a well-formed case share a code (and so an id). */
  lemma CodesUnique(data: seq<DataItem>)
    requires WellFormed(data)
    ensures forall i, j :: 0 <= i < j < |data| ==> data[i].code != data[j].code
  {
    forall i, j | 0 <= i < j < |data| ensures data[i].code != data[j].code {
      CodeIsRank(data, i);
      CodeIsRank(data, j);
      assert ItemWellFormed(data[i]) && ItemWellFormed(data[j]);
      if data[i].code == data[j].code {
        FormatInjective(GroupOf(data[i]), Rank(data, i) + 1, GroupOf(data[j]), Rank(data, j) + 1);
        RankIncreases(data, i, j);
      }
    }
  }

  lemma NumberOfDenseMember(m: seq<DataItem>, g: Group, q: nat)
    requires Dense(m, g) && q < |m|
    ensures NumberForNext(m[q].code) == Some(q + 1)
    ensures ItemNumber(m[q]) == q + 1
  {
    NumbersOfFormattedCode(g, q + 1);
  }

  /** Numbers that are all at most k, with k among them (or k = 0), have maximum k. */
  lemma MaxOfNumbers(nums: seq<Option<nat>>, k: nat)
    requires forall i :: 0 <= i < |nums| ==> nums[i].Some? && nums[i].value <= k
    requires k == 0 || exists i :: 0 <= i < |nums| && nums[i] == Some(k)
    ensures MaxParsed(nums) == k
  {
    var m := MaxParsed(nums);
    if k != 0 {
      var i :| 0 <= i < |nums| && nums[i] == Some(k);
      assert k <= m;
    }
    if m != 0 {
      var i :| 0 <= i < |nums| && nums[i] == Some(m);
    }
  }

  /** Items numbered 1..k in order lead `getNextId` to k + 1. */
  lemma NextNumberOfNumbered(items: seq<DataItem>, m: seq<DataItem>)
    requires forall q :: 0 <= q < |m| ==> NumberForNext(m[q].code) == Some(q + 1)
    requires forall d :: d in items <==> d in m
    ensures NextNumber(items) == |m| + 1
  {
    var nums := CodeNumbers(items);
    forall i | 0 <= i < |nums| ensures nums[i].Some? && nums[i].value <= |m| {
      assert items[i] in items;
      var q :| 0 <= q < |m| && m[q] == items[i];
    }
    if |m| > 0 {
      assert m[|m| - 1] in items;
      var i :| 0 <= i < |items| && items[i] == m[|m| - 1];
      assert nums[i] == Some(|m|);
    }
    MaxOfNumbers(nums, |m|);
  }

  /** The members of a group that is dense hold the numbers 1..k, so `getNextId` gives k + 1. */
  lemma NextNumberOfDense(items: seq<DataItem>, m: seq<DataItem>, g: Group)
    requires Dense(m, g)
    requires forall d :: d in items <==> d in m
    ensures NextNumber(items) == |m| + 1
  {
    forall q | 0 <= q < |m| ensures NumberForNext(m[q].code) == Some(q + 1) {
      NumberOfDenseMember(m, g, q);
    }
    NextNumberOfNumbered(items, m);
  }

  /** For a well-formed list and a valid group, `getNextId` is one more than the size of the group. */
  lemma NextNumberOfGroup(data: seq<DataItem>, g: Group)
    requires WellFormed(data) && ValidGroup(g)
    ensures NextNumber(Members(data, g)) == |Members(data, g)| + 1
  {
    NextNumberOfDense(Members(data, g), Members(data, g), g);
  }

  /** Items of another group do not enter a group's member list. */
  lemma MembersAppendOutside(data: seq<DataItem>, extra: seq<DataItem>, g: Group)
    requires forall i :: 0 <= i < |extra| ==> !InGroup(extra[i], g)
    ensures Members(data + extra, g) == Members(data, g)
  {
    FilterAppend(data, extra, InGroupOf(g));
    FilterKeepsNone(extra, InGroupOf(g));
  }

  /** Items of the group are appended to its member list. */
  lemma MembersAppendInside(data: seq<DataItem>, extra: seq<DataItem>, g: Group)
    requires forall i :: 0 <= i < |extra| ==> InGroup(extra[i], g)
    ensures Members(data + extra, g) == Members(data, g) + extra
  {
    FilterAppend(data, extra, InGroupOf(g));
    FilterKeepsAll(extra, InGroupOf(g));
  }

  /** Appending items of group `g` numbered `k+1, k+2, ...` keeps a list well formed. */
  lemma AppendContinuingKeepsWellFormed(data: seq<DataItem>, g: Group, extra: seq<DataItem>)
    requires WellFormed(data) && ValidGroup(g)
    requires forall i :: 0 <= i < |extra| ==>
      && ItemWellFormed(extra[i]) && GroupOf(extra[i]) == g
      && extra[i].code == FormatDataCode(g, |Members(data, g)| + i + 1)
    ensures WellFormed(data + extra)
  {
    var r := data + extra;
    forall i | 0 <= i < |r| ensures ItemWellFormed(r[i]) {
      if i >= |data| {
        assert r[i] == extra[i - |data|];
      }
    }
    forall h | ValidGroup(h) ensures Dense(Members(r, h), h) {
      assert Dense(Members(data, h), h);
      if h == g {
        forall i | 0 <= i < |extra| ensures InGroup(extra[i], g) {
          InOwnGroup(extra[i]);
        }
        MembersAppendInside(data, extra, g);
      } else {
        forall i | 0 <= i < |extra| ensures !InGroup(extra[i], h) {
          InGroupIffSameGroup(extra[i], h);
        }
        MembersAppendOutside(data, extra, h);
      }
    }
  }

  lemma AppendOneKeepsWellFormed(data: seq<DataItem>, g: Group, d: DataItem)
    requires WellFormed(data) && ValidGroup(g)
    requires ItemWellFormed(d) && GroupOf(d) == g
    requires d.code == FormatDataCode(g, |Members(data, g)| + 1)
    ensures WellFormed(data + [d])
  {
    AppendContinuingKeepsWellFormed(data, g, [d]);
  }

  /** `handleAddDataManual` keeps the list well formed, and the new item is number
      k + 1 of its group. */
  lemma AddManualKeepsWellFormed(c: CriminalCase, g: Group, variable: string, value: string)
    requires WellFormed(c.data) && ValidGroup(g)
    ensures WellFormed(AddDataManual(c, g, variable, value).data)
    ensures Trim(variable) != "" && Trim(value) != "" ==>
      AddDataManual(c, g, variable, value).data
        == c.data + [NewDataItem(g, |Members(c.data, g)| + 1, ManualContent(variable, value))]
  {
    if Trim(variable) != "" && Trim(value) != "" {
      NextNumberOfGroup(c.data, g);
      var n := |Members(c.data, g)| + 1;
      var d := NewDataItem(g, n, ManualContent(variable, value));
      NewDataItemFacts(g, n, ManualContent(variable, value));
      AppendOneKeepsWellFormed(c.data, g, d);
    }
  }

  /** Once `getNextId` gives k + 1, the batch's items are numbers k + 1, ..., k + n. */
  lemma BatchShapeFrom(c: CriminalCase, g: Group, pairs: seq<(string, string)>, k: nat)
    requires NextNumber(Members(c.data, g)) == k + 1
    ensures AddDataBatch(c, g, pairs).data == c.data + BatchItems(g, k + 1, pairs)
  {
    if |pairs| == 0 {
      assert c.data + BatchItems(g, k + 1, pairs) == c.data;
    }
  }

  /** On a well-formed list the batch's items are numbers k + 1, ..., k + n of the group. */
  lemma AddBatchShape(c: CriminalCase, g: Group, pairs: seq<(string, string)>)
    requires WellFormed(c.data) && ValidGroup(g)
    ensures AddDataBatch(c, g, pairs).data == c.data + BatchItems(g, |Members(c.data, g)| + 1, pairs)
  {
    NextNumberOfGroup(c.data, g);
    BatchShapeFrom(c, g, pairs, |Members(c.data, g)|);
  }

  /** The items of a batch numbered from k + 1 are well formed, in the group, and
      carry the codes k + 1, k + 2, ... */
  lemma BatchItemsContinue(g: Group, k: nat, pairs: seq<(string, string)>)
    requires ValidGroup(g)
    ensures var items := BatchItems(g, k + 1, pairs);
      forall i :: 0 <= i < |items| ==>
        && ItemWellFormed(items[i]) && GroupOf(items[i]) == g
        && items[i].code == FormatDataCode(g, k + i + 1)
  {
    var items := BatchItems(g, k + 1, pairs);
    forall i | 0 <= i < |items|
      ensures ItemWellFormed(items[i]) && GroupOf(items[i]) == g
      ensures items[i].code == FormatDataCode(g, k + i + 1)
    {
      assert items[i] == NewDataItem(g, k + 1 + i, PairContent(pairs[i]));
      NewDataItemGroup(g, k + 1 + i, PairContent(pairs[i]));
    }
  }

  /** The numbered batch keeps the list well formed; its items are numbers
      k + 1, ..., k + n of the group. */
  lemma AddBatchKeepsWellFormed(c: CriminalCase, g: Group, pairs: seq<(string, string)>)
    requires WellFormed(c.data) && ValidGroup(g)
    ensures AddDataBatch(c, g, pairs).data == c.data + BatchItems(g, |Members(c.data, g)| + 1, pairs)
    ensures WellFormed(AddDataBatch(c, g, pairs).data)
  {
    AddBatchShape(c, g, pairs);
    AppendBatchKeepsWellFormed(c.data, g, pairs);
  }

  lemma AppendBatchKeepsWellFormed(data: seq<DataItem>, g: Group, pairs: seq<(string, string)>)
    requires WellFormed(data) && ValidGroup(g)
    ensures WellFormed(data + BatchItems(g, |Members(data, g)| + 1, pairs))
  {
    BatchItemsContinue(g, |Members(data, g)|, pairs);
    AppendContinuingKeepsWellFormed(data, g, BatchItems(g, |Members(data, g)| + 1, pairs));
  }

  /** `step` applied to each pair in turn, the first pair first. */
  function FoldPairs(c: CriminalCase, pairs: seq<(string, string)>,
                     step: (CriminalCase, (string, string)) -> CriminalCase): CriminalCase
  {
    if |pairs| == 0 then c
    else step(FoldPairs(c, pairs[..|pairs| - 1], step), pairs[|pairs| - 1])
  }

  /** One press of the manual "add" button with the pair typed into the card. */
  function ManualStep(g: Group): (CriminalCase, (string, string)) -> CriminalCase {
    (c: CriminalCase, pair: (string, string)) => AddDataManual(c, g, pair.0, pair.1)
  }

  /** Manual entry applied to each pair in turn. */
  function AddManualAll(c: CriminalCase, g: Group, pairs: seq<(string, string)>): CriminalCase {
    FoldPairs(c, pairs, ManualStep(g))
  }

  lemma BatchItemsSnoc(g: Group, first: nat, pairs: seq<(string, string)>)
    requires |pairs| > 0
    ensures BatchItems(g, first, pairs)
      == BatchItems(g, first, pairs[..|pairs| - 1])
         + [NewDataItem(g, first + |pairs| - 1, PairContent(pairs[|pairs| - 1]))]
  {
    var n := |pairs| - 1;
    var a := BatchItems(g, first, pairs);
    var b := BatchItems(g, first, pairs[..n]) + [NewDataItem(g, first + n, PairContent(pairs[n]))];
    forall i | 0 <= i < |pairs| ensures a[i] == b[i] {
      if i < n {
        assert pairs[..n][i] == pairs[i];
      }
    }
  }

  /** After a batch of n pairs the group holds k + n members. */
  lemma MembersAfterBatch(c: CriminalCase, g: Group, pairs: seq<(string, string)>)
    requires WellFormed(c.data) && ValidGroup(g)
    ensures |Members(AddDataBatch(c, g, pairs).data, g)| == |Members(c.data, g)| + |pairs|
  {
    var k := |Members(c.data, g)|;
    AddBatchKeepsWellFormed(c, g, pairs);
    var items := BatchItems(g, k + 1, pairs);
    forall i | 0 <= i < |items| ensures InGroup(items[i], g) {
      NewDataItemFacts(g, k + 1 + i, PairContent(pairs[i]));
    }
    MembersAppendInside(c.data, items, g);
  }

  /** Manual entry of an already trimmed, non-empty pair stores it as the batch would. */
  lemma ManualOfTrimmed(c: CriminalCase, g: Group, pair: (string, string), n: nat)
    requires TrimmedPair(pair)
    requires NextNumber(Members(c.data, g)) == n
    ensures AddDataManual(c, g, pair.0, pair.1).data == c.data + [NewDataItem(g, n, PairContent(pair))]
  {
    assert Trim(pair.0) == pair.0 && Trim(pair.1) == pair.1;
    assert ManualContent(pair.0, pair.1) == PairContent(pair);
  }

  /** A trimmed, non-empty pair entered by hand after a batch gets the next number. */
  lemma ManualAfterBatch(c: CriminalCase, g: Group, init: seq<(string, string)>, last: (string, string), num: nat)
    requires WellFormed(c.data) && ValidGroup(g)
    requires TrimmedPair(last)
    requires num == |Members(c.data, g)| + |init| + 1
    ensures AddDataManual(AddDataBatch(c, g, init), g, last.0, last.1).data
      == AddDataBatch(c, g, init).data + [NewDataItem(g, num, PairContent(last))]
  {
    var mid := AddDataBatch(c, g, init);
    AddBatchKeepsWellFormed(c, g, init);
    MembersAfterBatch(c, g, init);
    NextNumberOfGroup(mid.data, g);
    ManualOfTrimmed(mid, g, last, num);
  }

  /** On a well-formed list, `getNextId` after the items of a batch gives k + n + 1. */
  lemma NextNumberAfterBatchItems(data: seq<DataItem>, g: Group, pairs: seq<(string, string)>)
    requires WellFormed(data) && ValidGroup(g)
    ensures NextNumber(Members(data + BatchItems(g, |Members(data, g)| + 1, pairs), g))
      == |Members(data, g)| + |pairs| + 1
  {
    var items := BatchItems(g, |Members(data, g)| + 1, pairs);
    AppendBatchKeepsWellFormed(data, g, pairs);
    BatchItemsContinue(g, |Members(data, g)|, pairs);
    forall i | 0 <= i < |items| ensures InGroup(items[i], g) {
      InOwnGroup(items[i]);
    }
    MembersAppendInside(data, items, g);
    NextNumberOfGroup(data + items, g);
  }

  lemma AppendBatchSnoc(a: seq<DataItem>, g: Group, first: nat, pairs: seq<(string, string)>)
    requires |pairs| > 0
    ensures a + BatchItems(g, first, pairs)
      == a + BatchItems(g, first, pairs[..|pairs| - 1])
         + [NewDataItem(g, first + |pairs| - 1, PairContent(pairs[|pairs| - 1]))]
  {
    BatchItemsSnoc(g, first, pairs);
    AppendSnoc(a, BatchItems(g, first, pairs[..|pairs| - 1]),
      NewDataItem(g, first + |pairs| - 1, PairContent(pairs[|pairs| - 1])));
  }

  /** The last pair entered by hand is appended with the number `getNextId` gives. */
  lemma ManualAllSnoc(c: CriminalCase, g: Group, pairs: seq<(string, string)>, n: nat)
    requires |pairs| > 0 && TrimmedPair(pairs[|pairs| - 1])
    requires NextNumber(Members(AddManualAll(c, g, pairs[..|pairs| - 1]).data, g)) == n
    ensures var mid := AddManualAll(c, g, pairs[..|pairs| - 1]);
      AddManualAll(c, g, pairs) == mid.(data := mid.data + [NewDataItem(g, n, PairContent(pairs[|pairs| - 1]))])
  {
    var mid := AddManualAll(c, g, pairs[..|pairs| - 1]);
    var last := pairs[|pairs| - 1];
    assert AddManualAll(c, g, pairs) == AddDataManual(mid, g, last.0, last.1);
    ManualOfTrimmed(mid, g, last, n);
  }

  /** A pair as the extraction service is asked to return it: both parts non-empty
      and free of surrounding whitespace. */
  predicate TrimmedPair(pair: (string, string)) {
    IsTrimmed(pair.0) && IsTrimmed(pair.1) && pair.0 != "" && pair.1 != ""
  }

  predicate AllTrimmedPairs(pairs: seq<(string, string)>) {
    forall i :: 0 <= i < |pairs| ==> TrimmedPair(pairs[i])
  }

  lemma TrimmedPairsPrefix(pairs: seq<(string, string)>)
    requires |pairs| > 0 && AllTrimmedPairs(pairs)
    ensures AllTrimmedPairs(pairs[..|pairs| - 1])
    ensures TrimmedPair(pairs[|pairs| - 1])
  {
    var init := pairs[..|pairs| - 1];
    assert forall i :: 0 <= i < |init| ==> init[i] == pairs[i];
  }

  /** Entering trimmed, non-empty pairs by hand one after the other appends the items
      a batch of those pairs would. */
  lemma {:induction false} ManualAllShape(c: CriminalCase, g: Group, pairs: seq<(string, string)>)
    requires WellFormed(c.data) && ValidGroup(g) && AllTrimmedPairs(pairs)
    ensures AddManualAll(c, g, pairs) == c.(data := c.data + BatchItems(g, |Members(c.data, g)| + 1, pairs))
  {
    var k := |Members(c.data, g)|;
    if |pairs| == 0 {
      assert c.data + BatchItems(g, k + 1, pairs) == c.data;
    } else {
      TrimmedPairsPrefix(pairs);
      ManualAllShape(c, g, pairs[..|pairs| - 1]);
      NextNumberAfterBatchItems(c.data, g, pairs[..|pairs| - 1]);
      ManualShapeStep(c, g, pairs, k);
    }
  }

  /** One more trimmed pair entered by hand after the items of a batch extends the batch. */
  lemma ManualShapeStep(c: CriminalCase, g: Group, pairs: seq<(string, string)>, k: nat)
    requires |pairs| > 0 && TrimmedPair(pairs[|pairs| - 1])
    requires AddManualAll(c, g, pairs[..|pairs| - 1]) == c.(data := c.data + BatchItems(g, k + 1, pairs[..|pairs| - 1]))
    requires NextNumber(Members(c.data + BatchItems(g, k + 1, pairs[..|pairs| - 1]), g)) == k + |pairs|
    ensures AddManualAll(c, g, pairs) == c.(data := c.data + BatchItems(g, k + 1, pairs))
  {
    var init := pairs[..|pairs| - 1];
    var item := NewDataItem(g, k + |pairs|, PairContent(pairs[|pairs| - 1]));
    ManualAllSnoc(c, g, pairs, k + |pairs|);
    AppendBatchSnoc(c.data, g, k + 1, pairs);
    AppendedToCase(AddManualAll(c, g, pairs), AddManualAll(c, g, init), c,
      BatchItems(g, k + 1, init), BatchItems(g, k + 1, pairs), item);
  }

  /** A case whose items are those of `c` followed by `front` and then `item`. */
  lemma AppendedToCase(r: CriminalCase, mid: CriminalCase, c: CriminalCase,
                       front: seq<DataItem>, all: seq<DataItem>, item: DataItem)
    requires r == mid.(data := mid.data + [item])
    requires mid == c.(data := c.data + front)
    requires c.data + all == c.data + front + [item]
    ensures r == c.(data := c.data + all)
  {
  }

  /** On a well-formed case, numbering a batch of trimmed, non-empty pairs is the same
      as entering the pairs by hand one after the other. */
  lemma BatchIsSequentialManualAdds(c: CriminalCase, g: Group, pairs: seq<(string, string)>)
    requires WellFormed(c.data) && ValidGroup(g)
    requires forall i :: 0 <= i < |pairs| ==> TrimmedPair(pairs[i])
    ensures AddDataBatch(c, g, pairs) == AddManualAll(c, g, pairs)
  {
    ManualAllShape(c, g, pairs);
    AddBatchShape(c, g, pairs);
  }

  /** Two lists that agree on every item's code and group have member lists that agree
      the same way. */
  lemma {:induction false} MembersOfRelabelled(a: seq<DataItem>, b: seq<DataItem>, g: Group)
    requires |a| == |b|
    requires forall i :: 0 <= i < |a| ==> a[i].code == b[i].code && GroupOf(a[i]) == GroupOf(b[i])
    ensures |Members(a, g)| == |Members(b, g)|
    ensures forall q :: 0 <= q < |Members(a, g)| ==>
      Members(a, g)[q].code == Members(b, g)[q].code && GroupOf(Members(a, g)[q]) == GroupOf(Members(b, g)[q])
  {
    if |a| > 0 {
      MembersOfRelabelled(a[1..], b[1..], g);
      assert InGroup(a[0], g) == InGroup(b[0], g);
      assert Members(a, g) == (if InGroup(a[0], g) then [a[0]] else []) + Members(a[1..], g);
      assert Members(b, g) == (if InGroup(b[0], g) then [b[0]] else []) + Members(b[1..], g);
    }
  }

  /** `handleSaveEdit` touches contents only, so it keeps the list well formed. */
  lemma SaveEditKeepsWellFormed(c: CriminalCase, itemId: string, variable: string, value: string)
    requires WellFormed(c.data)
    ensures WellFormed(SaveEdit(c, itemId, variable, value).data)
  {
    var r := SaveEdit(c, itemId, variable, value).data;
    forall i | 0 <= i < |r| ensures ItemWellFormed(r[i]) {
      assert ItemWellFormed(c.data[i]);
    }
    forall h | ValidGroup(h) ensures Dense(Members(r, h), h) {
      MembersOfRelabelled(c.data, r, h);
      assert Dense(Members(c.data, h), h);
    }
  }

  /** Saving an edit form unchanged, on a manually entered item, leaves the case as it
      was: the edit form shows the entered variable and value, and saving recomposes
      the same content for the one item with that id. */
  lemma SaveUnchangedEditIsIdentity(c: CriminalCase, i: nat, variable: string, value: string)
    requires WellFormed(c.data)
    requires i < |c.data| && c.data[i].content == ManualContent(variable, value)
    requires ':' !in Trim(variable)
    ensures var fields := EditFields(c.data[i].content);
      SaveEdit(c, c.data[i].id, fields.0, fields.1) == c
  {
    EditFieldsRoundTrip(variable, value);
    ManualContentOfTrimmed(variable, value);
    IdsUnique(c.data);
    SaveSameContent(c, i, Trim(variable), Trim(value));
  }

  /** Re-entering the texts the form shows composes the same content. */
  lemma ManualContentOfTrimmed(variable: string, value: string)
    ensures ManualContent(Trim(variable), Trim(value)) == ManualContent(variable, value)
  {
  }

  /** On a well-formed list no two items share an id. */
  lemma IdsUnique(data: seq<DataItem>)
    requires WellFormed(data)
    ensures forall i, j :: 0 <= i < |data| && 0 <= j < |data| && i != j ==> data[i].id != data[j].id
  {
    CodesUnique(data);
    forall i, j | 0 <= i < |data| && 0 <= j < |data| && i != j ensures data[i].id != data[j].id {
      assert ItemWellFormed(data[i]) && ItemWellFormed(data[j]);
    }
  }

  /** Saving the content an item already has, under an id no other item shares,
      changes nothing. */
  lemma SaveSameContent(c: CriminalCase, i: nat, v: string, w: string)
    requires forall a, b :: 0 <= a < |c.data| && 0 <= b < |c.data| && a != b ==> c.data[a].id != c.data[b].id
    requires i < |c.data| && c.data[i].content == ManualContent(v, w)
    ensures SaveEdit(c, c.data[i].id, v, w) == c
  {
    var r := SaveEdit(c, c.data[i].id, v, w);
    forall j | 0 <= j < |c.data| ensures r.data[j] == c.data[j] {
      if j != i {
        assert c.data[j].id != c.data[i].id;
      }
    }
    assert r.data == c.data;
  }

  /** A victim added with `handleAddVictim` starts an empty group, so its first item
      is numbered 1. */
  lemma NewVictimStartsAtOne(c: CriminalCase, variable: string, value: string)
    requires Trim(variable) != "" && Trim(value) != ""
    ensures var g := Group(Victim, Some(NewVictimIndex(c.data)));
      && ValidGroup(g)
      && Members(c.data, g) == []
      && AddDataManual(c, g, variable, value).data[|c.data|].code == FormatDataCode(g, 1)
  {
    var g := Group(Victim, Some(NewVictimIndex(c.data)));
    NewVictimGroupEmpty(c.data);
    ManualNumbering(c, g, variable, value);
    assert NextNumber([]) == 1;
  }

  /** No listed item belongs to the victim index `handleAddVictim` hands out. */
  lemma NewVictimGroupEmpty(data: seq<DataItem>)
    ensures Members(data, Group(Victim, Some(NewVictimIndex(data)))) == []
  {
    var g := Group(Victim, Some(NewVictimIndex(data)));
    forall i | 0 <= i < |data| ensures !InGroupOf(g)(data[i]) {
      assert data[i] in data;
    }
    FilterKeepsNone(data, InGroupOf(g));
  }
}
