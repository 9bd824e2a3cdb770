/** What `confirmDeleteItem` does to a well-formed case. The deleted item is number
    `j` of its group, of `k` members. Its group is renumbered `1..k-1` with the order
    kept. Every inference loses its references to the deleted code. Every other
    reference to the group is moved down by one, once, when its number is above `j`.
    As a result, each surviving item keeps its content and each surviving reference
    still names the item it named before. */
module Deletion {
  import opened Wrappers
  import opened Text
  import opened Seqs
  import opened Types
  import opened Codes
  import opened Sorting
  import opened DataCollection
  import opened Lineage

  /** Where a reference to a data code points after item `j` of group `g` (of `k`) is
      deleted: a well-formed code of the group numbered in `j+1..k` moves down by one;
      any other text is left alone. */
  function Repoint(g: Group, j: nat, k: nat, x: string): string {
    match ParseDataCode(x)
    case Some(dc) =>
      if dc.group == g && j < dc.number <= k && x == FormatDataCode(g, dc.number)
      then FormatDataCode(g, dc.number - 1)
      else x
    case None => x
  }

  function RepointAll(g: Group, j: nat, k: nat, xs: seq<string>): (r: seq<string>)
    ensures |r| == |xs|
    ensures forall i :: 0 <= i < |xs| ==> r[i] == Repoint(g, j, k, xs[i])
  {
    seq(|xs|, i requires 0 <= i < |xs| => Repoint(g, j, k, xs[i]))
  }

  lemma RepointOwn(g: Group, j: nat, k: nat, n: nat)
    requires ValidGroup(g)
    ensures Repoint(g, j, k, FormatDataCode(g, n))
      == if j < n <= k then FormatDataCode(g, n - 1) else FormatDataCode(g, n)
  {
    FormatParseRoundTrip(g, n);
  }

  lemma RepointOtherGroup(g: Group, j: nat, k: nat, h: Group, n: nat)
    requires ValidGroup(h) && h != g
    ensures Repoint(g, j, k, FormatDataCode(h, n)) == FormatDataCode(h, n)
  {
    FormatParseRoundTrip(h, n);
  }

  /** `s` without its element at `p`. */
  function Cut<T>(s: seq<T>, p: nat): (r: seq<T>)
    requires p < |s|
    ensures |r| == |s| - 1
    ensures forall i :: 0 <= i < |r| ==> r[i] == if i < p then s[i] else s[i + 1]
  {
    s[..p] + s[p + 1..]
  }

  /** The members of a valid group of a well-formed list are well-formed items of
      that group numbered `1..k`. */
  lemma MembersFacts(data: seq<DataItem>, g: Group)
    requires WellFormed(data) && ValidGroup(g)
    ensures Dense(Members(data, g), g)
    ensures forall q :: 0 <= q < |Members(data, g)| ==>
      ItemWellFormed(Members(data, g)[q]) && GroupOf(Members(data, g)[q]) == g
  {
    var m := Members(data, g);
    forall q | 0 <= q < |m| ensures ItemWellFormed(m[q]) && GroupOf(m[q]) == g {
      assert m[q] in data;
      var i :| 0 <= i < |data| && data[i] == m[q];
      assert ItemWellFormed(data[i]);
      InGroupIffSameGroup(m[q], g);
    }
  }

  /** The facts about the item `confirmDeleteItem` finds. */
  lemma DeletedItemFacts(data: seq<DataItem>, itemId: string, idx: nat)
    requires WellFormed(data)
    requires FindIndex(data, HasId(itemId)) == Some(idx)
    ensures idx < |data| && data[idx].id == itemId
    ensures ValidGroup(GroupOf(data[idx]))
    ensures Rank(data, idx) < |Members(data, GroupOf(data[idx]))|
    ensures Members(data, GroupOf(data[idx]))[Rank(data, idx)] == data[idx]
    ensures data[idx].code == FormatDataCode(GroupOf(data[idx]), Rank(data, idx) + 1)
  {
    assert HasId(itemId)(data[idx]);
    assert ItemWellFormed(data[idx]);
    MemberAtRank(data, idx);
    CodeIsRank(data, idx);
  }

  /** Only the deleted item leaves its group: ids are codes, and codes are unique. */
  lemma SurvivorsAreCut(data: seq<DataItem>, itemId: string, idx: nat)
    requires WellFormed(data)
    requires FindIndex(data, HasId(itemId)) == Some(idx)
    ensures Rank(data, idx) < |Members(data, GroupOf(data[idx]))|
    ensures var g := GroupOf(data[idx]);
      Filter(Members(data, g), NotId(itemId)) == Cut(Members(data, g), Rank(data, idx))
  {
    DeletedItemFacts(data, itemId, idx);
    var g := GroupOf(data[idx]);
    MembersFacts(data, g);
    DenseFilterIsCut(Members(data, g), g, itemId, Rank(data, idx));
  }

  /** In a dense group whose ids are codes, only the member at `p` has that member's id. */
  lemma DenseFilterIsCut(m: seq<DataItem>, g: Group, itemId: string, p: nat)
    requires ValidGroup(g) && Dense(m, g) && p < |m| && m[p].id == itemId
    requires forall q :: 0 <= q < |m| ==> m[q].id == m[q].code
    ensures Filter(m, NotId(itemId)) == Cut(m, p)
  {
    forall q | 0 <= q < |m| && q != p ensures NotId(itemId)(m[q]) {
      if m[q].id == itemId {
        FormatInjective(g, q + 1, g, p + 1);
      }
    }
    FilterRemovesOne(m, NotId(itemId), p);
  }

  /** The survivors are already in number order, so the sort leaves them as they are. */
  lemma SortedSurvivorsAreCut(data: seq<DataItem>, itemId: string, idx: nat)
    requires WellFormed(data)
    requires FindIndex(data, HasId(itemId)) == Some(idx)
    ensures Rank(data, idx) < |Members(data, GroupOf(data[idx]))|
    ensures var g := GroupOf(data[idx]);
      SortedSurvivors(data, g, itemId) == Cut(Members(data, g), Rank(data, idx))
  {
    DeletedItemFacts(data, itemId, idx);
    SurvivorsAreCut(data, itemId, idx);
    var g := GroupOf(data[idx]);
    MembersFacts(data, g);
    var s := Cut(Members(data, g), Rank(data, idx));
    CutOfDenseIsSorted(Members(data, g), g, Rank(data, idx));
    SortOfSortedIsIdentity(s, ItemNumber);
  }

  /** Cutting one element out of a sequence numbered `1, 2, ...` by `key` leaves it
      sorted by `key`. */
  lemma CutOfNumberedIsSorted<T>(m: seq<T>, key: T -> nat, p: nat)
    requires p < |m|
    requires forall q :: 0 <= q < |m| ==> key(m[q]) == q + 1
    ensures SortedBy(Cut(m, p), key)
  {
    var s := Cut(m, p);
    forall i, j | 0 <= i < j < |s| ensures key(s[i]) <= key(s[j]) {
      var qi := if i < p then i else i + 1;
      var qj := if j < p then j else j + 1;
      assert s[i] == m[qi] && s[j] == m[qj];
    }
  }

  lemma CutOfDenseIsSorted(m: seq<DataItem>, g: Group, p: nat)
    requires Dense(m, g) && p < |m|
    ensures SortedBy(Cut(m, p), ItemNumber)
  {
    forall q | 0 <= q < |m| ensures ItemNumber(m[q]) == q + 1 {
      NumberOfDenseMember(m, g, q);
    }
    CutOfNumberedIsSorted(m, ItemNumber, p);
  }

  /** One step of `codeChangeMap`'s construction: the entry for the survivor at
      position `m` moves code `m + 2` down to `m + 1` when it lies past the deleted one. */
  lemma {:induction false} RenameLookup(ms: seq<DataItem>, g: Group, p: nat, m: nat, x: string)
    requires ValidGroup(g) && Dense(ms, g) && p < |ms| && m < |ms|
    ensures Lookup(RenameMap(Cut(ms, p)[..m], g), x) == Repoint(g, p + 1, m + 1, x)
  {
    var s := Cut(ms, p);
    if m == 0 {
      assert s[..0] == [];
    } else {
      RenameLookup(ms, g, p, m - 1, x);
      RenameMapSnoc(s, g, m);
      if m - 1 < p {
        assert s[m - 1] == ms[m - 1];
        RenameStepOutside(g, p + 1, m, x);
      } else {
        assert s[m - 1] == ms[m];
        if FormatDataCode(g, m + 1) == FormatDataCode(g, m) {
          FormatInjective(g, m + 1, g, m);
        }
        LookupAfterRename(RenameMap(s[..m - 1], g), g, p + 1, m, x);
      }
    }
  }

  /** `codeChangeMap` after one more survivor: its entry is added when its code changes. */
  lemma RenameMapSnoc(s: seq<DataItem>, g: Group, m: nat)
    requires 0 < m <= |s|
    ensures RenameMap(s[..m], g)
      == if s[m - 1].code != FormatDataCode(g, m)
         then RenameMap(s[..m - 1], g)[s[m - 1].code := FormatDataCode(g, m)]
         else RenameMap(s[..m - 1], g)
  {
    assert s[..m][..m - 1] == s[..m - 1];
    assert s[..m][m - 1] == s[m - 1];
  }

  /** Adding the entry that moves number `m + 1` down to `m` widens the repointed range by one. */
  lemma LookupAfterRename(before: map<string, string>, g: Group, j: nat, m: nat, x: string)
    requires ValidGroup(g) && j <= m
    requires Lookup(before, x) == Repoint(g, j, m, x)
    ensures Lookup(before[FormatDataCode(g, m + 1) := FormatDataCode(g, m)], x) == Repoint(g, j, m + 1, x)
  {
    if x == FormatDataCode(g, m + 1) {
      RepointOwn(g, j, m + 1, m + 1);
    } else {
      RenameStepOther(g, j, m, x);
    }
  }

  /** Widening the range past `j` adds nothing when the new top is not above `j`. */
  lemma RenameStepOutside(g: Group, j: nat, m: nat, x: string)
    requires m < j
    ensures Repoint(g, j, m, x) == Repoint(g, j, m + 1, x)
  {
  }

  /** Widening the range by one changes only the code with the new top number. */
  lemma RenameStepOther(g: Group, j: nat, m: nat, x: string)
    requires ValidGroup(g) && x != FormatDataCode(g, m + 1)
    ensures Repoint(g, j, m, x) == Repoint(g, j, m + 1, x)
  {
  }

  /** The shape of the result of a delete on a well-formed case: the other groups'
      items in their order, then the survivors of the group renumbered from 1. */
  lemma DeleteShape(c: CriminalCase, itemId: string, idx: nat)
    requires WellFormed(c.data)
    requires FindIndex(c.data, HasId(itemId)) == Some(idx)
    ensures Rank(c.data, idx) < |Members(c.data, GroupOf(c.data[idx]))|
    ensures var g := GroupOf(c.data[idx]);
      DeleteDataItem(c, itemId).data
        == Filter(c.data, OutsideGroupOf(g)) + Renumber(Cut(Members(c.data, g), Rank(c.data, idx)), g)
    ensures var g := GroupOf(c.data[idx]);
      DeleteDataItem(c, itemId).inferences
        == RepairInferences(c.inferences, c.data[idx].code, RenameMap(Cut(Members(c.data, g), Rank(c.data, idx)), g))
  {
    SortedSurvivorsAreCut(c.data, itemId, idx);
  }

  /** The rename map built from the survivors sends each text where `Repoint` does. */
  lemma RenameMapIsRepoint(ms: seq<DataItem>, g: Group, p: nat, x: string)
    requires ValidGroup(g) && Dense(ms, g) && p < |ms|
    ensures Lookup(RenameMap(Cut(ms, p), g), x) == Repoint(g, p + 1, |ms|, x)
  {
    assert Cut(ms, p)[..|ms| - 1] == Cut(ms, p);
    RenameLookup(ms, g, p, |ms| - 1, x);
  }

  lemma RepairSourcesIsRepointAll(src: seq<string>, code: string, ms: seq<DataItem>, g: Group, p: nat)
    requires ValidGroup(g) && Dense(ms, g) && p < |ms|
    ensures RepairSources(src, code, RenameMap(Cut(ms, p), g))
      == RepointAll(g, p + 1, |ms|, Filter(src, NotCode(code)))
  {
    var kept := Filter(src, NotCode(code));
    forall i | 0 <= i < |kept|
      ensures RepairSources(src, code, RenameMap(Cut(ms, p), g))[i] == RepointAll(g, p + 1, |ms|, kept)[i]
    {
      RenameMapIsRepoint(ms, g, p, kept[i]);
    }
  }

  /** On a well-formed case, a delete drops every reference to the deleted code and
      re-points each other reference once: codes of the deleted item's group numbered
      above it move down by one, and nothing else changes. */
  lemma DeleteRepairsReferences(c: CriminalCase, itemId: string, idx: nat)
    requires WellFormed(c.data)
    requires FindIndex(c.data, HasId(itemId)) == Some(idx)
    ensures var del := c.data[idx];
      var g := GroupOf(del);
      var r := DeleteDataItem(c, itemId);
      forall i :: 0 <= i < |c.inferences| ==>
        r.inferences[i].sourceDataIds
          == RepointAll(g, Rank(c.data, idx) + 1, |Members(c.data, g)|,
                        Filter(c.inferences[i].sourceDataIds, NotCode(del.code)))
  {
    var del := c.data[idx];
    var g := GroupOf(del);
    var ms := Members(c.data, g);
    var p := Rank(c.data, idx);
    DeletedItemFacts(c.data, itemId, idx);
    MembersFacts(c.data, g);
    DeleteShape(c, itemId, idx);
    var r := DeleteDataItem(c, itemId);
    forall i | 0 <= i < |c.inferences|
      ensures r.inferences[i].sourceDataIds
        == RepointAll(g, p + 1, |ms|, Filter(c.inferences[i].sourceDataIds, NotCode(del.code)))
    {
      RepairSourcesIsRepointAll(c.inferences[i].sourceDataIds, del.code, ms, g, p);
    }
  }

  /** The renumbered survivors: well-formed items of the group numbered `1..k-1`. */
  lemma RenumberedFacts(s: seq<DataItem>, g: Group)
    requires ValidGroup(g)
    requires forall q :: 0 <= q < |s| ==> GroupOf(s[q]) == g
    ensures Dense(Renumber(s, g), g)
    ensures forall i :: 0 <= i < |s| ==>
      ItemWellFormed(Renumber(s, g)[i]) && GroupOf(Renumber(s, g)[i]) == g
  {
  }

  /** The items outside the deleted item's group keep their order and their codes. */
  lemma OthersFacts(data: seq<DataItem>, g: Group)
    requires WellFormed(data) && ValidGroup(g)
    ensures forall i :: 0 <= i < |Filter(data, OutsideGroupOf(g))| ==>
      ItemWellFormed(Filter(data, OutsideGroupOf(g))[i]) && !InGroup(Filter(data, OutsideGroupOf(g))[i], g)
    ensures forall h :: ValidGroup(h) && h != g ==>
      Members(Filter(data, OutsideGroupOf(g)), h) == Members(data, h)
  {
    var others := Filter(data, OutsideGroupOf(g));
    forall i | 0 <= i < |others|
      ensures ItemWellFormed(others[i]) && !InGroup(others[i], g)
    {
      assert others[i] in data;
      var j :| 0 <= j < |data| && data[j] == others[i];
      assert ItemWellFormed(data[j]);
      assert OutsideGroupOf(g)(others[i]);
    }
    forall h | ValidGroup(h) && h != g
      ensures Members(others, h) == Members(data, h)
    {
      forall i | 0 <= i < |data| ensures InGroupOf(h)(data[i]) ==> OutsideGroupOf(g)(data[i]) {
        assert ItemWellFormed(data[i]);
        InGroupIffSameGroup(data[i], h);
        InGroupIffSameGroup(data[i], g);
      }
      FilterOfFilter(data, OutsideGroupOf(g), InGroupOf(h));
    }
  }

  /** Cutting one member out of a group's items leaves items of that group. */
  lemma CutKeepsGroup(ms: seq<DataItem>, g: Group, p: nat)
    requires p < |ms|
    requires forall q :: 0 <= q < |ms| ==> GroupOf(ms[q]) == g
    ensures forall q :: 0 <= q < |Cut(ms, p)| ==> GroupOf(Cut(ms, p)[q]) == g
  {
    var s := Cut(ms, p);
    forall q | 0 <= q < |s| ensures GroupOf(s[q]) == g {
      if q < p { assert s[q] == ms[q]; } else { assert s[q] == ms[q + 1]; }
    }
  }

  /** Well-formed items outside `g`, followed by renumbered items of `g`, form a
      well-formed list when the other groups are those of a well-formed list. */
  lemma JoinKeepsWellFormed(data: seq<DataItem>, others: seq<DataItem>, s: seq<DataItem>, g: Group)
    requires WellFormed(data) && ValidGroup(g)
    requires forall i :: 0 <= i < |others| ==> ItemWellFormed(others[i]) && !InGroup(others[i], g)
    requires forall h :: ValidGroup(h) && h != g ==> Members(others, h) == Members(data, h)
    requires forall q :: 0 <= q < |s| ==> GroupOf(s[q]) == g
    ensures WellFormed(others + Renumber(s, g))
  {
    var rs := Renumber(s, g);
    RenumberedFacts(s, g);
    var r := others + rs;
    forall i | 0 <= i < |r| ensures ItemWellFormed(r[i]) {
      if i >= |others| {
        assert r[i] == rs[i - |others|];
      }
    }
    forall h | ValidGroup(h) ensures Dense(Members(r, h), h) {
      MembersOfJoin(others, rs, g, h);
      if h != g {
        assert Dense(Members(data, h), h);
      }
    }
  }

  /** A delete on a well-formed case leaves a well-formed case. */
  lemma DeleteKeepsWellFormed(c: CriminalCase, itemId: string)
    requires WellFormed(c.data)
    ensures WellFormed(DeleteDataItem(c, itemId).data)
  {
    match FindIndex(c.data, HasId(itemId))
    case None =>
    case Some(idx) =>
      DeletedItemFacts(c.data, itemId, idx);
      var g := GroupOf(c.data[idx]);
      var ms := Members(c.data, g);
      var p := Rank(c.data, idx);
      MembersFacts(c.data, g);
      DeleteShape(c, itemId, idx);
      CutKeepsGroup(ms, g, p);
      OthersFacts(c.data, g);
      JoinKeepsWellFormed(c.data, Filter(c.data, OutsideGroupOf(g)), Cut(ms, p), g);
  }

  /** Joining items outside `g` with items of `g`: the members of `g` are the latter,
      and the members of any other group come from the former. */
  lemma MembersOfJoin(others: seq<DataItem>, rs: seq<DataItem>, g: Group, h: Group)
    requires ValidGroup(g) && ValidGroup(h)
    requires forall i :: 0 <= i < |others| ==> !InGroup(others[i], g)
    requires forall i :: 0 <= i < |rs| ==> ItemWellFormed(rs[i]) && GroupOf(rs[i]) == g
    ensures Members(others + rs, h) == if h == g then rs else Members(others, h)
  {
    FilterAppend(others, rs, InGroupOf(h));
    if h == g {
      FilterKeepsNone(others, InGroupOf(g));
      forall i | 0 <= i < |rs| ensures InGroup(rs[i], g) {
        InOwnGroup(rs[i]);
      }
      FilterKeepsAll(rs, InGroupOf(g));
    } else {
      forall i | 0 <= i < |rs| ensures !InGroup(rs[i], h) {
        InGroupIffSameGroup(rs[i], h);
      }
      FilterKeepsNone(rs, InGroupOf(h));
    }
  }

  /** A delete removes exactly one item. */
  lemma DeleteRemovesOneItem(c: CriminalCase, itemId: string, idx: nat)
    requires WellFormed(c.data)
    requires FindIndex(c.data, HasId(itemId)) == Some(idx)
    ensures |DeleteDataItem(c, itemId).data| == |c.data| - 1
  {
    DeletedItemFacts(c.data, itemId, idx);
    var g := GroupOf(c.data[idx]);
    DeleteShape(c, itemId, idx);
    FilterSplitsLength(c.data, OutsideGroupOf(g), InGroupOf(g));
  }

  /** Every item other than the deleted one survives with its content, pillar and
      victim index, under the code `Repoint` gives its old code. */
  lemma DeletePreservesItem(c: CriminalCase, itemId: string, idx: nat, i: nat)
    requires WellFormed(c.data)
    requires FindIndex(c.data, HasId(itemId)) == Some(idx)
    requires i < |c.data| && i != idx
    ensures var g := GroupOf(c.data[idx]);
      var e := c.data[i];
      var x := Repoint(g, Rank(c.data, idx) + 1, |Members(c.data, g)|, e.code);
      exists k :: 0 <= k < |DeleteDataItem(c, itemId).data|
        && DeleteDataItem(c, itemId).data[k] == e.(id := x, code := x)
  {
    DeletedItemFacts(c.data, itemId, idx);
    DeleteShape(c, itemId, idx);
    var t := SurvivorPosition(c.data, idx, i);
    var r := DeleteDataItem(c, itemId).data;
    assert r[t] == (Filter(c.data, OutsideGroupOf(GroupOf(c.data[idx])))
      + Renumber(Cut(Members(c.data, GroupOf(c.data[idx])), Rank(c.data, idx)), GroupOf(c.data[idx])))[t];
  }

  /** Where a survivor lands in the result of a delete, as laid out by `DeleteShape`. */
  lemma SurvivorPosition(data: seq<DataItem>, idx: nat, i: nat) returns (t: nat)
    requires WellFormed(data)
    requires idx < |data| && i < |data| && i != idx
    ensures var g := GroupOf(data[idx]);
      var others := Filter(data, OutsideGroupOf(g));
      var p := Rank(data, idx);
      p < |Members(data, g)|
      && var r := others + Renumber(Cut(Members(data, g), p), g);
      && var x := Repoint(g, p + 1, |Members(data, g)|, data[i].code);
      t < |r| && r[t] == data[i].(id := x, code := x)
  {
    var g := GroupOf(data[idx]);
    var e := data[i];
    assert ItemWellFormed(e) && ItemWellFormed(data[idx]);
    MemberAtRank(data, idx);
    CodeIsRank(data, i);
    if GroupOf(e) != g {
      InGroupIffSameGroup(e, g);
      t := SurvivorOutsideGroup(Filter(data, OutsideGroupOf(g)),
        Renumber(Cut(Members(data, g), Rank(data, idx)), g), g, Rank(data, idx) + 1,
        |Members(data, g)|, e, Rank(data, i) + 1);
    } else {
      t := SurvivorPositionInGroup(data, idx, i);
    }
  }

  lemma SurvivorPositionInGroup(data: seq<DataItem>, idx: nat, i: nat) returns (t: nat)
    requires idx < |data| && i < |data| && i != idx
    requires GroupOf(data[i]) == GroupOf(data[idx]) && ValidGroup(GroupOf(data[idx]))
    requires data[i].code == FormatDataCode(GroupOf(data[i]), Rank(data, i) + 1)
    ensures var g := GroupOf(data[idx]);
      var others := Filter(data, OutsideGroupOf(g));
      var p := Rank(data, idx);
      p < |Members(data, g)|
      && var r := others + Renumber(Cut(Members(data, g), p), g);
      && var x := Repoint(g, p + 1, |Members(data, g)|, data[i].code);
      t < |r| && r[t] == data[i].(id := x, code := x)
  {
    var g := GroupOf(data[idx]);
    MemberAtRank(data, idx);
    MemberAtRank(data, i);
    if i < idx {
      RankIncreases(data, i, idx);
    } else {
      RankIncreases(data, idx, i);
    }
    t := SurvivorInGroup(Filter(data, OutsideGroupOf(g)), Members(data, g), g, Rank(data, idx), Rank(data, i));
  }

  lemma SurvivorOutsideGroup(others: seq<DataItem>, rs: seq<DataItem>, g: Group, j: nat, k: nat, e: DataItem, n: nat)
    returns (t: nat)
    requires e in others && ItemWellFormed(e) && GroupOf(e) != g
    requires e.code == FormatDataCode(GroupOf(e), n)
    ensures var x := Repoint(g, j, k, e.code);
      t < |others + rs| && (others + rs)[t] == e.(id := x, code := x)
  {
    RepointOtherGroup(g, j, k, GroupOf(e), n);
    t :| 0 <= t < |others| && others[t] == e;
    assert (others + rs)[t] == e.(id := e.code, code := e.code);
  }

  lemma SurvivorInGroup(others: seq<DataItem>, ms: seq<DataItem>, g: Group, p: nat, q: nat) returns (t: nat)
    requires ValidGroup(g) && p < |ms| && q < |ms| && q != p
    requires ms[q].code == FormatDataCode(g, q + 1)
    ensures var x := Repoint(g, p + 1, |ms|, ms[q].code);
      var r := others + Renumber(Cut(ms, p), g);
      t < |r| && r[t] == ms[q].(id := x, code := x)
  {
    var n := if q < p then q else q - 1;
    RepointOwn(g, p + 1, |ms|, q + 1);
    RenumberedCutAt(ms, g, p, q);
    t := |others| + n;
  }

  /** Where a survivor lands in the renumbered cut, and the code it gets there. */
  lemma RenumberedCutAt(ms: seq<DataItem>, g: Group, p: nat, q: nat)
    requires p < |ms| && q < |ms| && q != p
    ensures var n := if q < p then q else q - 1;
      var rs := Renumber(Cut(ms, p), g);
      n < |rs| && rs[n] == ms[q].(id := FormatDataCode(g, n + 1), code := FormatDataCode(g, n + 1))
  {
    var n := if q < p then q else q - 1;
    assert Cut(ms, p)[n] == ms[q];
  }

  /** The lineage theorem for deletes: a reference an inference holds to a surviving
      item still leads, after the delete, to an item with that item's content. */
  lemma DeleteKeepsCitationsResolving(c: CriminalCase, itemId: string, idx: nat, inf: nat, i: nat)
    requires WellFormed(c.data)
    requires FindIndex(c.data, HasId(itemId)) == Some(idx)
    requires inf < |c.inferences| && i < |c.data| && i != idx
    requires c.data[i].code in c.inferences[inf].sourceDataIds
    ensures var r := DeleteDataItem(c, itemId);
      exists y, d :: y in r.inferences[inf].sourceDataIds && d in r.data && d.code == y
        && d.content == c.data[i].content && GroupOf(d) == GroupOf(c.data[i])
  {
    DeletedItemFacts(c.data, itemId, idx);
    var g := GroupOf(c.data[idx]);
    var j, k := Rank(c.data, idx) + 1, |Members(c.data, g)|;
    var x := c.data[i].code;
    var y := Repoint(g, j, k, x);
    var r := DeleteDataItem(c, itemId);
    DistinctCodes(c.data, i, idx);
    DeleteRepairsReferences(c, itemId, idx);
    RepointKeepsReference(c.inferences[inf].sourceDataIds, c.data[idx].code, g, j, k, x);
    DeletePreservesItem(c, itemId, idx, i);
    var t :| 0 <= t < |r.data| && r.data[t] == c.data[i].(id := y, code := y);
    var d := r.data[t];
    assert r.inferences[inf].sourceDataIds
      == RepointAll(g, j, k, Filter(c.inferences[inf].sourceDataIds, NotCode(c.data[idx].code)));
    assert y in r.inferences[inf].sourceDataIds;
    assert d in r.data && d.code == y && d.content == c.data[i].content && GroupOf(d) == GroupOf(c.data[i]);
  }

  lemma DistinctCodes(data: seq<DataItem>, i: nat, j: nat)
    requires WellFormed(data) && i < |data| && j < |data| && i != j
    ensures data[i].code != data[j].code
  {
    CodesUnique(data);
  }

  /** A kept reference shows up, re-pointed, among the repaired references. */
  lemma RepointKeepsReference(src: seq<string>, code: string, g: Group, j: nat, k: nat, x: string)
    requires x in src && x != code
    ensures Repoint(g, j, k, x) in RepointAll(g, j, k, Filter(src, NotCode(code)))
  {
    var kept := Filter(src, NotCode(code));
    assert x in kept;
    var s :| 0 <= s < |kept| && kept[s] == x;
    assert RepointAll(g, j, k, kept)[s] == Repoint(g, j, k, x);
  }

  /** After a delete, the group of the deleted item has one member fewer. */
  lemma MembersAfterDelete(c: CriminalCase, itemId: string, idx: nat)
    requires WellFormed(c.data)
    requires FindIndex(c.data, HasId(itemId)) == Some(idx)
    ensures var g := GroupOf(c.data[idx]);
      |Members(DeleteDataItem(c, itemId).data, g)| == |Members(c.data, g)| - 1
  {
    DeletedItemFacts(c.data, itemId, idx);
    DeletedGroupMembers(c, itemId, idx);
  }

  /** The group of the deleted item, after the delete: its other members, renumbered. */
  lemma DeletedGroupMembers(c: CriminalCase, itemId: string, idx: nat)
    requires WellFormed(c.data)
    requires FindIndex(c.data, HasId(itemId)) == Some(idx)
    ensures idx < |c.data| && Rank(c.data, idx) < |Members(c.data, GroupOf(c.data[idx]))|
    ensures var g := GroupOf(c.data[idx]);
      Members(DeleteDataItem(c, itemId).data, g) == Renumber(Cut(Members(c.data, g), Rank(c.data, idx)), g)
  {
    DeletedItemFacts(c.data, itemId, idx);
    var g := GroupOf(c.data[idx]);
    var ms := Members(c.data, g);
    var p := Rank(c.data, idx);
    MembersFacts(c.data, g);
    DeleteShape(c, itemId, idx);
    RenumberedFacts(Cut(ms, p), g);
    OthersFacts(c.data, g);
    MembersOfJoin(Filter(c.data, OutsideGroupOf(g)), Renumber(Cut(ms, p), g), g, g);
  }

  /** Codes are handed out again: when the last item of a group is deleted, the next
      item entered in that group receives the deleted item's code. */
  lemma DeletedCodeIsReissued(c: CriminalCase, itemId: string, idx: nat, variable: string, value: string)
    requires WellFormed(c.data)
    requires FindIndex(c.data, HasId(itemId)) == Some(idx)
    requires Rank(c.data, idx) + 1 == |Members(c.data, GroupOf(c.data[idx]))|
    requires Trim(variable) != "" && Trim(value) != ""
    ensures var r := AddDataManual(DeleteDataItem(c, itemId), GroupOf(c.data[idx]), variable, value);
      |r.data| > 0 && r.data[|r.data| - 1].code == c.data[idx].code
  {
    DeletedItemFacts(c.data, itemId, idx);
    var g := GroupOf(c.data[idx]);
    var mid := DeleteDataItem(c, itemId);
    DeleteKeepsWellFormed(c, itemId);
    MembersAfterDelete(c, itemId, idx);
    AddManualKeepsWellFormed(mid, g, variable, value);
    var n := |Members(mid.data, g)| + 1;
    assert n == Rank(c.data, idx) + 1;
    var r := AddDataManual(mid, g, variable, value);
    assert r.data == mid.data + [NewDataItem(g, n, ManualContent(variable, value))];
    assert r.data[|r.data| - 1].code == FormatDataCode(g, n);
  }
}
