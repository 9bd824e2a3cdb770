/** The identifier scheme. A data item's code is `<prefix>-<n>`, or `DV<victim>-<n>`
    for victims, where `n` counts within the item's group; inference and hypothesis
    codes are `I<n>` and `H<n>`. Codes are described structurally here, formatted to
    strings, and parsed back. */
module Codes {
  import opened Wrappers
  import opened Text
  import opened Types

  /** The per-pillar code prefixes. */
  function Prefix(p: Pillar): string {
    match p
    case Victim => "DV"
    case Scene => "DE"
    case Reconstruction => "DR"
    case Author => "DA"
  }

  /** The numbering scope of a data item: a pillar, plus the victim index for victims. */
  datatype Group = Group(pillar: Pillar, victimIndex: Option<nat>)

  /** The groups the data-entry cards create items in: a victim card always carries a
      positive victim index, any other card carries none. */
  predicate ValidGroup(g: Group) {
    if g.pillar == Victim then g.victimIndex.Some? && g.victimIndex.value >= 1
    else g.victimIndex.None?
  }

  function GroupOf(d: DataItem): Group {
    Group(d.pillar, d.victimIndex)
  }

  /** The group filter of the data-entry card and of the delete handler: for a victim
      group both pillar and victim index must match, otherwise only the pillar. */
  predicate InGroup(d: DataItem, g: Group) {
    if g.pillar == Victim then d.pillar == Victim && d.victimIndex == g.victimIndex
    else d.pillar == g.pillar
  }

  lemma InGroupIffSameGroup(d: DataItem, g: Group)
    requires ValidGroup(GroupOf(d)) && ValidGroup(g)
    ensures InGroup(d, g) <==> GroupOf(d) == g
  {
  }

  lemma DigitsHaveNoDash(s: string)
    requires AllDigits(s)
    ensures '-' !in s
  {
  }

  /** The text before the dash: the pillar prefix, or `DV` and the victim index. A
      victim group without an index renders the way a template literal renders
      `undefined`. */
  function GroupPrefix(g: Group): (r: string)
    ensures '-' !in r
  {
    if g.pillar == Victim then
      match g.victimIndex
      case Some(v) =>
        DigitsHaveNoDash(NatToString(v));
        "DV" + NatToString(v)
      case None => "DVundefined"
    else Prefix(g.pillar)
  }

  /** A code taken apart: its group and its number within the group. */
  datatype DataCode = DataCode(group: Group, number: nat)

  function FormatDataCode(g: Group, n: nat): string {
    GroupPrefix(g) + "-" + NatToString(n)
  }

  /** Reads a group back from the text before the last dash. */
  function ParseGroup(head: string): Option<Group> {
    if head == "DE" then Some(Group(Scene, None))
    else if head == "DR" then Some(Group(Reconstruction, None))
    else if head == "DA" then Some(Group(Author, None))
    else if |head| > 2 && head[..2] == "DV" && AllDigits(head[2..]) then
      Some(Group(Victim, Some(DigitsValue(head[2..]))))
    else None
  }

  /** Reads a data code: a group prefix, a dash, and a non-empty run of digits. */
  function ParseDataCode(code: string): Option<DataCode> {
    LastIndexOfFacts(code, '-');
    match LastIndexOf(code, '-')
    case None => None
    case Some(p) =>
      var tail := code[p + 1..];
      if |tail| == 0 || !AllDigits(tail) then None
      else
        match ParseGroup(code[..p])
        case None => None
        case Some(g) => Some(DataCode(g, DigitsValue(tail)))
  }

  lemma SplitFormattedCode(g: Group, n: nat)
    ensures LastIndexOf(FormatDataCode(g, n), '-') == Some(|GroupPrefix(g)|)
    ensures FormatDataCode(g, n)[..|GroupPrefix(g)|] == GroupPrefix(g)
    ensures FormatDataCode(g, n)[|GroupPrefix(g)| + 1..] == NatToString(n)
  {
    var head := GroupPrefix(g);
    var tail := NatToString(n);
    DigitsHaveNoDash(tail);
    assert FormatDataCode(g, n) == head + ['-'] + tail;
    LastIndexOfJoin(head, '-', tail);
  }

  lemma ParseGroupPrefix(g: Group)
    requires ValidGroup(g)
    ensures ParseGroup(GroupPrefix(g)) == Some(g)
  {
    if g.pillar == Victim {
      var digits := NatToString(g.victimIndex.value);
      var head := GroupPrefix(g);
      assert head == "DV" + digits;
      assert head[1] == 'V';
      assert head[..2] == "DV" && head[2..] == digits;
      NatToStringRoundTrip(g.victimIndex.value);
    }
  }

  /** Parsing a formatted code gives back its group and number. */
  lemma FormatParseRoundTrip(g: Group, n: nat)
    requires ValidGroup(g)
    ensures ParseDataCode(FormatDataCode(g, n)) == Some(DataCode(g, n))
  {
    SplitFormattedCode(g, n);
    ParseGroupPrefix(g);
    NatToStringRoundTrip(n);
  }

  /** The code format is injective on the groups the application creates. */
  lemma FormatInjective(g1: Group, n1: nat, g2: Group, n2: nat)
    requires ValidGroup(g1) && ValidGroup(g2)
    requires FormatDataCode(g1, n1) == FormatDataCode(g2, n2)
    ensures g1 == g2 && n1 == n2
  {
    FormatParseRoundTrip(g1, n1);
    FormatParseRoundTrip(g2, n2);
  }

  /** The number `getNextId` reads from a code: the part after the last dash through
      `parseInt`, and nothing for a code without a dash or with a non-numeric tail. */
  function NumberForNext(code: string): Option<nat> {
    if '-' in code then ParseInt(LastSegment(code, '-')) else None
  }

  /** The sort key of the renumbering step, `parseInt(code.split('-').pop() || '0')`.
      An unparsable tail is read as 0 here, where the source's comparator gets `NaN`;
      on well-formed lists every tail parses, so the difference never arises. */
  function SortKey(code: string): nat {
    ParseInt(LastSegment(code, '-')).GetOr(0)
  }

  /** Both readers recover the number of a formatted code, whatever its group. */
  lemma NumbersOfFormattedCode(g: Group, n: nat)
    ensures NumberForNext(FormatDataCode(g, n)) == Some(n)
    ensures SortKey(FormatDataCode(g, n)) == n
  {
    var head := GroupPrefix(g);
    var tail := NatToString(n);
    DigitsHaveNoDash(tail);
    assert FormatDataCode(g, n) == head + ['-'] + tail;
    assert FormatDataCode(g, n)[|head|] == '-';
    LastSegmentOfJoin(head, '-', tail);
    ParseIntOfNat(n);
  }

  /** `I<n>` / `H<n>`. */
  function LetterCode(letter: char, n: nat): string {
    [letter] + NatToString(n)
  }

  /** `parseInt(code.replace(letter, ''))`. */
  function ParseLetterCode(letter: char, code: string): Option<nat> {
    ParseInt(RemoveFirst(code, letter))
  }

  lemma LetterCodeRoundTrip(letter: char, n: nat)
    ensures ParseLetterCode(letter, LetterCode(letter, n)) == Some(n)
  {
    var s := LetterCode(letter, n);
    assert FirstIndexOf(s, letter) == Some(0);
    assert RemoveFirst(s, letter) == NatToString(n) by {
      assert s[..0] + s[1..] == s[1..];
    }
    ParseIntOfNat(n);
  }

  /** `reduce((a, b) => Math.max(a, b), 0)` over parsed numbers: the largest one, 0
      for none, and `None` (NaN) as soon as one of them is NaN. */
  function MaxOrNaN(nums: seq<Option<nat>>): (r: Option<nat>)
    ensures r.None? <==> exists i :: 0 <= i < |nums| && nums[i].None?
    ensures r.Some? ==> forall i :: 0 <= i < |nums| ==> nums[i].value <= r.value
    ensures r.Some? ==> r.value == 0 || exists i :: 0 <= i < |nums| && nums[i] == Some(r.value)
  {
    if |nums| == 0 then Some(0)
    else
      var init := nums[..|nums| - 1];
      var last := nums[|nums| - 1];
      assert forall i :: 0 <= i < |init| ==> init[i] == nums[i];
      var acc := MaxOrNaN(init);
      if acc.None? then None
      else if last.None? then None
      else if acc.value >= last.value then acc
      else last
  }

  /** `codes.map(parse)`, built from the front. */
  function ParsedBy(codes: seq<string>, parse: string -> Option<nat>): (r: seq<Option<nat>>)
    ensures |r| == |codes|
  {
    if |codes| == 0 then []
    else ParsedBy(codes[..|codes| - 1], parse) + [parse(codes[|codes| - 1])]
  }

  lemma {:induction false} ParsedByAt(codes: seq<string>, parse: string -> Option<nat>)
    ensures forall i :: 0 <= i < |codes| ==> ParsedBy(codes, parse)[i] == parse(codes[i])
  {
    if |codes| > 0 {
      var init := codes[..|codes| - 1];
      ParsedByAt(init, parse);
      assert forall i :: 0 <= i < |init| ==> init[i] == codes[i];
    }
  }

  /** `c => parseInt(c.replace(letter, ''))`. */
  function LetterParser(letter: char): string -> Option<nat> {
    code => ParseLetterCode(letter, code)
  }

  /** `codes.map(c => parseInt(c.replace(letter, '')))`. */
  function ParsedLetterNumbers(letter: char, codes: seq<string>): (r: seq<Option<nat>>)
    ensures |r| == |codes|
  {
    ParsedBy(codes, LetterParser(letter))
  }

  /** The parsed numbers are those of the codes, position by position. */
  lemma ParsedLetterNumbersAt(letter: char, codes: seq<string>)
    ensures forall i :: 0 <= i < |codes| ==>
      ParsedLetterNumbers(letter, codes)[i] == ParseLetterCode(letter, codes[i])
  {
    ParsedByAt(codes, LetterParser(letter));
  }

  /** One more than the reduced maximum: above every number when all parse, and 1
      once one of them is NaN. */
  lemma NextAfterMax(nums: seq<Option<nat>>)
    ensures var r := MaxOrNaN(nums).GetOr(0) + 1;
      (forall i :: 0 <= i < |nums| ==> nums[i].Some?) ==>
        (forall i :: 0 <= i < |nums| ==> nums[i].value < r)
        && (r == 1 || exists i :: 0 <= i < |nums| && nums[i] == Some(r - 1))
    ensures (exists i :: 0 <= i < |nums| && nums[i].None?) ==> MaxOrNaN(nums).GetOr(0) + 1 == 1
  {
  }

  /** Facts about a number stated on the parsed numbers, read back on the codes they
      were parsed from. */
  lemma NextReadBack(letter: char, codes: seq<string>, r: nat)
    requires var nums := ParsedLetterNumbers(letter, codes);
      (forall i :: 0 <= i < |nums| ==> nums[i].Some?) ==>
        (forall i :: 0 <= i < |nums| ==> nums[i].value < r)
        && (r == 1 || exists i :: 0 <= i < |nums| && nums[i] == Some(r - 1))
    requires var nums := ParsedLetterNumbers(letter, codes);
      (exists i :: 0 <= i < |nums| && nums[i].None?) ==> r == 1
    ensures (forall i :: 0 <= i < |codes| ==> ParseLetterCode(letter, codes[i]).Some?) ==>
      (forall i :: 0 <= i < |codes| ==> ParseLetterCode(letter, codes[i]).value < r)
      && (r == 1 || exists i :: 0 <= i < |codes| && ParseLetterCode(letter, codes[i]) == Some(r - 1))
    ensures (exists i :: 0 <= i < |codes| && ParseLetterCode(letter, codes[i]).None?) ==> r == 1
  {
    var nums := ParsedLetterNumbers(letter, codes);
    ParsedLetterNumbersAt(letter, codes);
    if forall i :: 0 <= i < |codes| ==> ParseLetterCode(letter, codes[i]).Some? {
      assert forall i :: 0 <= i < |nums| ==> nums[i].Some?;
      if r != 1 {
        var i :| 0 <= i < |nums| && nums[i] == Some(r - 1);
        assert ParseLetterCode(letter, codes[i]) == Some(r - 1);
      }
    }
    if exists i :: 0 <= i < |codes| && ParseLetterCode(letter, codes[i]).None? {
      var i :| 0 <= i < |codes| && ParseLetterCode(letter, codes[i]).None?;
      assert nums[i].None?;
    }
  }

  /** The number of the next inference or hypothesis code: one more than the largest
      current number, or 1 when some current number is NaN. */
  function NextLetterNumber(letter: char, codes: seq<string>): (r: nat)
    ensures r >= 1
  {
    MaxOrNaN(ParsedLetterNumbers(letter, codes)).GetOr(0) + 1
  }

  /** When every current code parses, the next number is above all of them and
      follows the largest; when some code does not parse, `NaN || 0` restarts at 1. */
  lemma NextLetterNumberBounds(letter: char, codes: seq<string>)
    ensures var r := NextLetterNumber(letter, codes);
      (forall i :: 0 <= i < |codes| ==> ParseLetterCode(letter, codes[i]).Some?) ==>
        (forall i :: 0 <= i < |codes| ==> ParseLetterCode(letter, codes[i]).value < r)
        && (r == 1 || exists i :: 0 <= i < |codes| && ParseLetterCode(letter, codes[i]) == Some(r - 1))
    ensures (exists i :: 0 <= i < |codes| && ParseLetterCode(letter, codes[i]).None?) ==>
      NextLetterNumber(letter, codes) == 1
  {
    NextAfterMax(ParsedLetterNumbers(letter, codes));
    NextReadBack(letter, codes, NextLetterNumber(letter, codes));
  }

  /** Removing the code numbered one more than every other (or 1) makes that number
      the next one again. */
  lemma NextNumberAfterRemoving(letter: char, codes: seq<string>, i: nat, m: nat)
    requires forall j :: 0 <= j < |codes| ==> ParseLetterCode(letter, codes[j]).Some?
    requires i < |codes| && m >= 1
    requires forall j :: 0 <= j < |codes| && j != i ==> ParseLetterCode(letter, codes[j]).value < m
    requires m == 1 || exists j :: 0 <= j < |codes| && j != i && ParseLetterCode(letter, codes[j]) == Some(m - 1)
    ensures NextLetterNumber(letter, codes[..i] + codes[i + 1..]) == m
  {
    var nums := ParsedLetterNumbers(letter, codes);
    ParsedAfterCut(letter, codes, i);
    forall j | 0 <= j < |nums| ensures nums[j] == ParseLetterCode(letter, codes[j]) {
      ParsedLetterNumbersAt(letter, codes);
    }
    if m != 1 {
      var j :| 0 <= j < |codes| && j != i && ParseLetterCode(letter, codes[j]) == Some(m - 1);
      assert nums[j] == Some(m - 1);
    }
    MaxAfterRemoving(nums, i, m);
  }

  /** Parsing commutes with taking one code out. */
  lemma ParsedAfterCut(letter: char, codes: seq<string>, i: nat)
    requires i < |codes|
    ensures var nums := ParsedLetterNumbers(letter, codes);
      ParsedLetterNumbers(letter, codes[..i] + codes[i + 1..]) == nums[..i] + nums[i + 1..]
  {
    var rest := codes[..i] + codes[i + 1..];
    var nums := ParsedLetterNumbers(letter, codes);
    ParsedLetterNumbersAt(letter, codes);
    ParsedLetterNumbersAt(letter, rest);
    forall j | 0 <= j < |rest|
      ensures ParsedLetterNumbers(letter, rest)[j] == (nums[..i] + nums[i + 1..])[j]
    {
      if j < i {
        assert rest[j] == codes[j];
      } else {
        assert rest[j] == codes[j + 1];
      }
    }
  }

  /** The same on the parsed numbers: without the one entry that is not below `m`,
      the maximum is `m - 1` (or 0 for `m == 1`). */
  lemma MaxAfterRemoving(nums: seq<Option<nat>>, i: nat, m: nat)
    requires forall j :: 0 <= j < |nums| ==> nums[j].Some?
    requires i < |nums| && m >= 1
    requires forall j :: 0 <= j < |nums| && j != i ==> nums[j].value < m
    requires m == 1 || exists j :: 0 <= j < |nums| && j != i && nums[j] == Some(m - 1)
    ensures MaxOrNaN(nums[..i] + nums[i + 1..]).GetOr(0) + 1 == m
  {
    var rest := nums[..i] + nums[i + 1..];
    forall j | 0 <= j < |rest| ensures rest[j].Some? && rest[j].value < m {
      if j < i {
        assert rest[j] == nums[j];
      } else {
        assert rest[j] == nums[j + 1];
      }
    }
    NextAfterMax(rest);
    if m != 1 {
      var j :| 0 <= j < |nums| && j != i && nums[j] == Some(m - 1);
      assert rest[if j < i then j else j - 1] == nums[j];
    }
  }

  /** When every current code parses, the next code differs from all of them. */
  lemma NextLetterCodeIsFresh(letter: char, codes: seq<string>)
    requires forall i :: 0 <= i < |codes| ==> ParseLetterCode(letter, codes[i]).Some?
    ensures LetterCode(letter, NextLetterNumber(letter, codes)) !in codes
  {
    var n := NextLetterNumber(letter, codes);
    NextLetterNumberBounds(letter, codes);
    LetterCodeRoundTrip(letter, n);
  }
}
