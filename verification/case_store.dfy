/** The application's case store: the list of cases and the case open in the case
    view. Every change a builder makes reaches the store through `UpdateCase`. */
module CaseStore {
  import opened Wrappers
  import opened Text
  import opened Seqs
  import opened Types

  datatype Store = Store(cases: seq<CriminalCase>, active: Option<CriminalCase>)

  /** The store the application starts with: no cases, the dashboard shown. */
  const InitialStore: Store := Store([], None)

  /** The id a case created at clock reading `now` gets. */
  function CaseId(now: nat): string {
    "CASO-" + NatToString(now)
  }

  /** A new, empty case. `localTime` and `isoTime` are the clock rendered as the
      title's local date and as the creation stamp. */
  function NewCase(now: nat, localTime: string, isoTime: string): (r: CriminalCase)
    ensures r.id == CaseId(now) && r.createdAt == isoTime
    ensures r.title == "Nuevo Caso - " + localTime
    ensures r.data == [] && r.inferences == [] && r.hypotheses == [] && r.suggestions == ""
  {
    CriminalCase(CaseId(now), "Nuevo Caso - " + localTime, isoTime, [], [], [], "")
  }

  /** `createNewCase`: the new case is appended and opened. */
  function CreateNewCase(s: Store, now: nat, localTime: string, isoTime: string): (r: Store)
    ensures |r.cases| == |s.cases| + 1 && r.cases[..|s.cases|] == s.cases
    ensures r.active == Some(r.cases[|s.cases|])
    ensures r.cases[|s.cases|].id == CaseId(now)
    ensures r.cases[|s.cases|] == NewCase(now, localTime, isoTime)
  {
    var c := NewCase(now, localTime, isoTime);
    Store(s.cases + [c], Some(c))
  }

  function CaseWithId(caseId: string): CriminalCase -> bool {
    (c: CriminalCase) => c.id == caseId
  }

  /** `selectCase`: the first listed case with the id is opened; an unknown id
      changes nothing. */
  function SelectCase(s: Store, caseId: string): (r: Store)
    ensures r.cases == s.cases
    ensures (forall c :: c in s.cases ==> c.id != caseId) ==> r == s
    ensures (exists c :: c in s.cases && c.id == caseId) ==>
      r.active.Some? && r.active.value in s.cases && r.active.value.id == caseId
    ensures forall i ::
      (0 <= i < |s.cases| && s.cases[i].id == caseId && forall j :: 0 <= j < i ==> s.cases[j].id != caseId)
      ==> r.active == Some(s.cases[i])
  {
    match FindIndex(s.cases, CaseWithId(caseId))
    case None => s
    case Some(i) => s.(active := Some(s.cases[i]))
  }

  /** `updateCase`: the given case is shown, and replaces every listed case with its
      id; no case is added or removed and no id changes. */
  function UpdateCase(s: Store, u: CriminalCase): (r: Store)
    ensures r.active == Some(u)
    ensures |r.cases| == |s.cases|
    ensures forall i :: 0 <= i < |s.cases| ==> r.cases[i].id == s.cases[i].id
    ensures forall i :: 0 <= i < |s.cases| && s.cases[i].id != u.id ==> r.cases[i] == s.cases[i]
    ensures forall i :: 0 <= i < |s.cases| && s.cases[i].id == u.id ==> r.cases[i] == u
  {
    Store(seq(|s.cases|, i requires 0 <= i < |s.cases| => if s.cases[i].id == u.id then u else s.cases[i]),
          Some(u))
  }

  /** `goBackToDashboard`: the case view closes; the list stays. */
  function GoBackToDashboard(s: Store): (r: Store)
    ensures r.active == None && r.cases == s.cases
  {
    s.(active := None)
  }

  predicate UniqueCaseIds(cases: seq<CriminalCase>) {
    DistinctBy(cases, (c: CriminalCase) => c.id)
  }

  /** The store the dashboard and the case view rely on: case ids are unique, and the
      open case is the listed case with its id. */
  predicate Consistent(s: Store) {
    UniqueCaseIds(s.cases) && (s.active.Some? ==> s.active.value in s.cases)
  }

  /** Creating a case keeps the store consistent when the clock reading gives an id
      no listed case has. */
  lemma CreateKeepsConsistent(s: Store, now: nat, localTime: string, isoTime: string)
    requires Consistent(s)
    requires forall c :: c in s.cases ==> c.id != CaseId(now)
    ensures Consistent(CreateNewCase(s, now, localTime, isoTime))
  {
    var r := CreateNewCase(s, now, localTime, isoTime);
    forall i, j | 0 <= i < j < |r.cases| ensures r.cases[i].id != r.cases[j].id {
      assert r.cases[i] == s.cases[i];
      if j < |s.cases| {
        assert r.cases[j] == s.cases[j];
      }
    }
  }

  /** An update of the open case keeps the store consistent: the updated case is the
      one listed under its id afterwards. */
  lemma UpdateKeepsConsistent(s: Store, u: CriminalCase)
    requires Consistent(s) && s.active.Some? && u.id == s.active.value.id
    ensures Consistent(UpdateCase(s, u))
  {
    var r := UpdateCase(s, u);
    var i :| 0 <= i < |s.cases| && s.cases[i] == s.active.value;
    assert r.cases[i] == u;
  }

  /** Reopening a case after updating it shows the updated version. */
  lemma SelectAfterUpdate(s: Store, u: CriminalCase)
    requires exists c :: c in s.cases && c.id == u.id
    ensures SelectCase(UpdateCase(s, u), u.id).active == Some(u)
  {
    var r := UpdateCase(s, u);
    var k := FindIndex(r.cases, CaseWithId(u.id));
    var c :| c in s.cases && c.id == u.id;
    var i :| 0 <= i < |s.cases| && s.cases[i] == c;
    assert r.cases[i].id == u.id;
    assert k.Some?;
    assert r.cases[k.value] == u;
  }

  /** Applying the same update twice is applying it once. */
  lemma UpdateIdempotent(s: Store, u: CriminalCase)
    ensures UpdateCase(UpdateCase(s, u), u) == UpdateCase(s, u)
  {
    var once := UpdateCase(s, u);
    var twice := UpdateCase(once, u);
    assert twice.cases == once.cases by {
      forall i | 0 <= i < |once.cases| ensures twice.cases[i] == once.cases[i] {
      }
    }
  }

  /** An update for a case that is not listed is shown but not stored: the list is
      unchanged, so reopening from the dashboard loses it. */
  lemma UpdateOfUnlistedCaseIsNotStored(s: Store, u: CriminalCase)
    requires forall c :: c in s.cases ==> c.id != u.id
    ensures UpdateCase(s, u).cases == s.cases
  {
    var r := UpdateCase(s, u);
    assert forall i :: 0 <= i < |s.cases| ==> r.cases[i] == s.cases[i];
  }
}
