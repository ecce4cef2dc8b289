/** The learner's match screen: which tutors are offered for one learner, the
    unfiltered tutor list behind "Choose Specific Tutor", and the guard and
    payload of the create-match call. */
module LearnerMatch {

  import opened Options
  import opened Records
  import Seqs

  /** A tutor is offered to `learner` when the tutor is available and has a
      preference record whose entry for the learner's level is truthy. */
  predicate Offered(learner: Learner, t: Tutor) {
    t.available && t.preferences.Some? && Prefers(t.preferences.value, learner.level)
  }

  function OfferedTo(learner: Learner): Tutor -> bool {
    t => Offered(learner, t)
  }

  /** `filterTutors`: nothing while the learner is not loaded; otherwise the
      offered tutors, each as often as in `tutors`, in their original order. */
  function FilterTutors(learner: Option<Learner>, tutors: seq<Tutor>): (r: seq<Tutor>)
    ensures learner.None? ==> r == []
    ensures learner.Some? ==> forall t :: t in r <==>
      && t in tutors
      && t.available
      && t.preferences.Some?
      && Lookup(t.preferences.value, learner.value.level).Some?
      && Truthy(Lookup(t.preferences.value, learner.value.level).value)
    ensures learner.Some? ==> forall t :: multiset(r)[t] == if Offered(learner.value, t) then multiset(tutors)[t] else 0
    ensures Seqs.IsSubsequence(r, tutors)
  {
    match learner
    case None => []
    case Some(l) => Seqs.Filter(OfferedTo(l), tutors)
  }

  /** One row of `getAllTutors`. */
  datatype TutorRow = TutorRow(
    tutorId: string,
    name: string,
    available: bool,
    preferences: Option<Prefs>,
    availability: Availability)

  function RowOf(t: Tutor): TutorRow {
    TutorRow(t.id, FullName(t.firstName, t.lastName), t.available, t.preferences, t.availability)
  }

  /** `getAllTutors`: one row per tutor, same order, named "first last". */
  function AllTutors(tutors: seq<Tutor>): (rows: seq<TutorRow>)
    ensures |rows| == |tutors|
    ensures forall i :: 0 <= i < |tutors| ==>
      && rows[i].tutorId == tutors[i].id
      && rows[i].name == tutors[i].firstName + " " + tutors[i].lastName
      && rows[i].available == tutors[i].available
      && rows[i].preferences == tutors[i].preferences
      && rows[i].availability == tutors[i].availability
    decreases |tutors|
  {
    if |tutors| == 0 then [] else [RowOf(tutors[0])] + AllTutors(tutors[1..])
  }

  function RowAvailable(row: TutorRow): bool {
    row.available
  }

  /** `availableTutors`: the rows whose `available` flag is set, in order;
      these are the options of the manual-selection list. */
  function AvailableTutors(rows: seq<TutorRow>): (r: seq<TutorRow>)
    ensures forall row :: row in r <==> row in rows && row.available
    ensures forall row :: multiset(r)[row] == if row.available then multiset(rows)[row] else 0
    ensures Seqs.IsSubsequence(r, rows)
  {
    Seqs.Filter(RowAvailable, rows)
  }

  function TutorAvailable(t: Tutor): bool {
    t.available
  }

  /** The option list is the row list of the available tutors: projecting and
      then dropping unavailable rows is dropping unavailable tutors and then projecting. */
  lemma {:induction false} AvailableRowsAreRowsOfAvailableTutors(tutors: seq<Tutor>)
    ensures AvailableTutors(AllTutors(tutors)) == AllTutors(Seqs.Filter(TutorAvailable, tutors))
    decreases |tutors|
  {
    if |tutors| > 0 {
      var rows := AllTutors(tutors);
      assert rows == [RowOf(tutors[0])] + AllTutors(tutors[1..]);
      assert rows[0] == RowOf(tutors[0]) && rows[1..] == AllTutors(tutors[1..]);
      AvailableRowsAreRowsOfAvailableTutors(tutors[1..]);
    }
  }

  /** `handleMatch(tutorID)`: no request while the learner is not loaded or
      when no tutor has that id; otherwise the first tutor with the id and the
      learner, fields copied verbatim, tutor first. */
  function HandleMatch(learner: Option<Learner>, tutors: seq<Tutor>, tutorId: string): (r: Option<MatchRequest>)
    ensures r.None? <==> learner.None? || forall t :: t in tutors ==> t.id != tutorId
    ensures r.Some? ==> learner.Some? && exists i ::
      && 0 <= i < |tutors|
      && tutors[i].id == tutorId
      && (forall j :: 0 <= j < i ==> tutors[j].id != tutorId)
      && r.value == MatchRequest(tutors[i].id, tutors[i].firstName, tutors[i].lastName,
                                 learner.value.id, learner.value.firstName, learner.value.lastName)
  {
    match learner
    case None => None
    case Some(l) =>
      match Seqs.FindFirst((t: Tutor) => t.id == tutorId, tutors)
      case None => None
      case Some(i) => Some(RequestFor(tutors[i], l))
  }

  /** An offered tutor is listed, and pressing "Match" next to it requests
      exactly that tutor and the learner, provided tutor ids are unique. */
  lemma MatchFromList(learner: Learner, tutors: seq<Tutor>, t: Tutor)
    requires UniqueTutorIds(tutors)
    requires t in tutors && Offered(learner, t)
    ensures t in FilterTutors(Some(learner), tutors)
    ensures HandleMatch(Some(learner), tutors, t.id) == Some(RequestFor(t, learner))
  {
    MatchFromId(learner, tutors, t);
  }

  /** Every tutor has its row in `getAllTutors`, and every row is some tutor's. */
  lemma RowsOfTutors(tutors: seq<Tutor>)
    ensures forall t :: t in tutors ==> RowOf(t) in AllTutors(tutors)
    ensures forall row :: row in AllTutors(tutors) ==> exists t :: t in tutors && row == RowOf(t)
  {
    var rows := AllTutors(tutors);
    forall t | t in tutors ensures RowOf(t) in rows {
      var i :| 0 <= i < |tutors| && tutors[i] == t;
      assert rows[i] == RowOf(t);
    }
    forall row | row in rows ensures exists t :: t in tutors && row == RowOf(t) {
      var i :| 0 <= i < |rows| && rows[i] == row;
      assert row == RowOf(tutors[i]);
    }
  }

  function NameIs(value: string): TutorRow -> bool {
    (row: TutorRow) => row.name == value
  }

  /** `rows.find((t) => t.name === value)`, reduced to the id the screen uses. */
  function SelectByName(rows: seq<TutorRow>, value: string): (id: Option<string>)
    ensures id.None? <==> forall row :: row in rows ==> row.name != value
    ensures id.Some? ==> exists i ::
      && 0 <= i < |rows|
      && rows[i].name == value
      && rows[i].tutorId == id.value
      && forall j :: 0 <= j < i ==> rows[j].name != value
  {
    match Seqs.FindFirst(NameIs(value), rows)
    case None => None
    case Some(i) => Some(rows[i].tutorId)
  }

  /** The select's handler as written: the chosen option's name is looked up
      among all tutors, not among the available ones the options come from. */
  function PickAsWritten(tutors: seq<Tutor>, value: string): (id: Option<string>)
    ensures id.None? <==> forall t :: t in tutors ==> FullName(t.firstName, t.lastName) != value
    ensures id.Some? ==> exists t :: t in tutors && t.id == id.value && FullName(t.firstName, t.lastName) == value
    ensures id.Some? ==> exists i :: FirstNamesake(tutors, value, i) && tutors[i].id == id.value
  {
    RowsOfTutors(tutors);
    var id := SelectByName(AllTutors(tutors), value);
    if id.Some? then
      SelectedIsFirstNamesake(tutors, value);
      id
    else
      id
  }

  /** `tutors[i]` is the first tutor in list order whose full name is `value`. */
  predicate FirstNamesake(tutors: seq<Tutor>, value: string, i: int) {
    && 0 <= i < |tutors|
    && FullName(tutors[i].firstName, tutors[i].lastName) == value
    && forall j :: 0 <= j < i ==> FullName(tutors[j].firstName, tutors[j].lastName) != value
  }

  /** The row the select finds by name is the row of the first namesake. */
  lemma SelectedIsFirstNamesake(tutors: seq<Tutor>, value: string)
    requires SelectByName(AllTutors(tutors), value).Some?
    ensures exists i :: FirstNamesake(tutors, value, i) && tutors[i].id == SelectByName(AllTutors(tutors), value).value
  {
    var rows := AllTutors(tutors);
    var id := SelectByName(rows, value).value;
    var i :| 0 <= i < |rows| && rows[i].name == value && rows[i].tutorId == id
             && forall j :: 0 <= j < i ==> rows[j].name != value;
    forall j | 0 <= j < i
      ensures FullName(tutors[j].firstName, tutors[j].lastName) != value
    {
      assert rows[j].name != value;
    }
    assert FirstNamesake(tutors, value, i);
  }

  /** Two tutors with the same name, the first one already matched: choosing
      the only option offered, "Ann Lee", selects the unavailable tutor. */
  lemma PickAsWrittenCanChooseUnavailable()
    ensures
      var ts := [Tutor("t1", "Ann", "Lee", "", "", "", false, None, map[]),
                 Tutor("t2", "Ann", "Lee", "", "", "", true, None, map[])];
      && AvailableTutors(AllTutors(ts)) == [RowOf(ts[1])]
      && RowOf(ts[1]).name == "Ann Lee"
      && PickAsWritten(ts, "Ann Lee") == Some("t1")
      && !ts[0].available
  {
    var ts := [Tutor("t1", "Ann", "Lee", "", "", "", false, None, map[]),
               Tutor("t2", "Ann", "Lee", "", "", "", true, None, map[])];
    var rows := AllTutors(ts);
    assert rows == [RowOf(ts[0]), RowOf(ts[1])];
    assert AvailableTutors(rows) == [RowOf(ts[1])] by {
      assert rows[1..] == [RowOf(ts[1])];
      assert rows[1..][1..] == [];
      assert Seqs.Filter(RowAvailable, rows) == Seqs.Filter(RowAvailable, rows[1..]);
      assert Seqs.Filter(RowAvailable, rows[1..]) == [RowOf(ts[1])] + Seqs.Filter(RowAvailable, []);
    }
  }

  /** The selection the list intends: the chosen name is looked up among the
      options shown, so the pick is always an available tutor with that name. */
  function PickOffered(tutors: seq<Tutor>, value: string): (id: Option<string>)
    ensures id.None? <==> forall t :: t in tutors && t.available ==> FullName(t.firstName, t.lastName) != value
    ensures id.Some? ==> exists t :: t in tutors && t.available && t.id == id.value && FullName(t.firstName, t.lastName) == value
  {
    var options := AvailableTutors(AllTutors(tutors));
    var r := SelectByName(options, value);
    RowsOfTutors(tutors);
    if r.Some? then
      var i :| 0 <= i < |options| && options[i].name == value && options[i].tutorId == r.value;
      assert options[i] in options;
      var t :| t in tutors && options[i] == RowOf(t);
      r
    else
      r
  }

  /** The select's `onChange` followed by `handleMatch`, as written: the name
      is resolved among all tutors, and nothing happens when nobody has it. */
  function ManualMatchAsWritten(learner: Option<Learner>, tutors: seq<Tutor>, value: string): (r: Option<MatchRequest>)
    ensures r.None? <==> learner.None? || forall t :: t in tutors ==> FullName(t.firstName, t.lastName) != value
    ensures r.Some? ==> learner.Some? && r.value.learnerId == learner.value.id
    ensures r.Some? ==> exists i :: FirstNamesake(tutors, value, i) && r.value.tutorId == tutors[i].id
  {
    match PickAsWritten(tutors, value)
    case None => None
    case Some(id) => HandleMatch(learner, tutors, id)
  }

  /** With unique ids, the handler as written pairs the learner with the first
      tutor in list order that bears the name, available or not. */
  lemma ManualMatchAsWrittenPairsFirstNamesake(learner: Learner, tutors: seq<Tutor>, value: string, i: int)
    requires UniqueTutorIds(tutors)
    requires FirstNamesake(tutors, value, i)
    ensures ManualMatchAsWritten(Some(learner), tutors, value) == Some(RequestFor(tutors[i], learner))
  {
    assert tutors[i] in tutors;
    var id := PickAsWritten(tutors, value).value;
    var k :| FirstNamesake(tutors, value, k) && tutors[k].id == id;
    assert k == i;
    MatchFromId(learner, tutors, tutors[i]);
  }

  /** Two namesakes, the unavailable one listed first, such as the two
      "Ann Lee"s above: the handler as written pairs the learner with the
      unavailable tutor, while the corrected one pairs the available tutor. */
  lemma ManualMatchAsWrittenPairsUnavailable(learner: Learner, u: Tutor, a: Tutor)
    requires u.id != a.id && !u.available && a.available
    requires FullName(u.firstName, u.lastName) == FullName(a.firstName, a.lastName)
    ensures ManualMatchAsWritten(Some(learner), [u, a], FullName(u.firstName, u.lastName)) == Some(RequestFor(u, learner))
    ensures ManualMatch(Some(learner), [u, a], FullName(u.firstName, u.lastName)) == Some(RequestFor(a, learner))
  {
    var ts, name := [u, a], FullName(u.firstName, u.lastName);
    assert FirstNamesake(ts, name, 0);
    ManualMatchAsWrittenPairsFirstNamesake(learner, ts, name, 0);
    assert a in ts;
    var id := PickOffered(ts, name).value;
    var t :| t in ts && t.available && t.id == id && FullName(t.firstName, t.lastName) == name;
    assert t == a;
    MatchFromId(learner, ts, a);
  }

  /** The select's `onChange` followed by `handleMatch`, with the corrected lookup. */
  function ManualMatch(learner: Option<Learner>, tutors: seq<Tutor>, value: string): (r: Option<MatchRequest>)
    ensures r.None? <==> learner.None? || forall t :: t in tutors && t.available ==> FullName(t.firstName, t.lastName) != value
  {
    match PickOffered(tutors, value)
    case None => None
    case Some(id) => HandleMatch(learner, tutors, id)
  }

  /** With unique ids, picking the name of an available tutor pairs the
      learner with an available tutor of that name (the first one offered). */
  lemma ManualMatchPairsOfferedTutor(learner: Learner, tutors: seq<Tutor>, value: string, named: Tutor)
    requires UniqueTutorIds(tutors)
    requires named in tutors && named.available && FullName(named.firstName, named.lastName) == value
    ensures exists t :: t in tutors && t.available && FullName(t.firstName, t.lastName) == value
                        && ManualMatch(Some(learner), tutors, value) == Some(RequestFor(t, learner))
  {
    var id := PickOffered(tutors, value).value;
    var t :| t in tutors && t.available && t.id == id && FullName(t.firstName, t.lastName) == value;
    MatchFromId(learner, tutors, t);
  }

  /** With unique ids, requesting a tutor's id requests that tutor. */
  lemma MatchFromId(learner: Learner, tutors: seq<Tutor>, t: Tutor)
    requires UniqueTutorIds(tutors)
    requires t in tutors
    ensures HandleMatch(Some(learner), tutors, t.id) == Some(RequestFor(t, learner))
  {
    var k :| 0 <= k < |tutors| && tutors[k] == t;
    var r := HandleMatch(Some(learner), tutors, t.id);
    var i :| 0 <= i < |tutors| && tutors[i].id == t.id && (forall j :: 0 <= j < i ==> tutors[j].id != t.id)
      && r.value == RequestFor(tutors[i], learner);
    assert i == k;
  }
}
