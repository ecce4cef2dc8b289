/** The tutor's match screen: which learners are offered for one tutor, the
    unfiltered learner list behind "Choose Specific Learner", and the guard and
    payload of the create-match call. */
module TutorMatch {

  import opened Options
  import opened Records
  import Seqs

  /** `preferredLevels`: the keys of truthy entries other than the `tutor_id`
      bookkeeping key, in entry order. */
  function PreferredLevels(p: Prefs): (levels: seq<string>)
    ensures forall k :: k in levels <==>
      k != TutorIdKey && exists i :: 0 <= i < |p| && p[i].key == k && Truthy(p[i].value)
    ensures Seqs.IsSubsequence(levels, Keys(p))
    decreases |p|
  {
    if |p| == 0 then []
    else
      var rest := PreferredLevels(p[1..]);
      assert Keys(p)[1..] == Keys(p[1..]);
      if p[0].key != TutorIdKey && Truthy(p[0].value) then [p[0].key] + rest else rest
  }

  /** A learner is offered to a tutor with preference record `p` when the
      learner is available and the learner's level is a preferred level. */
  predicate Offered(p: Prefs, l: Learner) {
    l.available && l.level in PreferredLevels(p)
  }

  function OfferedFor(p: Prefs): Learner -> bool {
    l => Offered(p, l)
  }

  /** `filterLearners`: nothing while the tutor is not loaded or has no
      preference record; otherwise the offered learners, each as often as in
      `learners`, in their original order. */
  function FilterLearners(tutor: Option<Tutor>, learners: seq<Learner>): (r: seq<Learner>)
    ensures tutor.None? || tutor.value.preferences.None? ==> r == []
    ensures tutor.Some? && tutor.value.preferences.Some? ==> forall l :: l in r <==>
      && l in learners
      && l.available
      && l.level != TutorIdKey
      && exists i :: 0 <= i < |tutor.value.preferences.value|
           && tutor.value.preferences.value[i].key == l.level
           && Truthy(tutor.value.preferences.value[i].value)
    ensures tutor.Some? && tutor.value.preferences.Some? ==> forall l ::
      multiset(r)[l] == if Offered(tutor.value.preferences.value, l) then multiset(learners)[l] else 0
    ensures Seqs.IsSubsequence(r, learners)
  {
    if tutor.None? || tutor.value.preferences.None? then []
    else Seqs.Filter(OfferedFor(tutor.value.preferences.value), learners)
  }

  /** One row of `getAllLearners`. */
  datatype LearnerRow = LearnerRow(
    learnerId: string,
    name: string,
    available: bool,
    level: string,
    availability: Availability)

  function RowOf(l: Learner): LearnerRow {
    LearnerRow(l.id, FullName(l.firstName, l.lastName), l.available, l.level, l.availability)
  }

  /** `getAllLearners`: one row per learner, same order, named "first last". */
  function AllLearners(learners: seq<Learner>): (rows: seq<LearnerRow>)
    ensures |rows| == |learners|
    ensures forall i :: 0 <= i < |learners| ==>
      && rows[i].learnerId == learners[i].id
      && rows[i].name == learners[i].firstName + " " + learners[i].lastName
      && rows[i].available == learners[i].available
      && rows[i].level == learners[i].level
      && rows[i].availability == learners[i].availability
    decreases |learners|
  {
    if |learners| == 0 then [] else [RowOf(learners[0])] + AllLearners(learners[1..])
  }

  function RowAvailable(row: LearnerRow): bool {
    row.available
  }

  /** `availableLearners`: the rows whose `available` flag is set, in order;
      these are the options of the manual-selection list. */
  function AvailableLearners(rows: seq<LearnerRow>): (r: seq<LearnerRow>)
    ensures forall row :: row in r <==> row in rows && row.available
    ensures forall row :: multiset(r)[row] == if row.available then multiset(rows)[row] else 0
    ensures Seqs.IsSubsequence(r, rows)
  {
    Seqs.Filter(RowAvailable, rows)
  }

  function LearnerAvailable(l: Learner): bool {
    l.available
  }

  /** The option list is the row list of the available learners. */
  lemma {:induction false} AvailableRowsAreRowsOfAvailableLearners(learners: seq<Learner>)
    ensures AvailableLearners(AllLearners(learners)) == AllLearners(Seqs.Filter(LearnerAvailable, learners))
    decreases |learners|
  {
    if |learners| > 0 {
      var rows := AllLearners(learners);
      assert rows == [RowOf(learners[0])] + AllLearners(learners[1..]);
      assert rows[0] == RowOf(learners[0]) && rows[1..] == AllLearners(learners[1..]);
      AvailableRowsAreRowsOfAvailableLearners(learners[1..]);
    }
  }

  /** `handleMatch(learnerID)`: no request while the tutor is not loaded or
      when no learner has that id; otherwise the tutor and the first learner
      with the id, fields copied verbatim, tutor first. */
  function HandleMatch(tutor: Option<Tutor>, learners: seq<Learner>, learnerId: string): (r: Option<MatchRequest>)
    ensures r.None? <==> tutor.None? || forall l :: l in learners ==> l.id != learnerId
    ensures r.Some? ==> tutor.Some? && exists i ::
      && 0 <= i < |learners|
      && learners[i].id == learnerId
      && (forall j :: 0 <= j < i ==> learners[j].id != learnerId)
      && r.value == MatchRequest(tutor.value.id, tutor.value.firstName, tutor.value.lastName,
                                 learners[i].id, learners[i].firstName, learners[i].lastName)
  {
    match tutor
    case None => None
    case Some(t) =>
      match Seqs.FindFirst((l: Learner) => l.id == learnerId, learners)
      case None => None
      case Some(i) => Some(RequestFor(t, learners[i]))
  }

  /** With unique ids, requesting a learner's id requests that learner. */
  lemma MatchFromId(tutor: Tutor, learners: seq<Learner>, l: Learner)
    requires UniqueLearnerIds(learners)
    requires l in learners
    ensures HandleMatch(Some(tutor), learners, l.id) == Some(RequestFor(tutor, l))
  {
    var k :| 0 <= k < |learners| && learners[k] == l;
    var r := HandleMatch(Some(tutor), learners, l.id);
    var i :| 0 <= i < |learners| && learners[i].id == l.id && (forall j :: 0 <= j < i ==> learners[j].id != l.id)
      && r.value == RequestFor(tutor, learners[i]);
    assert i == k;
  }

  /** An offered learner is listed, and pressing "Match" next to it requests
      the tutor and exactly that learner, provided learner ids are unique. */
  lemma MatchFromList(tutor: Tutor, learners: seq<Learner>, l: Learner)
    requires UniqueLearnerIds(learners)
    requires tutor.preferences.Some? && l in learners && Offered(tutor.preferences.value, l)
    ensures l in FilterLearners(Some(tutor), learners)
    ensures HandleMatch(Some(tutor), learners, l.id) == Some(RequestFor(tutor, l))
  {
    MatchFromId(tutor, learners, l);
  }

  /** Every learner has its row in `getAllLearners`, and every row is some learner's. */
  lemma RowsOfLearners(learners: seq<Learner>)
    ensures forall l :: l in learners ==> RowOf(l) in AllLearners(learners)
    ensures forall row :: row in AllLearners(learners) ==> exists l :: l in learners && row == RowOf(l)
  {
    var rows := AllLearners(learners);
    forall l | l in learners ensures RowOf(l) in rows {
      var i :| 0 <= i < |learners| && learners[i] == l;
      assert rows[i] == RowOf(l);
    }
    forall row | row in rows ensures exists l :: l in learners && row == RowOf(l) {
      var i :| 0 <= i < |rows| && rows[i] == row;
      assert row == RowOf(learners[i]);
    }
  }

  function NameIs(value: string): LearnerRow -> bool {
    (row: LearnerRow) => row.name == value
  }

  /** `rows.find(l => l.name === value)`, reduced to the id the screen uses. */
  function SelectByName(rows: seq<LearnerRow>, value: string): (id: Option<string>)
    ensures id.None? <==> forall row :: row in rows ==> row.name != value
    ensures id.Some? ==> exists i ::
      && 0 <= i < |rows|
      && rows[i].name == value
      && rows[i].learnerId == id.value
      && forall j :: 0 <= j < i ==> rows[j].name != value
  {
    match Seqs.FindFirst(NameIs(value), rows)
    case None => None
    case Some(i) => Some(rows[i].learnerId)
  }

  /** The select's handler as written: the chosen option's name is looked up
      among all learners, not among the available ones the options come from. */
  function PickAsWritten(learners: seq<Learner>, value: string): (id: Option<string>)
    ensures id.None? <==> forall l :: l in learners ==> FullName(l.firstName, l.lastName) != value
    ensures id.Some? ==> exists l :: l in learners && l.id == id.value && FullName(l.firstName, l.lastName) == value
    ensures id.Some? ==> exists i :: FirstNamesake(learners, value, i) && learners[i].id == id.value
  {
    RowsOfLearners(learners);
    var id := SelectByName(AllLearners(learners), value);
    if id.Some? then
      SelectedIsFirstNamesake(learners, value);
      id
    else
      id
  }

  /** `learners[i]` is the first learner in list order whose full name is `value`. */
  predicate FirstNamesake(learners: seq<Learner>, value: string, i: int) {
    && 0 <= i < |learners|
    && FullName(learners[i].firstName, learners[i].lastName) == value
    && forall j :: 0 <= j < i ==> FullName(learners[j].firstName, learners[j].lastName) != value
  }

  /** The row the select finds by name is the row of the first namesake. */
  lemma SelectedIsFirstNamesake(learners: seq<Learner>, value: string)
    requires SelectByName(AllLearners(learners), value).Some?
    ensures exists i :: FirstNamesake(learners, value, i) && learners[i].id == SelectByName(AllLearners(learners), value).value
  {
    var rows := AllLearners(learners);
    var id := SelectByName(rows, value).value;
    var i :| 0 <= i < |rows| && rows[i].name == value && rows[i].learnerId == id
             && forall j :: 0 <= j < i ==> rows[j].name != value;
    forall j | 0 <= j < i
      ensures FullName(learners[j].firstName, learners[j].lastName) != value
    {
      assert rows[j].name != value;
    }
    assert FirstNamesake(learners, value, i);
  }

  /** Two learners with the same name, the first one already matched: choosing
      the only option offered, "Sam Cole", selects the unavailable learner. */
  lemma PickAsWrittenCanChooseUnavailable()
    ensures
      var ls := [Learner("l1", "Sam", "Cole", "", "basic_math", false, map[]),
                 Learner("l2", "Sam", "Cole", "", "basic_math", true, map[])];
      && AvailableLearners(AllLearners(ls)) == [RowOf(ls[1])]
      && RowOf(ls[1]).name == "Sam Cole"
      && PickAsWritten(ls, "Sam Cole") == Some("l1")
      && !ls[0].available
  {
    var ls := [Learner("l1", "Sam", "Cole", "", "basic_math", false, map[]),
               Learner("l2", "Sam", "Cole", "", "basic_math", true, map[])];
    var rows := AllLearners(ls);
    assert rows == [RowOf(ls[0]), RowOf(ls[1])];
    assert AvailableLearners(rows) == [RowOf(ls[1])] by {
      assert rows[1..] == [RowOf(ls[1])];
      assert rows[1..][1..] == [];
      assert Seqs.Filter(RowAvailable, rows) == Seqs.Filter(RowAvailable, rows[1..]);
      assert Seqs.Filter(RowAvailable, rows[1..]) == [RowOf(ls[1])] + Seqs.Filter(RowAvailable, []);
    }
  }

  /** The selection the list intends: the chosen name is looked up among the
      options shown, so the pick is always an available learner with that name. */
  function PickOffered(learners: seq<Learner>, value: string): (id: Option<string>)
    ensures id.None? <==> forall l :: l in learners && l.available ==> FullName(l.firstName, l.lastName) != value
    ensures id.Some? ==> exists l :: l in learners && l.available && l.id == id.value && FullName(l.firstName, l.lastName) == value
  {
    var options := AvailableLearners(AllLearners(learners));
    var r := SelectByName(options, value);
    RowsOfLearners(learners);
    if r.Some? then
      var i :| 0 <= i < |options| && options[i].name == value && options[i].learnerId == r.value;
      assert options[i] in options;
      var l :| l in learners && options[i] == RowOf(l);
      r
    else
      r
  }

  /** The select's `onChange` followed by `handleMatch`, as written: the name
      is resolved among all learners, and nothing happens when nobody has it. */
  function ManualMatchAsWritten(tutor: Option<Tutor>, learners: seq<Learner>, value: string): (r: Option<MatchRequest>)
    ensures r.None? <==> tutor.None? || forall l :: l in learners ==> FullName(l.firstName, l.lastName) != value
    ensures r.Some? ==> tutor.Some? && r.value.tutorId == tutor.value.id
    ensures r.Some? ==> exists i :: FirstNamesake(learners, value, i) && r.value.learnerId == learners[i].id
  {
    match PickAsWritten(learners, value)
    case None => None
    case Some(id) => HandleMatch(tutor, learners, id)
  }

  /** With unique ids, the handler as written pairs the tutor with the first
      learner in list order that bears the name, available or not. */
  lemma ManualMatchAsWrittenPairsFirstNamesake(tutor: Tutor, learners: seq<Learner>, value: string, i: int)
    requires UniqueLearnerIds(learners)
    requires FirstNamesake(learners, value, i)
    ensures ManualMatchAsWritten(Some(tutor), learners, value) == Some(RequestFor(tutor, learners[i]))
  {
    assert learners[i] in learners;
    var id := PickAsWritten(learners, value).value;
    var k :| FirstNamesake(learners, value, k) && learners[k].id == id;
    assert k == i;
    MatchFromId(tutor, learners, learners[i]);
  }

  /** Two namesakes, the unavailable one listed first, such as the two
      "Sam Cole"s above: the handler as written pairs the tutor with the
      unavailable learner, while the corrected one pairs the available learner. */
  lemma ManualMatchAsWrittenPairsUnavailable(tutor: Tutor, u: Learner, a: Learner)
    requires u.id != a.id && !u.available && a.available
    requires FullName(u.firstName, u.lastName) == FullName(a.firstName, a.lastName)
    ensures ManualMatchAsWritten(Some(tutor), [u, a], FullName(u.firstName, u.lastName)) == Some(RequestFor(tutor, u))
    ensures ManualMatch(Some(tutor), [u, a], FullName(u.firstName, u.lastName)) == Some(RequestFor(tutor, a))
  {
    var ls, name := [u, a], FullName(u.firstName, u.lastName);
    assert FirstNamesake(ls, name, 0);
    ManualMatchAsWrittenPairsFirstNamesake(tutor, ls, name, 0);
    assert a in ls;
    var id := PickOffered(ls, name).value;
    var l :| l in ls && l.available && l.id == id && FullName(l.firstName, l.lastName) == name;
    assert l == a;
    MatchFromId(tutor, ls, a);
  }

  /** The select's `onChange` followed by `handleMatch`, with the corrected lookup. */
  function ManualMatch(tutor: Option<Tutor>, learners: seq<Learner>, value: string): (r: Option<MatchRequest>)
    ensures r.None? <==> tutor.None? || forall l :: l in learners && l.available ==> FullName(l.firstName, l.lastName) != value
  {
    match PickOffered(learners, value)
    case None => None
    case Some(id) => HandleMatch(tutor, learners, id)
  }

  /** With unique ids, picking the name of an available learner pairs the
      tutor with an available learner of that name (the first one offered). */
  lemma ManualMatchPairsOfferedLearner(tutor: Tutor, learners: seq<Learner>, value: string, named: Learner)
    requires UniqueLearnerIds(learners)
    requires named in learners && named.available && FullName(named.firstName, named.lastName) == value
    ensures exists l :: l in learners && l.available && FullName(l.firstName, l.lastName) == value
                        && ManualMatch(Some(tutor), learners, value) == Some(RequestFor(tutor, l))
  {
    var id := PickOffered(learners, value).value;
    var l :| l in learners && l.available && l.id == id && FullName(l.firstName, l.lastName) == value;
    MatchFromId(tutor, learners, l);
  }
}
