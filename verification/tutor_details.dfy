/** The tutor details page: what it shows for a loaded tutor, the delete
    confirmation toggle and the guard in front of the delete call. */
module TutorDetails {

  import opened Options
  import opened Records
  import opened Schedule
  import Seqs
  import TutorMatch

  /** `toggleDeleteMessage`: the confirmation box flips between open and closed. */
  function ToggleDeleteMessage(open: bool): (r: bool)
    ensures r != open
  {
    if open then false else true
  }

  /** Two clicks on "Delete" (or "Delete" then "No") leave the box as it was. */
  lemma ToggleTwiceRestores(open: bool)
    ensures ToggleDeleteMessage(ToggleDeleteMessage(open)) == open
  {
  }

  /** `handleDelete`'s guard: the delete call is made with the route id,
      and not at all when the id is missing or empty. */
  function DeleteRequest(id: Option<string>): (r: Option<string>)
    ensures r.Some? <==> id.Some? && id.value != ""
    ensures r.Some? ==> r.value == id.value
  {
    if id.None? || id.value == "" then None else id
  }

  /** `key.replace(/_/g, " ")`: every underscore becomes a space. */
  function Label(key: string): (r: string)
    ensures |r| == |key|
    ensures '_' !in r
    ensures forall i :: 0 <= i < |key| && key[i] != '_' ==> r[i] == key[i]
    ensures forall i :: 0 <= i < |key| && key[i] == '_' ==> r[i] == ' '
    decreases |key|
  {
    if |key| == 0 then ""
    else [if key[0] == '_' then ' ' else key[0]] + Label(key[1..])
  }

  /** The preference list as the page builds it: every truthy entry of the
      stored record, in entry order, with no exception for `tutor_id`. */
  function ListedPreferencesAsWritten(p: Option<Prefs>): (keys: seq<string>)
    ensures p.None? ==> keys == []
    ensures p.Some? ==> forall k :: k in keys <==>
      exists i :: 0 <= i < |p.value| && p.value[i].key == k && Truthy(p.value[i].value)
    ensures p.Some? ==> Seqs.IsSubsequence(keys, Keys(p.value))
  {
    if p.None? then [] else TruthyKeys(p.value)
  }

  /** A stored record carrying its owner's id lists that id as a preference. */
  lemma AsWrittenListsTutorId()
    ensures TutorIdKey in ListedPreferencesAsWritten(Some([Entry(TutorIdKey, Text("t1")), Entry("conversation", Bool(true))]))
  {
    var p := [Entry(TutorIdKey, Text("t1")), Entry("conversation", Bool(true))];
    assert p[0].key == TutorIdKey && Truthy(p[0].value);
  }

  /** The preference list with the bookkeeping key skipped, as the match
      screen does: exactly the categories the tutor prefers. */
  function ListedPreferences(p: Option<Prefs>): (keys: seq<string>)
    ensures p.None? ==> keys == []
    ensures TutorIdKey !in keys
    ensures p.Some? ==> forall k :: k in keys <==>
      k != TutorIdKey && exists i :: 0 <= i < |p.value| && p.value[i].key == k && Truthy(p.value[i].value)
    ensures p.Some? ==> Seqs.IsSubsequence(keys, Keys(p.value))
  {
    if p.None? then [] else TutorMatch.PreferredLevels(p.value)
  }

  /** The page lists a level exactly when the match screen offers the tutor's
      available learners of that level. */
  lemma ListedLevelsAreMatchedLevels(t: Tutor, l: Learner)
    requires t.preferences.Some? && l.available
    ensures l.level in ListedPreferences(t.preferences) <==> TutorMatch.FilterLearners(Some(t), [l]) == [l]
  {
    var r := TutorMatch.FilterLearners(Some(t), [l]);
    assert multiset(r)[l] == if TutorMatch.Offered(t.preferences.value, l) then 1 else 0;
    if r != [] {
      assert r[0] in r;
    }
  }

  /** What the page shows. */
  datatype View =
    | Loading
    | Page(
        heading: string,
        preferences: seq<string>,
        status: string,
        days: seq<DayEntry>,
        matchOffered: bool,
        confirmOpen: bool)

  /** The availability line under the tutor's name. */
  function Status(t: Tutor): string {
    "(" + t.firstName + (if t.available then " is available" else " is matched") + ")"
  }

  /** The page for a tutor that may not be loaded yet, with the delete
      confirmation open or closed. */
  function Render(tutor: Option<Tutor>, deleteOpen: bool): (v: View)
    ensures v.Loading? <==> tutor.None?
    ensures v.Page? ==> v.heading == FullName(tutor.value.firstName, tutor.value.lastName)
    ensures v.Page? ==> v.matchOffered == tutor.value.available
    ensures v.Page? ==> v.confirmOpen == deleteOpen
    ensures v.Page? ==> |v.preferences| == |ListedPreferences(tutor.value.preferences)|
    ensures v.Page? ==> forall i :: 0 <= i < |v.preferences| ==>
      v.preferences[i] == Label(ListedPreferences(tutor.value.preferences)[i])
    ensures v.Page? ==> forall e :: e in v.days <==>
      e.day in tutor.value.availability && IsActive(e.slot) && tutor.value.availability[e.day] == e.slot
    ensures v.Page? ==> forall i, j :: 0 <= i < j < |v.days| ==> DayIndex(v.days[i].day) < DayIndex(v.days[j].day)
  {
    if tutor.None? then Loading
    else
      var t := tutor.value;
      var keys := ListedPreferences(t.preferences);
      Page(
        FullName(t.firstName, t.lastName),
        seq(|keys|, i requires 0 <= i < |keys| => Label(keys[i])),
        Status(t),
        ActiveDays(t.availability),
        t.available,
        deleteOpen)
  }

  /** The status line names the tutor's state: available tutors are offered
      for matching, matched ones are not. */
  lemma StatusMatchesButton(t: Tutor, deleteOpen: bool)
    ensures Render(Some(t), deleteOpen).matchOffered <==> Status(t) == "(" + t.firstName + " is available)"
  {
    var avail := "(" + t.firstName + " is available)";
    if !t.available {
      var s := Status(t);
      assert s == "(" + t.firstName + " is matched)";
      assert s[|t.firstName| + 5] == 'm' && avail[|t.firstName| + 5] == 'a';
    }
  }
}
