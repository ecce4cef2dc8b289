/** The records the screens exchange with the data layer: tutors, learners,
    their preference and availability maps, matches and match requests. */
module Records {

  import opened Options
  import Seqs

  /** A value of a preference record. The category flags are booleans; a record
      read back from storage may also carry the owning tutor's id as text. */
  datatype Value = Bool(flag: bool) | Text(text: string)

  /** JavaScript truthiness of a preference value. */
  predicate Truthy(v: Value) {
    match v
    case Bool(b) => b
    case Text(s) => s != ""
  }

  /** One `[key, value]` pair of `Object.entries`. */
  datatype Entry = Entry(key: string, value: Value)

  /** A preference record, as its entries in insertion order. */
  type Prefs = seq<Entry>

  /** The bookkeeping key a stored preference record carries besides the categories. */
  const TutorIdKey: string := "tutor_id"

  /** The category keys of a fresh tutor form, in form order. */
  const Categories: seq<string> := [
    "conversation", "esl_novice", "esl_beginner", "esl_intermediate",
    "citizenship", "sped_ela", "basic_math", "hiset_math",
    "basic_reading", "hiset_reading", "basic_writing", "hiset_writing"
  ]

  /** An object literal never repeats a key. */
  predicate UniqueKeys(p: Prefs) {
    forall i, j :: 0 <= i < j < |p| ==> p[i].key != p[j].key
  }

  /** `Object.keys`. */
  function Keys(p: Prefs): (ks: seq<string>)
    ensures |ks| == |p|
    ensures forall i :: 0 <= i < |p| ==> ks[i] == p[i].key
  {
    seq(|p|, i requires 0 <= i < |p| => p[i].key)
  }

  /** Property access `p[key]`: the value of the first entry with that key,
      `None` (JavaScript's `undefined`) when there is none. */
  function Lookup(p: Prefs, key: string): (r: Option<Value>)
    ensures r.None? <==> forall i :: 0 <= i < |p| ==> p[i].key != key
    ensures r.Some? ==>
      exists i :: 0 <= i < |p| && p[i] == Entry(key, r.value) && forall j :: 0 <= j < i ==> p[j].key != key
    decreases |p|
  {
    if |p| == 0 then None
    else if p[0].key == key then Some(p[0].value)
    else
      var r := Lookup(p[1..], key);
      if r.Some? then
        var i :| 0 <= i < |p| - 1 && p[1..][i] == Entry(key, r.value) && forall j :: 0 <= j < i ==> p[1..][j].key != key;
        assert p[i + 1] == Entry(key, r.value);
        r
      else r
  }

  /** Property access on a record that starts with entry `e`. */
  lemma LookupCons(e: Entry, rest: Prefs, key: string)
    ensures Lookup([e] + rest, key) == if e.key == key then Some(e.value) else Lookup(rest, key)
  {
    assert ([e] + rest)[1..] == rest;
  }

  /** A record starting with `e` repeats no key exactly when the rest repeats
      none and does not use `e`'s key. */
  lemma UniqueKeysCons(e: Entry, rest: Prefs)
    ensures UniqueKeys([e] + rest) <==> e.key !in Keys(rest) && UniqueKeys(rest)
  {
    var p := [e] + rest;
    if UniqueKeys(p) {
      forall i, j | 0 <= i < j < |rest|
        ensures rest[i].key != rest[j].key
      {
        assert rest[i] == p[i + 1] && rest[j] == p[j + 1];
      }
      forall i | 0 <= i < |rest|
        ensures Keys(rest)[i] != e.key
      {
        assert p[i + 1] == rest[i] && p[0] == e;
        assert p[0].key != p[i + 1].key;
      }
    }
  }

  /** `p[key]` is truthy; a missing key reads as `undefined`, which is not. */
  predicate Prefers(p: Prefs, key: string) {
    Lookup(p, key).Some? && Truthy(Lookup(p, key).value)
  }

  /** In a record without repeated keys, `key` is preferred exactly when some
      entry for it is truthy. */
  lemma PrefersIffTruthyEntry(p: Prefs, key: string)
    requires UniqueKeys(p)
    ensures Prefers(p, key) <==> exists i :: 0 <= i < |p| && p[i].key == key && Truthy(p[i].value)
  {
    if exists i :: 0 <= i < |p| && p[i].key == key && Truthy(p[i].value) {
      var i :| 0 <= i < |p| && p[i].key == key && Truthy(p[i].value);
      var j :| 0 <= j < |p| && p[j] == Entry(key, Lookup(p, key).value) && forall k :: 0 <= k < j ==> p[k].key != key;
      assert i == j;
    }
  }

  /** The keys whose value is truthy, in entry order:
      `Object.entries(p).filter(([key, value]) => value).map(([key]) => key)`. */
  function TruthyKeys(p: Prefs): (ks: seq<string>)
    ensures forall k :: k in ks <==> exists i :: 0 <= i < |p| && p[i].key == k && Truthy(p[i].value)
    ensures Seqs.IsSubsequence(ks, Keys(p))
    decreases |p|
  {
    if |p| == 0 then []
    else
      var rest := TruthyKeys(p[1..]);
      assert Keys(p)[1..] == Keys(p[1..]);
      if Truthy(p[0].value) then [p[0].key] + rest else rest
  }

  datatype Day = Monday | Tuesday | Wednesday | Thursday | Friday | Saturday

  /** The week the tool schedules, in display order (there is no Sunday). */
  const AllDays: seq<Day> := [Monday, Tuesday, Wednesday, Thursday, Friday, Saturday]

  /** The position of a day in `AllDays`. */
  function DayIndex(d: Day): (n: nat)
    ensures n < |AllDays| && AllDays[n] == d
  {
    match d
    case Monday => 0
    case Tuesday => 1
    case Wednesday => 2
    case Thursday => 3
    case Friday => 4
    case Saturday => 5
  }

  /** One day's window; an empty string means "not set". */
  datatype Slot = Slot(startTime: string, endTime: string)

  const EmptySlot: Slot := Slot("", "")

  type Availability = map<Day, Slot>

  /** Every day of the week has a slot, as in the tutor form's state. */
  predicate Complete(a: Availability) {
    forall d: Day :: d in a
  }

  datatype Tutor = Tutor(
    id: string,
    firstName: string,
    lastName: string,
    gender: string,
    email: string,
    phone: string,
    available: bool,
    preferences: Option<Prefs>,
    availability: Availability)

  datatype Learner = Learner(
    id: string,
    firstName: string,
    lastName: string,
    gender: string,
    level: string,
    available: bool,
    availability: Availability)

  /** The display name `${first_name} ${last_name}`. */
  function FullName(first: string, last: string): string {
    first + " " + last
  }

  /** The six arguments of the create-match call, tutor fields first. */
  datatype MatchRequest = MatchRequest(
    tutorId: string,
    tutorFirst: string,
    tutorLast: string,
    learnerId: string,
    learnerFirst: string,
    learnerLast: string)

  /** The snapshot of one side of a match. */
  datatype Party = Party(id: string, firstName: string, lastName: string)

  /** A stored match with its denormalised names. */
  datatype Match = Match(id: string, tutor: Party, learner: Party)

  /** The request that pairs tutor `t` with learner `l`. */
  function RequestFor(t: Tutor, l: Learner): MatchRequest {
    MatchRequest(t.id, t.firstName, t.lastName, l.id, l.firstName, l.lastName)
  }

  predicate UniqueTutorIds(ts: seq<Tutor>) {
    forall i, j :: 0 <= i < j < |ts| ==> ts[i].id != ts[j].id
  }

  predicate UniqueLearnerIds(ls: seq<Learner>) {
    forall i, j :: 0 <= i < j < |ls| ==> ls[i].id != ls[j].id
  }
}
