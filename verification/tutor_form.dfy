/** The "Add a Tutor" form: the error map `validateForm` builds and the record
    updates `handleChange` makes. */
module TutorForm {

  import opened Options
  import opened Records
  import opened Strings

  /** The form's state: a tutor record without an id. */
  datatype Form = Form(
    firstName: string,
    lastName: string,
    gender: string,
    phone: string,
    email: string,
    available: bool,
    preferences: Prefs,
    availability: Availability)

  /** The form as first shown: empty fields, available, every category
      unchecked, every day without times. */
  const InitialForm: Form := Form("", "", "", "", "", true,
    seq(|Categories|, i requires 0 <= i < |Categories| => Entry(Categories[i], Bool(false))),
    map[Monday := EmptySlot, Tuesday := EmptySlot, Wednesday := EmptySlot,
        Thursday := EmptySlot, Friday := EmptySlot, Saturday := EmptySlot])

  /** The error object: one optional message per field, `None` where the
      field has no key. */
  datatype Errors = Errors(
    firstName: Option<string>,
    lastName: Option<string>,
    phone: Option<string>,
    email: Option<string>,
    gender: Option<string>,
    preferences: Option<string>,
    availability: Option<string>)

  const NoErrors: Errors := Errors(None, None, None, None, None, None, None)

  function Present(m: Option<string>): nat {
    if m.Some? then 1 else 0
  }

  /** `Object.keys(errors).length`. */
  function KeyCount(e: Errors): (n: nat)
    ensures n == 0 <==> e == NoErrors
  {
    Present(e.firstName) + Present(e.lastName) + Present(e.phone) + Present(e.email)
      + Present(e.gender) + Present(e.preferences) + Present(e.availability)
  }

  const FirstNameRequired: string := "First name is required"
  const LastNameRequired: string := "Last name is required"
  const PhoneRequired: string := "Phone number is required"
  const EmailRequired: string := "Email is required"
  const GenderRequired: string := "Gender is required"
  const PhoneInvalid: string := "Phone number is invalid"
  const EmailInvalid: string := "Email is invalid"
  const PreferenceRequired: string := "At least one preference must be selected"
  const EndTimeRequired: string := "End time is required if a start time is selected"
  const StartTimeRequired: string := "Start time is required if an end time is selected"
  const StartBeforeEnd: string := "Start time must be before end time"

  /** `Object.values(preferences).some(value => value)`. */
  predicate HasCheckedPreference(p: Prefs) {
    exists i :: 0 <= i < |p| && Truthy(p[i].value)
  }

  /** A day passes the form's checks when it has no times, or a start that is
      before its end in string order. */
  predicate DayOk(s: Slot) {
    || (s.startTime == "" && s.endTime == "")
    || (s.startTime != "" && s.endTime != "" && Less(s.startTime, s.endTime))
  }

  /** One iteration of the `dayKeys.forEach` body: the availability error
      after looking at slot `s`, given the error before it. */
  function CheckDay(before: Option<string>, s: Slot): Option<string> {
    var afterPresence :=
      if s.startTime != "" && s.endTime == "" then Some(EndTimeRequired)
      else if s.startTime == "" && s.endTime != "" then Some(StartTimeRequired)
      else before;
    if s.startTime != "" && s.endTime != "" && !Less(s.startTime, s.endTime) then Some(StartBeforeEnd)
    else afterPresence
  }

  /** The message a failing day writes: which time is missing, or the order. */
  function DayMessage(s: Slot): (m: string)
    requires !DayOk(s)
    ensures m == EndTimeRequired <==> s.startTime != "" && s.endTime == ""
    ensures m == StartTimeRequired <==> s.startTime == "" && s.endTime != ""
    ensures m == StartBeforeEnd <==> s.startTime != "" && s.endTime != ""
  {
    CheckDay(None, s).value
  }

  /** A day that ends when it starts is rejected with the "start before end"
      message, since the comparison is non-strict. */
  lemma EqualTimesFail(s: Slot)
    requires s.startTime != "" && s.startTime == s.endTime
    ensures !DayOk(s) && DayMessage(s) == StartBeforeEnd
  {
    LessIrreflexive(s.startTime);
  }

  /** A passing day leaves the error as it was; a failing day overwrites it
      with its own message. */
  lemma CheckDayEffect(before: Option<string>, s: Slot)
    ensures DayOk(s) ==> CheckDay(before, s) == before
    ensures !DayOk(s) ==> CheckDay(before, s) == Some(DayMessage(s))
  {
  }

  /** The `dayKeys.forEach` loop over `days`, starting from error `before`:
      with no failing day the error is unchanged; otherwise it is the message
      of the LAST failing day. */
  function CheckDays(a: Availability, days: seq<Day>, before: Option<string>): (r: Option<string>)
    requires forall d :: d in days ==> d in a
    ensures (forall i :: 0 <= i < |days| ==> DayOk(a[days[i]])) ==> r == before
    ensures forall i :: 0 <= i < |days| && !DayOk(a[days[i]]) && (forall j :: i < j < |days| ==> DayOk(a[days[j]]))
              ==> r == Some(DayMessage(a[days[i]]))
    decreases |days|
  {
    if |days| == 0 then before
    else
      CheckDayEffect(before, a[days[0]]);
      CheckDays(a, days[1..], CheckDay(before, a[days[0]]))
  }

  /** `if (!value.trim()) newErrors.field = message`. */
  function RequiredError(value: string, message: string): (r: Option<string>)
    ensures r == if IsBlank(value) then Some(message) else None
  {
    if Trim(value) == "" then Some(message) else None
  }

  /** The two assignments a patterned field receives, in source order: the
      "required" message when the value is blank, then the "invalid" message,
      which replaces it, when the value is non-empty and fails the pattern. */
  function PatternError(value: string, matches: bool, required: string, invalid: string): (r: Option<string>)
    ensures r.Some? <==> IsBlank(value) || (value != "" && !matches)
    ensures r.Some? ==> r.value == if value != "" && !matches then invalid else required
  {
    var afterRequired := RequiredError(value, required);
    if value != "" && !matches then Some(invalid) else afterRequired
  }

  /** The phone field's final message: none exactly when the number has ten
      digits; "required" when it is empty, "invalid" otherwise. */
  function PhoneError(phone: string): (r: Option<string>)
    ensures r.Some? <==> !IsPhone(phone)
    ensures r.Some? ==> r.value == if phone == "" then PhoneRequired else PhoneInvalid
  {
    PatternsRejectBlank(phone, "");
    PatternError(phone, IsPhone(phone), PhoneRequired, PhoneInvalid)
  }

  /** The e-mail field's final message, as for the phone. */
  function EmailError(email: string): (r: Option<string>)
    ensures r.Some? <==> !IsEmail(email)
    ensures r.Some? ==> r.value == if email == "" then EmailRequired else EmailInvalid
  {
    PatternsRejectBlank("", email);
    PatternError(email, IsEmail(email), EmailRequired, EmailInvalid)
  }

  /** The availability message after the loop over the week: present exactly
      when some day fails, and then the message of the last failing day. */
  function AvailabilityError(a: Availability): (r: Option<string>)
    requires Complete(a)
    ensures ReportsLastFailingDay(a, r)
  {
    AvailabilityVerdict(a);
    CheckDays(a, AllDays, None)
  }

  /** `validateForm`'s error object. Each field ends with the last message
      assigned to it: a non-empty phone or e-mail that fails its pattern ends
      with "invalid", not "required", and the availability message is the one
      of the last failing day. */
  function ValidateForm(f: Form): (errors: Errors)
    requires Complete(f.availability)
    ensures errors.firstName == if IsBlank(f.firstName) then Some(FirstNameRequired) else None
    ensures errors.lastName == if IsBlank(f.lastName) then Some(LastNameRequired) else None
    ensures errors.gender == if IsBlank(f.gender) then Some(GenderRequired) else None
    ensures errors.phone.Some? <==> !IsPhone(f.phone)
    ensures errors.phone.Some? ==> errors.phone.value == if f.phone == "" then PhoneRequired else PhoneInvalid
    ensures errors.email.Some? <==> !IsEmail(f.email)
    ensures errors.email.Some? ==> errors.email.value == if f.email == "" then EmailRequired else EmailInvalid
    ensures errors.preferences == if HasCheckedPreference(f.preferences) then None else Some(PreferenceRequired)
    ensures ReportsLastFailingDay(f.availability, errors.availability)
  {
    Errors(
      firstName := RequiredError(f.firstName, FirstNameRequired),
      lastName := RequiredError(f.lastName, LastNameRequired),
      phone := PhoneError(f.phone),
      email := EmailError(f.email),
      gender := RequiredError(f.gender, GenderRequired),
      preferences := if HasCheckedPreference(f.preferences) then None else Some(PreferenceRequired),
      availability := AvailabilityError(f.availability))
  }

  /** Neither pattern accepts a blank string. */
  lemma PatternsRejectBlank(phone: string, email: string)
    ensures IsPhone(phone) ==> !IsBlank(phone)
    ensures IsEmail(email) ==> !IsBlank(email)
    ensures phone == "" ==> IsBlank(phone)
    ensures email == "" ==> IsBlank(email)
  {
    if IsPhone(phone) {
      assert !IsWhitespace(phone[0]);
    }
    if IsEmail(email) {
      assert !IsWhitespace(email[0]);
    }
  }

  /** `m` is the week's availability message: present exactly when some day
      fails, and then the message of the last failing day in weekday order. */
  ghost predicate ReportsLastFailingDay(a: Availability, m: Option<string>)
    requires Complete(a)
  {
    && (m.Some? <==> exists d: Day :: !DayOk(a[d]))
    && (m.Some? ==> exists i :: LastFailing(a, i) && m.value == DayMessage(a[AllDays[i]]))
  }

  /** Day `i` of the week is the last one that fails. */
  predicate LastFailing(a: Availability, i: int)
    requires Complete(a)
  {
    && 0 <= i < |AllDays|
    && !DayOk(a[AllDays[i]])
    && forall j :: i < j < |AllDays| ==> DayOk(a[AllDays[j]])
  }

  /** The loop over the whole week reports an error exactly when some day fails,
      and then the message of the last failing day in weekday order. */
  lemma AvailabilityVerdict(a: Availability)
    requires Complete(a)
    ensures CheckDays(a, AllDays, None).Some? <==> exists d: Day :: !DayOk(a[d])
    ensures CheckDays(a, AllDays, None).Some? ==> exists i ::
      LastFailing(a, i) && CheckDays(a, AllDays, None) == Some(DayMessage(a[AllDays[i]]))
  {
    if exists d: Day :: !DayOk(a[d]) {
      LastFailingDay(a);
      var i :| LastFailing(a, i);
      LastFailingWins(a, i);
    } else {
      WeekPasses(a);
    }
  }

  /** The week loop ends with the message of the last failing day. */
  lemma LastFailingWins(a: Availability, i: int)
    requires Complete(a) && LastFailing(a, i)
    ensures CheckDays(a, AllDays, None) == Some(DayMessage(a[AllDays[i]]))
  {
  }

  /** With every day passing, the week loop reports nothing. */
  lemma WeekPasses(a: Availability)
    requires Complete(a)
    requires forall d: Day :: DayOk(a[d])
    ensures CheckDays(a, AllDays, None) == None
  {
    assert forall i :: 0 <= i < |AllDays| ==> DayOk(a[AllDays[i]]);
  }

  /** If some day fails, there is a last failing day. */
  lemma LastFailingDay(a: Availability)
    requires Complete(a)
    requires exists d: Day :: !DayOk(a[d])
    ensures exists i :: LastFailing(a, i)
  {
    var d: Day :| !DayOk(a[d]);
    var i := DayIndex(d);
    while i + 1 < |AllDays| && exists j :: i < j < |AllDays| && !DayOk(a[AllDays[j]])
      invariant 0 <= i < |AllDays| && !DayOk(a[AllDays[i]])
      decreases |AllDays| - i
    {
      var k :| i < k < |AllDays| && !DayOk(a[AllDays[k]]);
      i := k;
    }
    assert LastFailing(a, i);
  }

  /** The fields of a form that passes validation. */
  predicate Acceptable(f: Form)
    requires Complete(f.availability)
  {
    && !IsBlank(f.firstName)
    && !IsBlank(f.lastName)
    && !IsBlank(f.gender)
    && IsPhone(f.phone)
    && IsEmail(f.email)
    && HasCheckedPreference(f.preferences)
    && forall d: Day :: DayOk(f.availability[d])
  }

  /** `Object.keys(newErrors).length === 0`: the form is submitted exactly when
      every field passes. */
  function IsValid(f: Form): (ok: bool)
    requires Complete(f.availability)
    ensures ok <==> Acceptable(f)
  {
    KeyCount(ValidateForm(f)) == 0
  }

  /** A form whose phone is whitespace only is not blank-by-emptiness: the
      "required" message is overwritten by "invalid". */
  lemma WhitespacePhoneIsInvalid(f: Form)
    requires Complete(f.availability)
    requires f.phone != "" && IsBlank(f.phone)
    ensures ValidateForm(f).phone == Some(PhoneInvalid)
  {
    assert !IsDigit(f.phone[0]);
  }

  /** The untouched form reports every required field and the missing
      preference, and nothing about availability. */
  lemma InitialFormErrors()
    ensures Complete(InitialForm.availability)
    ensures ValidateForm(InitialForm) == Errors(
      Some(FirstNameRequired), Some(LastNameRequired), Some(PhoneRequired),
      Some(EmailRequired), Some(GenderRequired), Some(PreferenceRequired), None)
    ensures !IsValid(InitialForm)
  {
    InitialWeekPasses();
    var p := InitialForm.preferences;
    assert forall i :: 0 <= i < |p| ==> p[i].value == Bool(false);
    assert !HasCheckedPreference(p);
    var e := ValidateForm(InitialForm);
    assert e.availability == None;
    assert e.phone == Some(PhoneRequired) && e.email == Some(EmailRequired);
  }

  /** The untouched form has every day, each with no times, so each passes. */
  lemma InitialWeekPasses()
    ensures Complete(InitialForm.availability)
    ensures forall d: Day :: InitialForm.availability[d] == EmptySlot && DayOk(InitialForm.availability[d])
  {
    forall d: Day
      ensures d in InitialForm.availability && InitialForm.availability[d] == EmptySlot
    {
      match d
      case Monday =>
      case Tuesday =>
      case Wednesday =>
      case Thursday =>
      case Friday =>
      case Saturday =>
    }
  }

  /** The text inputs and the gender select, addressed by their `name`. */
  datatype TextField = FirstName | LastName | Gender | Phone | Email

  datatype TimeKind = StartTime | EndTime

  /** A change event, with its `name` already split at the dot. */
  datatype Change =
    | Typed(field: TextField, value: string)
    | Ticked(category: string, key: string, checked: bool)
    | TimePicked(day: Day, kind: TimeKind, time: string)

  function TextOf(f: Form, field: TextField): string {
    match field
    case FirstName => f.firstName
    case LastName => f.lastName
    case Gender => f.gender
    case Phone => f.phone
    case Email => f.email
  }

  /** What `{ ...p, [key]: flag }` promises about the record `r` it builds. */
  ghost predicate SetsPreference(p: Prefs, key: string, flag: bool, r: Prefs) {
    && Lookup(r, key) == Some(Bool(flag))
    && (forall k :: k != key ==> Lookup(r, k) == Lookup(p, k))
    && (key in Keys(p) ==> Keys(r) == Keys(p))
    && (key !in Keys(p) ==> Keys(r) == Keys(p) + [key])
    && (UniqueKeys(p) ==> UniqueKeys(r))
  }

  /** `{ ...p, [key]: flag }`: an existing key keeps its place and takes the
      new value; a new key is appended. */
  function SetPreference(p: Prefs, key: string, flag: bool): (r: Prefs)
    ensures Lookup(r, key) == Some(Bool(flag))
    ensures forall k :: k != key ==> Lookup(r, k) == Lookup(p, k)
    ensures key in Keys(p) ==> Keys(r) == Keys(p)
    ensures key !in Keys(p) ==> Keys(r) == Keys(p) + [key]
    ensures UniqueKeys(p) ==> UniqueKeys(r)
    decreases |p|
  {
    if |p| == 0 then
      [Entry(key, Bool(flag))]
    else if p[0].key == key then
      var r := [Entry(key, Bool(flag))] + p[1..];
      ReplaceHead(p, key, flag);
      r
    else
      var rest := SetPreference(p[1..], key, flag);
      KeepHead(p, key, flag, rest);
      [p[0]] + rest
  }

  /** The case where the first entry carries the key. */
  lemma ReplaceHead(p: Prefs, key: string, flag: bool)
    requires |p| > 0 && p[0].key == key
    ensures SetsPreference(p, key, flag, [Entry(key, Bool(flag))] + p[1..])
  {
    var r := [Entry(key, Bool(flag))] + p[1..];
    assert p == [p[0]] + p[1..];
    assert forall i :: 0 <= i < |p| ==> r[i].key == p[i].key;
    assert Keys(r) == Keys(p);
    forall k ensures Lookup(r, k) == (if k == key then Some(Bool(flag)) else Lookup(p, k)) {
      LookupCons(r[0], p[1..], k);
      LookupCons(p[0], p[1..], k);
    }
    UniqueKeysCons(r[0], p[1..]);
    UniqueKeysCons(p[0], p[1..]);
  }

  /** The case where the first entry is kept and the key is set in the rest. */
  lemma KeepHead(p: Prefs, key: string, flag: bool, rest: Prefs)
    requires |p| > 0 && p[0].key != key
    requires SetsPreference(p[1..], key, flag, rest)
    ensures SetsPreference(p, key, flag, [p[0]] + rest)
  {
    assert p == [p[0]] + p[1..];
    KeepHeadLookup(p[0], p[1..], key, flag, rest);
    KeepHeadKeys(p[0], p[1..], key, rest);
    if UniqueKeys(p) {
      UniqueKeysCons(p[0], p[1..]);
      UniqueKeysCons(p[0], rest);
    }
  }

  lemma KeepHeadLookup(e: Entry, tail: Prefs, key: string, flag: bool, rest: Prefs)
    requires e.key != key
    requires Lookup(rest, key) == Some(Bool(flag))
    requires forall k :: k != key ==> Lookup(rest, k) == Lookup(tail, k)
    ensures Lookup([e] + rest, key) == Some(Bool(flag))
    ensures forall k :: k != key ==> Lookup([e] + rest, k) == Lookup([e] + tail, k)
  {
    LookupCons(e, rest, key);
    forall k | k != key
      ensures Lookup([e] + rest, k) == Lookup([e] + tail, k)
    {
      LookupCons(e, rest, k);
      LookupCons(e, tail, k);
    }
  }

  lemma KeepHeadKeys(e: Entry, tail: Prefs, key: string, rest: Prefs)
    requires e.key != key
    requires key in Keys(tail) ==> Keys(rest) == Keys(tail)
    requires key !in Keys(tail) ==> Keys(rest) == Keys(tail) + [key]
    ensures key in Keys([e] + tail) ==> Keys([e] + rest) == Keys([e] + tail)
    ensures key !in Keys([e] + tail) ==> Keys([e] + rest) == Keys([e] + tail) + [key]
  {
    assert Keys([e] + rest) == [e.key] + Keys(rest);
    assert Keys([e] + tail) == [e.key] + Keys(tail);
    assert key in Keys([e] + tail) <==> key in Keys(tail);
  }

  /** `{ ...slot, [kind]: time }`. */
  function SetTime(s: Slot, kind: TimeKind, time: string): Slot {
    match kind
    case StartTime => s.(startTime := time)
    case EndTime => s.(endTime := time)
  }

  /** `handleChange`: a text input or select sets its own field; a ticked
      box under "preferences" sets that one preference and any other box
      does nothing; a time select sets one time of one day. */
  function HandleChange(f: Form, c: Change): (r: Form)
    ensures r.available == f.available
    ensures c.Typed? ==> TextOf(r, c.field) == c.value
    ensures c.Typed? ==> forall g :: g != c.field ==> TextOf(r, g) == TextOf(f, g)
    ensures c.Typed? ==> r.preferences == f.preferences && r.availability == f.availability
    ensures c.Ticked? && c.category != "preferences" ==> r == f
    ensures c.Ticked? && c.category == "preferences" ==>
      && r.(preferences := f.preferences) == f
      && Lookup(r.preferences, c.key) == Some(Bool(c.checked))
      && forall k :: k != c.key ==> Lookup(r.preferences, k) == Lookup(f.preferences, k)
    ensures c.TimePicked? ==>
      && r.(availability := f.availability) == f
      && r.availability.Keys == f.availability.Keys + {c.day}
      && (forall d :: d in f.availability && d != c.day ==> r.availability[d] == f.availability[d])
      && var before := if c.day in f.availability then f.availability[c.day] else EmptySlot;
         && (c.kind == StartTime ==> r.availability[c.day] == Slot(c.time, before.endTime))
         && (c.kind == EndTime ==> r.availability[c.day] == Slot(before.startTime, c.time))
    ensures Complete(f.availability) ==> Complete(r.availability)
  {
    match c
    case Typed(field, value) =>
      (match field
       case FirstName => f.(firstName := value)
       case LastName => f.(lastName := value)
       case Gender => f.(gender := value)
       case Phone => f.(phone := value)
       case Email => f.(email := value))
    case Ticked(category, key, checked) =>
      if category == "preferences" then f.(preferences := SetPreference(f.preferences, key, checked))
      else f
    case TimePicked(day, kind, time) =>
      var before := if day in f.availability then f.availability[day] else EmptySlot;
      f.(availability := f.availability[day := SetTime(before, kind, time)])
  }

  /** Ticking any preference box clears the preferences error. */
  lemma TickingClearsPreferenceError(f: Form, key: string)
    requires Complete(f.availability)
    ensures Complete(HandleChange(f, Ticked("preferences", key, true)).availability)
    ensures ValidateForm(HandleChange(f, Ticked("preferences", key, true))).preferences == None
  {
    var p := HandleChange(f, Ticked("preferences", key, true)).preferences;
    var i :| 0 <= i < |p| && p[i] == Entry(key, Bool(true)) && forall j :: 0 <= j < i ==> p[j].key != key;
    assert Truthy(p[i].value);
  }
}
