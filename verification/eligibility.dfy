/** How the two match screens' filters relate: each single-candidate test,
    their agreement on a tutor/learner pair, and a worked example. */
module Eligibility {

  import opened Options
  import opened Records
  import Seqs
  import LearnerMatch
  import TutorMatch

  /** Filtering a one-tutor pool for a learner keeps the tutor exactly when the
      tutor is available and its record's entry for the learner's level is truthy. */
  lemma SingleTutor(l: Learner, t: Tutor)
    ensures LearnerMatch.FilterTutors(Some(l), [t]) != [] <==>
      t.available && t.preferences.Some? && Prefers(t.preferences.value, l.level)
  {
    var r := LearnerMatch.FilterTutors(Some(l), [t]);
    if r != [] {
      assert r[0] in r;
    }
  }

  /** Filtering a one-learner pool for a tutor keeps the learner exactly when the
      learner is available and the learner's level is a preferred level. */
  lemma SingleLearner(t: Tutor, l: Learner)
    ensures TutorMatch.FilterLearners(Some(t), [l]) != [] <==>
      l.available && t.preferences.Some? && l.level in TutorMatch.PreferredLevels(t.preferences.value)
  {
    var r := TutorMatch.FilterLearners(Some(t), [l]);
    if r != [] {
      assert r[0] in r;
    }
  }

  /** In a preference record without repeated keys, the preferred levels are
      exactly the truthy keys other than `tutor_id`. */
  lemma PreferredLevelsArePreferredKeys(p: Prefs, k: string)
    requires UniqueKeys(p)
    ensures k in TutorMatch.PreferredLevels(p) <==> k != TutorIdKey && Prefers(p, k)
  {
    PrefersIffTruthyEntry(p, k);
  }

  /** The two directions agree: for an available tutor and an available learner
      whose level is not the bookkeeping key, the learner's screen offers the
      tutor exactly when the tutor's screen offers the learner. */
  lemma FiltersAgree(t: Tutor, l: Learner)
    requires t.available && l.available
    requires t.preferences.Some? ==> UniqueKeys(t.preferences.value)
    requires l.level != TutorIdKey
    ensures t in LearnerMatch.FilterTutors(Some(l), [t]) <==> l in TutorMatch.FilterLearners(Some(t), [l])
  {
    if t.preferences.Some? {
      PreferredLevelsArePreferredKeys(t.preferences.value, l.level);
    }
  }

  /** A learner of level `basic_math`; one available tutor who teaches it and
      one matched tutor who also does: only the first is offered. */
  lemma OnlyAvailableTutorOffered()
    ensures
      var l1 := Learner("l1", "Sam", "Cole", "male", "basic_math", true, map[]);
      var t1 := Tutor("t1", "Ann", "Lee", "female", "", "", true,
                      Some([Entry("basic_math", Bool(true)), Entry("esl_novice", Bool(false))]), map[]);
      var t2 := Tutor("t2", "Bo", "Ray", "male", "", "", false,
                      Some([Entry("basic_math", Bool(true))]), map[]);
      LearnerMatch.FilterTutors(Some(l1), [t1, t2]) == [t1]
  {
    var l1 := Learner("l1", "Sam", "Cole", "male", "basic_math", true, map[]);
    var t1 := Tutor("t1", "Ann", "Lee", "female", "", "", true,
                    Some([Entry("basic_math", Bool(true)), Entry("esl_novice", Bool(false))]), map[]);
    var t2 := Tutor("t2", "Bo", "Ray", "male", "", "", false,
                    Some([Entry("basic_math", Bool(true))]), map[]);
    var p := LearnerMatch.OfferedTo(l1);
    assert p(t1) by {
      assert Lookup(t1.preferences.value, "basic_math") == Some(Bool(true));
    }
    assert !p(t2);
    assert [t1, t2][1..] == [t2] && [t2][1..] == [];
    calc {
      LearnerMatch.FilterTutors(Some(l1), [t1, t2]);
      Seqs.Filter(p, [t1, t2]);
      [t1] + Seqs.Filter(p, [t2]);
      [t1] + Seqs.Filter(p, []);
    }
  }
}
