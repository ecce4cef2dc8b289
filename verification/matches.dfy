/** The matches list: the name search over the listed matches and the local
    update after an "Unmatch". */
module Matches {

  import opened Records
  import opened Strings
  import Seqs

  function TutorName(m: Match): string {
    FullName(m.tutor.firstName, m.tutor.lastName)
  }

  function LearnerName(m: Match): string {
    FullName(m.learner.firstName, m.learner.lastName)
  }

  /** The search test of `applyFilters`: the lower-cased query occurs in the
      lower-cased tutor name or in the lower-cased learner name. */
  predicate Hit(query: string, m: Match) {
    Contains(Lower(TutorName(m)), Lower(query)) || Contains(Lower(LearnerName(m)), Lower(query))
  }

  function HitBy(query: string): Match -> bool {
    (m: Match) => Hit(query, m)
  }

  /** `applyFilters`: the matches whose tutor or learner name contains the
      query, ignoring ASCII case, each as often as listed, in list order. */
  function Search(matches: seq<Match>, query: string): (r: seq<Match>)
    ensures forall m :: m in r <==>
      && m in matches
      && (Contains(Lower(TutorName(m)), Lower(query)) || Contains(Lower(LearnerName(m)), Lower(query)))
    ensures forall m :: multiset(r)[m] == if Hit(query, m) then multiset(matches)[m] else 0
    ensures Seqs.IsSubsequence(r, matches)
  {
    Seqs.Filter(HitBy(query), matches)
  }

  /** An empty search box lists every match. */
  lemma EmptyQueryKeepsAll(matches: seq<Match>)
    ensures Search(matches, "") == matches
  {
    forall m | m in matches ensures Hit("", m) {
      ContainsEmpty(Lower(TutorName(m)));
    }
    Seqs.FilterKeepsAll(HitBy(""), matches);
  }

  /** Queries that differ only in the case of ASCII letters list the same matches. */
  lemma SearchIgnoresCase(matches: seq<Match>, q1: string, q2: string)
    requires Lower(q1) == Lower(q2)
    ensures Search(matches, q1) == Search(matches, q2)
  {
    Seqs.FilterAgree(HitBy(q1), HitBy(q2), matches);
  }

  /** Typing "JOHN" lists what typing "john" lists. */
  lemma UpperAndLowerQueriesAgree(matches: seq<Match>)
    ensures Search(matches, "JOHN") == Search(matches, "john")
  {
    assert Lower("JOHN") == "john";
    assert Lower("john") == "john";
    SearchIgnoresCase(matches, "JOHN", "john");
  }

  /** Searching for a match's tutor name, in any letter case, finds the match. */
  lemma TutorNameFindsMatch(m: Match, query: string)
    requires Lower(query) == Lower(TutorName(m))
    ensures Search([m], query) == [m]
  {
    ContainsSelf(Lower(TutorName(m)));
    Seqs.FilterKeepsAll(HitBy(query), [m]);
  }

  /** The outcome of the delete call to the data layer. */
  datatype DeleteOutcome = Deleted | DeleteFailed

  function IdIsNot(id: string): Match -> bool {
    (m: Match) => m.id != id
  }

  /** `removeMatch`'s effect on the local list: after a successful delete
      every match with that id is gone and all others stay, in order; after a
      failed one the list is untouched. */
  function RemoveMatch(matches: seq<Match>, id: string, outcome: DeleteOutcome): (r: seq<Match>)
    ensures outcome == DeleteFailed ==> r == matches
    ensures outcome == Deleted ==> forall m :: m in r <==> m in matches && m.id != id
    ensures outcome == Deleted ==> forall m :: multiset(r)[m] == if m.id == id then 0 else multiset(matches)[m]
    ensures Seqs.IsSubsequence(r, matches)
  {
    match outcome
    case DeleteFailed =>
      Seqs.SubsequenceReflexive(matches);
      matches
    case Deleted => Seqs.Filter(IdIsNot(id), matches)
  }

  /** Deleting the same id again after a successful delete changes nothing. */
  lemma RemoveTwiceIsRemoveOnce(matches: seq<Match>, id: string, outcome: DeleteOutcome)
    ensures RemoveMatch(RemoveMatch(matches, id, Deleted), id, outcome) == RemoveMatch(matches, id, Deleted)
  {
    Seqs.FilterIdempotent(IdIsNot(id), matches);
  }

  /** Deleting while a search is active shows what searching after the delete shows. */
  lemma RemoveCommutesWithSearch(matches: seq<Match>, id: string, outcome: DeleteOutcome, query: string)
    ensures Search(RemoveMatch(matches, id, outcome), query) == RemoveMatch(Search(matches, query), id, outcome)
  {
    if outcome == Deleted {
      Seqs.FilterCommutes(HitBy(query), IdIsNot(id), matches);
    }
  }
}
