/** How the career bot turns a ranking into recommendations: keep the careers
    scoring strictly above the threshold, in ranked order; give each its first
    five skills the user lacks (compared case-insensitively) and the number of
    dataset rows for that career; show at most five of them. */
module Composer {
  import opened Seqs
  import opened Strings
  import opened CareerIndex
  import opened Ranking

  /** A career is kept only when its score is strictly above this. */
  const MinScore: real := 0.1
  /** At most this many missing skills per recommendation. */
  const MaxMissingSkills: nat := 5
  /** At most this many recommendations are shown. */
  const MaxShown: nat := 5

  /** One recommendation. The average academic score of the career's rows is
      not part of this model. */
  datatype Recommendation = Recommendation(
    career: string,
    matchScore: real,
    missingSkills: seq<string>,
    similarProfilesCount: nat)

  /** The bot's answer: the no-match message, or the greeting followed by the
      recommendations it lists. */
  datatype Reply = NoMatch(message: string) | Listing(greeting: string, shown: seq<Recommendation>)

  function AboveThreshold(e: Scored): bool {
    e.1 > MinScore
  }

  /** The user's skills, lowered. */
  function LoweredSet(userSkills: seq<string>): set<string> {
    set u | u in userSkills :: Lower(u)
  }

  /** The test for a skill whose lowering is not among `known`. */
  function Unknown(known: set<string>): string -> bool {
    (s: string) => Lower(s) !in known
  }

  /** The required skills, in order, that match no user skill ignoring case. */
  function MissingSkills(required: seq<string>, userSkills: seq<string>): seq<string> {
    Filter(required, Unknown(LoweredSet(userSkills)))
  }

  /** `career_skills.get(career, [])` */
  function SkillsOf(careerSkills: map<string, seq<string>>, career: string): seq<string> {
    if career in careerSkills then careerSkills[career] else []
  }

  /** The test for a row of career `career`. */
  function OfCareer(career: string): Row -> bool {
    (r: Row) => r.career == career
  }

  /** The recommendation built for one ranked career. */
  function MakeRecommendation(rows: seq<Row>, careerSkills: map<string, seq<string>>,
                              userSkills: seq<string>, e: Scored): Recommendation
  {
    var missing := MissingSkills(SkillsOf(careerSkills, e.0), userSkills);
    Recommendation(e.0, e.1, Take(missing, MaxMissingSkills), |Filter(rows, OfCareer(e.0))|)
  }

  /** The recommendations for a ranking: one per career above the threshold,
      in ranked order. */
  function Recommendations(rows: seq<Row>, careerSkills: map<string, seq<string>>,
                           userSkills: seq<string>, ranked: seq<Scored>): seq<Recommendation>
  {
    var kept := Filter(ranked, AboveThreshold);
    seq(|kept|, i requires 0 <= i < |kept| => MakeRecommendation(rows, careerSkills, userSkills, kept[i]))
  }

  /** The `(career, score)` pairs the recommendations were made for. */
  function Picks(recs: seq<Recommendation>): (r: seq<Scored>)
    ensures |r| == |recs|
    ensures forall i :: 0 <= i < |recs| ==> r[i] == (recs[i].career, recs[i].matchScore)
  {
    seq(|recs|, i requires 0 <= i < |recs| => (recs[i].career, recs[i].matchScore))
  }

  function NoMatchMessage(name: string): string {
    "Dear " + name + ", based on your profile, I couldn't find specific career matches. " +
    "Consider exploring more skills or different specializations."
  }

  function Greeting(name: string): string {
    "Dear " + name + ", here are your personalized career recommendations:\n\n"
  }

  /** `format_recommendations`: the no-match message exactly when there is no
      recommendation, otherwise the first five recommendations. */
  function FormatRecommendations(name: string, recs: seq<Recommendation>): (r: Reply)
    ensures r.NoMatch? <==> recs == []
    ensures r.NoMatch? ==> r.message == NoMatchMessage(name)
    ensures r.Listing? ==> r.greeting == Greeting(name)
    ensures r.Listing? ==> 0 < |r.shown| <= MaxShown && |r.shown| <= |recs| && r.shown == recs[..|r.shown|]
    ensures r.Listing? ==> |r.shown| == MaxShown || r.shown == recs
  {
    if recs == [] then NoMatch(NoMatchMessage(name))
    else Listing(Greeting(name), Take(recs, MaxShown))
  }

  /** The missing skills keep the profile's order, and a skill is missing
      exactly when no user skill equals it ignoring case; every occurrence of
      such a skill is kept. */
  lemma MissingSkillsSpec(required: seq<string>, userSkills: seq<string>)
    ensures IsSubsequence(MissingSkills(required, userSkills), required)
    ensures forall s :: s in MissingSkills(required, userSkills) <==>
                        s in required && forall u :: u in userSkills ==> Lower(u) != Lower(s)
    ensures forall s :: multiset(MissingSkills(required, userSkills))[s] ==
                        if Lower(s) in LoweredSet(userSkills) then 0 else multiset(required)[s]
  {
    FilterSpec(required, Unknown(LoweredSet(userSkills)));
  }

  /** `len(df[df['Career Path'] == career])` counts rows, duplicates included. */
  lemma {:induction false} PeerCountSpec(rows: seq<Row>, career: string)
    ensures |Filter(rows, OfCareer(career))| == multiset(CareerColumn(rows))[career]
  {
    if rows != [] {
      PeerCountSpec(rows[1..], career);
      assert CareerColumn(rows) == [rows[0].career] + CareerColumn(rows[1..]);
    }
  }

  /** One recommendation: its career and score are the ranked pair's, it lists
      the first five missing skills (all of them when fewer are missing),
      taken in order from the career's skills, none of which the user has
      (ignoring case), and it counts the career's rows. */
  lemma RecommendationSpec(rows: seq<Row>, careerSkills: map<string, seq<string>>,
                           userSkills: seq<string>, e: Scored)
    ensures var r := MakeRecommendation(rows, careerSkills, userSkills, e);
      && r.career == e.0 && r.matchScore == e.1
      && |r.missingSkills| <= MaxMissingSkills
      && IsSubsequence(r.missingSkills, SkillsOf(careerSkills, e.0))
      && (forall s, u :: s in r.missingSkills && u in userSkills ==> Lower(s) != Lower(u))
      && r.missingSkills == MissingSkills(SkillsOf(careerSkills, e.0), userSkills)[..|r.missingSkills|]
      && (|MissingSkills(SkillsOf(careerSkills, e.0), userSkills)| >= MaxMissingSkills ==>
            |r.missingSkills| == MaxMissingSkills)
      && (|r.missingSkills| == MaxMissingSkills ||
          r.missingSkills == MissingSkills(SkillsOf(careerSkills, e.0), userSkills))
      && r.similarProfilesCount == multiset(CareerColumn(rows))[e.0]
  {
    var required := SkillsOf(careerSkills, e.0);
    var missing := MissingSkills(required, userSkills);
    var r := MakeRecommendation(rows, careerSkills, userSkills, e);
    MissingSkillsSpec(required, userSkills);
    PrefixOfSubsequence(missing, required, |r.missingSkills|);
    forall s | s in r.missingSkills ensures s in missing {
      var i :| 0 <= i < |r.missingSkills| && r.missingSkills[i] == s;
      assert missing[i] == s;
    }
    PeerCountSpec(rows, e.0);
  }

  /** The recommendations are exactly the ranked pairs above the threshold, in
      ranked order: a pair is recommended iff it is ranked and its score is
      strictly above 0.1; a sorted ranking gives sorted recommendations. */
  lemma RecommendationsSpec(rows: seq<Row>, careerSkills: map<string, seq<string>>,
                            userSkills: seq<string>, ranked: seq<Scored>)
    ensures var recs := Recommendations(rows, careerSkills, userSkills, ranked);
      && Picks(recs) == Filter(ranked, AboveThreshold)
      && IsSubsequence(Picks(recs), ranked)
      && (forall e :: e in Picks(recs) <==> e in ranked && e.1 > MinScore)
      && (forall i :: 0 <= i < |recs| ==>
            recs[i] == MakeRecommendation(rows, careerSkills, userSkills, (recs[i].career, recs[i].matchScore)))
      && (SortedDesc(ranked) ==> SortedDesc(Picks(recs)))
  {
    var recs := Recommendations(rows, careerSkills, userSkills, ranked);
    var kept := Filter(ranked, AboveThreshold);
    assert Picks(recs) == kept;
    FilterSpec(ranked, AboveThreshold);
    if SortedDesc(ranked) {
      SubsequenceSorted(kept, ranked);
    }
  }

  /** A career is recommended exactly when the ranking gives it a score
      strictly above 0.1; a score of exactly 0.1 is not enough. */
  lemma RecommendedIff(rows: seq<Row>, careerSkills: map<string, seq<string>>,
                       userSkills: seq<string>, ranked: seq<Scored>, career: string)
    ensures var recs := Recommendations(rows, careerSkills, userSkills, ranked);
      (exists i :: 0 <= i < |recs| && recs[i].career == career) <==>
      (exists j :: 0 <= j < |ranked| && ranked[j].0 == career && ranked[j].1 > MinScore)
  {
    var recs := Recommendations(rows, careerSkills, userSkills, ranked);
    RecommendationsSpec(rows, careerSkills, userSkills, ranked);
    var picks := Picks(recs);
    if i :| 0 <= i < |recs| && recs[i].career == career {
      assert picks[i] in picks;
      var j :| 0 <= j < |ranked| && ranked[j] == picks[i];
    }
    if j :| 0 <= j < |ranked| && ranked[j].0 == career && ranked[j].1 > MinScore {
      assert ranked[j] in picks;
      var i :| 0 <= i < |picks| && picks[i] == ranked[j];
      assert recs[i].career == career;
    }
  }

  /** Extending the ranking by one pair extends the recommendations by at most
      that pair's recommendation. */
  lemma RecommendationsSnoc(rows: seq<Row>, careerSkills: map<string, seq<string>>,
                            userSkills: seq<string>, ranked: seq<Scored>, e: Scored)
    ensures Recommendations(rows, careerSkills, userSkills, ranked + [e]) ==
            Recommendations(rows, careerSkills, userSkills, ranked) +
            (if AboveThreshold(e) then [MakeRecommendation(rows, careerSkills, userSkills, e)] else [])
  {
    FilterSnoc(ranked, e, AboveThreshold);
  }

  /** Changing the case of the user's skills changes no missing-skill list. */
  lemma MissingSkillsIgnoreUserCase(required: seq<string>, u1: seq<string>, u2: seq<string>)
    requires |u1| == |u2|
    requires forall i :: 0 <= i < |u1| ==> Lower(u1[i]) == Lower(u2[i])
    ensures MissingSkills(required, u1) == MissingSkills(required, u2)
  {
    forall x | x in LoweredSet(u1) ensures x in LoweredSet(u2) {
      var u :| u in u1 && Lower(u) == x;
      var i :| 0 <= i < |u1| && u1[i] == u;
      assert Lower(u2[i]) == x;
    }
    forall x | x in LoweredSet(u2) ensures x in LoweredSet(u1) {
      var u :| u in u2 && Lower(u) == x;
      var i :| 0 <= i < |u2| && u2[i] == u;
      assert Lower(u1[i]) == x;
    }
    assert LoweredSet(u1) == LoweredSet(u2);
  }

  /** Lowering the user's skills beforehand changes no missing-skill list. */
  lemma MissingSkillsOfLoweredUser(required: seq<string>, userSkills: seq<string>, lowered: seq<string>)
    requires |lowered| == |userSkills|
    requires forall i :: 0 <= i < |lowered| ==> lowered[i] == Lower(userSkills[i])
    ensures MissingSkills(required, lowered) == MissingSkills(required, userSkills)
  {
    forall i | 0 <= i < |lowered| ensures Lower(lowered[i]) == Lower(userSkills[i]) {
      LowerIdempotent(userSkills[i]);
    }
    MissingSkillsIgnoreUserCase(required, lowered, userSkills);
  }

  /** Changing the case of a career's skills changes only the case of its
      missing skills: the same positions are missing. */
  lemma {:induction false} MissingSkillsIgnoreRequiredCase(r1: seq<string>, r2: seq<string>, userSkills: seq<string>)
    requires |r1| == |r2|
    requires forall i :: 0 <= i < |r1| ==> Lower(r1[i]) == Lower(r2[i])
    ensures |MissingSkills(r1, userSkills)| == |MissingSkills(r2, userSkills)|
    ensures forall i :: 0 <= i < |MissingSkills(r1, userSkills)| ==>
                        Lower(MissingSkills(r1, userSkills)[i]) == Lower(MissingSkills(r2, userSkills)[i])
  {
    if r1 != [] {
      MissingSkillsIgnoreRequiredCase(r1[1..], r2[1..], userSkills);
      var known := LoweredSet(userSkills);
      var m1, m2 := MissingSkills(r1[1..], userSkills), MissingSkills(r2[1..], userSkills);
      assert Unknown(known)(r1[0]) == Unknown(known)(r2[0]);
      if Unknown(known)(r1[0]) {
        assert MissingSkills(r1, userSkills) == [r1[0]] + m1;
        assert MissingSkills(r2, userSkills) == [r2[0]] + m2;
      }
    }
  }

  /** With the recommendations in ranked order, the listed ones are the best:
      none left out scores higher than one shown. */
  lemma ShownAreBest(name: string, recs: seq<Recommendation>)
    requires SortedDesc(Picks(recs))
    ensures var r := FormatRecommendations(name, recs);
      r.Listing? ==> forall i, j :: 0 <= i < |r.shown| <= j < |recs| ==> r.shown[i].matchScore >= recs[j].matchScore
  {
    var r := FormatRecommendations(name, recs);
    if r.Listing? {
      forall i, j | 0 <= i < |r.shown| <= j < |recs| ensures r.shown[i].matchScore >= recs[j].matchScore {
        assert r.shown[i] == recs[i];
        assert Picks(recs)[i].1 >= Picks(recs)[j].1;
      }
    }
  }
}
