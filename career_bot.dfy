/** The career guidance bot: it loads the dataset rows once, indexes them into
    `career_mapping` and `career_skills` by updating dictionaries of sets row
    by row, fixes the career list, and answers a user's skills with ranked,
    thresholded recommendations. The similarity scores of the user's skills
    against the career list are given to it. */
module CareerGuidance {
  import opened Seqs
  import opened Strings
  import opened CareerIndex
  import opened Ranking
  import opened Composer

  /** The answers the composer uses: the user's name, specialization and skills. */
  datatype UserData = UserData(name: string, specialization: string, skills: seq<string>)

  /** `list(s)`: every member of the set once, in an order the model leaves
      open (Python's set order depends on string hashing). */
  method ListOf(s: set<string>) returns (l: seq<string>)
    ensures NoDup(l)
    ensures forall x :: x in l <==> x in s
  {
    l := [];
    var rest := s;
    while rest != {}
      invariant rest <= s
      invariant NoDup(l)
      invariant forall x :: x in l <==> x in s && x !in rest
      decreases rest
    {
      var x :| x in rest;
      l := l + [x];
      rest := rest - {x};
    }
  }

  /** `{k: list(v) for k, v in m.items()}` */
  method ListsOf(m: map<string, set<string>>) returns (out: map<string, seq<string>>)
    ensures out.Keys == m.Keys
    ensures forall k :: k in out ==> NoDup(out[k]) && forall x :: x in out[k] <==> x in m[k]
  {
    out := map[];
    var todo := m.Keys;
    while todo != {}
      invariant todo <= m.Keys
      invariant out.Keys == m.Keys - todo
      invariant forall k :: k in out ==> NoDup(out[k]) && forall x :: x in out[k] <==> x in m[k]
      decreases todo
    {
      var k :| k in todo;
      var l := ListOf(m[k]);
      out := out[k := l];
      todo := todo - {k};
    }
  }

  /** The first loop of `process_dataset`: for each row, add its career to
      the set of its specialization, creating the set on first sight. */
  method CollectSpecCareers(rows: seq<Row>) returns (mapping: map<string, set<string>>)
    ensures mapping.Keys == Specializations(rows)
    ensures forall s :: s in mapping ==> mapping[s] == SpecCareers(rows, s)
  {
    mapping := map[];
    var i := 0;
    while i < |rows|
      invariant 0 <= i <= |rows|
      invariant mapping.Keys == Specializations(rows[..i])
      invariant forall s :: s in mapping ==> mapping[s] == SpecCareers(rows[..i], s)
    {
      var spec, career := rows[i].specialization, rows[i].career;
      if spec !in mapping {
        SpecCareersUnseen(rows[..i], spec);
        mapping := mapping[spec := {}];
      }
      mapping := mapping[spec := mapping[spec] + {career}];
      assert rows[..i + 1] == rows[..i] + [rows[i]];
      assert rows[..i + 1][..i] == rows[..i];
      forall s ensures SpecCareers(rows[..i + 1], s) ==
                       SpecCareers(rows[..i], s) + (if spec == s then {career} else {}) {
      }
      i := i + 1;
    }
    assert rows[..i] == rows;
  }

  /** The second loop of `process_dataset`: for each row, create its career's
      set on first sight (recording the key order), then add the row's
      `;`-split skills unless they are missing. */
  method CollectCareerSkills(rows: seq<Row>) returns (skills: map<string, set<string>>, order: seq<string>)
    ensures skills.Keys == CareerPaths(rows)
    ensures forall c :: c in skills ==> skills[c] == CareerSkillSet(rows, c)
    ensures order == CareersInOrder(rows)
  {
    skills, order := map[], [];
    var i := 0;
    while i < |rows|
      invariant 0 <= i <= |rows|
      invariant skills.Keys == CareerPaths(rows[..i])
      invariant forall c :: c in skills ==> skills[c] == CareerSkillSet(rows[..i], c)
      invariant order == CareersInOrder(rows[..i])
      invariant forall c :: c in order <==> c in skills
    {
      var career := rows[i].career;
      if career !in skills {
        CareerSkillSetUnseen(rows[..i], career);
        skills := skills[career := {}];
        order := order + [career];
      }
      match rows[i].skills {
        case Some(text) =>
          skills := skills[career := skills[career] + Tokens(text)];
        case None =>
      }
      assert rows[..i + 1] == rows[..i] + [rows[i]];
      assert rows[..i + 1][..i] == rows[..i];
      forall c ensures CareerSkillSet(rows[..i + 1], c) ==
                       CareerSkillSet(rows[..i], c) + (if career == c then RowTokens(rows[i]) else {}) {
      }
      i := i + 1;
    }
    assert rows[..i] == rows;
  }

  /** What the bot answers for a user and the similarity scores of the user's
      skills against `careerList`. */
  function Answer(rows: seq<Row>, careerSkills: map<string, seq<string>>, careerList: seq<string>,
                  user: UserData, scores: seq<real>): Reply
  {
    FormatRecommendations(user.name, Recommendations(rows, careerSkills, user.skills, Rank(careerList, scores, user.skills)))
  }

  class CareerGuidanceBot {
    /** The dataset, loaded once. */
    const rows: seq<Row>
    /** specialization -> distinct careers seen with it */
    var careerMapping: map<string, seq<string>>
    /** career -> distinct skill tokens seen with it */
    var careerSkills: map<string, seq<string>>
    /** The keys of `careerSkills` in insertion order, as a Python dict keeps them. */
    var careerSkillsOrder: seq<string>
    /** The careers the similarity scores are aligned with. */
    var careerList: seq<string>

    /** The state after construction: both dictionaries and the career list
        are those the rows determine. */
    ghost predicate Indexed()
      reads this
    {
      && MappingIndexed(rows, careerMapping)
      && SkillsIndexed(rows, careerSkills)
      && careerSkillsOrder == CareersInOrder(rows)
      && careerList == careerSkillsOrder
    }

    constructor (rows: seq<Row>)
      ensures this.rows == rows
      ensures Indexed()
    {
      this.rows := rows;
      careerMapping, careerSkills, careerSkillsOrder, careerList := map[], map[], [], [];
      new;
      ProcessDataset();
      CreateSkillVectors();
    }

    /** `process_dataset`: builds both dictionaries from the rows. */
    method ProcessDataset()
      modifies this
      ensures MappingIndexed(rows, careerMapping)
      ensures SkillsIndexed(rows, careerSkills)
      ensures careerSkillsOrder == CareersInOrder(rows)
      ensures careerList == old(careerList)
    {
      var mapping := CollectSpecCareers(rows);
      careerMapping := ListsOf(mapping);
      var skills, order := CollectCareerSkills(rows);
      careerSkills := ListsOf(skills);
      careerSkillsOrder := order;
    }

    /** The ordering part of `create_skill_vectors`: the career list is the key
        order of `career_skills`. */
    method CreateSkillVectors()
      modifies this`careerList
      ensures careerList == careerSkillsOrder
    {
      careerList := careerSkillsOrder;
    }

    /** `generate_recommendations`: walks the ranking, keeps the careers above
        the threshold and builds their records, then formats the answer. */
    method GenerateRecommendations(user: UserData, scores: seq<real>) returns (reply: Reply)
      ensures reply == Answer(rows, careerSkills, careerList, user, scores)
    {
      var recommendations: seq<Recommendation> := [];
      var ranked := Rank(careerList, scores, user.skills);
      var i := 0;
      while i < |ranked|
        invariant 0 <= i <= |ranked|
        invariant recommendations == Recommendations(rows, careerSkills, user.skills, ranked[..i])
      {
        var career, score := ranked[i].0, ranked[i].1;
        if score > MinScore {
          var required := SkillsOf(careerSkills, career);
          var missing := MissingSkills(required, user.skills);
          var similarProfiles := Filter(rows, OfCareer(career));
          recommendations := recommendations +
            [Recommendation(career, score, Take(missing, MaxMissingSkills), |similarProfiles|)];
        }
        RecommendationsSnoc(rows, careerSkills, user.skills, ranked[..i], ranked[i]);
        assert ranked[..i + 1] == ranked[..i] + [ranked[i]];
        i := i + 1;
      }
      assert ranked[..i] == ranked;
      reply := FormatRecommendations(user.name, recommendations);
    }
  }

  /** The whole answer. No skills give the no-match message. Otherwise a
      ranked career is recommended iff its score is above 0.1. The
      recommendations run from the highest score down, and at most five are
      listed, none scoring below one left out. */
  lemma AnswerSpec(rows: seq<Row>, careerSkills: map<string, seq<string>>, careerList: seq<string>,
                   user: UserData, scores: seq<real>)
    ensures user.skills == [] ==> Answer(rows, careerSkills, careerList, user, scores).NoMatch?
    ensures var recs := Recommendations(rows, careerSkills, user.skills, Rank(careerList, scores, user.skills));
      && SortedDesc(Picks(recs))
      && (user.skills != [] ==> forall i :: 0 <= i < |careerList| && i < |scores| ==>
            ((careerList[i], scores[i]) in Picks(recs) <==> scores[i] > MinScore))
    ensures var reply := Answer(rows, careerSkills, careerList, user, scores);
      var recs := Recommendations(rows, careerSkills, user.skills, Rank(careerList, scores, user.skills));
      reply.Listing? ==>
        (|reply.shown| <= MaxShown &&
         forall i, j :: 0 <= i < |reply.shown| <= j < |recs| ==> reply.shown[i].matchScore >= recs[j].matchScore)
  {
    var ranked := Rank(careerList, scores, user.skills);
    var recs := Recommendations(rows, careerSkills, user.skills, ranked);
    RecommendationsSpec(rows, careerSkills, user.skills, ranked);
    if user.skills != [] {
      var pairs := Zip(careerList, scores);
      forall i | 0 <= i < |careerList| && i < |scores|
        ensures (careerList[i], scores[i]) in Picks(recs) <==> scores[i] > MinScore
      {
        assert pairs[i] == (careerList[i], scores[i]);
        assert pairs[i] in multiset(pairs);
        assert pairs[i] in multiset(ranked);
      }
    }
    ShownAreBest(user.name, recs);
  }

  /** A constructed bot's dictionaries cover every row: the row's career is
      listed under its specialization, and the career has a skills entry
      even when the row's skills are missing. */
  lemma IndexCoversRows(rows: seq<Row>, careerMapping: map<string, seq<string>>,
                        careerSkills: map<string, seq<string>>, i: nat)
    requires MappingIndexed(rows, careerMapping) && SkillsIndexed(rows, careerSkills)
    requires i < |rows|
    ensures rows[i].specialization in careerMapping
    ensures rows[i].career in careerMapping[rows[i].specialization]
    ensures rows[i].career in careerSkills
  {
    EveryRowIndexed(rows, i);
    assert rows[i] in rows;
  }

  /** A constructed bot's skill list for a career holds each token once, and
      a token is listed exactly when some row for the career splits to it. */
  lemma SkillsListSpec(rows: seq<Row>, careerSkills: map<string, seq<string>>, career: string, token: string)
    requires SkillsIndexed(rows, careerSkills)
    requires career in careerSkills
    ensures NoDup(careerSkills[career])
    ensures token in careerSkills[career] <==>
            exists i :: 0 <= i < |rows| && rows[i].career == career && rows[i].skills.Some? &&
                        token in Split(rows[i].skills.value, SkillSeparator)
  {
    CareerSkillSetSpec(rows, career, token);
  }
}
