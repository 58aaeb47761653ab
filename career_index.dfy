/** The career dataset and what the career bot's indexer derives from it,
    stated as reference definitions over the rows: which careers were seen
    with a specialization, which skill tokens were seen with a career, and in
    which order the careers first appear. */
module CareerIndex {
  import opened Seqs
  import opened Strings

  /** Separator of the `Skills` column. */
  const SkillSeparator: char := ';'

  /** One dataset row: its `UG Specialization`, its `Career Path` and its
      `Skills` text, which may be missing (a pandas null). */
  datatype Row = Row(specialization: string, career: string, skills: Option<string>)

  datatype Option<T> = None | Some(value: T)

  /** The `Career Path` column, one entry per row. */
  function CareerColumn(rows: seq<Row>): (r: seq<string>)
    ensures |r| == |rows|
    ensures forall i :: 0 <= i < |rows| ==> r[i] == rows[i].career
  {
    seq(|rows|, i requires 0 <= i < |rows| => rows[i].career)
  }

  /** Every specialization that some row mentions. */
  function Specializations(rows: seq<Row>): set<string> {
    set r | r in rows :: r.specialization
  }

  /** Every career path that some row mentions. */
  function CareerPaths(rows: seq<Row>): set<string> {
    set r | r in rows :: r.career
  }

  /** The tokens of one `Skills` text: `text.split(';')`, untrimmed. */
  function Tokens(text: string): set<string> {
    set t | t in Split(text, SkillSeparator)
  }

  /** The tokens one row contributes; a row whose skills are missing adds none. */
  function RowTokens(row: Row): set<string> {
    match row.skills
    case None => {}
    case Some(text) => Tokens(text)
  }

  /** The careers seen together with specialization `spec`. */
  function SpecCareers(rows: seq<Row>, spec: string): set<string> {
    if rows == [] then {}
    else
      var last := rows[|rows| - 1];
      SpecCareers(rows[..|rows| - 1], spec) + (if last.specialization == spec then {last.career} else {})
  }

  /** The skill tokens seen together with career `career`. */
  function CareerSkillSet(rows: seq<Row>, career: string): set<string> {
    if rows == [] then {}
    else
      var last := rows[|rows| - 1];
      CareerSkillSet(rows[..|rows| - 1], career) + (if last.career == career then RowTokens(last) else {})
  }

  /** The distinct careers, in the order of their first row. */
  function CareersInOrder(rows: seq<Row>): seq<string> {
    if rows == [] then []
    else
      var prefix := CareersInOrder(rows[..|rows| - 1]);
      var c := rows[|rows| - 1].career;
      if c in prefix then prefix else prefix + [c]
  }

  /** A string-keyed dictionary of lists matches a reference dictionary of
      sets when the keys agree and each list holds its set's members once. */
  ghost predicate ListsMatch(m: map<string, seq<string>>, keys: set<string>, elems: string -> set<string>) {
    && m.Keys == keys
    && forall k :: k in m ==> NoDup(m[k]) && forall x :: x in m[k] <==> x in elems(k)
  }

  /** `career_mapping` after indexing: every specialization of the rows maps to
      the distinct careers seen with it. */
  ghost predicate MappingIndexed(rows: seq<Row>, careerMapping: map<string, seq<string>>) {
    ListsMatch(careerMapping, Specializations(rows), spec => SpecCareers(rows, spec))
  }

  /** `career_skills` after indexing: every career of the rows, even one whose
      rows have no skills, maps to the distinct tokens seen with it. */
  ghost predicate SkillsIndexed(rows: seq<Row>, careerSkills: map<string, seq<string>>) {
    ListsMatch(careerSkills, CareerPaths(rows), career => CareerSkillSet(rows, career))
  }

  /** A career is associated with a specialization exactly when some row
      carries both. */
  lemma {:induction false} SpecCareersSpec(rows: seq<Row>, spec: string, career: string)
    ensures career in SpecCareers(rows, spec) <==>
            exists i :: 0 <= i < |rows| && rows[i].specialization == spec && rows[i].career == career
  {
    if rows != [] {
      var n := |rows| - 1;
      var prefix := rows[..n];
      SpecCareersSpec(prefix, spec, career);
      if career in SpecCareers(prefix, spec) {
        var i :| 0 <= i < |prefix| && prefix[i].specialization == spec && prefix[i].career == career;
        assert rows[i] == prefix[i];
      }
      forall i | 0 <= i < n && rows[i].specialization == spec && rows[i].career == career
        ensures career in SpecCareers(prefix, spec)
      {
        assert prefix[i] == rows[i];
      }
    }
  }

  /** A specialization no row mentions has no careers. */
  lemma {:induction false} SpecCareersUnseen(rows: seq<Row>, spec: string)
    requires spec !in Specializations(rows)
    ensures SpecCareers(rows, spec) == {}
  {
    if rows != [] {
      var prefix := rows[..|rows| - 1];
      assert forall r :: r in prefix ==> r in rows;
      SpecCareersUnseen(prefix, spec);
      assert rows[|rows| - 1] in rows;
    }
  }

  /** A career no row mentions has no skills. */
  lemma {:induction false} CareerSkillSetUnseen(rows: seq<Row>, career: string)
    requires career !in CareerPaths(rows)
    ensures CareerSkillSet(rows, career) == {}
  {
    if rows != [] {
      var prefix := rows[..|rows| - 1];
      assert forall r :: r in prefix ==> r in rows;
      CareerSkillSetUnseen(prefix, career);
      assert rows[|rows| - 1] in rows;
    }
  }

  /** Indexing loses no row: each row's career is listed under its specialization. */
  lemma EveryRowIndexed(rows: seq<Row>, i: nat)
    requires i < |rows|
    ensures rows[i].specialization in Specializations(rows)
    ensures rows[i].career in SpecCareers(rows, rows[i].specialization)
  {
    SpecCareersSpec(rows, rows[i].specialization, rows[i].career);
  }

  /** A token is a skill of a career exactly when some row for that career has
      a skills text whose `;`-split contains the token. */
  lemma {:induction false} CareerSkillSetSpec(rows: seq<Row>, career: string, token: string)
    ensures token in CareerSkillSet(rows, career) <==>
            exists i :: 0 <= i < |rows| && rows[i].career == career && rows[i].skills.Some? &&
                        token in Split(rows[i].skills.value, SkillSeparator)
  {
    if rows != [] {
      var n := |rows| - 1;
      var prefix := rows[..n];
      CareerSkillSetSpec(prefix, career, token);
      if token in CareerSkillSet(prefix, career) {
        var i :| 0 <= i < |prefix| && prefix[i].career == career && prefix[i].skills.Some? &&
                 token in Split(prefix[i].skills.value, SkillSeparator);
        assert rows[i] == prefix[i];
      }
      forall i | 0 <= i < n && rows[i].career == career && rows[i].skills.Some? &&
                 token in Split(rows[i].skills.value, SkillSeparator)
        ensures token in CareerSkillSet(prefix, career)
      {
        assert prefix[i] == rows[i];
      }
    }
  }

  /** A row whose skills are missing leaves every career's skill set as it was. */
  lemma NullSkillsAddNothing(rows: seq<Row>, row: Row, career: string)
    requires row.skills.None?
    ensures CareerSkillSet(rows + [row], career) == CareerSkillSet(rows, career)
  {
    assert (rows + [row])[..|rows|] == rows;
  }

  /** The career order is duplicate-free, holds exactly the careers of the rows
      and follows the row order. */
  lemma {:induction false} CareersInOrderSpec(rows: seq<Row>)
    ensures NoDup(CareersInOrder(rows))
    ensures forall c :: c in CareersInOrder(rows) <==> c in CareerPaths(rows)
    ensures IsSubsequence(CareersInOrder(rows), CareerColumn(rows))
  {
    if rows != [] {
      var n := |rows| - 1;
      var prefix := rows[..n];
      CareersInOrderSpec(prefix);
      assert rows == prefix + [rows[n]];
      assert CareerColumn(rows) == CareerColumn(prefix) + [rows[n].career];
      assert CareerPaths(rows) == CareerPaths(prefix) + {rows[n].career};
      var c := rows[n].career;
      if c in CareersInOrder(prefix) {
        SubsequenceExtend(CareersInOrder(prefix), CareerColumn(prefix), c);
      } else {
        SubsequenceSnoc(CareersInOrder(prefix), CareerColumn(prefix), c);
      }
    }
  }

  /** The career order is first-occurrence order: when career `p` comes
      before career `q` in it, every row of career `q` has a row of career
      `p` somewhere above it. */
  lemma {:induction false} CareersInOrderFirstSeen(rows: seq<Row>, p: nat, q: nat, j: nat)
    requires p < q < |CareersInOrder(rows)|
    requires j < |rows| && rows[j].career == CareersInOrder(rows)[q]
    ensures exists i :: 0 <= i < j && rows[i].career == CareersInOrder(rows)[p]
  {
    var n := |rows| - 1;
    var prefix := rows[..n];
    var order, before := CareersInOrder(rows), CareersInOrder(prefix);
    CareersInOrderSpec(prefix);
    assert p < |before| && order[p] == before[p];
    if j < n {
      assert prefix[j] == rows[j];
      assert rows[j].career in CareerPaths(prefix);
      assert q < |before|;
      CareersInOrderFirstSeen(prefix, p, q, j);
      var i :| 0 <= i < j && prefix[i].career == before[p];
      assert rows[i] == prefix[i];
    } else {
      assert before[p] in CareerPaths(prefix);
      var r :| r in prefix && r.career == before[p];
      var i :| 0 <= i < n && prefix[i] == r;
      assert rows[i] == prefix[i];
    }
  }
}
