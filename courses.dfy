/** The course bot's catalogue queries: the sorted list of distinct streams,
    and the courses of one stream, optionally narrowed to an interest by the
    keywords that interest's course names contain. */
module Courses {
  import opened Seqs
  import opened Strings

  /** One catalogue entry: its stream, course name and college. */
  datatype Course = Course(stream: string, course: string, college: string)

  /** The interest that asks for every course of the stream. */
  const AllCourses: string := "All Courses"

  /** The interests the bot offers for each stream. */
  const InterestMap: map<string, seq<string>> := map[
    "Science" := ["Engineering", "Medical", "Computer Science", "Basic Sciences"],
    "Commerce" := ["Accounting", "Business Management", "Economics"],
    "Arts" := ["Liberal Arts", "Design", "Law", "Media", "Social Work"],
    "Generic" := ["Hospitality", "Event Management", "Digital Skills"]
  ]

  /** For each interest, the pieces of a course name that mark it. */
  const Keywords: map<string, seq<string>> := map[
    "Engineering" := ["B.Tech", "M.Tech", "B.Arch"],
    "Medical" := ["MBBS", "BDS", "BAMS", "BHMS"],
    "Computer Science" := ["Computer", "IT", "Data Science", "BCA"],
    "Basic Sciences" := ["B.Sc."],
    "Accounting" := ["B.Com", "CA"],
    "Business Management" := ["BBA", "BMS", "Management"],
    "Economics" := ["Economics", "Statistics"],
    "Liberal Arts" := ["B.A."],
    "Design" := ["Design", "Fine Arts"],
    "Law" := ["Law", "LLB"],
    "Media" := ["Media", "Journalism"],
    "Social Work" := ["Social Work", "Education"],
    "Hospitality" := ["Hotel"],
    "Event Management" := ["Event"],
    "Digital Skills" := ["Digital"]
  ]

  /** Every stream some course belongs to. */
  function StreamsOf(courses: seq<Course>): set<string> {
    set c | c in courses :: c.stream
  }

  /** Strictly increasing in Python's string order, hence duplicate-free. */
  ghost predicate StrictlyAscending(s: seq<string>) {
    forall i, j :: 0 <= i < j < |s| ==> Less(s[i], s[j])
  }

  /** Adds `x` to a strictly ascending list unless it is already there. */
  function InsertUnique(x: string, s: seq<string>): seq<string> {
    if s == [] then [x]
    else if x == s[0] then s
    else if Less(x, s[0]) then [x] + s
    else [s[0]] + InsertUnique(x, s[1..])
  }

  lemma {:induction false} InsertUniqueSpec(x: string, s: seq<string>)
    requires StrictlyAscending(s)
    ensures StrictlyAscending(InsertUnique(x, s))
    ensures forall y :: y in InsertUnique(x, s) <==> y == x || y in s
  {
    if s != [] && x != s[0] {
      if Less(x, s[0]) {
        var r := [x] + s;
        forall i, j | 0 <= i < j < |r| ensures Less(r[i], r[j]) {
          if i == 0 {
            if j > 1 { LessTransitive(x, s[0], s[j - 1]); }
          } else {
            assert r[i] == s[i - 1] && r[j] == s[j - 1];
          }
        }
      } else {
        LessTotal(x, s[0]);
        var rest := InsertUnique(x, s[1..]);
        InsertUniqueSpec(x, s[1..]);
        var r := [s[0]] + rest;
        forall y | y in rest ensures Less(s[0], y) {
          if y != x {
            var k :| 0 <= k < |s[1..]| && s[1..][k] == y;
            assert s[k + 1] == y;
          }
        }
        forall i, j | 0 <= i < j < |r| ensures Less(r[i], r[j]) {
          assert r[j] == rest[j - 1];
          assert r[j] in rest;
          if i > 0 { assert r[i] == rest[i - 1]; }
        }
        assert forall y :: y in s <==> y == s[0] || y in s[1..] by {
          assert s == [s[0]] + s[1..];
        }
      }
    }
  }

  /** `get_unique_streams`: `sorted(list(set(...)))` of the course streams,
      that is, each stream once, in ascending order. */
  function UniqueStreams(courses: seq<Course>): (r: seq<string>)
    ensures StrictlyAscending(r)
    ensures forall s :: s in r <==> s in StreamsOf(courses)
  {
    if courses == [] then []
    else
      var rest := UniqueStreams(courses[1..]);
      InsertUniqueSpec(courses[0].stream, rest);
      assert forall c :: c in courses <==> c == courses[0] || c in courses[1..] by {
        assert courses == [courses[0]] + courses[1..];
      }
      InsertUnique(courses[0].stream, rest)
  }

  /** A strictly ascending list has no duplicates. */
  lemma AscendingNoDup(s: seq<string>)
    requires StrictlyAscending(s)
    ensures NoDup(s)
  {
    forall i, j | 0 <= i < j < |s| ensures s[i] != s[j] {
      if s[i] == s[j] { LessIrreflexive(s[i]); }
    }
  }

  /** The test for a course of stream `stream`. */
  function InStream(stream: string): Course -> bool {
    (c: Course) => c.stream == stream
  }

  /** The test for a course whose name contains one of `keywords`. */
  function MentionsAny(keywords: seq<string>): Course -> bool {
    (c: Course) => exists k :: k in keywords && Contains(c.course, k)
  }

  /** `get_recommendations(stream, interest)` */
  function GetRecommendations(courses: seq<Course>, stream: string, interest: string): (r: seq<Course>)
    ensures |r| <= |courses|
    ensures forall i :: 0 <= i < |r| ==> r[i].stream == stream
    ensures IsSubsequence(r, courses)
    ensures interest == AllCourses || interest !in Keywords ==> r == Filter(courses, InStream(stream))
  {
    var filtered := Filter(courses, InStream(stream));
    FilterSpec(courses, InStream(stream));
    if interest == AllCourses then filtered
    else if interest in Keywords then
      FilterSpec(filtered, MentionsAny(Keywords[interest]));
      SubsequenceTransitive(Filter(filtered, MentionsAny(Keywords[interest])), filtered, courses);
      Filter(filtered, MentionsAny(Keywords[interest]))
    else filtered
  }

  /** The stream filter keeps every course of the stream, as often as it
      occurs, and nothing else. */
  lemma StreamFilterSpec(courses: seq<Course>, stream: string)
    ensures forall c :: multiset(Filter(courses, InStream(stream)))[c] ==
                        if c.stream == stream then multiset(courses)[c] else 0
  {
    FilterSpec(courses, InStream(stream));
  }

  /** The name of course `c` contains one of `keywords`, read positionally. */
  ghost predicate NamesKeyword(c: Course, keywords: seq<string>) {
    exists k, i :: k in keywords && OccursAt(c.course, k, i)
  }

  lemma MentionsAnyIff(c: Course, keywords: seq<string>)
    ensures MentionsAny(keywords)(c) <==> NamesKeyword(c, keywords)
  {
    forall k | k in keywords { ContainsIffOccurs(c.course, k); }
  }

  /** The two filters in a row keep every course of the stream that names a
      keyword, as often as it occurs, and nothing else. */
  lemma KeywordFilterSpec(courses: seq<Course>, stream: string, keywords: seq<string>, c: Course)
    ensures multiset(Filter(Filter(courses, InStream(stream)), MentionsAny(keywords)))[c] ==
            if c.stream == stream && NamesKeyword(c, keywords) then multiset(courses)[c] else 0
  {
    FilterSpec(courses, InStream(stream));
    FilterSpec(Filter(courses, InStream(stream)), MentionsAny(keywords));
    MentionsAnyIff(c, keywords);
  }

  /** For an interest with keywords, a course of the stream is kept iff one of
      the interest's keywords occurs in its name, case-sensitively; every
      occurrence of a kept course is kept. */
  lemma InterestFilterSpec(courses: seq<Course>, stream: string, interest: string, c: Course)
    requires interest in Keywords
    ensures multiset(GetRecommendations(courses, stream, interest))[c] ==
            if c.stream == stream && NamesKeyword(c, Keywords[interest]) then multiset(courses)[c] else 0
  {
    assert interest != AllCourses;
    KeywordFilterSpec(courses, stream, Keywords[interest], c);
  }

  /** Every interest the bot offers for a stream, other than "All Courses", has
      keywords, so the unknown-interest fallback is never reached from the menu. */
  lemma OfferedInterestsHaveKeywords(stream: string, interest: string)
    requires stream in InterestMap && interest in InterestMap[stream]
    ensures interest in Keywords && interest != AllCourses
  {
  }
}
