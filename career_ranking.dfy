/** The skill-similarity ranking of the career bot: careers paired with their
    similarity scores and sorted by score, highest first, keeping the career
    order among equal scores. The scores themselves (TF-IDF weighting and
    cosine similarity) are an input: one score per career, aligned with the
    career list. */
module Ranking {
  import opened Seqs

  /** A `(career, score)` pair. */
  type Scored = (string, real)

  /** Python's `zip`: pairs up to the shorter of the two inputs. */
  function Zip(careers: seq<string>, scores: seq<real>): (r: seq<Scored>)
    ensures |r| == if |careers| <= |scores| then |careers| else |scores|
    ensures forall i :: 0 <= i < |r| ==> r[i] == (careers[i], scores[i])
  {
    var n := if |careers| <= |scores| then |careers| else |scores|;
    seq(n, i requires 0 <= i < n => (careers[i], scores[i]))
  }

  /** Non-increasing by score. */
  ghost predicate SortedDesc(s: seq<Scored>) {
    forall i, j :: 0 <= i < j < |s| ==> s[i].1 >= s[j].1
  }

  /** The test that picks the pairs with score `v`. */
  function HasScore(v: real): Scored -> bool {
    (e: Scored) => e.1 == v
  }

  /** The pairs with score `v`, in order. */
  function WithScore(s: seq<Scored>, v: real): seq<Scored> {
    Filter(s, HasScore(v))
  }

  /** Places `x` in front of the first pair whose score is not above its own. */
  function Insert(x: Scored, s: seq<Scored>): seq<Scored> {
    if s == [] || s[0].1 <= x.1 then [x] + s else [s[0]] + Insert(x, s[1..])
  }

  /** `sorted(xs, key=lambda x: x[1], reverse=True)`: a stable sort, highest
      score first. Python's sort is stable also when reversed, so pairs with
      equal scores keep their relative order. */
  function SortByScore(xs: seq<Scored>): seq<Scored> {
    if xs == [] then [] else Insert(xs[0], SortByScore(xs[1..]))
  }

  /** What `get_skill_recommendations` returns for the bot's career list and
      the similarity scores of the user's skills: nothing for an empty skill
      list, otherwise every `(career, score)` pair sorted by score. */
  function Rank(careerList: seq<string>, scores: seq<real>, userSkills: seq<string>): (r: seq<Scored>)
    ensures userSkills == [] ==> r == []
    ensures userSkills != [] ==> multiset(r) == multiset(Zip(careerList, scores))
    ensures userSkills != [] ==> SortedDesc(r)
    ensures userSkills != [] ==> forall v :: WithScore(r, v) == WithScore(Zip(careerList, scores), v)
    ensures |scores| == |careerList| && userSkills != [] ==> |r| == |careerList|
  {
    if userSkills == [] then []
    else
      var pairs := Zip(careerList, scores);
      SortSpec(pairs);
      SortByScore(pairs)
  }

  /** Inserting into a sorted ranking keeps it sorted. */
  lemma {:induction false} InsertSorted(x: Scored, s: seq<Scored>)
    requires SortedDesc(s)
    ensures SortedDesc(Insert(x, s))
  {
    if s == [] || s[0].1 <= x.1 {
      forall i, j | 0 <= i < j < |[x] + s| ensures ([x] + s)[i].1 >= ([x] + s)[j].1 {
        if i > 0 { assert ([x] + s)[i] == s[i - 1]; }
        assert ([x] + s)[j] == s[j - 1];
      }
    } else {
      var rest := Insert(x, s[1..]);
      InsertSorted(x, s[1..]);
      InsertPermutes(x, s[1..]);
      var r := [s[0]] + rest;
      forall e | e in rest ensures s[0].1 >= e.1 {
        assert e in multiset(rest);
        if e != x {
          assert e in s[1..];
        }
      }
      forall i, j | 0 <= i < j < |r| ensures r[i].1 >= r[j].1 {
        assert r[j] == rest[j - 1];
        assert r[j] in rest;
        if i > 0 { assert r[i] == rest[i - 1]; }
      }
    }
  }

  /** Inserting adds exactly the one pair. */
  lemma {:induction false} InsertPermutes(x: Scored, s: seq<Scored>)
    ensures multiset(Insert(x, s)) == multiset(s) + multiset{x}
  {
    if !(s == [] || s[0].1 <= x.1) {
      InsertPermutes(x, s[1..]);
      assert s == [s[0]] + s[1..];
      assert multiset([s[0]] + Insert(x, s[1..])) == multiset{s[0]} + multiset(Insert(x, s[1..]));
    }
  }

  /** Inserting `x` puts it in front of every pair with its own score. */
  lemma {:induction false} InsertStable(x: Scored, s: seq<Scored>, v: real)
    ensures WithScore(Insert(x, s), v) == WithScore([x] + s, v)
  {
    if !(s == [] || s[0].1 <= x.1) {
      var p := HasScore(v);
      InsertStable(x, s[1..], v);
      assert s == [s[0]] + s[1..];
      FilterCons(s[0], Insert(x, s[1..]), p);
      FilterCons(x, s[1..], p);
      FilterCons(x, s, p);
      FilterCons(s[0], s[1..], p);
    }
  }

  /** The sort is sorted, a permutation, and stable: for each score, the pairs
      with that score come out in their input order. */
  lemma SortSpec(xs: seq<Scored>)
    ensures SortedDesc(SortByScore(xs))
    ensures multiset(SortByScore(xs)) == multiset(xs)
    ensures forall v :: WithScore(SortByScore(xs), v) == WithScore(xs, v)
    ensures |SortByScore(xs)| == |xs|
  {
    SortSorted(xs);
    SortPermutes(xs);
    forall v ensures WithScore(SortByScore(xs), v) == WithScore(xs, v) {
      SortStable(xs, v);
    }
    assert |SortByScore(xs)| == |multiset(SortByScore(xs))|;
    assert |xs| == |multiset(xs)|;
  }

  lemma {:induction false} SortSorted(xs: seq<Scored>)
    ensures SortedDesc(SortByScore(xs))
  {
    if xs != [] {
      SortSorted(xs[1..]);
      InsertSorted(xs[0], SortByScore(xs[1..]));
    }
  }

  lemma {:induction false} SortPermutes(xs: seq<Scored>)
    ensures multiset(SortByScore(xs)) == multiset(xs)
  {
    if xs != [] {
      SortPermutes(xs[1..]);
      InsertPermutes(xs[0], SortByScore(xs[1..]));
      assert xs == [xs[0]] + xs[1..];
      assert multiset(xs) == multiset{xs[0]} + multiset(xs[1..]);
    }
  }

  lemma {:induction false} SortStable(xs: seq<Scored>, v: real)
    ensures WithScore(SortByScore(xs), v) == WithScore(xs, v)
  {
    if xs != [] {
      var sorted := SortByScore(xs[1..]);
      SortStable(xs[1..], v);
      InsertStable(xs[0], sorted, v);
      FilterCons(xs[0], sorted, HasScore(v));
      FilterCons(xs[0], xs[1..], HasScore(v));
      assert xs == [xs[0]] + xs[1..];
    }
  }

  /** A subsequence of a sorted ranking is sorted. */
  lemma {:induction false} SubsequenceSorted(a: seq<Scored>, b: seq<Scored>)
    requires IsSubsequence(a, b) && SortedDesc(b)
    ensures SortedDesc(a)
  {
    if a != [] && b != [] {
      assert SortedDesc(b[1..]);
      if a[0] == b[0] && IsSubsequence(a[1..], b[1..]) {
        SubsequenceSorted(a[1..], b[1..]);
        SubsequenceMembers(a[1..], b[1..]);
        forall i, j | 0 <= i < j < |a| ensures a[i].1 >= a[j].1 {
          assert a[j] == a[1..][j - 1];
          assert a[j] in b[1..];
          if i > 0 { assert a[i] == a[1..][i - 1]; }
        }
      } else {
        SubsequenceSorted(a, b[1..]);
      }
    }
  }
}
