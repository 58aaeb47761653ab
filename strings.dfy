/** The Python string operations the two bots rely on, over `seq<char>`:
    `str.split(sep)` and its inverse `sep.join(...)`, `str.lower()`,
    the `<` ordering `sorted` uses, and the substring test `k in s`. */
module Strings {

  /** Python's `s.split(d)` for a one-character separator: every separator
      cuts, so empty pieces are kept and the result is never empty
      (`"".split(";") == [""]`, `"a;;b".split(";") == ["a", "", "b"]`). */
  function Split(s: string, d: char): (r: seq<string>)
    ensures |r| >= 1
    ensures forall i :: 0 <= i < |r| ==> d !in r[i]
    decreases |s|
  {
    if s == [] then [""]
    else
      var rest := Split(s[1..], d);
      if s[0] == d then [""] + rest
      else [[s[0]] + rest[0]] + rest[1..]
  }

  /** Python's `d.join(pieces)` for a non-empty list of pieces. */
  function Join(pieces: seq<string>, d: char): string
    requires |pieces| >= 1
  {
    if |pieces| == 1 then pieces[0] else pieces[0] + [d] + Join(pieces[1..], d)
  }

  /** Splitting loses nothing: joining the pieces gives the text back. */
  lemma {:induction false} JoinSplit(s: string, d: char)
    ensures Join(Split(s, d), d) == s
  {
    if s != [] {
      JoinSplit(s[1..], d);
      var rest := Split(s[1..], d);
      if s[0] == d {
        assert Split(s, d)[1..] == rest;
        assert s == [d] + s[1..];
      } else {
        var r := Split(s, d);
        if |rest| == 1 {
          assert r == [[s[0]] + rest[0]];
        } else {
          assert r[1..] == rest[1..];
          assert Join(rest, d) == rest[0] + [d] + Join(rest[1..], d);
        }
        assert s == [s[0]] + s[1..];
      }
    }
  }

  /** Text without separators in front of `t` extends the first piece of `t`. */
  lemma {:induction false} SplitPrefix(w: string, t: string, d: char)
    requires d !in w
    ensures Split(w + t, d) == [w + Split(t, d)[0]] + Split(t, d)[1..]
  {
    if w == [] {
      assert w + t == t;
      var r := Split(t, d);
      assert w + r[0] == r[0];
      assert r == [r[0]] + r[1..];
    } else {
      SplitPrefix(w[1..], t, d);
      assert (w + t)[0] == w[0];
      assert (w + t)[1..] == w[1..] + t;
      assert [w[0]] + (w[1..] + Split(t, d)[0]) == w + Split(t, d)[0];
    }
  }

  /** Pieces free of the separator are recovered by splitting their join. */
  lemma {:induction false} SplitJoin(pieces: seq<string>, d: char)
    requires |pieces| >= 1
    requires forall i :: 0 <= i < |pieces| ==> d !in pieces[i]
    ensures Split(Join(pieces, d), d) == pieces
  {
    if |pieces| == 1 {
      SplitPrefix(pieces[0], "", d);
      assert pieces[0] + "" == pieces[0];
    } else {
      var t := Join(pieces[1..], d);
      SplitJoin(pieces[1..], d);
      assert ([d] + t)[1..] == t;
      assert Split([d] + t, d) == [""] + pieces[1..];
      SplitPrefix(pieces[0], [d] + t, d);
      assert pieces[0] + [d] + t == pieces[0] + ([d] + t);
      assert pieces[0] + "" == pieces[0];
    }
  }

  /** `c.lower()` for ASCII letters; every other character is kept. */
  function LowerChar(c: char): char {
    if 'A' <= c <= 'Z' then (c as int + 32) as char else c
  }

  /** `s.lower()`: no capital letter is left, a capital becomes the small
      letter at the same place in the alphabet, and every other character
      is kept. */
  function Lower(s: string): (r: string)
    ensures |r| == |s|
    ensures forall i :: 0 <= i < |r| ==> !('A' <= r[i] <= 'Z')
    ensures forall i :: 0 <= i < |s| && !('A' <= s[i] <= 'Z') ==> r[i] == s[i]
    ensures forall i :: 0 <= i < |s| && 'A' <= s[i] <= 'Z' ==>
                        'a' <= r[i] <= 'z' && r[i] as int - 'a' as int == s[i] as int - 'A' as int
  {
    seq(|s|, i requires 0 <= i < |s| => LowerChar(s[i]))
  }

  /** A string without capitals is its own lowering. */
  lemma NoCapitalsUnchanged(s: string)
    requires forall i :: 0 <= i < |s| ==> !('A' <= s[i] <= 'Z')
    ensures Lower(s) == s
  {
    assert forall i :: 0 <= i < |s| ==> Lower(s)[i] == s[i];
  }

  /** Lowering twice is lowering once. */
  lemma LowerIdempotent(s: string)
    ensures Lower(Lower(s)) == Lower(s)
  {
    NoCapitalsUnchanged(Lower(s));
  }

  /** Python's `a < b` on strings: lexicographic on code points, and a proper
      prefix is smaller. */
  predicate Less(a: string, b: string) {
    if a == [] then b != []
    else if b == [] then false
    else a[0] < b[0] || (a[0] == b[0] && Less(a[1..], b[1..]))
  }

  lemma {:induction false} LessIrreflexive(a: string)
    ensures !Less(a, a)
  {
    if a != [] { LessIrreflexive(a[1..]); }
  }

  lemma {:induction false} LessTransitive(a: string, b: string, c: string)
    requires Less(a, b) && Less(b, c)
    ensures Less(a, c)
  {
    if a != [] && b != [] && c != [] && a[0] == b[0] == c[0] {
      LessTransitive(a[1..], b[1..], c[1..]);
    }
  }

  /** Any two different strings are ordered one way or the other. */
  lemma {:induction false} LessTotal(a: string, b: string)
    requires a != b
    ensures Less(a, b) || Less(b, a)
  {
    if a != [] && b != [] && a[0] == b[0] {
      assert a == [a[0]] + a[1..] && b == [b[0]] + b[1..];
      LessTotal(a[1..], b[1..]);
    }
  }

  /** Python's `k in text`: `k` is a contiguous piece of `text`. */
  function Contains(text: string, k: string): bool
    decreases |text|
  {
    |k| <= |text| && (text[..|k|] == k || Contains(text[1..], k))
  }

  /** The positional reading of a substring occurrence. */
  ghost predicate OccursAt(text: string, k: string, i: int) {
    0 <= i && i + |k| <= |text| && text[i..i + |k|] == k
  }

  /** The search agrees with the positional definition, both ways. */
  lemma {:induction false} ContainsIffOccurs(text: string, k: string)
    ensures Contains(text, k) <==> exists i :: OccursAt(text, k, i)
  {
    if |k| <= |text| {
      if text[..|k|] == k {
        assert OccursAt(text, k, 0);
      } else {
        ContainsIffOccurs(text[1..], k);
        if Contains(text[1..], k) {
          var i :| OccursAt(text[1..], k, i);
          assert text[i + 1..i + 1 + |k|] == text[1..][i..i + |k|];
          assert OccursAt(text, k, i + 1);
        }
        forall i | OccursAt(text, k, i) ensures Contains(text[1..], k) {
          assert i != 0;
          assert text[1..][i - 1..i - 1 + |k|] == text[i..i + |k|];
          assert OccursAt(text[1..], k, i - 1);
        }
      }
    }
  }
}
