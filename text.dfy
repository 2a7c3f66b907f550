/** The string operations the connector borrows from Python: removing a
    separator character (`''.join(s.split(c))`), splitting on a separator
    (`s.split(sep)`) and taking the text after the last '/'
    (`s.split('/')[-1]`). */
module Text {

  /** `''.join(s.split(c))`: s with every occurrence of c taken out. */
  function Without(s: string, c: char): string
  {
    if s == [] then [] else (if s[0] == c then [] else [s[0]]) + Without(s[1..], c)
  }

  /** x is y with some characters left out, the rest kept in order. */
  predicate Subseq(x: string, y: string)
    decreases |y|
  {
    if y == [] then x == []
    else (x != [] && x[0] == y[0] && Subseq(x[1..], y[1..])) || Subseq(x, y[1..])
  }

  lemma {:induction false} SubseqRefl(s: string)
    ensures Subseq(s, s)
  {
    if s != [] {
      SubseqRefl(s[1..]);
    }
  }

  /** Removing c keeps the other characters in their order. */
  lemma {:induction false} WithoutSubseq(s: string, c: char)
    ensures Subseq(Without(s, c), s)
  {
    if s != [] {
      WithoutSubseq(s[1..], c);
      var w := Without(s[1..], c);
      if s[0] != c {
        assert Without(s, c) == [s[0]] + w;
        assert ([s[0]] + w)[1..] == w;
      } else {
        assert Without(s, c) == w;
      }
    }
  }

  /** Removing c keeps every other character, as often as it occurred, and
      drops every c. */
  lemma {:induction false} WithoutCounts(s: string, c: char)
    ensures multiset(Without(s, c)) == multiset(s)[c := 0]
  {
    if s != [] {
      WithoutCounts(s[1..], c);
      assert s == [s[0]] + s[1..];
      assert multiset(s) == multiset([s[0]]) + multiset(s[1..]);
    }
  }

  /** Removing c works piece by piece, so the characters that stay keep
      their order. */
  lemma {:induction false} WithoutConcat(a: string, b: string, c: char)
    ensures Without(a + b, c) == Without(a, c) + Without(b, c)
  {
    if a == [] {
      assert a + b == b;
    } else {
      assert (a + b)[1..] == a[1..] + b;
      WithoutConcat(a[1..], b, c);
    }
  }

  lemma {:induction false} WithoutAbsent(s: string, c: char)
    requires c !in s
    ensures Without(s, c) == s
  {
    if s != [] {
      assert c !in s[1..] by {
        forall i | 0 <= i < |s[1..]| ensures s[1..][i] != c { assert s[1..][i] == s[i + 1]; }
      }
      WithoutAbsent(s[1..], c);
    }
  }

  predicate StartsWith(s: string, prefix: string)
  {
    |prefix| <= |s| && s[..|prefix|] == prefix
  }

  /** sep occurs in s at position i. */
  predicate OccursAt(s: string, sep: string, i: nat)
  {
    i + |sep| <= |s| && s[i..i + |sep|] == sep
  }

  /** Python's `s.split(sep)` for a non-empty separator: the pieces between
      the occurrences of sep, each occurrence taken from the left. */
  function Split(s: string, sep: string): (r: seq<string>)
    requires sep != []
    ensures |r| >= 1
    decreases |s|
  {
    if |s| < |sep| then [s]
    else if StartsWith(s, sep) then [""] + Split(s[|sep|..], sep)
    else var rest := Split(s[1..], sep); [[s[0]] + rest[0]] + rest[1..]
  }

  /** Python's `sep.join(parts)`. */
  function Join(parts: seq<string>, sep: string): string
  {
    if parts == [] then ""
    else if |parts| == 1 then parts[0]
    else parts[0] + sep + Join(parts[1..], sep)
  }

  /** Splitting loses nothing: joining the pieces back gives s. */
  lemma {:induction false} JoinSplit(s: string, sep: string)
    requires sep != []
    ensures Join(Split(s, sep), sep) == s
    decreases |s|
  {
    if |s| < |sep| {
    } else if StartsWith(s, sep) {
      var rest := Split(s[|sep|..], sep);
      assert Split(s, sep) == [""] + rest;
      JoinSplit(s[|sep|..], sep);
      JoinPrependEmpty(rest, sep);
      assert s == sep + s[|sep|..];
    } else {
      var rest := Split(s[1..], sep);
      assert Split(s, sep) == [[s[0]] + rest[0]] + rest[1..];
      JoinSplit(s[1..], sep);
      JoinExtendFirst([s[0]], rest, sep);
      assert s == [s[0]] + s[1..];
    }
  }

  /** Extending the first part extends the joined text by the same prefix. */
  lemma JoinExtendFirst(x: string, parts: seq<string>, sep: string)
    requires |parts| >= 1
    ensures Join([x + parts[0]] + parts[1..], sep) == x + Join(parts, sep)
  {
    var ps := [x + parts[0]] + parts[1..];
    assert ps[0] == x + parts[0] && ps[1..] == parts[1..];
    if |parts| > 1 {
      assert (x + parts[0]) + sep + Join(parts[1..], sep) == x + (parts[0] + sep + Join(parts[1..], sep));
    }
  }

  /** An empty first part adds one separator in front. */
  lemma JoinPrependEmpty(parts: seq<string>, sep: string)
    requires |parts| >= 1
    ensures Join([""] + parts, sep) == sep + Join(parts, sep)
  {
    assert ([""] + parts)[1..] == parts;
  }

  /** Each piece of s is a prefix of the remaining text. */
  lemma {:induction false} SplitHeadIsPrefix(s: string, sep: string)
    requires sep != []
    ensures StartsWith(s, Split(s, sep)[0])
    decreases |s|
  {
    if |s| < |sep| {
    } else if StartsWith(s, sep) {
    } else {
      SplitHeadIsPrefix(s[1..], sep);
    }
  }

  /** No piece of a split contains the separator. */
  lemma {:induction false} SplitPiecesFree(s: string, sep: string)
    requires sep != []
    ensures forall k, i :: 0 <= k < |Split(s, sep)| && 0 <= i ==> !OccursAt(Split(s, sep)[k], sep, i)
    decreases |s|
  {
    var r := Split(s, sep);
    if |s| < |sep| {
      forall i | 0 <= i ensures !OccursAt(s, sep, i) { }
    } else if StartsWith(s, sep) {
      SplitPiecesFree(s[|sep|..], sep);
      var rest := Split(s[|sep|..], sep);
      assert r == [""] + rest;
      forall k, i | 0 <= k < |r| && 0 <= i ensures !OccursAt(r[k], sep, i) {
        if k > 0 { assert r[k] == rest[k - 1]; }
      }
    } else {
      var rest := Split(s[1..], sep);
      SplitPiecesFree(s[1..], sep);
      SplitHeadIsPrefix(s[1..], sep);
      var head := [s[0]] + rest[0];
      assert r == [head] + rest[1..];
      forall k, i | 0 <= k < |r| && 0 <= i ensures !OccursAt(r[k], sep, i) {
        if k > 0 {
          assert r[k] == rest[k];
        } else if i == 0 {
          assert head == s[..|head|];
          if |sep| <= |head| {
            assert head[..|sep|] == s[..|sep|];
          }
        } else if i + |sep| <= |head| {
          assert head[i..i + |sep|] == rest[0][i - 1..i - 1 + |sep|];
          assert !OccursAt(rest[0], sep, i - 1);
        }
      }
    }
  }

  /** `s.split('/')[-1]`: the text after the last '/', or all of s when it
      holds no '/'. */
  function LastSegment(s: string): (r: string)
    ensures '/' !in r
    ensures |r| <= |s| && r == s[|s| - |r|..]
    ensures |r| < |s| ==> s[|s| - |r| - 1] == '/'
  {
    if s == [] then []
    else if s[|s| - 1] == '/' then []
    else
      var r0 := LastSegment(s[..|s| - 1]);
      LastSegmentStep(s, r0);
      r0 + [s[|s| - 1]]
  }

  /** A suffix of s without its last character, extended by that character,
      is a suffix of s. */
  lemma LastSegmentStep(s: string, r0: string)
    requires |s| > 0 && |r0| <= |s| - 1 && r0 == s[..|s| - 1][|s| - 1 - |r0|..]
    requires |r0| < |s| - 1 ==> s[..|s| - 1][|s| - 1 - |r0| - 1] == '/'
    ensures r0 + [s[|s| - 1]] == s[|s| - |r0| - 1..]
    ensures |r0| < |s| - 1 ==> s[|s| - |r0| - 2] == '/'
  {
    assert s[..|s| - 1][|s| - 1 - |r0|..] == s[|s| - 1 - |r0|..|s| - 1];
    assert s[|s| - |r0| - 1..] == s[|s| - 1 - |r0|..|s| - 1] + [s[|s| - 1]];
  }
}
