/**
 Plain text operations over `string` (a `seq<char>`): splitting on a
 separator as Go's `strings.Split` does, its inverse `Join`, occurrence of a
 fixed word at a position, and the "obtained only by deleting characters"
 relation used to describe the markup rewrites.
 */
module Text {

  /** Go's `strings.Split(s, sep)` for a one-character separator: the pieces
      between separators, in order. An empty string gives one empty piece. */
  function Split(s: string, sep: char): (groups: seq<string>)
    ensures |groups| >= 1
    ensures forall i :: 0 <= i < |groups| ==> sep !in groups[i]
    decreases |s|
  {
    if |s| == 0 then [""]
    else
      var rest := Split(s[1..], sep);
      if s[0] == sep then [""] + rest
      else [[s[0]] + rest[0]] + rest[1..]
  }

  /** The pieces glued back together with one separator between neighbours. */
  function Join(groups: seq<string>, sep: char): string
  {
    if |groups| == 0 then ""
    else if |groups| == 1 then groups[0]
    else groups[0] + [sep] + Join(groups[1..], sep)
  }

  /** Splitting a text with a separator in the middle splits both halves
      independently. */
  lemma {:induction false} SplitAround(a: string, b: string, sep: char)
    ensures Split(a + [sep] + b, sep) == Split(a, sep) + Split(b, sep)
    decreases |a|
  {
    var t := a + [sep] + b;
    if |a| == 0 {
      assert t == [sep] + b;
      assert t[1..] == b;
    } else {
      assert t[1..] == a[1..] + [sep] + b;
      SplitAround(a[1..], b, sep);
      SplitStep(a, b, sep);
    }
  }

  lemma SplitStep(a: string, b: string, sep: char)
    requires |a| > 0
    requires Split((a + [sep] + b)[1..], sep) == Split(a[1..], sep) + Split(b, sep)
    ensures Split(a + [sep] + b, sep) == Split(a, sep) + Split(b, sep)
  {
    var t := a + [sep] + b;
    var ra := Split(a[1..], sep);
    var rb := Split(b, sep);
    assert t[0] == a[0];
    if a[0] != sep {
      assert (ra + rb)[0] == ra[0];
      assert (ra + rb)[1..] == ra[1..] + rb;
    }
  }

  /** Join undoes Split. */
  lemma {:induction false} JoinSplit(s: string, sep: char)
    ensures Join(Split(s, sep), sep) == s
    decreases |s|
  {
    if |s| > 0 {
      JoinSplit(s[1..], sep);
      var rest := Split(s[1..], sep);
      assert Join(rest, sep) == s[1..];
      assert s == [s[0]] + s[1..];
      if s[0] == sep {
        var groups := [""] + rest;
        assert groups[1..] == rest;
        assert Join(groups, sep) == "" + [sep] + Join(rest, sep);
      } else {
        var groups := [[s[0]] + rest[0]] + rest[1..];
        assert Split(s, sep) == groups;
        if |rest| > 1 {
          assert groups[1..] == rest[1..];
          var tail := Join(rest[1..], sep);
          assert Join(groups, sep) == groups[0] + [sep] + tail;
          assert Join(rest, sep) == rest[0] + [sep] + tail;
          assert groups[0] + [sep] + tail == [s[0]] + (rest[0] + [sep] + tail);
        } else {
          assert Join(groups, sep) == [s[0]] + rest[0];
        }
      }
    }
  }

  /** There is one piece more than there are separators. */
  lemma {:induction false} SplitCount(s: string, sep: char)
    ensures |Split(s, sep)| == multiset(s)[sep] + 1
    decreases |s|
  {
    if |s| > 0 {
      SplitCount(s[1..], sep);
      assert s == [s[0]] + s[1..];
    }
  }

  /** A text without the separator is a single piece. */
  lemma {:induction false} SplitWithoutSeparator(a: string, sep: char)
    requires sep !in a
    ensures Split(a, sep) == [a]
    decreases |a|
  {
    if |a| > 0 {
      SplitWithoutSeparator(a[1..], sep);
      assert a == [a[0]] + a[1..];
    }
  }

  /** Split undoes Join whenever no piece contains the separator. */
  lemma {:induction false} SplitJoin(groups: seq<string>, sep: char)
    requires |groups| >= 1
    requires forall i :: 0 <= i < |groups| ==> sep !in groups[i]
    ensures Split(Join(groups, sep), sep) == groups
    decreases |groups|
  {
    SplitWithoutSeparator(groups[0], sep);
    if |groups| > 1 {
      SplitJoin(groups[1..], sep);
      SplitAround(groups[0], Join(groups[1..], sep), sep);
      assert groups == [groups[0]] + groups[1..];
    }
  }

  /** A separator at either end, or two in a row, yields an empty piece. */
  lemma EmptyPieces(a: string, b: string, sep: char)
    ensures "" in Split([sep] + b, sep)
    ensures "" in Split(a + [sep], sep)
    ensures "" in Split(a + [sep, sep] + b, sep)
  {
    SplitAround("", b, sep);
    assert [] + [sep] + b == [sep] + b;
    assert Split("", sep) == [""];
    SplitAround(a, "", sep);
    assert a + [sep] + "" == a + [sep];
    SplitAround(a, [sep] + b, sep);
    assert a + [sep] + ([sep] + b) == a + [sep, sep] + b;
  }

  /** The word `w` appears in `s` starting at index `i`. */
  predicate OccursAt(s: string, i: int, w: string)
  {
    0 <= i && i + |w| <= |s| && s[i..i + |w|] == w
  }

  /** Putting the head back in front of the tail of a non-empty sequence
      commutes with appending. */
  lemma ConsAppend<T>(a: seq<T>, x: seq<T>)
    requires |a| > 0
    ensures [a[0]] + (a[1..] + x) == a + x
  {
    assert a == [a[0]] + a[1..];
  }

  /** An occurrence inside a suffix is an occurrence in the whole text. */
  lemma OccursInSuffix(s: string, k: nat, w: string)
    requires k <= |s|
    ensures forall i :: OccursAt(s[k..], i, w) ==> OccursAt(s, k + i, w)
  {
    forall i | OccursAt(s[k..], i, w)
      ensures OccursAt(s, k + i, w)
    {
      assert s[k..][i..i + |w|] == s[k + i..k + i + |w|];
    }
  }

  /** `a` is obtained from `b` by deleting characters (keeping the order of
      the rest). */
  predicate IsSubsequence(a: string, b: string)
    decreases |b|
  {
    || |a| == 0
    || (&& |b| > 0
        && (|| (a[0] == b[0] && IsSubsequence(a[1..], b[1..]))
            || IsSubsequence(a, b[1..])))
  }

  lemma {:induction false} SubsequenceReflexive(s: string)
    ensures IsSubsequence(s, s)
    decreases |s|
  {
    if |s| > 0 {
      SubsequenceReflexive(s[1..]);
    }
  }

  /** Deleting characters twice is deleting characters. */
  lemma {:induction false} SubsequenceTransitive(a: string, b: string, c: string)
    requires IsSubsequence(a, b) && IsSubsequence(b, c)
    ensures IsSubsequence(a, c)
    decreases |c|
  {
    if |a| > 0 {
      if b[0] == c[0] && IsSubsequence(b[1..], c[1..]) {
        if a[0] == b[0] && IsSubsequence(a[1..], b[1..]) {
          SubsequenceTransitive(a[1..], b[1..], c[1..]);
        } else {
          SubsequenceTransitive(a, b[1..], c[1..]);
        }
      } else {
        SubsequenceTransitive(a, b, c[1..]);
      }
    }
  }

  /** Dropping a prefix only deletes characters. */
  lemma {:induction false} SuffixIsSubsequence(s: string, k: nat)
    requires k <= |s|
    ensures IsSubsequence(s[k..], s)
    decreases k
  {
    if k == 0 {
      assert s[0..] == s;
      SubsequenceReflexive(s);
    } else {
      SuffixIsSubsequence(s[1..], k - 1);
      assert s[1..][k - 1..] == s[k..];
    }
  }

  /** Deleting characters never adds a character nor makes the text longer. */
  lemma {:induction false} SubsequenceMultiset(a: string, b: string)
    requires IsSubsequence(a, b)
    ensures multiset(a) <= multiset(b)
    ensures |a| <= |b|
    decreases |b|
  {
    if |a| > 0 {
      assert b == [b[0]] + b[1..];
      if a[0] == b[0] && IsSubsequence(a[1..], b[1..]) {
        SubsequenceMultiset(a[1..], b[1..]);
        assert a == [a[0]] + a[1..];
      } else {
        SubsequenceMultiset(a, b[1..]);
      }
    }
  }

  /** A character missing from a text is missing from its subsequences. */
  lemma SubsequenceAvoids(a: string, b: string, c: char)
    requires IsSubsequence(a, b) && c !in b
    ensures c !in a
  {
    SubsequenceMultiset(a, b);
    assert multiset(a)[c] <= multiset(b)[c] == 0;
  }
}
