/**
 The markup clean-up of `fileToEmoji` (build.go): four regular-expression
 rewrites applied in order. Each fixed pattern is modelled directly as a
 text function with Go's leftmost-first, non-overlapping replace-all
 behaviour for that pattern:
   1. `\r?\n` -> ""   every line feed, with at most one carriage return
                      directly before it;
   2. `\t`    -> ""   every tab;
   3. `.*<svg.*?>` -> ""   everything up to and including the first '>'
                      after the LAST "<svg" that still has a '>' after it;
   4. `</svg>` -> ""  every occurrence met in one left-to-right scan.
 */
module Sanitizer {
  import opened Wrappers
  import opened Text

  const SvgOpen: string := "<svg"
  const SvgClose: string := "</svg>"

  /** Rewrite 1, `\r?\n` replaced by the empty string. */
  function StripNewlines(s: string): (r: string)
    ensures '\n' !in r
    ensures IsSubsequence(r, s)
    ensures '\n' !in s ==> r == s
    decreases |s|
  {
    if |s| == 0 then s
    else if s[0] == '\n' then
      assert s == [s[0]] + s[1..];
      StripNewlines(s[1..])
    else if s[0] == '\r' && |s| > 1 && s[1] == '\n' then
      assert s[1..][1..] == s[2..];
      assert s[..2] == ['\r', '\n'];
      assert s == s[..2] + s[2..];
      StripNewlines(s[2..])
    else
      assert s == [s[0]] + s[1..];
      [s[0]] + StripNewlines(s[1..])
  }

  /** Rewrite 1 works piece by piece, as long as the cut does not separate a
      carriage return from the line feed after it. */
  lemma {:induction false} StripNewlinesConcat(a: string, b: string)
    requires !(|a| > 0 && a[|a| - 1] == '\r' && |b| > 0 && b[0] == '\n')
    ensures StripNewlines(a + b) == StripNewlines(a) + StripNewlines(b)
    decreases |a|
  {
    if |a| > 0 {
      var t := a + b;
      assert t[0] == a[0] && t[1..] == a[1..] + b;
      if a[0] == '\n' {
        StripNewlinesConcat(a[1..], b);
      } else if a[0] == '\r' && |a| == 1 {
        assert t[1..] == b;
        assert StripNewlines(a) == ['\r'] + StripNewlines(a[1..]);
        assert a[1..] == [];
      } else if a[0] == '\r' && a[1] == '\n' {
        assert t[1] == '\n';
        assert t[2..] == a[2..] + b;
        StripNewlinesConcat(a[2..], b);
      } else {
        assert |a| > 1 ==> t[1] == a[1];
        StripNewlinesConcat(a[1..], b);
        assert StripNewlines(t) == [a[0]] + StripNewlines(t[1..]);
        assert StripNewlines(a) == [a[0]] + StripNewlines(a[1..]);
      }
    } else {
      assert a + b == b;
    }
  }

  /** A carriage return directly before a line feed goes with it, wherever
      the pair stands. */
  lemma StripNewlinesCRLF(a: string, b: string)
    ensures StripNewlines(a + "\r\n" + b) == StripNewlines(a) + StripNewlines(b)
  {
    var t := "\r\n" + b;
    assert a + "\r\n" + b == a + t;
    StripNewlinesConcat(a, t);
    assert t[0] == '\r' && t[1] == '\n' && t[2..] == b;
  }

  /** A line feed not preceded by a carriage return goes alone. */
  lemma StripNewlinesLF(a: string, b: string)
    requires !(|a| > 0 && a[|a| - 1] == '\r')
    ensures StripNewlines(a + "\n" + b) == StripNewlines(a) + StripNewlines(b)
  {
    var t := "\n" + b;
    assert a + "\n" + b == a + t;
    StripNewlinesConcat(a, t);
    assert t[0] == '\n' && t[1..] == b;
  }

  /** A carriage return not followed by a line feed is kept. */
  lemma StripNewlinesLoneCR(a: string, b: string)
    requires !(|b| > 0 && b[0] == '\n')
    ensures StripNewlines(a + "\r" + b) == StripNewlines(a) + "\r" + StripNewlines(b)
  {
    var t := "\r" + b;
    assert a + "\r" + b == a + t;
    StripNewlinesConcat(a, t);
    assert t[0] == '\r' && t[1..] == b;
    assert StripNewlines(t) == ['\r'] + StripNewlines(b);
  }

  /** Rewrite 2, `\t` replaced by the empty string. */
  function StripTabs(s: string): (r: string)
    ensures '\t' !in r
    ensures IsSubsequence(r, s)
    ensures '\t' !in s ==> r == s
    decreases |s|
  {
    if |s| == 0 then s
    else
      assert s == [s[0]] + s[1..];
      if s[0] == '\t' then StripTabs(s[1..]) else [s[0]] + StripTabs(s[1..])
  }

  /** Rewrite 1 deletes only line feeds and the carriage returns before
      them: every other character is kept as often as it occurs. */
  lemma {:induction false} StripNewlinesKeeps(s: string)
    ensures forall c :: c != '\n' && c != '\r' ==> multiset(StripNewlines(s))[c] == multiset(s)[c]
    decreases |s|
  {
    if |s| > 0 {
      if s[0] == '\n' {
        assert s == [s[0]] + s[1..];
        StripNewlinesKeeps(s[1..]);
      } else if s[0] == '\r' && |s| > 1 && s[1] == '\n' {
        assert s == ['\r', '\n'] + s[2..];
        StripNewlinesKeeps(s[2..]);
      } else {
        assert s == [s[0]] + s[1..];
        StripNewlinesKeeps(s[1..]);
      }
    }
  }

  /** Rewrite 2 deletes only tabs. */
  lemma {:induction false} StripTabsKeeps(s: string)
    ensures forall c :: c != '\t' ==> multiset(StripTabs(s))[c] == multiset(s)[c]
    decreases |s|
  {
    if |s| > 0 {
      assert s == [s[0]] + s[1..];
      StripTabsKeeps(s[1..]);
    }
  }

  /** The header pattern can match starting at "<svg" at index `i`: some
      '>' follows the four characters of "<svg". */
  predicate HeaderOpensAt(s: string, i: int)
  {
    OccursAt(s, i, SvgOpen) && '>' in s[i + 4..]
  }

  /** The header match of rewrite 3: it opens at `i`, the last index where
      the pattern can open, and ends at `j`, the first '>' after that "<svg". */
  predicate IsHeaderMatch(s: string, i: int, j: int)
  {
    && HeaderOpensAt(s, i)
    && (forall k :: i < k < |s| ==> !HeaderOpensAt(s, k))
    && i + 4 <= j < |s| && s[j] == '>' && '>' !in s[i + 4..j]
  }

  /** The last index below `n` where the header pattern can open. */
  function LastHeaderOpen(s: string, n: nat): (r: Option<nat>)
    requires n <= |s|
    ensures r.Some? ==> r.value < n && HeaderOpensAt(s, r.value)
    ensures r.Some? ==> forall k :: r.value < k < n ==> !HeaderOpensAt(s, k)
    ensures r.None? ==> forall k :: 0 <= k < n ==> !HeaderOpensAt(s, k)
  {
    if n == 0 then None
    else if HeaderOpensAt(s, n - 1) then Some(n - 1)
    else
      var r := LastHeaderOpen(s, n - 1);
      assert !HeaderOpensAt(s, n - 1);
      r
  }

  /** The first index at or after `k` holding `c`. */
  function FirstFrom(s: string, c: char, k: nat): (r: Option<nat>)
    requires k <= |s|
    ensures r.Some? ==> k <= r.value < |s| && s[r.value] == c && c !in s[k..r.value]
    ensures r.None? ==> c !in s[k..]
    decreases |s| - k
  {
    if k == |s| then None
    else if s[k] == c then Some(k)
    else
      var r := FirstFrom(s, c, k + 1);
      assert s[k..] == [s[k]] + s[k + 1..];
      assert r.Some? ==> s[k..r.value] == [s[k]] + s[k + 1..r.value];
      r
  }

  /** An opening of the header pattern inside a suffix is one in the whole text. */
  lemma HeaderOpensInSuffix(s: string, m: nat, i: int)
    requires m <= |s| && HeaderOpensAt(s[m..], i)
    ensures HeaderOpensAt(s, m + i)
  {
    assert s[m..][i..i + 4] == s[m + i..m + i + 4];
    assert s[m..][i + 4..] == s[m + i + 4..];
  }

  /** Rewrite 3, `.*<svg.*?>` replaced by the empty string, on text without
      line feeds (rewrite 1 has removed them all). Either the pattern matches
      and everything through the end of the match is deleted, or it cannot
      match anywhere and the text is unchanged. Only one replacement ever
      happens: what is left holds no further match. */
  function StripHeader(s: string): (r: string)
    requires '\n' !in s
    ensures || (exists i, j :: IsHeaderMatch(s, i, j) && r == s[j + 1..])
            || ((forall i :: 0 <= i < |s| ==> !HeaderOpensAt(s, i)) && r == s)
    ensures forall i :: 0 <= i < |r| ==> !HeaderOpensAt(r, i)
    ensures IsSubsequence(r, s)
  {
    match LastHeaderOpen(s, |s|)
    case None =>
      SubsequenceReflexive(s);
      s
    case Some(i) =>
      var j := FirstFrom(s, '>', i + 4).value;
      HeaderMatchFound(s, i, j);
      s[j + 1..]
  }

  /** What the header match leaves behind: a suffix of the text in which
      the pattern can no longer match. */
  lemma HeaderMatchFound(s: string, i: nat, j: nat)
    requires i < |s| && HeaderOpensAt(s, i) && forall k :: i < k < |s| ==> !HeaderOpensAt(s, k)
    requires i + 4 <= j < |s| && s[j] == '>' && '>' !in s[i + 4..j]
    ensures IsHeaderMatch(s, i, j)
    ensures var r := s[j + 1..]; forall k :: 0 <= k < |r| ==> !HeaderOpensAt(r, k)
    ensures IsSubsequence(s[j + 1..], s)
  {
    SuffixIsSubsequence(s, j + 1);
    var r := s[j + 1..];
    forall k | 0 <= k < |r| && HeaderOpensAt(r, k)
      ensures false
    {
      HeaderOpensInSuffix(s, j + 1, k);
    }
  }

  /** Rewrite 4, `</svg>` replaced by the empty string: one left-to-right
      scan that deletes every occurrence it meets. */
  function StripFooter(s: string): (r: string)
    ensures IsSubsequence(r, s)
    ensures |r| <= |s|
    ensures (forall i :: 0 <= i < |s| ==> !OccursAt(s, i, SvgClose)) ==> r == s
    decreases |s|
  {
    if |s| < 6 then
      SubsequenceReflexive(s);
      s
    else
      OccursInSuffix(s, 1, SvgClose);
      assert s == s[..6] + s[6..];
      if s[..6] == SvgClose then
        assert !OccursAt(s, 0, SvgClose) ==> false;
        SuffixIsSubsequence(s, 6);
        var r := StripFooter(s[6..]);
        SubsequenceTransitive(r, s[6..], s);
        r
      else
        assert s == [s[0]] + s[1..];
        [s[0]] + StripFooter(s[1..])
  }

  /** Rewrite 4 deletes only characters of "</svg>": every other
      character is kept as often as it occurs. */
  lemma {:induction false} StripFooterKeeps(s: string)
    ensures forall c :: c !in SvgClose ==> multiset(StripFooter(s))[c] == multiset(s)[c]
    decreases |s|
  {
    if |s| >= 6 {
      assert s == s[..6] + s[6..];
      if s[..6] == SvgClose {
        StripFooterKeeps(s[6..]);
      } else {
        assert s == [s[0]] + s[1..];
        StripFooterKeeps(s[1..]);
      }
    }
  }

  /** The scan deletes the first "</svg>" it meets and carries on right
      after it: together with the case of text without "</svg>", this fixes
      the result of rewrite 4 on every text. */
  lemma StripFooterFirst(a: string, b: string)
    requires forall k :: 0 <= k < |a| ==> !OccursAt(a + SvgClose + b, k, SvgClose)
    ensures StripFooter(a + SvgClose + b) == a + StripFooter(b)
  {
    var s := a + SvgClose + b;
    assert s[|a|..|a| + 6] == SvgClose;
    FooterFirstAt(s, |a|);
    assert s[..|a|] == a && s[|a| + 6..] == b;
  }

  /** The same, for the first occurrence at index `m` of a text. */
  lemma {:induction false} FooterFirstAt(s: string, m: nat)
    requires OccursAt(s, m, SvgClose)
    requires forall k :: 0 <= k < m ==> !OccursAt(s, k, SvgClose)
    ensures StripFooter(s) == s[..m] + StripFooter(s[m + 6..])
    decreases m
  {
    if m == 0 {
      assert s[..6] == SvgClose;
    } else {
      FooterStep(s);
      FirstCloseInTail(s, m);
      FooterFirstAt(s[1..], m - 1);
      ConsAppend(s[..m], StripFooter(s[m + 6..]));
    }
  }

  /** Dropping the first character moves the first "</svg>" one place left. */
  lemma FirstCloseInTail(s: string, m: nat)
    requires 0 < m && OccursAt(s, m, SvgClose)
    requires forall k :: 0 <= k < m ==> !OccursAt(s, k, SvgClose)
    ensures OccursAt(s[1..], m - 1, SvgClose)
    ensures forall k :: 0 <= k < m - 1 ==> !OccursAt(s[1..], k, SvgClose)
    ensures s[1..][m + 5..] == s[m + 6..]
    ensures s[..m][0] == s[0] && s[..m][1..] == s[1..][..m - 1]
  {
    OccursInSuffix(s, 1, SvgClose);
    assert s[1..][m - 1..m + 5] == s[m..m + 6];
  }

  /** Where no "</svg>" starts, the scan keeps the character and moves on. */
  lemma FooterStep(s: string)
    requires |s| > 0 && !OccursAt(s, 0, SvgClose)
    ensures StripFooter(s) == [s[0]] + StripFooter(s[1..])
  {
    if |s| < 6 {
      assert s == [s[0]] + s[1..];
    } else {
      assert s[..6] != SvgClose;
    }
  }

  /** The whole clean-up of `fileToEmoji`: the four rewrites in order. The
      result holds no line feed and no tab, and is obtained from the input by
      deleting characters only. */
  function Sanitize(raw: string): (r: string)
    ensures '\n' !in r && '\t' !in r
    ensures IsSubsequence(r, raw)
    ensures |r| <= |raw|
  {
    var a := StripNewlines(raw);
    var b := StripTabs(a);
    SubsequenceAvoids(b, a, '\n');
    var c := StripHeader(b);
    var d := StripFooter(c);
    SubsequenceTransitive(d, c, b);
    SubsequenceTransitive(b, a, raw);
    SubsequenceTransitive(d, b, raw);
    SubsequenceMultiset(d, raw);
    SubsequenceAvoids(d, b, '\n');
    SubsequenceAvoids(d, b, '\t');
    d
  }

  /** An occurrence past index `m` lies inside the suffix from `m`. */
  lemma OccursPast(s: string, m: nat, k: int, w: string)
    requires m <= k && OccursAt(s, k, w)
    ensures OccursAt(s[m..], k - m, w)
  {
    assert s[m..][k - m..k - m + |w|] == s[k..k + |w|];
  }

  /** If `c` is absent from `s[lo..j]` and present at `x >= lo`, then `j <= x`. */
  lemma NoCharBefore(s: string, lo: nat, j: nat, x: nat, c: char)
    requires lo <= j <= |s| && lo <= x < |s| && s[x] == c && c !in s[lo..j]
    ensures j <= x
  {
  }

  /** In an element "<svg" + attrs + ">" + rest whose attributes hold no
      angle bracket and whose rest holds no "<svg", rewrite 3 deletes
      exactly the prefix and the opening tag. */
  lemma StripHeaderOfElement(prefix: string, attrs: string, rest: string)
    requires '\n' !in prefix && '\n' !in attrs && '\n' !in rest
    requires '<' !in attrs && '>' !in attrs
    requires forall k :: 0 <= k < |rest| ==> !OccursAt(rest, k, SvgOpen)
    ensures StripHeader(prefix + SvgOpen + attrs + ">" + rest) == rest
  {
    var doc := prefix + SvgOpen + attrs + ">" + rest;
    var P, A := |prefix|, |attrs|;
    ElementOpensOnce(prefix, attrs, rest);
    var r := StripHeader(doc);
    assert exists i, j :: IsHeaderMatch(doc, i, j) && r == doc[j + 1..];
    var i, j :| IsHeaderMatch(doc, i, j) && r == doc[j + 1..];
    assert i == P;
    NoCharBefore(doc, P + 4, j, P + 4 + A, '>');
  }

  /** The layout of such an element: the header pattern opens at the
      element's "<svg" and nowhere after it. */
  lemma ElementOpensOnce(prefix: string, attrs: string, rest: string)
    requires '\n' !in prefix && '\n' !in attrs && '\n' !in rest
    requires '<' !in attrs && '>' !in attrs
    requires forall k :: 0 <= k < |rest| ==> !OccursAt(rest, k, SvgOpen)
    ensures var doc := prefix + SvgOpen + attrs + ">" + rest;
      && '\n' !in doc
      && doc[|prefix| + 4 + |attrs|] == '>'
      && (forall k :: |prefix| + 4 <= k < |prefix| + 4 + |attrs| ==> doc[k] != '>')
      && doc[|prefix| + 5 + |attrs|..] == rest
      && HeaderOpensAt(doc, |prefix|)
      && forall k :: |prefix| < k < |doc| ==> !HeaderOpensAt(doc, k)
  {
    var doc := prefix + SvgOpen + attrs + ">" + rest;
    var P, A := |prefix|, |attrs|;
    assert doc[P..P + 4] == SvgOpen;
    assert doc[P + 4..P + 4 + A] == attrs;
    assert doc[P + 4 + A] == '>';
    assert doc[P + 5 + A..] == rest;
    assert '\n' !in doc by {
      assert forall k :: 0 <= k < |doc| ==> doc[k] != '\n' by {
        forall k | 0 <= k < |doc|
          ensures doc[k] != '\n'
        {
          if k < P {
            assert doc[k] == prefix[k];
          } else if k < P + 4 + A {
            assert k < P + 4 || doc[k] == attrs[k - P - 4];
          } else if P + 4 + A < k {
            assert doc[k] == rest[k - P - 5 - A];
          }
        }
      }
    }
    assert doc[P + 4..][A] == '>';
    assert forall k :: P < k < P + 4 ==> doc[k] == SvgOpen[k - P];
    assert forall k :: P + 4 <= k < P + 4 + A ==> doc[k] == attrs[k - P - 4];
    assert forall k :: P + 4 <= k < P + 4 + A ==> doc[k] != '>';
    forall k | P < k < |doc|
      ensures !HeaderOpensAt(doc, k)
    {
      if OccursAt(doc, k, SvgOpen) {
        assert doc[k] == SvgOpen[0];
        if k > P + 4 + A {
          OccursPast(doc, P + 5 + A, k, SvgOpen);
        }
      }
    }
  }

  /** Rewrite 2 works piece by piece. */
  lemma {:induction false} StripTabsConcat(a: string, b: string)
    ensures StripTabs(a + b) == StripTabs(a) + StripTabs(b)
    decreases |a|
  {
    if |a| == 0 {
      assert a + b == b;
    } else {
      assert (a + b)[0] == a[0] && (a + b)[1..] == a[1..] + b;
      StripTabsConcat(a[1..], b);
    }
  }

  /** A text with no "</svg>" of its own loses exactly the closing tag
      appended to it. */
  lemma {:induction false} StripFooterOfClosed(c: string)
    requires forall i :: 0 <= i < |c| ==> !OccursAt(c, i, SvgClose)
    ensures StripFooter(c + SvgClose) == c
    decreases |c|
  {
    var t := c + SvgClose;
    if |c| == 0 {
      assert t == SvgClose && t[6..] == [];
    } else {
      assert t[|c|] == '<';
      if |c| >= 6 {
        assert t[..6] == c[..6];
        assert !OccursAt(c, 0, SvgClose);
      } else {
        assert t[..6][|c|] == '<';
      }
      assert t[..6] != SvgClose;
      OccursInSuffix(c, 1, SvgClose);
      assert t[1..] == c[1..] + SvgClose;
      StripFooterOfClosed(c[1..]);
      assert c == [c[0]] + c[1..];
    }
  }

  /** Appending the closing tag creates no "<svg". */
  lemma NoOpenAcrossClose(inner: string)
    requires forall k :: 0 <= k < |inner| ==> !OccursAt(inner, k, SvgOpen)
    ensures var t := inner + SvgClose; forall k :: 0 <= k < |t| ==> !OccursAt(t, k, SvgOpen)
  {
    var t := inner + SvgClose;
    var n := |inner|;
    assert forall m :: n <= m < n + 6 ==> t[m] == SvgClose[m - n];
    forall k | 0 <= k < |t|
      ensures !OccursAt(t, k, SvgOpen)
    {
      if k + 4 <= n {
        assert inner[k..k + 4] == t[k..k + 4];
        assert !OccursAt(inner, k, SvgOpen);
      } else if k + 4 <= |t| {
        if k < n {
          assert t[k..k + 4][n - k] == '<';
        } else {
          assert t[k..k + 4][0] == t[k] && t[k..k + 4][1] == t[k + 1];
        }
      }
    }
  }

  /** Rewrites 3 and 4 on a flattened element: what is left is exactly the
      element's content. */
  lemma UnwrapElement(prefix: string, attrs: string, inner: string)
    requires '\n' !in prefix && '\n' !in attrs && '\n' !in inner
    requires '<' !in attrs && '>' !in attrs
    requires forall k :: 0 <= k < |inner| ==> !OccursAt(inner, k, SvgOpen) && !OccursAt(inner, k, SvgClose)
    ensures var doc := prefix + SvgOpen + attrs + ">" + inner + SvgClose;
      '\n' !in doc && StripFooter(StripHeader(doc)) == inner
  {
    NoOpenAcrossClose(inner);
    StripHeaderOfElement(prefix, attrs, inner + SvgClose);
    assert prefix + SvgOpen + attrs + ">" + inner + SvgClose == prefix + SvgOpen + attrs + ">" + (inner + SvgClose);
    StripFooterOfClosed(inner);
  }

  /** The clean-up unwraps a one-line, tab-free SVG element whose attributes
      hold no angle bracket and whose content holds no "<svg" or "</svg>":
      the result is the content alone, whatever precedes the element. */
  lemma SanitizeElement(prefix: string, attrs: string, inner: string)
    requires '\n' !in prefix && '\n' !in attrs && '\n' !in inner
    requires '\t' !in prefix && '\t' !in attrs && '\t' !in inner
    requires '<' !in attrs && '>' !in attrs
    requires forall k :: 0 <= k < |inner| ==> !OccursAt(inner, k, SvgOpen) && !OccursAt(inner, k, SvgClose)
    ensures Sanitize(prefix + SvgOpen + attrs + ">" + inner + SvgClose) == inner
  {
    var doc := prefix + SvgOpen + attrs + ">" + inner + SvgClose;
    UnwrapElement(prefix, attrs, inner);
    assert '\t' !in SvgOpen && '\t' !in ">" && '\t' !in SvgClose;
    assert '\t' !in doc;
    SanitizeFlat(doc);
  }

  /** On text with no line feed and no tab, only rewrites 3 and 4 act. */
  lemma SanitizeFlat(doc: string)
    requires '\n' !in doc && '\t' !in doc
    ensures Sanitize(doc) == StripFooter(StripHeader(doc))
  {
    assert StripNewlines(doc) == doc;
    assert StripTabs(doc) == doc;
  }

  /** A typical icon file: the opening tag, a line break and an indent,
      one path, the closing tag. */
  lemma SanitizeExample()
    ensures Sanitize("<svg xmlns=\"...\">\n\t<path/></svg>") == "<path/>"
  {
    FlattenExample();
    UnwrapExample();
  }

  lemma FlattenExample()
    ensures StripTabs(StripNewlines("<svg xmlns=\"...\">\n\t<path/></svg>"))
         == "<svg xmlns=\"...\"><path/></svg>"
  {
    var head, body := "<svg xmlns=\"...\">", "<path/></svg>";
    RawLayout();
    ExamplePiecesFlat();
    FlattenIndent(head, body);
  }

  /** The example is an opening tag and a body joined by a line feed and a
      tab; without them the two pieces are simply joined. */
  lemma RawLayout()
    ensures "<svg xmlns=\"...\">\n\t<path/></svg>" == "<svg xmlns=\"...\">" + "\n\t" + "<path/></svg>"
    ensures "<svg xmlns=\"...\"><path/></svg>" == "<svg xmlns=\"...\">" + "<path/></svg>"
  {
  }

  /** Both pieces are flat, and the first does not end in a carriage return. */
  lemma ExamplePiecesFlat()
    ensures var head, body := "<svg xmlns=\"...\">", "<path/></svg>";
      && '\n' !in head && '\t' !in head && '\n' !in body && '\t' !in body
      && |head| > 0 && head[|head| - 1] != '\r'
  {
  }

  /** One line break and one indent between two flat pieces disappear. */
  lemma FlattenIndent(head: string, body: string)
    requires '\n' !in head && '\t' !in head && '\n' !in body && '\t' !in body
    requires |head| > 0 && head[|head| - 1] != '\r'
    ensures StripTabs(StripNewlines(head + "\n\t" + body)) == head + body
  {
    var tb := "\t" + body;
    assert head + "\n\t" + body == head + "\n" + tb;
    DropNewline(head, tb);
    assert head + tb == head + "\t" + body;
    DropTab(head, body);
  }

  lemma DropNewline(head: string, rest: string)
    requires '\n' !in head && '\n' !in rest
    requires |head| > 0 && head[|head| - 1] != '\r'
    ensures StripNewlines(head + "\n" + rest) == head + rest
  {
    var t := ['\n'] + rest;
    assert head + "\n" + rest == head + t;
    StripNewlinesConcat(head, t);
    assert StripNewlines(head) == head;
    assert t[0] == '\n' && t[1..] == rest;
    assert StripNewlines(t) == StripNewlines(rest) == rest;
  }

  lemma DropTab(head: string, rest: string)
    requires '\t' !in head && '\t' !in rest
    ensures StripTabs(head + "\t" + rest) == head + rest
  {
    var t := ['\t'] + rest;
    TabFirst(rest);
    StripTabsConcat(head, t);
    assert head + "\t" + rest == head + t;
  }

  lemma TabFirst(rest: string)
    ensures StripTabs(['\t'] + rest) == StripTabs(rest)
  {
    assert (['\t'] + rest)[1..] == rest;
  }

  lemma UnwrapExample()
    ensures var doc := "<svg xmlns=\"...\"><path/></svg>";
      '\n' !in doc && StripFooter(StripHeader(doc)) == "<path/>"
  {
    var attrs, inner := " xmlns=\"...\"", "<path/>";
    ElementLayout();
    AttributesFlat();
    ContentExample();
    UnwrapElement("", attrs, inner);
  }

  /** The flattened example is an element with one attribute. */
  lemma ElementLayout()
    ensures "<svg xmlns=\"...\"><path/></svg>" == "" + SvgOpen + " xmlns=\"...\"" + ">" + "<path/>" + SvgClose
  {
  }

  /** Its attribute and content are flat, and the attribute holds no angle
      bracket. */
  lemma AttributesFlat()
    ensures var attrs, inner := " xmlns=\"...\"", "<path/>";
      '\n' !in attrs && '\n' !in inner && '<' !in attrs && '>' !in attrs
  {
  }

  lemma ContentExample()
    ensures var inner := "<path/>";
      forall k :: 0 <= k < |inner| ==> !OccursAt(inner, k, SvgOpen) && !OccursAt(inner, k, SvgClose)
  {
    var inner := "<path/>";
    assert inner[1] == 'p';
    forall k | 0 <= k < |inner|
      ensures !OccursAt(inner, k, SvgOpen) && !OccursAt(inner, k, SvgClose)
    {
      if k == 0 {
        Mismatch(inner, 0, SvgOpen, 1);
        Mismatch(inner, 0, SvgClose, 1);
      } else {
        assert inner[k] != '<';
        Mismatch(inner, k, SvgOpen, 0);
        Mismatch(inner, k, SvgClose, 0);
      }
    }
  }

  /** One differing character rules out an occurrence. */
  lemma Mismatch(s: string, k: nat, w: string, j: nat)
    requires j < |w| && (k + j >= |s| || s[k + j] != w[j])
    ensures !OccursAt(s, k, w)
  {
    if k + |w| <= |s| {
      assert s[k..k + |w|][j] == s[k + j];
    }
  }

  /** The scan of rewrite 4 does not look again at what a deletion brings
      together: removing the inner tag of "</s</svg>vg>" leaves "</svg>". */
  lemma FooterSinglePassExample()
    ensures StripFooter("</s</svg>vg>") == SvgClose
  {
    var s3 := SvgClose + "vg>";
    var s2 := "s" + s3;
    var s1 := "/" + s2;
    var s0 := "<" + s1;
    FooterPieces();
    FooterKeep(s0, 3);
    FooterKeep(s1, 0);
    FooterKeep(s2, 0);
    FooterDrop(s3);
    assert s3[6..] == "vg>";
    assert StripFooter("vg>") == "vg>";
    assert s0[1..] == s1 && s1[1..] == s2 && s2[1..] == s3;
  }

  /** The example is "</s", a closing tag, and "vg>"; the two outer pieces
      together spell a closing tag again. */
  lemma FooterPieces()
    ensures "</s</svg>vg>" == "<" + ("/" + ("s" + (SvgClose + "vg>")))
    ensures "<" + ("/" + ("s" + "vg>")) == SvgClose
  {
  }

  lemma FooterKeep(s: string, j: nat)
    requires |s| >= 6 && j < 6 && s[j] != SvgClose[j]
    ensures StripFooter(s) == [s[0]] + StripFooter(s[1..])
  {
    assert s[..6][j] == s[j];
  }

  lemma FooterDrop(s: string)
    requires |s| >= 6 && s[..6] == SvgClose
    ensures StripFooter(s) == StripFooter(s[6..])
  {
  }
}
