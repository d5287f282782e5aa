/**
 `writeDictionary` (build.go): the emoji feed lists, for every emoji, a
 short name such as ":grinning:" and its code points written as hex groups
 joined by '-'. The dictionary maps each short name to the decoded text;
 records whose code points do not decode are reported and skipped. The
 feed arrives as a Go map, whose iteration order is unspecified, so the
 records are taken here as a sequence in an arbitrary order.
 */
module Dictionary {
  import opened Wrappers
  import opened Strconv
  import opened Runes
  import opened Decoder

  /** The separator between the hex groups of a feed record. */
  const BaseSeparator: char := '-'

  /** One record of the feed: the short name and the `base` code points. */
  datatype Item = Item(shortname: string, base: string)

  function DecodeItem(it: Item): Result<seq<int>, NumError>
  {
    UnicodeToEmoji(it.base, BaseSeparator)
  }

  predicate Decodes(it: Item)
  {
    DecodeItem(it).Success?
  }

  /** One visit of the loop: the key to write and what decoding gave. */
  type Visit<V, E> = (string, Result<V, E>)

  /** Position `i` holds the last successful visit writing key `k`. */
  predicate LastWriter<V, E>(vs: seq<Visit<V, E>>, k: string, i: int)
  {
    && 0 <= i < |vs|
    && vs[i].0 == k
    && vs[i].1.Success?
    && forall j :: i < j < |vs| && vs[j].0 == k ==> vs[j].1.Failure?
  }

  /** How many visits failed. */
  function FailedVisits<V, E>(vs: seq<Visit<V, E>>): (n: nat)
    ensures n <= |vs|
    ensures n == 0 <==> forall i :: 0 <= i < |vs| ==> vs[i].1.Success?
    decreases |vs|
  {
    if |vs| == 0 then 0
    else
      var m := |vs| - 1;
      assert forall i :: 0 <= i < m ==> vs[..m][i] == vs[i];
      FailedVisits(vs[..m]) + (if vs[m].1.Success? then 0 else 1)
  }

  /** The map after the visits in the order given: each success writes its
      entry, a later write to the same key overwriting an earlier one. */
  function Fold<V, E>(vs: seq<Visit<V, E>>): (dict: map<string, V>)
    ensures forall k :: k in dict <==> exists i :: 0 <= i < |vs| && vs[i].0 == k && vs[i].1.Success?
    decreases |vs|
  {
    if |vs| == 0 then map[]
    else
      var n := |vs| - 1;
      var front := vs[..n];
      var d := Fold(front);
      assert forall i :: 0 <= i < n ==> front[i] == vs[i];
      if vs[n].1.Success? then d[vs[n].0 := vs[n].1.value] else d
  }

  /** Each entry of the map holds the value of the last successful visit
      of its key. */
  lemma {:induction false} FoldLastWriter<V, E>(vs: seq<Visit<V, E>>, k: string)
    requires k in Fold(vs)
    ensures exists i :: LastWriter(vs, k, i) && Fold(vs)[k] == vs[i].1.value
    decreases |vs|
  {
    var n := |vs| - 1;
    var front := vs[..n];
    if vs[n].1.Success? && vs[n].0 == k {
      assert LastWriter(vs, k, n);
    } else {
      assert k in Fold(front) && Fold(vs)[k] == Fold(front)[k];
      FoldLastWriter(front, k);
      var i :| LastWriter(front, k, i) && Fold(front)[k] == front[i].1.value;
      assert LastWriter(vs, k, i);
    }
  }

  /** Each success writes at most one new key, and a failure none. */
  lemma {:induction false} FoldSize<V, E>(vs: seq<Visit<V, E>>)
    ensures |Fold(vs)| <= |vs| - FailedVisits(vs)
    decreases |vs|
  {
    if |vs| > 0 {
      var n := |vs| - 1;
      FoldSize(vs[..n]);
      var d := Fold(vs[..n]);
      assert vs[..n][..n] == vs[..n];
      assert FailedVisits(vs) == FailedVisits(vs[..n]) + (if vs[n].1.Success? then 0 else 1);
      if vs[n].1.Success? {
        UpdateSize(d, vs[n].0, vs[n].1.value);
      }
    }
  }

  /** Writing one entry adds at most one key. */
  lemma UpdateSize<V>(d: map<string, V>, k: string, v: V)
    ensures |d[k := v]| <= |d| + 1
  {
    if k in d {
      assert d[k := v].Keys == d.Keys;
    } else {
      assert d[k := v].Keys == d.Keys + {k};
    }
  }

  /** An element of one sequence is an element of any permutation of it. */
  lemma SameElements<T>(a: seq<T>, b: seq<T>, i: int)
    requires multiset(a) == multiset(b) && 0 <= i < |a|
    ensures exists j :: 0 <= j < |b| && b[j] == a[i]
  {
    assert a[i] in multiset(a);
    assert a[i] in b;
  }

  /** The visits of `writeDictionary`, one per feed record. */
  function Visits(items: seq<Item>): (vs: seq<Visit<seq<int>, NumError>>)
    ensures |vs| == |items|
    ensures forall i :: 0 <= i < |items| ==> vs[i] == (items[i].shortname, DecodeItem(items[i]))
  {
    seq(|items|, i requires 0 <= i < |items| => (items[i].shortname, DecodeItem(items[i])))
  }

  /** The dictionary `writeDictionary` builds from the records in the order
      given: a short name is a key exactly when some record of it decodes. */
  function BuildDictionary(items: seq<Item>): (dict: map<string, seq<int>>)
    ensures forall k :: k in dict <==>
      exists i :: 0 <= i < |items| && items[i].shortname == k && Decodes(items[i])
  {
    var vs := Visits(items);
    assert forall k :: k in Fold(vs) <==>
      exists i :: 0 <= i < |items| && items[i].shortname == k && Decodes(items[i])
    by {
      forall k
        ensures k in Fold(vs) <==> exists i :: 0 <= i < |items| && items[i].shortname == k && Decodes(items[i])
      {
        if k in Fold(vs) {
          var i :| 0 <= i < |vs| && vs[i].0 == k && vs[i].1.Success?;
          assert items[i].shortname == k && Decodes(items[i]);
        }
      }
    }
    Fold(vs)
  }

  /** How many records `writeDictionary` reports as undecodable. */
  function Failures(items: seq<Item>): nat
  {
    FailedVisits(Visits(items))
  }

  /** The dictionary holds exactly the short names of the decodable
      records, each mapped to the text decoded from the last decodable
      record of that name; every entry is a non-empty text of Unicode
      scalar values. */
  lemma DictionaryEntries(items: seq<Item>)
    ensures forall k :: k in BuildDictionary(items) <==>
      exists i :: 0 <= i < |items| && items[i].shortname == k && Decodes(items[i])
    ensures forall k :: k in BuildDictionary(items) ==>
      exists i :: LastDecodedWriter(items, k, i) && BuildDictionary(items)[k] == DecodeItem(items[i]).value
    ensures forall k :: k in BuildDictionary(items) ==>
      |BuildDictionary(items)[k]| >= 1 &&
      forall c :: 0 <= c < |BuildDictionary(items)[k]| ==> IsScalarValue(BuildDictionary(items)[k][c])
  {
    var dict := BuildDictionary(items);
    forall k | k in dict
      ensures exists i :: LastDecodedWriter(items, k, i) && dict[k] == DecodeItem(items[i]).value
      ensures |dict[k]| >= 1 && forall c :: 0 <= c < |dict[k]| ==> IsScalarValue(dict[k][c])
    {
      var i := DictionaryWriter(items, k);
      DecodedText(items[i]);
    }
  }

  /** The record whose text an entry holds. */
  lemma DictionaryWriter(items: seq<Item>, k: string) returns (i: int)
    requires k in BuildDictionary(items)
    ensures LastDecodedWriter(items, k, i) && BuildDictionary(items)[k] == DecodeItem(items[i]).value
    ensures 0 <= i < |items| && items[i].shortname == k && Decodes(items[i])
  {
    var vs := Visits(items);
    FoldLastWriter(vs, k);
    i :| LastWriter(vs, k, i) && Fold(vs)[k] == vs[i].1.value;
    assert vs[i].1 == DecodeItem(items[i]);
  }

  /** A decodable record decodes to a non-empty text of scalar values. */
  lemma DecodedText(it: Item)
    requires Decodes(it)
    ensures |DecodeItem(it).value| >= 1
    ensures forall c :: 0 <= c < |DecodeItem(it).value| ==> IsScalarValue(DecodeItem(it).value[c])
  {
  }

  /** Position `i` holds the last record of `items` named `k` that decodes:
      every later record of that name fails to decode. */
  predicate LastDecodedWriter(items: seq<Item>, k: string, i: int)
  {
    LastWriter(Visits(items), k, i)
  }

  /** Records that agree: any two decodable records with the same short name
      decode to the same text (in particular, when short names are
      distinct). */
  predicate Consistent(items: seq<Item>)
  {
    forall i, j ::
      0 <= i < |items| && 0 <= j < |items| && items[i].shortname == items[j].shortname &&
      Decodes(items[i]) && Decodes(items[j])
      ==> DecodeItem(items[i]) == DecodeItem(items[j])
  }

  /** The map's iteration order does not matter for a consistent feed: any
      two orders of the same records build the same dictionary. */
  lemma OrderIndependent(a: seq<Item>, b: seq<Item>)
    requires multiset(a) == multiset(b)
    requires Consistent(a)
    ensures BuildDictionary(a) == BuildDictionary(b)
  {
    SameKeys(a, b);
    SameValues(a, b);
  }

  lemma SameKeys(a: seq<Item>, b: seq<Item>)
    requires multiset(a) == multiset(b)
    ensures BuildDictionary(a).Keys == BuildDictionary(b).Keys
  {
    var da, db := BuildDictionary(a), BuildDictionary(b);
    DictionaryEntries(a);
    DictionaryEntries(b);
    forall k
      ensures k in da <==> k in db
    {
      if k in da {
        var i :| 0 <= i < |a| && a[i].shortname == k && Decodes(a[i]);
        SameElements(a, b, i);
      }
      if k in db {
        var i :| 0 <= i < |b| && b[i].shortname == k && Decodes(b[i]);
        SameElements(b, a, i);
      }
    }
  }

  lemma SameValues(a: seq<Item>, b: seq<Item>)
    requires multiset(a) == multiset(b)
    requires Consistent(a)
    ensures forall k :: k in BuildDictionary(a) && k in BuildDictionary(b) ==>
      BuildDictionary(a)[k] == BuildDictionary(b)[k]
  {
    var da, db := BuildDictionary(a), BuildDictionary(b);
    forall k | k in da && k in db
      ensures da[k] == db[k]
    {
      var i := DictionaryWriter(a, k);
      var j := DictionaryWriter(b, k);
      SameElements(b, a, j);
      var m :| 0 <= m < |a| && a[m] == b[j];
      assert DecodeItem(a[i]) == DecodeItem(a[m]);
    }
  }

  /** Appending a record appends its visit. */
  lemma VisitsAppend(items: seq<Item>, it: Item)
    ensures Visits(items + [it]) == Visits(items) + [(it.shortname, DecodeItem(it))]
  {
  }

  /** One more visit: a failure only counts, a success writes its key. */
  lemma FoldAppend<V, E>(vs: seq<Visit<V, E>>, x: Visit<V, E>)
    ensures x.1.Failure? ==> Fold(vs + [x]) == Fold(vs) && FailedVisits(vs + [x]) == FailedVisits(vs) + 1
    ensures x.1.Success? ==> Fold(vs + [x]) == Fold(vs)[x.0 := x.1.value] && FailedVisits(vs + [x]) == FailedVisits(vs)
  {
    assert (vs + [x])[..|vs|] == vs;
  }

  /** One more step of the loop over a prefix of the visits. */
  lemma FoldPrefix<V, E>(vs: seq<Visit<V, E>>, i: nat)
    requires i < |vs|
    ensures vs[i].1.Failure? ==> Fold(vs[..i + 1]) == Fold(vs[..i]) && FailedVisits(vs[..i + 1]) == FailedVisits(vs[..i]) + 1
    ensures vs[i].1.Success? ==>
      Fold(vs[..i + 1]) == Fold(vs[..i])[vs[i].0 := vs[i].1.value] && FailedVisits(vs[..i + 1]) == FailedVisits(vs[..i])
  {
    assert vs[..i + 1] == vs[..i] + [vs[i]];
    FoldAppend(vs[..i], vs[i]);
  }

  /** With two decodable records under one name the order does matter: the
      record visited last wins. */
  lemma LastWriterWins(k: string, g: string, h: string, v: int, w: int)
    requires BaseSeparator !in g && ParseInt(g) == Success(v)
    requires BaseSeparator !in h && ParseInt(h) == Success(w)
    ensures BuildDictionary([Item(k, g), Item(k, h)]) == map[k := [FromInt64(w)]]
    ensures BuildDictionary([Item(k, h), Item(k, g)]) == map[k := [FromInt64(v)]]
  {
    DecodeOneGroup(g, BaseSeparator, v);
    DecodeOneGroup(h, BaseSeparator, w);
    TwoWrites(k, Item(k, g), Item(k, h));
    TwoWrites(k, Item(k, h), Item(k, g));
  }

  /** Two decodable records under the name `k`: the second one's text is
      the entry. */
  lemma TwoWrites(k: string, x: Item, y: Item)
    requires x.shortname == k && y.shortname == k && Decodes(x) && Decodes(y)
    ensures BuildDictionary([x, y]) == map[k := DecodeItem(y).value]
  {
    assert Visits([x, y]) == [(k, Success(DecodeItem(x).value)), (k, Success(DecodeItem(y).value))];
    FoldTwo<seq<int>, NumError>(k, DecodeItem(x).value, DecodeItem(y).value);
  }

  /** Two successful visits of one key leave the second value. */
  lemma FoldTwo<V, E>(k: string, a: V, b: V)
    ensures Fold<V, E>([(k, Success(a)), (k, Success(b))]) == map[k := b]
  {
    var vs: seq<Visit<V, E>> := [(k, Success(a)), (k, Success(b))];
    assert vs[..1] == [] + [vs[0]];
    FoldAppend([], vs[0]);
    assert vs == vs[..1] + [vs[1]];
    FoldAppend(vs[..1], vs[1]);
    assert map[k := a][k := b] == map[k := b];
  }

  /** A record with undecodable code points leaves the dictionary as it
      was, and is counted. */
  lemma SkipUndecodable(items: seq<Item>, it: Item)
    requires !Decodes(it)
    ensures BuildDictionary(items + [it]) == BuildDictionary(items)
    ensures Failures(items + [it]) == Failures(items) + 1
  {
    VisitsAppend(items, it);
    FoldAppend(Visits(items), (it.shortname, DecodeItem(it)));
  }

  /** The grinning face record of the feed. */
  lemma DictionaryExample()
    ensures BuildDictionary([Item(":grinning:", "1f600")]) == map[":grinning:" := [0x1F600]]
  {
    GrinningDecodes();
    OneRecord(Item(":grinning:", "1f600"));
  }

  lemma GrinningDecodes()
    ensures UnicodeToEmoji("1f600", BaseSeparator) == Success([0x1F600])
  {
    ParseExample1F600();
    assert BaseSeparator !in "1f600";
    DecodeOneGroup("1f600", BaseSeparator, 0x1F600);
  }

  /** A feed of one decodable record gives a dictionary of one entry. */
  lemma OneRecord(it: Item)
    requires Decodes(it)
    ensures BuildDictionary([it]) == map[it.shortname := DecodeItem(it).value]
  {
    VisitsAppend([], it);
    assert [] + [it] == [it];
    FoldAppend([], (it.shortname, DecodeItem(it)));
  }

  /** The loop of `writeDictionary` over the visits: the map and the
      number of failures reported. */
  method FoldLoop<V, E>(vs: seq<Visit<V, E>>) returns (dict: map<string, V>, failed: nat)
    ensures dict == Fold(vs)
    ensures failed == FailedVisits(vs)
    ensures failed + |dict| <= |vs|
  {
    dict, failed := map[], 0;
    var i := 0;
    while i < |vs|
      invariant 0 <= i <= |vs|
      invariant dict == Fold(vs[..i])
      invariant failed == FailedVisits(vs[..i])
    {
      FoldPrefix(vs, i);
      if vs[i].1.Success? {
        dict := dict[vs[i].0 := vs[i].1.value];
      } else {
        failed := failed + 1;
      }
      i := i + 1;
    }
    assert vs[..i] == vs;
    FoldSize(vs);
  }

  /** `writeDictionary`: the dictionary and the number of records reported
      as undecodable. */
  method WriteDictionary(items: seq<Item>) returns (dict: map<string, seq<int>>, failed: nat)
    ensures dict == BuildDictionary(items)
    ensures failed == Failures(items)
    ensures failed + |dict| <= |items|
    ensures failed == 0 <==> forall i :: 0 <= i < |items| ==> Decodes(items[i])
  {
    dict, failed := FoldLoop(Visits(items));
  }
}
