/**
 `fileToEmoji` and `readEmojis` (build.go): every file of the icon
 directory whose name carries a code-point list becomes one emoji record,
 the code points decoded from the name and the markup cleaned up. Files
 whose name does not decode are reported and skipped; the rest keep the
 directory's order.
 */
module Records {
  import opened Wrappers
  import opened Text
  import opened Strconv
  import opened Runes
  import opened Decoder
  import opened Sanitizer

  /** The fixed frame of an icon file name, "emoji_u<points>.svg". Only the
      lengths of the frame are used: the name is cut, not matched. */
  const NamePrefix: string := "emoji_u"
  const NameSuffix: string := ".svg"
  const MinNameLength: nat := |NamePrefix| + |NameSuffix|

  /** One emoji record: its characters and its cleaned-up markup. */
  datatype Emoji = Emoji(unicode: seq<int>, svg: string)

  /** One file of the icon directory: its name and its raw contents. */
  datatype Entry = Entry(name: string, content: string)

  /** A name long enough to cut the frame off; shorter names make the
      slice expression of `fileToEmoji` panic. */
  predicate Cuttable(e: Entry)
  {
    |e.name| >= MinNameLength
  }

  predicate AllCuttable(listing: seq<Entry>)
  {
    forall i :: 0 <= i < |listing| ==> Cuttable(listing[i])
  }

  /** The part of a file name between the seven-character prefix and the
      four-character extension. */
  function PointsOfName(name: string): (points: string)
    requires |name| >= MinNameLength
    ensures |points| == |name| - MinNameLength
    ensures name == name[..|NamePrefix|] + points + name[|name| - |NameSuffix|..]
  {
    name[|NamePrefix|..|name| - |NameSuffix|]
  }

  /** The file name under which the icon of `cps` is stored. */
  function FileName(cps: seq<int>): string
    requires forall i :: 0 <= i < |cps| ==> IsScalarValue(cps[i])
  {
    NamePrefix + Encode(cps, '_') + NameSuffix
  }

  /** `fileToEmoji`: the record of one file, or the error of the first
      group of the name that does not parse. */
  function FileToEmoji(e: Entry): (r: Result<Emoji, NumError>)
    requires Cuttable(e)
    ensures r.Success? <==> forall g :: g in Split(PointsOfName(e.name), '_') ==> IsInt64Hex(g)
    ensures r.Success? ==> |r.value.unicode| == multiset(PointsOfName(e.name))['_'] + 1
    ensures r.Success? ==> forall i :: 0 <= i < |r.value.unicode| ==> IsScalarValue(r.value.unicode[i])
    ensures r.Success? ==>
              var groups := Split(PointsOfName(e.name), '_');
              && |r.value.unicode| == |groups|
              && forall i :: 0 <= i < |groups| ==>
                   IsInt64Hex(groups[i]) && r.value.unicode[i] == FromInt64(SignedValue(groups[i]))
    ensures r.Success? ==> r.value.svg == Sanitize(e.content)
    ensures r.Success? ==> '\n' !in r.value.svg && '\t' !in r.value.svg
    ensures r.Success? ==> IsSubsequence(r.value.svg, e.content)
    ensures r.Failure? ==> r.error.num in Split(PointsOfName(e.name), '_') && !IsInt64Hex(r.error.num)
    ensures r.Failure? ==>
              var groups := Split(PointsOfName(e.name), '_');
              exists i :: 0 <= i < |groups| && ParseInt(groups[i]) == Failure(r.error) &&
                forall j :: 0 <= j < i ==> IsInt64Hex(groups[j])
  {
    match UnicodeToEmoji(PointsOfName(e.name), '_')
    case Failure(err) => Failure(err)
    case Success(cps) => Success(Emoji(cps, Sanitize(e.content)))
  }

  /** The name of an icon file reads back as its code points, whatever the
      contents of the file. */
  lemma FileNameRoundTrip(cps: seq<int>, content: string)
    requires |cps| >= 1
    requires forall i :: 0 <= i < |cps| ==> IsScalarValue(cps[i])
    ensures |FileName(cps)| >= MinNameLength
    ensures FileToEmoji(Entry(FileName(cps), content)) == Success(Emoji(cps, Sanitize(content)))
  {
    var name := FileName(cps);
    assert PointsOfName(name) == Encode(cps, '_');
    DecodeEncode(cps, '_');
  }

  /** Only the middle of the name matters: the frame is cut by length, so
      any seven leading and four trailing characters give the same record. */
  lemma FrameIgnored(front: string, points: string, back: string, content: string)
    requires |front| == |NamePrefix| && |back| == |NameSuffix|
    ensures FileToEmoji(Entry(front + points + back, content))
         == FileToEmoji(Entry(NamePrefix + points + NameSuffix, content))
  {
    assert PointsOfName(front + points + back) == points;
    assert PointsOfName(NamePrefix + points + NameSuffix) == points;
  }

  /** A name with nothing between the frame decodes to an error. */
  lemma BareFrameRejected(content: string)
    ensures FileToEmoji(Entry(NamePrefix + NameSuffix, content)).Failure?
  {
    assert PointsOfName(NamePrefix + NameSuffix) == "";
    EmptyGroupRejected("", "", '_');
  }

  /** The grinning face icon file. */
  lemma FileExample(content: string)
    ensures FileToEmoji(Entry("emoji_u1f600.svg", content)) == Success(Emoji([0x1F600], Sanitize(content)))
  {
    assert PointsOfName("emoji_u1f600.svg") == "1f600";
    DecodeSingleExample();
  }

  /** What `fileToEmoji` gives for each file of a listing, in order. */
  function Outcomes(listing: seq<Entry>): (rs: seq<Result<Emoji, NumError>>)
    requires AllCuttable(listing)
    ensures |rs| == |listing|
    ensures forall i :: 0 <= i < |listing| ==> rs[i] == FileToEmoji(listing[i])
  {
    seq(|listing|, i requires 0 <= i < |listing| && Cuttable(listing[i]) => FileToEmoji(listing[i]))
  }

  /** The values of the successful outcomes, in order; failures are dropped. */
  function Kept<T, E>(rs: seq<Result<T, E>>): (kept: seq<T>)
    ensures |kept| <= |rs|
    ensures forall k :: 0 <= k < |kept| ==> Success(kept[k]) in rs
    ensures forall i :: 0 <= i < |rs| && rs[i].Success? ==> rs[i].value in kept
    decreases |rs|
  {
    if |rs| == 0 then []
    else
      var n := |rs| - 1;
      var rest := Kept(rs[..n]);
      assert forall i :: 0 <= i < n ==> rs[..n][i] == rs[i];
      assert forall x :: x in rs[..n] ==> x in rs;
      if rs[n].Success? then rest + [rs[n].value] else rest
  }

  /** Keeping the successes of two runs of outcomes one after the other
      gives the two kept lists one after the other. */
  lemma {:induction false} KeptConcat<T, E>(a: seq<Result<T, E>>, b: seq<Result<T, E>>)
    ensures Kept(a + b) == Kept(a) + Kept(b)
    decreases |b|
  {
    if |b| == 0 {
      assert a + b == a;
    } else {
      var n := |b| - 1;
      assert (a + b)[..|a + b| - 1] == a + b[..n];
      assert (a + b)[|a + b| - 1] == b[n];
      KeptConcat(a, b[..n]);
    }
  }

  /** With no failure, every outcome is kept at its own position. */
  lemma {:induction false} KeptAllSuccess<T, E>(rs: seq<Result<T, E>>)
    requires forall i :: 0 <= i < |rs| ==> rs[i].Success?
    ensures |Kept(rs)| == |rs|
    ensures forall i :: 0 <= i < |rs| ==> Kept(rs)[i] == rs[i].value
    decreases |rs|
  {
    if |rs| > 0 {
      var n := |rs| - 1;
      KeptAllSuccess(rs[..n]);
    }
  }

  /** The records `readEmojis` returns for a directory listing. */
  function Collect(listing: seq<Entry>): (emojis: seq<Emoji>)
    requires AllCuttable(listing)
    ensures |emojis| <= |listing|
    ensures forall k :: 0 <= k < |emojis| ==>
      exists i :: 0 <= i < |listing| && FileToEmoji(listing[i]) == Success(emojis[k])
    ensures forall i :: 0 <= i < |listing| && FileToEmoji(listing[i]).Success? ==>
      FileToEmoji(listing[i]).value in emojis
  {
    var rs := Outcomes(listing);
    assert forall k :: 0 <= k < |Kept(rs)| ==> exists i :: 0 <= i < |rs| && rs[i] == Success(Kept(rs)[k]);
    Kept(rs)
  }

  /** Reading two listings one after the other gives the two record lists
      one after the other. */
  lemma CollectConcat(a: seq<Entry>, b: seq<Entry>)
    requires AllCuttable(a) && AllCuttable(b)
    ensures AllCuttable(a + b)
    ensures Collect(a + b) == Collect(a) + Collect(b)
  {
    assert AllCuttable(a + b);
    assert Outcomes(a + b) == Outcomes(a) + Outcomes(b);
    KeptConcat(Outcomes(a), Outcomes(b));
  }

  /** When every file decodes, each one gives exactly one record, in
      listing order. */
  lemma CollectAllDecoded(listing: seq<Entry>)
    requires AllCuttable(listing)
    requires forall i :: 0 <= i < |listing| ==> FileToEmoji(listing[i]).Success?
    ensures |Collect(listing)| == |listing|
    ensures forall i :: 0 <= i < |listing| ==> Collect(listing)[i] == FileToEmoji(listing[i]).value
  {
    KeptAllSuccess(Outcomes(listing));
  }

  /** The loop of `readEmojis` over the outcomes: the kept values, and the
      positions of the failures (each of which the source reports and
      skips), in increasing order. */
  method Partition<T, E>(rs: seq<Result<T, E>>) returns (kept: seq<T>, failed: seq<nat>)
    ensures kept == Kept(rs)
    ensures |kept| + |failed| == |rs|
    ensures forall k :: 0 <= k < |failed| ==> failed[k] < |rs| && rs[failed[k]].Failure?
    ensures forall i :: 0 <= i < |rs| && rs[i].Failure? ==> i in failed
    ensures forall k, l :: 0 <= k < l < |failed| ==> failed[k] < failed[l]
  {
    kept, failed := [], [];
    var i := 0;
    while i < |rs|
      invariant 0 <= i <= |rs|
      invariant kept == Kept(rs[..i])
      invariant |kept| + |failed| == i
      invariant forall k :: 0 <= k < |failed| ==> failed[k] < i && rs[failed[k]].Failure?
      invariant forall j :: 0 <= j < i && rs[j].Failure? ==> j in failed
      invariant forall k, l :: 0 <= k < l < |failed| ==> failed[k] < failed[l]
    {
      assert rs[..i + 1][..i] == rs[..i];
      if rs[i].Failure? {
        failed := failed + [i];
      } else {
        kept := kept + [rs[i].value];
      }
      i := i + 1;
    }
    assert rs[..i] == rs;
  }

  /** `readEmojis`: the records of the files that decode, in listing order,
      and the positions of the files that do not. */
  method ReadEmojis(listing: seq<Entry>) returns (emojis: seq<Emoji>, failed: seq<nat>)
    requires AllCuttable(listing)
    ensures emojis == Collect(listing)
    ensures |emojis| + |failed| == |listing|
    ensures forall k :: 0 <= k < |failed| ==>
      failed[k] < |listing| && FileToEmoji(listing[failed[k]]).Failure?
    ensures forall i :: 0 <= i < |listing| && FileToEmoji(listing[i]).Failure? ==> i in failed
    ensures forall k, l :: 0 <= k < l < |failed| ==> failed[k] < failed[l]
  {
    emojis, failed := Partition(Outcomes(listing));
  }
}
