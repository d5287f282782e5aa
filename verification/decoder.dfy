/**
 `unicodeToEmoji` (build.go): a separator-delimited list of hexadecimal
 code points becomes the text made of those characters, one per group, in
 order. The first group that is not a valid hex numeral aborts the whole
 decoding with that group's error; nothing partial is returned.
 */
module Decoder {
  import opened Wrappers
  import opened Text
  import opened Strconv
  import opened Runes

  /** The loop over the groups: each parsed group becomes one character;
      the first group that fails to parse ends the loop with its error. */
  function DecodeGroups(groups: seq<string>): (r: Result<seq<int>, NumError>)
    ensures r.Success? ==> |r.value| == |groups|
    ensures r.Failure? ==> r.error.num in groups
    decreases |groups|
  {
    if |groups| == 0 then Success([])
    else
      match ParseInt(groups[0])
      case Failure(e) => Failure(e)
      case Success(v) =>
        match DecodeGroups(groups[1..])
        case Failure(e) => Failure(e)
        case Success(rest) => Success([FromInt64(v)] + rest)
  }

  /** The loop succeeds exactly when every group is a valid numeral, then
      with one character per group in group order; otherwise it reports the
      first invalid group. */
  lemma DecodeGroupsSpec(groups: seq<string>)
    ensures DecodeGroups(groups).Success? <==> forall i :: 0 <= i < |groups| ==> IsInt64Hex(groups[i])
    ensures DecodeGroups(groups).Success? ==> |DecodeGroups(groups).value| == |groups|
    ensures DecodeGroups(groups).Success? ==> forall i :: 0 <= i < |groups| ==>
              IsInt64Hex(groups[i]) && DecodeGroups(groups).value[i] == FromInt64(SignedValue(groups[i]))
    ensures DecodeGroups(groups).Failure? ==>
              exists i :: 0 <= i < |groups| && ParseInt(groups[i]) == Failure(DecodeGroups(groups).error) &&
                forall j :: 0 <= j < i ==> IsInt64Hex(groups[j])
  {
    DecodeGroupsValues(groups);
    DecodeGroupsFirstError(groups);
  }

  lemma {:induction false} DecodeGroupsValues(groups: seq<string>)
    ensures DecodeGroups(groups).Success? <==> forall i :: 0 <= i < |groups| ==> IsInt64Hex(groups[i])
    ensures DecodeGroups(groups).Success? ==> |DecodeGroups(groups).value| == |groups|
    ensures DecodeGroups(groups).Success? ==> forall i :: 0 <= i < |groups| ==>
              IsInt64Hex(groups[i]) && DecodeGroups(groups).value[i] == FromInt64(SignedValue(groups[i]))
    decreases |groups|
  {
    if |groups| > 0 {
      var rest := groups[1..];
      DecodeGroupsValues(rest);
      var tail := DecodeGroups(rest);
      match ParseInt(groups[0]) {
        case Failure(_) =>
          assert !IsInt64Hex(groups[0]);
        case Success(v) =>
          if tail.Failure? {
            var j :| 0 <= j < |rest| && !IsInt64Hex(rest[j]);
            assert rest[j] == groups[j + 1];
          } else {
            var r := DecodeGroups(groups);
            assert r.value == [FromInt64(v)] + tail.value;
            forall i | 0 <= i < |groups|
              ensures IsInt64Hex(groups[i]) && r.value[i] == FromInt64(SignedValue(groups[i]))
            {
              if i > 0 {
                assert groups[i] == rest[i - 1];
              }
            }
          }
      }
    }
  }

  lemma {:induction false} DecodeGroupsFirstError(groups: seq<string>)
    ensures DecodeGroups(groups).Failure? ==>
              exists i :: 0 <= i < |groups| && ParseInt(groups[i]) == Failure(DecodeGroups(groups).error) &&
                forall j :: 0 <= j < i ==> IsInt64Hex(groups[j])
    decreases |groups|
  {
    if |groups| > 0 {
      var rest := groups[1..];
      DecodeGroupsFirstError(rest);
      var r := DecodeGroups(groups);
      var tail := DecodeGroups(rest);
      if ParseInt(groups[0]).Success? && tail.Failure? {
        var i :| 0 <= i < |rest| && ParseInt(rest[i]) == Failure(tail.error) &&
                 forall j :: 0 <= j < i ==> IsInt64Hex(rest[j]);
        assert r.error == tail.error;
        assert groups[i + 1] == rest[i];
        forall j | 0 <= j < i + 1
          ensures IsInt64Hex(groups[j])
        {
          if j > 0 {
            assert groups[j] == rest[j - 1];
          }
        }
        assert ParseInt(groups[i + 1]) == Failure(r.error);
      }
    }
  }

  /** `unicodeToEmoji(unicode, separator)` for a one-character separator. */
  function UnicodeToEmoji(s: string, sep: char): (r: Result<seq<int>, NumError>)
    ensures s == "" ==> r.Failure?
    ensures r.Success? <==> forall g :: g in Split(s, sep) ==> IsInt64Hex(g)
    ensures r.Success? ==> |r.value| == multiset(s)[sep] + 1
    ensures r.Success? ==> forall i :: 0 <= i < |r.value| ==> IsScalarValue(r.value[i])
    ensures r.Success? ==> |r.value| == |Split(s, sep)| && forall i :: 0 <= i < |r.value| ==>
              IsInt64Hex(Split(s, sep)[i]) && r.value[i] == FromInt64(SignedValue(Split(s, sep)[i]))
    ensures r.Failure? ==> r.error.num in Split(s, sep) && !IsInt64Hex(r.error.num)
    ensures r.Failure? ==>
              exists i :: 0 <= i < |Split(s, sep)| && ParseInt(Split(s, sep)[i]) == Failure(r.error) &&
                forall j :: 0 <= j < i ==> IsInt64Hex(Split(s, sep)[j])
  {
    SplitCount(s, sep);
    DecodeGroupsSpec(Split(s, sep));
    DecodeGroups(Split(s, sep))
  }

  /** Each code point in lower-case hex, padded to four digits. */
  function FormatAll(cps: seq<int>): (groups: seq<string>)
    requires forall i :: 0 <= i < |cps| ==> IsScalarValue(cps[i])
    ensures |groups| == |cps|
    ensures forall i :: 0 <= i < |cps| ==> IsScalarValue(cps[i]) && groups[i] == FormatHex(cps[i])
  {
    seq(|cps|, i requires 0 <= i < |cps| && IsScalarValue(cps[i]) => FormatHex(cps[i]))
  }

  /** The text written as padded lower-case hex code points joined by `sep`, the
      form of the icon file names and feed records. */
  function Encode(cps: seq<int>, sep: char): string
    requires forall i :: 0 <= i < |cps| ==> IsScalarValue(cps[i])
  {
    Join(FormatAll(cps), sep)
  }

  /** Decoding the formatted groups gives back the code points. */
  lemma {:induction false} DecodeFormatted(cps: seq<int>)
    requires forall i :: 0 <= i < |cps| ==> IsScalarValue(cps[i])
    ensures DecodeGroups(FormatAll(cps)) == Success(cps)
    decreases |cps|
  {
    if |cps| > 0 {
      var groups := FormatAll(cps);
      assert ParseInt(groups[0]) == Success(cps[0]) by {
        ParseFormatHex(cps[0]);
      }
      assert groups[1..] == FormatAll(cps[1..]);
      DecodeFormatted(cps[1..]);
      DecodeCons(groups, cps[0], cps[1..]);
      assert cps == [cps[0]] + cps[1..];
    }
  }

  /** A valid first group whose value is a scalar value puts that character
      in front of what the other groups decode to. */
  lemma DecodeCons(groups: seq<string>, v: int, vs: seq<int>)
    requires |groups| > 0 && ParseInt(groups[0]) == Success(v) && IsScalarValue(v)
    requires DecodeGroups(groups[1..]) == Success(vs)
    ensures DecodeGroups(groups) == Success([v] + vs)
  {
    assert FromInt64(v) == v;
  }

  /** Decoding reads back every non-empty sequence of scalar values from its
      encoding, for any separator that is not a hex digit. */
  lemma DecodeEncode(cps: seq<int>, sep: char)
    requires |cps| >= 1
    requires forall i :: 0 <= i < |cps| ==> IsScalarValue(cps[i])
    requires !IsHexDigit(sep)
    ensures UnicodeToEmoji(Encode(cps, sep), sep) == Success(cps)
  {
    var groups := FormatAll(cps);
    forall i | 0 <= i < |groups|
      ensures sep !in groups[i]
    {
      assert AllHex(groups[i]);
    }
    SplitJoin(groups, sep);
    DecodeFormatted(cps);
  }

  /** An empty group (empty input, a separator at either end, two separators
      in a row) makes the whole decoding fail. */
  lemma EmptyGroupRejected(a: string, b: string, sep: char)
    ensures UnicodeToEmoji("", sep).Failure?
    ensures UnicodeToEmoji([sep] + b, sep).Failure?
    ensures UnicodeToEmoji(a + [sep], sep).Failure?
    ensures UnicodeToEmoji(a + [sep, sep] + b, sep).Failure?
  {
    EmptyPieces(a, b, sep);
    assert !IsInt64Hex("");
  }

  /** A text without separator is one group. */
  lemma DecodeOneGroup(g: string, sep: char, v: int)
    requires sep !in g && ParseInt(g) == Success(v)
    ensures UnicodeToEmoji(g, sep) == Success([FromInt64(v)])
  {
    SplitWithoutSeparator(g, sep);
    var groups := [g];
    assert groups[0] == g && groups[1..] == [];
    assert DecodeGroups(groups[1..]) == Success([]);
    assert [FromInt64(v)] + [] == [FromInt64(v)];
  }

  /** Two groups decode to two characters, in order. */
  lemma DecodeTwoGroups(g: string, h: string, sep: char, v: int, w: int)
    requires sep !in g && ParseInt(g) == Success(v)
    requires sep !in h && ParseInt(h) == Success(w)
    ensures UnicodeToEmoji(g + [sep] + h, sep) == Success([FromInt64(v), FromInt64(w)])
  {
    SplitAround(g, h, sep);
    SplitWithoutSeparator(g, sep);
    SplitWithoutSeparator(h, sep);
    var groups := [g, h];
    assert Split(g + [sep] + h, sep) == groups;
    assert groups[0] == g && groups[1..] == [h];
    DecodeOneGroup(h, sep, w);
    assert DecodeGroups([h]) == Success([FromInt64(w)]);
    assert [FromInt64(v)] + [FromInt64(w)] == [FromInt64(v), FromInt64(w)];
  }

  /** A single-group file name. */
  lemma DecodeSingleExample()
    ensures UnicodeToEmoji("1f600", '_') == Success([0x1F600])
  {
    ParseExample1F600();
    assert '_' !in "1f600";
    DecodeOneGroup("1f600", '_', 0x1F600);
  }

  /** A two-group file name with leading zeros in the first group. */
  lemma DecodePairExample()
    ensures UnicodeToEmoji("0031_fe0f", '_') == Success([0x31, 0xFE0F])
  {
    ParseExample0031();
    ParseExampleFE0F();
    PairPieces();
    DecodeTwoGroups("0031", "fe0f", '_', 0x31, 0xFE0F);
  }

  /** The name is two separator-free groups joined by '_'. */
  lemma PairPieces()
    ensures '_' !in "0031" && '_' !in "fe0f"
    ensures "0031" + ['_'] + "fe0f" == "0031_fe0f"
  {
  }

  lemma ParseExample1F600()
    ensures ParseInt("1f600") == Success(0x1F600)
  {
    HexValueAppend("", '1');
    assert "" + ['1'] == "1";
    HexValueAppend("1", 'f');
    assert "1" + ['f'] == "1f";
    HexValueAppend("1f", '6');
    assert "1f" + ['6'] == "1f6";
    HexValueAppend("1f6", '0');
    assert "1f6" + ['0'] == "1f60";
    HexValueAppend("1f60", '0');
    assert "1f60" + ['0'] == "1f600";
    ParseUnsigned("1f600", 0x1F600);
  }

  lemma ParseExampleFE0F()
    ensures ParseInt("fe0f") == Success(0xFE0F)
  {
    HexValueAppend("", 'f');
    assert "" + ['f'] == "f";
    HexValueAppend("f", 'e');
    assert "f" + ['e'] == "fe";
    HexValueAppend("fe", '0');
    assert "fe" + ['0'] == "fe0";
    HexValueAppend("fe0", 'f');
    assert "fe0" + ['f'] == "fe0f";
    ParseUnsigned("fe0f", 0xFE0F);
  }

  lemma ParseExample0031()
    ensures ParseInt("0031") == Success(0x31)
  {
    HexValueAppend("", '3');
    assert "" + ['3'] == "3";
    HexValueAppend("3", '1');
    assert "3" + ['1'] == "31";
    LeadingZero("31");
    assert ['0'] + "31" == "031";
    LeadingZero("031");
    assert ['0'] + "031" == "0031";
    ParseUnsigned("0031", 0x31);
  }

  /** A group that is not hexadecimal. */
  lemma DecodeBadExample()
    ensures UnicodeToEmoji("XYZ", '_').Failure?
    ensures UnicodeToEmoji("XYZ", '_').error.num == "XYZ"
  {
    SplitWithoutSeparator("XYZ", '_');
    assert !IsHexDigit("XYZ"[0]);
  }
}
