/**
 Go's `strconv.ParseInt(s, 16, 64)`: an optional sign followed by one or
 more hexadecimal digits, read left to right into an unsigned 64-bit
 accumulator and then checked against the signed 64-bit range.
 */
module Strconv {
  import opened Wrappers

  /** `strconv.ErrSyntax` and `strconv.ErrRange`. */
  datatype ErrKind = Syntax | Range

  /** `*strconv.NumError`: the text that was refused and why. */
  datatype NumError = NumError(num: string, err: ErrKind)

  const MaxUint64: nat := 0xFFFF_FFFF_FFFF_FFFF
  /** 1 << 63: the magnitude bound of a signed 64-bit integer. */
  const Int64Cutoff: nat := 0x8000_0000_0000_0000

  predicate IsHexDigit(c: char)
  {
    '0' <= c <= '9' || 'a' <= c <= 'f' || 'A' <= c <= 'F'
  }

  function DigitValue(c: char): (d: nat)
    requires IsHexDigit(c)
    ensures d < 16
  {
    if '0' <= c <= '9' then c as int - '0' as int
    else if 'a' <= c <= 'f' then c as int - 'a' as int + 10
    else c as int - 'A' as int + 10
  }

  predicate AllHex(s: string)
  {
    forall i :: 0 <= i < |s| ==> IsHexDigit(s[i])
  }

  /** The number a string of hex digits denotes, most significant digit first. */
  function HexValue(s: string): nat
    requires AllHex(s)
    decreases |s|
  {
    if |s| == 0 then 0 else HexValue(s[..|s| - 1]) * 16 + DigitValue(s[|s| - 1])
  }

  /** A longer prefix of a digit string never denotes a smaller number. */
  lemma {:induction false} PrefixValueBound(s: string, k: nat)
    requires AllHex(s) && k <= |s|
    ensures AllHex(s[..k]) && HexValue(s[..k]) <= HexValue(s)
    decreases |s|
  {
    if k < |s| {
      PrefixValueBound(s[..|s| - 1], k);
      assert s[..|s| - 1][..k] == s[..k];
    } else {
      assert s[..k] == s;
    }
  }

  /** Appending a digit shifts the value by one hex place. */
  lemma HexValueAppend(s: string, c: char)
    requires AllHex(s) && IsHexDigit(c)
    ensures AllHex(s + [c]) && HexValue(s + [c]) == HexValue(s) * 16 + DigitValue(c)
  {
    assert (s + [c])[..|s|] == s;
  }

  /** A leading zero digit does not change the value, so "0031" and "31"
      name the same code point. */
  lemma {:induction false} LeadingZero(s: string)
    requires AllHex(s)
    ensures AllHex(['0'] + s) && HexValue(['0'] + s) == HexValue(s)
    decreases |s|
  {
    if |s| > 0 {
      LeadingZero(s[..|s| - 1]);
      assert (['0'] + s)[..|s|] == ['0'] + s[..|s| - 1];
    }
  }

  /** The digit loop of `strconv.ParseUint` from index `k` on, with `acc`
      the value of the digits before `k`: a non-digit stops with a syntax
      error, a value past 2^64 - 1 stops with a range error, whichever
      comes first. */
  function Scan(s: string, k: nat, acc: nat): (r: Result<nat, ErrKind>)
    requires k <= |s|
    ensures r.Success? ==> acc <= r.value && forall j :: k <= j < |s| ==> IsHexDigit(s[j])
    ensures r.Success? && acc <= MaxUint64 ==> r.value <= MaxUint64
    ensures r == Failure(Syntax) ==> exists j :: k <= j < |s| && !IsHexDigit(s[j])
    decreases |s| - k
  {
    if k == |s| then Success(acc)
    else if !IsHexDigit(s[k]) then Failure(Syntax)
    else
      var n := acc * 16 + DigitValue(s[k]);
      if n > MaxUint64 then Failure(Range) else Scan(s, k + 1, n)
  }

  /** The digit loop computes HexValue, and fails with a range error exactly
      when an all-digit string denotes more than 2^64 - 1. */
  lemma {:induction false} ScanComputesValue(s: string, k: nat, acc: nat)
    requires k <= |s| && AllHex(s[..k]) && acc == HexValue(s[..k]) && acc <= MaxUint64
    ensures Scan(s, k, acc).Success? <==> AllHex(s) && HexValue(s) <= MaxUint64
    ensures Scan(s, k, acc).Success? ==> AllHex(s) && Scan(s, k, acc).value == HexValue(s)
    ensures AllHex(s) && HexValue(s) > MaxUint64 ==> Scan(s, k, acc) == Failure(Range)
    decreases |s| - k
  {
    if k == |s| {
      assert s[..k] == s;
    } else if IsHexDigit(s[k]) {
      var n := acc * 16 + DigitValue(s[k]);
      assert s[..k + 1][..k] == s[..k];
      assert AllHex(s[..k + 1]) && HexValue(s[..k + 1]) == n;
      if n > MaxUint64 {
        if AllHex(s) {
          PrefixValueBound(s, k + 1);
        }
      } else {
        ScanComputesValue(s, k + 1, n);
      }
    }
  }

  /** `strconv.ParseUint(s, 16, 64)`, giving the error kind only. */
  function ParseUint(s: string): (r: Result<nat, ErrKind>)
    ensures r.Success? <==> |s| > 0 && AllHex(s) && HexValue(s) <= MaxUint64
    ensures r.Success? ==> AllHex(s) && r.value == HexValue(s)
    ensures |s| > 0 && AllHex(s) && HexValue(s) > MaxUint64 ==> r == Failure(Range)
    ensures |s| == 0 ==> r == Failure(Syntax)
    ensures r == Failure(Syntax) ==> |s| == 0 || !AllHex(s)
  {
    if |s| == 0 then Failure(Syntax)
    else
      assert s[..0] == [];
      ScanComputesValue(s, 0, 0);
      Scan(s, 0, 0)
  }

  /** The digit loop checks each character for syntax before it checks the
      value for overflow, so once the digits read so far pass 2^64 - 1 the
      loop stops with a range error, whatever follows. */
  lemma {:induction false} ScanOverflowsFirst(s: string, k: nat, acc: nat, m: nat)
    requires k <= m <= |s| && AllHex(s[..m]) && HexValue(s[..m]) > MaxUint64
    requires AllHex(s[..k]) && acc == HexValue(s[..k]) && acc <= MaxUint64
    ensures Scan(s, k, acc) == Failure(Range)
    decreases m - k
  {
    PrefixValueBound(s[..m], k + 1);
    assert s[..m][..k + 1] == s[..k + 1];
    assert s[..k + 1][..k] == s[..k];
    assert s[k] == s[..m][k];
    var n := acc * 16 + DigitValue(s[k]);
    assert HexValue(s[..k + 1]) == n;
    if n <= MaxUint64 {
      ScanOverflowsFirst(s, k + 1, n, m);
    }
  }

  /** A group whose digits pass 2^64 - 1 before a non-hex character is a
      range error, not a syntax error. */
  lemma RangeBeforeSyntax(t: string, z: char)
    requires AllHex(t) && HexValue(t) > MaxUint64 && !IsHexDigit(z)
    ensures ParseUint(t + [z]) == Failure(Range)
  {
    var s := t + [z];
    assert s[..|t|] == t;
    assert s[..0] == [];
    ScanOverflowsFirst(s, 0, 0, |t|);
  }

  /** The text after an optional leading sign. */
  function Digits(s: string): string
  {
    if |s| > 0 && (s[0] == '+' || s[0] == '-') then s[1..] else s
  }

  predicate Negative(s: string)
  {
    |s| > 0 && s[0] == '-'
  }

  /** `s` is a signed hexadecimal numeral whose value fits in 64 bits. */
  predicate IsInt64Hex(s: string)
  {
    && |Digits(s)| > 0
    && AllHex(Digits(s))
    && (if Negative(s) then HexValue(Digits(s)) <= Int64Cutoff else HexValue(Digits(s)) < Int64Cutoff)
  }

  /** The value such a numeral denotes. */
  function SignedValue(s: string): int
    requires AllHex(Digits(s))
  {
    if Negative(s) then -(HexValue(Digits(s)) as int) else HexValue(Digits(s))
  }

  /** `strconv.ParseInt(s, 16, 64)`. Succeeds exactly on signed hex numerals
      within the int64 range; an error always names the whole input. */
  function ParseInt(s: string): (r: Result<int, NumError>)
    ensures r.Success? <==> IsInt64Hex(s)
    ensures r.Success? ==> -(Int64Cutoff as int) <= r.value < Int64Cutoff && r.value == SignedValue(s)
    ensures r.Failure? ==> r.error.num == s
    ensures |Digits(s)| == 0 ==> r.Failure? && r.error.err == Syntax
    ensures |Digits(s)| > 0 && AllHex(Digits(s)) && !IsInt64Hex(s) ==> r.Failure? && r.error.err == Range
  {
    if |s| == 0 then Failure(NumError(s, Syntax))
    else
      var neg := s[0] == '-';
      var digits := if s[0] == '+' || s[0] == '-' then s[1..] else s;
      match ParseUint(digits)
      case Failure(kind) => Failure(NumError(s, kind))
      case Success(un) =>
        if !neg && un >= Int64Cutoff then Failure(NumError(s, Range))
        else if neg && un > Int64Cutoff then Failure(NumError(s, Range))
        else Success(if neg then -(un as int) else un)
  }

  /** An unsigned numeral below 2^63 parses to its value. */
  lemma ParseUnsigned(s: string, v: nat)
    requires |s| > 0 && IsHexDigit(s[0]) && AllHex(s) && HexValue(s) == v && v < Int64Cutoff
    ensures ParseInt(s) == Success(v)
  {
    assert Digits(s) == s;
  }

  /** The lower-case digit for a value below 16. */
  function HexChar(d: nat): (c: char)
    requires d < 16
    ensures IsHexDigit(c) && DigitValue(c) == d
  {
    if d < 10 then ('0' as int + d) as char else ('a' as int + d - 10) as char
  }

  /** Lower-case hexadecimal without leading zeros. */
  function HexDigits(n: nat): (s: string)
    ensures |s| > 0 && AllHex(s) && HexValue(s) == n
    ensures |s| > 1 ==> s[0] != '0'
    decreases n
  {
    if n < 16 then [HexChar(n)]
    else
      var s := HexDigits(n / 16) + [HexChar(n % 16)];
      assert s[..|s| - 1] == HexDigits(n / 16);
      s
  }

  /** `s` with zeros put in front until it is `width` characters long. */
  function ZeroPad(s: string, width: nat): (r: string)
    requires AllHex(s)
    ensures |r| == if |s| < width then width else |s|
    ensures AllHex(r) && HexValue(r) == HexValue(s)
    ensures |s| >= width ==> r == s
    decreases width - |s|
  {
    if |s| >= width then s
    else
      LeadingZero(s);
      ZeroPad(['0'] + s, width)
  }

  /** The padding is zeros, followed by the digits unchanged. */
  lemma {:induction false} ZeroPadShape(s: string, width: nat)
    requires AllHex(s)
    ensures var r := ZeroPad(s, width);
      && r[|r| - |s|..] == s
      && forall i :: 0 <= i < |r| - |s| ==> r[i] == '0'
    decreases width - |s|
  {
    if |s| < width {
      LeadingZero(s);
      var t := ['0'] + s;
      ZeroPadShape(t, width);
      var r := ZeroPad(s, width);
      assert r == ZeroPad(t, width);
      assert r[|r| - |t|..] == t;
      assert r[|r| - |s|..] == r[|r| - |t|..][1..];
      forall i | 0 <= i < |r| - |s|
        ensures r[i] == '0'
      {
        if i == |r| - |t| {
          assert r[|r| - |t|..][0] == r[i];
        }
      }
    }
  }

  /** Lower-case hexadecimal, at least four digits wide: the form of the
      code points in the icon file names ("emoji_u0031_fe0f.svg"). */
  function FormatHex(n: nat): (s: string)
    ensures |s| >= 4 && AllHex(s) && HexValue(s) == n
    ensures |s| > 4 ==> s[0] != '0'
  {
    ZeroPad(HexDigits(n), 4)
  }

  /** U+0031 is written "0031", as in "emoji_u0031_fe0f.svg". */
  lemma FormatHexExample()
    ensures FormatHex(0x31) == "0031"
  {
  }

  /** ParseInt reads back what FormatHex writes. */
  lemma ParseFormatHex(n: nat)
    requires n < Int64Cutoff
    ensures ParseInt(FormatHex(n)) == Success(n)
  {
    var s := FormatHex(n);
    assert IsHexDigit(s[0]);
    ParseUnsigned(s, n);
  }
}
