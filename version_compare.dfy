/**
 * DependencyHelperWindow.CompareVersions and the pieces it is built from:
 * splitting a version string at '.', parsing each piece as a 32-bit
 * integer the way int.Parse does, and comparing the two lists of numbers
 * position by position with the shorter list first on a tie.
 *
 * int.Parse throws on a malformed or out-of-range piece; here that is the
 * None result.
 */
module VersionCompare {
  import opened Wrappers
  import opened Int32

  // ---------------------------------------------------------------------
  // string.Split(char)
  // ---------------------------------------------------------------------

  /** The pieces of `s` between occurrences of `sep`; "" gives [""]. */
  function Split(s: string, sep: char): (r: seq<string>)
    ensures |r| >= 1
    ensures forall i :: 0 <= i < |r| ==> sep !in r[i]
  {
    if |s| == 0 then [""]
    else
      var rest := Split(s[1..], sep);
      if s[0] == sep then [""] + rest
      else [[s[0]] + rest[0]] + rest[1..]
  }

  /** The pieces put back together with `sep` between them. */
  function Join(pieces: seq<string>, sep: char): string
    requires |pieces| >= 1
  {
    if |pieces| == 1 then pieces[0]
    else pieces[0] + [sep] + Join(pieces[1..], sep)
  }

  /** Splitting loses nothing: joining the pieces gives back the string. */
  lemma {:induction false} SplitJoin(s: string, sep: char)
    ensures Join(Split(s, sep), sep) == s
  {
    if |s| > 0 {
      var rest := Split(s[1..], sep);
      SplitJoin(s[1..], sep);
      if s[0] == sep {
        assert ([""] + rest)[1..] == rest;
      } else {
        var r := [[s[0]] + rest[0]] + rest[1..];
        if |rest| == 1 {
          assert r == [[s[0]] + rest[0]];
        } else {
          assert r[1..] == rest[1..];
          assert Join(rest, sep) == rest[0] + [sep] + Join(rest[1..], sep);
        }
      }
    }
  }

  // ---------------------------------------------------------------------
  // int.Parse (NumberStyles.Integer: white space, an optional sign, digits)
  // ---------------------------------------------------------------------

  /** The white space int.Parse skips at either end: U+0009 to U+000D and U+0020. */
  predicate IsWhite(c: char)
  {
    c == ' ' || '\t' <= c <= '\r'
  }

  predicate IsDigit(c: char)
  {
    '0' <= c <= '9'
  }

  predicate AllDigits(s: string)
  {
    forall i :: 0 <= i < |s| ==> IsDigit(s[i])
  }

  function TrimStart(s: string): (r: string)
    ensures |r| > 0 ==> !IsWhite(r[0])
  {
    if |s| > 0 && IsWhite(s[0]) then TrimStart(s[1..]) else s
  }

  function TrimEnd(s: string): (r: string)
    ensures |r| > 0 ==> !IsWhite(r[|r| - 1])
    ensures |r| <= |s| && r == s[..|r|]
  {
    if |s| > 0 && IsWhite(s[|s| - 1]) then TrimEnd(s[..|s| - 1]) else s
  }

  /** The decimal value of a string of digits, most significant first. */
  function DigitsValue(s: string): (n: nat)
    requires AllDigits(s)
  {
    if |s| == 0 then 0
    else 10 * DigitsValue(s[..|s| - 1]) + (s[|s| - 1] as int - '0' as int)
  }

  /** int.Parse: None where it would throw (FormatException, OverflowException). */
  function ParseInt(s: string): (r: Option<int>)
    ensures r.Some? ==> Int32Min <= r.value <= Int32Max
  {
    var t := TrimEnd(TrimStart(s));
    var negative := |t| > 0 && t[0] == '-';
    var digits := if |t| > 0 && (t[0] == '-' || t[0] == '+') then t[1..] else t;
    if |digits| == 0 || !AllDigits(digits) then None
    else
      var v: int := if negative then -(DigitsValue(digits) as int) else DigitsValue(digits);
      if Int32Min <= v <= Int32Max then Some(v) else None
  }

  /** The decimal digits of n, with no leading zero. */
  function NatString(n: nat): (s: string)
    ensures |s| > 0 && AllDigits(s)
    ensures !IsWhite(s[0]) && !IsWhite(s[|s| - 1]) && s[0] != '-' && s[0] != '+'
  {
    if n < 10 then [('0' as int + n) as char]
    else NatString(n / 10) + [('0' as int + n % 10) as char]
  }

  lemma {:induction false} NatStringValue(n: nat)
    ensures DigitsValue(NatString(n)) == n
  {
    if n >= 10 {
      var s := NatString(n);
      NatStringValue(n / 10);
      assert s[..|s| - 1] == NatString(n / 10);
    }
  }

  /** Printing a number in the int32 range and parsing it back gives the number. */
  lemma ParseIntRoundTrip(n: int)
    requires Int32Min <= n <= Int32Max
    ensures var s := if n < 0 then "-" + NatString(-n) else NatString(n);
      ParseInt(s) == Some(n)
  {
    var d := NatString(if n < 0 then -n else n);
    NatStringValue(if n < 0 then -n else n);
    var s := if n < 0 then "-" + d else d;
    assert TrimStart(s) == s;
    assert TrimEnd(s) == s;
    if n < 0 {
      assert s[1..] == d;
    }
  }

  /** A piece holding anything but white space, one leading sign and digits does not parse. */
  lemma ParseIntRejects(s: string, k: int)
    requires 0 < k < |s| - 1 && !IsDigit(s[k])
    requires !IsWhite(s[0]) && !IsWhite(s[|s| - 1])
    ensures ParseInt(s).None?
  {
    assert TrimStart(s) == s;
    assert TrimEnd(s) == s;
    var digits := if s[0] == '-' || s[0] == '+' then s[1..] else s;
    if s[0] == '-' || s[0] == '+' {
      assert digits[k - 1] == s[k];
    } else {
      assert digits[k] == s[k];
    }
  }

  /** Select(int.Parse).ToArray(): every piece parsed, or None at the first that throws. */
  function ParseAll(parts: seq<string>): (r: Option<seq<int>>)
    ensures r.Some? ==> |r.value| == |parts| && forall i :: 0 <= i < |parts| ==> ParseInt(parts[i]) == Some(r.value[i])
    ensures r.None? ==> exists i :: 0 <= i < |parts| && ParseInt(parts[i]).None?
  {
    if |parts| == 0 then Some([])
    else match ParseInt(parts[0])
      case None => None
      case Some(v) =>
        match ParseAll(parts[1..])
        case None => None
        case Some(vs) => Some([v] + vs)
  }

  // ---------------------------------------------------------------------
  // Comparison of the parsed parts
  // ---------------------------------------------------------------------

  /** int.CompareTo: -1, 0 or 1. */
  function Sign(x: int): (r: int)
    ensures r == -1 <==> x < 0
    ensures r == 0 <==> x == 0
    ensures r == 1 <==> x > 0
  {
    if x < 0 then -1 else if x == 0 then 0 else 1
  }

  /**
   * Part-wise comparison: the first position where the parts differ
   * decides; if one list is a prefix of the other, the shorter is smaller.
   */
  function CompareParts(a: seq<int>, b: seq<int>): (r: int)
    ensures -1 <= r <= 1
  {
    if |a| == 0 || |b| == 0 then Sign(|a| - |b|)
    else if a[0] > b[0] then 1
    else if a[0] < b[0] then -1
    else CompareParts(a[1..], b[1..])
  }

  /** CompareVersions on two version strings; None where int.Parse throws. */
  function CompareVersionsSpec(version1: string, version2: string): (r: Option<int>)
    ensures r.Some? ==> -1 <= r.value <= 1
    ensures r.None? <==> ParseAll(Split(version1, '.')).None? || ParseAll(Split(version2, '.')).None?
  {
    match ParseAll(Split(version1, '.'))
    case None => None
    case Some(a) =>
      match ParseAll(Split(version2, '.'))
      case None => None
      case Some(b) => Some(CompareParts(a, b))
  }

  /** The comparison loop with its early returns, then the length tie-break. */
  method ComparePartsLoop(v1Parts: seq<int>, v2Parts: seq<int>) returns (r: int)
    ensures r == CompareParts(v1Parts, v2Parts)
  {
    var n := if |v1Parts| < |v2Parts| then |v1Parts| else |v2Parts|;
    for i := 0 to n
      invariant CompareParts(v1Parts[i..], v2Parts[i..]) == CompareParts(v1Parts, v2Parts)
    {
      assert v1Parts[i..][1..] == v1Parts[i + 1..];
      assert v2Parts[i..][1..] == v2Parts[i + 1..];
      if v1Parts[i] > v2Parts[i] {
        return 1;
      }
      if v1Parts[i] < v2Parts[i] {
        return -1;
      }
    }
    r := Sign(|v1Parts| - |v2Parts|);
    assert |v1Parts[n..]| == 0 || |v2Parts[n..]| == 0;
  }

  /** CompareVersions: parse both strings (None where int.Parse throws), then compare. */
  method CompareVersions(version1: string, version2: string) returns (r: Option<int>)
    ensures r == CompareVersionsSpec(version1, version2)
  {
    var v1Parts := ParseAll(Split(version1, '.'));
    if v1Parts.None? {
      return None;
    }
    var v2Parts := ParseAll(Split(version2, '.'));
    if v2Parts.None? {
      return None;
    }
    var c := ComparePartsLoop(v1Parts.value, v2Parts.value);
    r := Some(c);
  }

  // ---------------------------------------------------------------------
  // What the comparison means
  // ---------------------------------------------------------------------

  /** The first difference decides, whatever follows it. */
  lemma {:induction false} CompareFirstDifference(a: seq<int>, b: seq<int>, k: nat)
    requires k < |a| && k < |b| && a[..k] == b[..k] && a[k] != b[k]
    ensures CompareParts(a, b) == if a[k] > b[k] then 1 else -1
  {
    if k > 0 {
      assert a[0] == a[..k][0] == b[..k][0] == b[0];
      assert a[1..][..k - 1] == a[..k][1..];
      assert b[1..][..k - 1] == b[..k][1..];
      CompareFirstDifference(a[1..], b[1..], k - 1);
    }
  }

  /** With no difference up to the shorter length, the shorter list is the smaller. */
  lemma {:induction false} ComparePrefix(a: seq<int>, b: seq<int>)
    requires |a| <= |b| && a == b[..|a|]
    ensures CompareParts(a, b) == Sign(|a| - |b|)
    ensures CompareParts(b, a) == Sign(|b| - |a|)
  {
    if |a| > 0 {
      assert a[0] == b[0];
      assert a[1..] == b[1..][..|a| - 1];
      ComparePrefix(a[1..], b[1..]);
    }
  }

  /** Zero exactly on equal lists. */
  lemma {:induction false} CompareZeroIffEqual(a: seq<int>, b: seq<int>)
    ensures CompareParts(a, b) == 0 <==> a == b
  {
    if |a| > 0 && |b| > 0 && a[0] == b[0] {
      CompareZeroIffEqual(a[1..], b[1..]);
      if a[1..] == b[1..] {
        assert a == [a[0]] + a[1..] && b == [b[0]] + b[1..];
      }
    }
  }

  /** Swapping the arguments negates the result. */
  lemma {:induction false} CompareAntisymmetric(a: seq<int>, b: seq<int>)
    ensures CompareParts(a, b) == -CompareParts(b, a)
  {
    if |a| > 0 && |b| > 0 && a[0] == b[0] {
      CompareAntisymmetric(a[1..], b[1..]);
    }
  }

  /** "At least as new as" is transitive. */
  lemma {:induction false} CompareTransitive(a: seq<int>, b: seq<int>, c: seq<int>)
    requires CompareParts(a, b) >= 0 && CompareParts(b, c) >= 0
    ensures CompareParts(a, c) >= 0
  {
    if |a| > 0 && |b| > 0 && |c| > 0 && a[0] == b[0] && b[0] == c[0] {
      CompareTransitive(a[1..], b[1..], c[1..]);
    }
  }

  /** A version string compared with itself is equal to it, when it parses. */
  lemma CompareVersionsReflexive(v: string)
    requires ParseAll(Split(v, '.')).Some?
    ensures CompareVersionsSpec(v, v) == Some(0)
  {
    CompareZeroIffEqual(ParseAll(Split(v, '.')).value, ParseAll(Split(v, '.')).value);
  }
}
