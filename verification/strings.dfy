/** The few .NET string operations the service relies on, over Dafny strings.
    A Dafny `char` is a Unicode scalar value; a .NET `string` is a sequence of
    UTF-16 code units, so lengths are converted explicitly where they matter. */
module Strings {
  import opened Wrappers

  /** `char.IsWhiteSpace`: the Unicode separators (Zs, Zl, Zp) together with
      the control characters U+0009..U+000D and U+0085. */
  predicate IsWhiteSpace(c: char) {
    var n := c as int;
    || (0x09 <= n <= 0x0D)
    || n == 0x20 || n == 0x85 || n == 0xA0 || n == 0x1680
    || (0x2000 <= n <= 0x200A)
    || n == 0x2028 || n == 0x2029 || n == 0x202F || n == 0x205F || n == 0x3000
  }

  /** Scans `s` left to right and stops at the first character that is not white space. */
  function AllWhiteSpace(s: string): (r: bool)
    ensures r <==> forall i :: 0 <= i < |s| ==> IsWhiteSpace(s[i])
  {
    if |s| == 0 then true
    else if !IsWhiteSpace(s[0]) then false
    else
      var rest := AllWhiteSpace(s[1..]);
      assert forall i :: 1 <= i < |s| ==> s[i] == s[1..][i - 1];
      rest
  }

  /** `string.IsNullOrEmpty`. */
  predicate IsNullOrEmpty(s: Option<string>) {
    s.None? || |s.value| == 0
  }

  /** `string.IsNullOrWhiteSpace`: null, empty, or white space only. */
  predicate IsNullOrWhiteSpace(s: Option<string>) {
    s.None? || AllWhiteSpace(s.value)
  }

  /** The number of UTF-16 code units a character takes: two for a
      supplementary-plane character (a surrogate pair), one otherwise. */
  function Utf16Units(c: char): nat {
    if c as int > 0xFFFF then 2 else 1
  }

  /** `string.Length` of the .NET string that holds `s`. */
  function Utf16Length(s: string): (n: nat)
    ensures |s| <= n <= 2 * |s|
    ensures n == |s| <==> forall i :: 0 <= i < |s| ==> s[i] as int <= 0xFFFF
  {
    if |s| == 0 then 0
    else
      var rest := Utf16Length(s[1..]);
      assert forall i :: 1 <= i < |s| ==> s[i] == s[1..][i - 1];
      Utf16Units(s[0]) + rest
  }

  /** The number of occurrences of `c` in `s`. */
  function Occurrences(s: string, c: char): nat {
    if |s| == 0 then 0 else (if s[0] == c then 1 else 0) + Occurrences(s[1..], c)
  }

  /** `string.Split(sep)`: the maximal separator-free pieces, empty pieces
      included, so a string with k separators yields k + 1 pieces. */
  function Split(s: string, sep: char): (parts: seq<string>)
    ensures |parts| == 1 + Occurrences(s, sep)
    ensures forall i :: 0 <= i < |parts| ==> sep !in parts[i]
    decreases |s|
  {
    if |s| == 0 then [""]
    else
      var rest := Split(s[1..], sep);
      if s[0] == sep then [""] + rest
      else [[s[0]] + rest[0]] + rest[1..]
  }

  /** `string.Join(sep, parts)`. */
  function Join(parts: seq<string>, sep: char): string
    requires |parts| >= 1
  {
    if |parts| == 1 then parts[0] else parts[0] + [sep] + Join(parts[1..], sep)
  }

  /** Joining the pieces back with the separator restores the original string. */
  lemma {:induction false} JoinSplit(s: string, sep: char)
    ensures Join(Split(s, sep), sep) == s
    decreases |s|
  {
    if |s| > 0 {
      JoinSplit(s[1..], sep);
      var rest := Split(s[1..], sep);
      if s[0] != sep {
        var parts := Split(s, sep);
        assert parts == [[s[0]] + rest[0]] + rest[1..];
        if |rest| == 1 {
          assert Join(parts, sep) == [s[0]] + rest[0];
        } else {
          assert parts[1..] == rest[1..];
          assert Join(parts, sep) == [s[0]] + rest[0] + [sep] + Join(rest[1..], sep);
        }
      }
    }
  }

  /** Conversely, splitting a join of separator-free pieces gives the pieces back:
      `Split` and `Join` are inverse bijections. */
  lemma {:induction false} SplitJoin(parts: seq<string>, sep: char)
    requires |parts| >= 1
    requires forall i :: 0 <= i < |parts| ==> sep !in parts[i]
    ensures Split(Join(parts, sep), sep) == parts
    decreases |parts|, |parts[0]|
  {
    var p := parts[0];
    if |p| == 0 {
      if |parts| > 1 {
        SplitJoin(parts[1..], sep);
        var j := Join(parts, sep);
        assert j == [sep] + Join(parts[1..], sep);
        assert j[1..] == Join(parts[1..], sep);
        assert [""] + parts[1..] == parts;
      }
    } else {
      var shorter := [p[1..]] + parts[1..];
      TailKeepsSeparatorFree(parts, sep);
      SplitJoin(shorter, sep);
      JoinFirstChar(parts, sep);
      SplitFirstChar(parts, sep);
    }
  }

  /** Dropping the first character of the first piece keeps every piece free of `sep`. */
  lemma TailKeepsSeparatorFree(parts: seq<string>, sep: char)
    requires |parts| >= 1 && |parts[0]| >= 1
    requires forall i :: 0 <= i < |parts| ==> sep !in parts[i]
    ensures var shorter := [parts[0][1..]] + parts[1..];
      |shorter| == |parts| && forall i :: 0 <= i < |shorter| ==> sep !in shorter[i]
  {
    var p := parts[0];
    assert sep !in p[1..] by {
      forall k | 0 <= k < |p[1..]| ensures p[1..][k] != sep {
        assert p[1..][k] == p[k + 1];
      }
    }
    var shorter := [p[1..]] + parts[1..];
    assert forall i :: 1 <= i < |shorter| ==> shorter[i] == parts[i];
  }

  /** A join whose first piece is non-empty starts with that piece's first character. */
  lemma JoinFirstChar(parts: seq<string>, sep: char)
    requires |parts| >= 1 && |parts[0]| >= 1
    ensures var j := Join(parts, sep);
      |j| >= 1 && j[0] == parts[0][0] && j[1..] == Join([parts[0][1..]] + parts[1..], sep)
  {
    var p := parts[0];
    var shorter := [p[1..]] + parts[1..];
    if |parts| > 1 {
      assert shorter[1..] == parts[1..];
    }
    assert [p[0]] + p[1..] == p;
  }

  /** Splitting a string whose first character is not the separator puts
      that character in front of the first piece of the rest. */
  lemma SplitFirstChar(parts: seq<string>, sep: char)
    requires |parts| >= 1 && |parts[0]| >= 1 && parts[0][0] != sep
    requires Split(Join([parts[0][1..]] + parts[1..], sep), sep) == [parts[0][1..]] + parts[1..]
    ensures Split(Join(parts, sep), sep) == parts
  {
    JoinFirstChar(parts, sep);
    var p := parts[0];
    assert [p[0]] + p[1..] == p;
    assert [[p[0]] + p[1..]] + parts[1..] == parts;
  }
}
