/**
 * String helpers shared by the model: searching for a character, splitting
 * on a separator (Rust's `str::split(char)`), trimming Unicode white space
 * (Rust's `str::trim`) and decimal rendering of integers (Rust's `{}` for
 * integers).
 */
module Text {
  import opened Wrappers

  /** Every character of `s` satisfies `p`. */
  predicate AllChars(s: string, p: char -> bool) {
    forall i :: 0 <= i < |s| ==> p(s[i])
  }

  /** Index of the first occurrence of `c` in `s`. */
  function FirstIndexOf(s: string, c: char): (r: Option<nat>)
    ensures r.None? <==> c !in s
    ensures r.Some? ==> r.value < |s| && s[r.value] == c && c !in s[..r.value]
  {
    if |s| == 0 then None
    else if s[0] == c then Some(0)
    else
      match FirstIndexOf(s[1..], c)
      case None => None
      case Some(i) =>
        assert s[..i + 1] == [s[0]] + s[1..][..i];
        Some(i + 1)
  }

  /** Index of the last occurrence of `c` in `s`. */
  function LastIndexOf(s: string, c: char): (r: Option<nat>)
    ensures r.None? <==> c !in s
    ensures r.Some? ==> r.value < |s| && s[r.value] == c && c !in s[r.value + 1..]
  {
    if |s| == 0 then None
    else if s[|s| - 1] == c then Some(|s| - 1)
    else
      match LastIndexOf(s[..|s| - 1], c)
      case None => None
      case Some(i) =>
        assert s[i + 1..] == s[..|s| - 1][i + 1..] + [s[|s| - 1]];
        Some(i)
  }

  /** The pieces joined back together with `sep` between consecutive pieces. */
  function Join(parts: seq<string>, sep: char): string {
    if |parts| == 0 then ""
    else if |parts| == 1 then parts[0]
    else parts[0] + [sep] + Join(parts[1..], sep)
  }

  /**
   * Rust's `s.split(sep)`: the maximal runs between separators, so that `n`
   * separators give `n + 1` pieces, some of them possibly empty.
   */
  function Split(s: string, sep: char): (parts: seq<string>)
    ensures |parts| >= 1
    ensures forall i :: 0 <= i < |parts| ==> sep !in parts[i]
  {
    if |s| == 0 then [""]
    else
      var rest := Split(s[1..], sep);
      if s[0] == sep then [""] + rest
      else [[s[0]] + rest[0]] + rest[1..]
  }

  /** Joining the pieces with the separator gives back the text: nothing is lost or added. */
  lemma {:induction false} JoinSplit(s: string, sep: char)
    ensures Join(Split(s, sep), sep) == s
  {
    if |s| > 0 {
      var rest := Split(s[1..], sep);
      JoinSplit(s[1..], sep);
      if s[0] == sep {
        assert s == [] + [sep] + s[1..];
      } else {
        var parts := [[s[0]] + rest[0]] + rest[1..];
        assert parts[1..] == rest[1..];
        if |rest| > 1 {
          assert Join(rest, sep) == rest[0] + [sep] + Join(rest[1..], sep);
        }
      }
    }
  }

  /** Splitting undoes joining pieces that do not contain the separator. */
  lemma {:induction false} SplitJoin(parts: seq<string>, sep: char)
    requires |parts| >= 1
    requires forall i :: 0 <= i < |parts| ==> sep !in parts[i]
    ensures Split(Join(parts, sep), sep) == parts
  {
    if |parts| == 1 {
      SplitWithoutSeparator(parts[0], sep);
    } else {
      var tail := Join(parts[1..], sep);
      SplitJoin(parts[1..], sep);
      SplitAfterPiece(parts[0], tail, sep);
    }
  }

  lemma {:induction false} SplitWithoutSeparator(s: string, sep: char)
    requires sep !in s
    ensures Split(s, sep) == [s]
  {
    if |s| > 0 {
      assert s == [s[0]] + s[1..];
      SplitWithoutSeparator(s[1..], sep);
    }
  }

  lemma {:induction false} SplitAfterPiece(piece: string, tail: string, sep: char)
    requires sep !in piece
    ensures Split(piece + [sep] + tail, sep) == [piece] + Split(tail, sep)
  {
    if |piece| == 0 {
      assert piece + [sep] + tail == [sep] + tail;
      assert ([sep] + tail)[1..] == tail;
    } else {
      var s := piece + [sep] + tail;
      assert s[0] == piece[0];
      assert s[1..] == piece[1..] + [sep] + tail;
      assert piece == [piece[0]] + piece[1..];
      SplitAfterPiece(piece[1..], tail, sep);
      assert [piece[0]] + piece[1..] == piece;
    }
  }

  /**
   * Rust's `char::is_whitespace`: the characters with the Unicode
   * White_Space property.
   */
  predicate IsWhitespace(c: char) {
    || '\U{0009}' <= c <= '\U{000D}'
    || c == ' '
    || c == '\U{0085}'
    || c == '\U{00A0}'
    || c == '\U{1680}'
    || '\U{2000}' <= c <= '\U{200A}'
    || c == '\U{2028}'
    || c == '\U{2029}'
    || c == '\U{202F}'
    || c == '\U{205F}'
    || c == '\U{3000}'
  }

  /** Where the text kept by `str::trim` starts: the first index at or after `from` holding no white space. */
  function TrimFrom(s: string, from: nat): (k: nat)
    requires from <= |s|
    ensures from <= k <= |s|
    decreases |s| - from
  {
    if from < |s| && IsWhitespace(s[from]) then TrimFrom(s, from + 1) else from
  }

  /** Where the text kept by `str::trim` ends: scanning down from `hi`, but not below `lo`, past white space. */
  function TrimTo(s: string, lo: nat, hi: nat): (k: nat)
    requires lo <= hi <= |s|
    ensures lo <= k <= hi
    decreases hi
  {
    if lo < hi && IsWhitespace(s[hi - 1]) then TrimTo(s, lo, hi - 1) else hi
  }

  lemma {:induction false} TrimFromSkips(s: string, from: nat)
    requires from <= |s|
    ensures forall i :: from <= i < TrimFrom(s, from) ==> IsWhitespace(s[i])
    ensures TrimFrom(s, from) < |s| ==> !IsWhitespace(s[TrimFrom(s, from)])
    decreases |s| - from
  {
    if from < |s| && IsWhitespace(s[from]) {
      TrimFromSkips(s, from + 1);
    }
  }

  lemma {:induction false} TrimToSkips(s: string, lo: nat, hi: nat)
    requires lo <= hi <= |s|
    ensures forall i :: TrimTo(s, lo, hi) <= i < hi ==> IsWhitespace(s[i])
    ensures lo < TrimTo(s, lo, hi) ==> !IsWhitespace(s[TrimTo(s, lo, hi) - 1])
    decreases hi
  {
    if lo < hi && IsWhitespace(s[hi - 1]) {
      TrimToSkips(s, lo, hi - 1);
    }
  }

  /** Index of the first character `str::trim` keeps. */
  function TrimStart(s: string): nat {
    TrimFrom(s, 0)
  }

  /** Index just past the last character `str::trim` keeps. */
  function TrimEnd(s: string): (e: nat)
    ensures TrimStart(s) <= e <= |s|
  {
    TrimTo(s, TrimStart(s), |s|)
  }

  /** Rust's `str::trim`: drops the white space at both ends (see `TrimDrops`). */
  function Trim(s: string): string {
    s[TrimStart(s)..TrimEnd(s)]
  }

  /**
   * What `Trim` drops before and after the text it keeps is white space, and
   * the kept text, unless empty, starts and ends with another character.
   */
  lemma TrimDrops(s: string)
    ensures forall k :: 0 <= k < TrimStart(s) ==> IsWhitespace(s[k])
    ensures forall k :: TrimEnd(s) <= k < |s| ==> IsWhitespace(s[k])
    ensures Trim(s) != [] ==> !IsWhitespace(Trim(s)[0]) && !IsWhitespace(Trim(s)[|Trim(s)| - 1])
  {
    TrimFromSkips(s, 0);
    TrimToSkips(s, TrimStart(s), |s|);
    var r := Trim(s);
    if r != [] {
      assert r[0] == s[TrimStart(s)];
      assert r[|r| - 1] == s[TrimEnd(s) - 1];
    }
  }

  /** A string made only of white space trims to the empty string, and conversely. */
  lemma TrimEmpty(s: string)
    ensures Trim(s) == "" <==> AllChars(s, IsWhitespace)
  {
    TrimDrops(s);
    TrimFromSkips(s, 0);
    if AllChars(s, IsWhitespace) {
      assert TrimStart(s) == |s|;
    }
  }

  /** The digit character for `d`. */
  function DigitChar(d: nat): (c: char)
    requires d < 10
    ensures '0' <= c <= '9' && c as int - '0' as int == d
  {
    ('0' as int + d) as char
  }

  /** Decimal digits of a natural number, most significant first, no leading zeros. */
  function NatToDecimal(n: nat): (s: string)
    ensures |s| >= 1
    ensures AllChars(s, c => '0' <= c <= '9')
    ensures s[0] == '0' ==> n == 0
  {
    if n < 10 then [DigitChar(n)]
    else NatToDecimal(n / 10) + [DigitChar(n % 10)]
  }

  /** Rust's `{}` formatting of a signed integer. */
  function IntToDecimal(n: int): (s: string)
    ensures |s| >= 1
    ensures n >= 0 ==> AllChars(s, c => '0' <= c <= '9')
    ensures n < 0 ==> s[0] == '-' && AllChars(s[1..], c => '0' <= c <= '9')
  {
    if n >= 0 then NatToDecimal(n) else "-" + NatToDecimal(-n)
  }

  /** The number a run of digits denotes, read most significant first: how a reader parses it back. */
  function DecimalValue(s: string): int {
    if s == [] then 0
    else DecimalValue(s[..|s| - 1]) * 10 + (s[|s| - 1] as int - '0' as int)
  }

  /** The integer an optionally `-`-signed run of digits denotes. */
  function SignedDecimalValue(s: string): int {
    if s != [] && s[0] == '-' then -DecimalValue(s[1..]) else DecimalValue(s)
  }

  /** The digits `NatToDecimal` writes denote the number written. */
  lemma {:induction false} NatToDecimalValue(n: nat)
    ensures DecimalValue(NatToDecimal(n)) == n
  {
    var s := NatToDecimal(n);
    if n < 10 {
      assert s[..|s| - 1] == [];
    } else {
      NatToDecimalValue(n / 10);
      assert s[..|s| - 1] == NatToDecimal(n / 10);
    }
  }

  /** `{}` of an integer reads back as that integer: the rendering loses nothing. */
  lemma IntToDecimalValue(n: int)
    ensures SignedDecimalValue(IntToDecimal(n)) == n
  {
    if n >= 0 {
      NatToDecimalValue(n);
      assert '0' <= IntToDecimal(n)[0] <= '9';
    } else {
      NatToDecimalValue(-n);
      assert IntToDecimal(n)[1..] == NatToDecimal(-n);
    }
  }

  /** Different integers are rendered differently. */
  lemma IntToDecimalInjective(a: int, b: int)
    requires IntToDecimal(a) == IntToDecimal(b)
    ensures a == b
  {
    IntToDecimalValue(a);
    IntToDecimalValue(b);
  }
}
