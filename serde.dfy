/**
 * The variant names serde derives. `#[serde(rename_all = "snake_case")]`
 * writes a variant identifier in lower case, with `_` in front of every
 * upper-case letter except one at the very start.
 */
module SerdeNames {
  predicate IsAsciiUpper(c: char) {
    'A' <= c <= 'Z'
  }

  function AsciiLower(c: char): (l: char)
    ensures !IsAsciiUpper(l)
    ensures IsAsciiUpper(c) ==> l as int == c as int + 32
    ensures !IsAsciiUpper(c) ==> l == c
  {
    if IsAsciiUpper(c) then (c as int + 32) as char else c
  }

  predicate NoUpper(s: string) {
    forall i :: 0 <= i < |s| ==> !IsAsciiUpper(s[i])
  }

  /** Snake case of `ident`, where `atStart` says whether a `_` would be the first character. */
  function SnakeFrom(ident: string, atStart: bool): (s: string)
    ensures |s| >= |ident|
  {
    if ident == [] then []
    else
      var c := ident[0];
      (if IsAsciiUpper(c) && !atStart then ['_', AsciiLower(c)] else [AsciiLower(c)])
        + SnakeFrom(ident[1..], false)
  }

  /** The renaming leaves no upper-case letter behind. */
  lemma {:induction false} SnakeNoUpper(ident: string, atStart: bool)
    ensures NoUpper(SnakeFrom(ident, atStart))
  {
    if ident != [] {
      SnakeNoUpper(ident[1..], false);
      var c := ident[0];
      var head := if IsAsciiUpper(c) && !atStart then ['_', AsciiLower(c)] else [AsciiLower(c)];
      var rest := SnakeFrom(ident[1..], false);
      forall i | 0 <= i < |head + rest|
        ensures !IsAsciiUpper((head + rest)[i])
      {
        if i >= |head| {
          assert (head + rest)[i] == rest[i - |head|];
        }
      }
    }
  }

  /** serde's `snake_case` renaming of a variant identifier. */
  function SnakeCase(ident: string): (s: string)
    ensures NoUpper(s)
    ensures ident != [] ==> s != [] && s[0] == AsciiLower(ident[0])
  {
    SnakeNoUpper(ident, true);
    SnakeFrom(ident, true)
  }

  /** A word with no upper-case letter is left as it is. */
  lemma {:induction false} SnakeOfLower(w: string, atStart: bool)
    requires NoUpper(w)
    ensures SnakeFrom(w, atStart) == w
  {
    if w != [] {
      SnakeOfLower(w[1..], false);
      assert w == [w[0]] + w[1..];
    }
  }

  lemma ConcatAssoc(a: string, b: string, c: string)
    ensures a + (b + c) == (a + b) + c
  {
  }

  /** Renaming works piecewise: the second piece is at the start only when the first is empty. */
  lemma {:induction false} SnakeAppend(a: string, b: string, atStart: bool)
    ensures SnakeFrom(a + b, atStart) == SnakeFrom(a, atStart) + SnakeFrom(b, atStart && a == [])
  {
    if a != [] {
      var ab := a + b;
      var c := a[0];
      var head := if IsAsciiUpper(c) && !atStart then ['_', AsciiLower(c)] else [AsciiLower(c)];
      assert ab[0] == c && ab != [];
      assert ab[1..] == a[1..] + b;
      SnakeAppend(a[1..], b, false);
      var x, y := SnakeFrom(a[1..], false), SnakeFrom(b, false);
      calc {
        SnakeFrom(ab, atStart);
        head + SnakeFrom(ab[1..], false);
        head + (x + y);
        { ConcatAssoc(head, x, y); }
        (head + x) + y;
      }
    } else {
      assert a + b == b;
    }
  }

  /** A capitalised word: `_` (unless at the start), its initial in lower case, then the rest. */
  lemma CapitalisedWord(c: char, w: string, atStart: bool)
    requires IsAsciiUpper(c) && NoUpper(w)
    ensures SnakeFrom([c] + w, atStart) == (if atStart then [] else "_") + [AsciiLower(c)] + w
  {
    assert ([c] + w)[1..] == w;
    SnakeOfLower(w, false);
  }

  /** The name of a one-word variant is the word in lower case. */
  lemma OneWord(c: char, w: string)
    requires IsAsciiUpper(c) && NoUpper(w)
    ensures SnakeCase([c] + w) == [AsciiLower(c)] + w
  {
    CapitalisedWord(c, w, true);
  }

  /** The name of a two-word variant joins the lower-cased words with `_`. */
  lemma TwoWords(c: char, w: string, d: char, v: string)
    requires IsAsciiUpper(c) && NoUpper(w) && IsAsciiUpper(d) && NoUpper(v)
    ensures SnakeCase([c] + w + [d] + v) == [AsciiLower(c)] + w + "_" + [AsciiLower(d)] + v
  {
    assert [c] + w + [d] + v == ([c] + w) + ([d] + v);
    SnakeAppend([c] + w, [d] + v, true);
    CapitalisedWord(c, w, true);
    CapitalisedWord(d, v, false);
  }
}
