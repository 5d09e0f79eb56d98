/** The pieces of Python's string built-ins that the time and appearance
    parsers rely on: `str.split`, `str.strip` and `str.lower`. Strings are
    sequences of Unicode scalar values; the lone surrogates a Python string
    can also hold are not modelled. */
module PyText {
  import opened Wrappers

  // ---------------------------------------------------------------------
  // Whitespace, strip
  // ---------------------------------------------------------------------

  /** Python's `str.isspace()` on one character. */
  predicate IsSpace(c: char)
    ensures c == ' ' || c == '\t' || c == '\n' || c == '\r' ==> IsSpace(c)
    ensures ('0' <= c <= '9') || ('A' <= c <= 'Z') || ('a' <= c <= 'z') || c == ':' || c == '_' || c == '-' || c == '+' ==>
      !IsSpace(c)
  {
    || ('\t' <= c <= '\r')
    || ('\U{1c}' <= c <= ' ')
    || c == '\U{85}' || c == '\U{a0}' || c == '\U{1680}'
    || ('\U{2000}' <= c <= '\U{200a}')
    || c == '\U{2028}' || c == '\U{2029}' || c == '\U{202f}' || c == '\U{205f}' || c == '\U{3000}'
  }

  /** The whitespace `int()` skips around a number: ASCII tab, line feed,
      vertical tab, form feed, carriage return and space, and every non-ASCII
      character `str.isspace()` accepts. The ASCII separators U+001C..U+001F
      are whitespace to `str.strip()` but not to `int()`. */
  predicate IsIntSpace(c: char)
    ensures IsIntSpace(c) ==> IsSpace(c)
    ensures IsSpace(c) && !IsIntSpace(c) <==> '\U{1c}' <= c <= '\U{1f}'
  {
    ('\t' <= c <= '\r') || c == ' ' || ('\U{7f}' <= c && IsSpace(c))
  }

  /** `s` without its leading characters that satisfy `space`. */
  function TrimStart(s: string, space: char -> bool): (t: string)
    ensures |t| <= |s| && t == s[|s| - |t|..]
    ensures forall k :: 0 <= k < |s| - |t| ==> space(s[k])
    ensures |t| > 0 ==> !space(t[0])
    decreases |s|
  {
    if |s| > 0 && space(s[0]) then
      var t := TrimStart(s[1..], space);
      assert forall k :: 1 <= k < |s| ==> s[k] == s[1..][k - 1];
      assert s[1..][|s| - 1 - |t|..] == s[|s| - |t|..];
      t
    else s
  }

  /** `s` without its trailing characters that satisfy `space`. */
  function TrimEnd(s: string, space: char -> bool): (t: string)
    ensures |t| <= |s| && t == s[..|t|]
    ensures forall k :: |t| <= k < |s| ==> space(s[k])
    ensures |t| > 0 ==> !space(t[|t| - 1])
    decreases |s|
  {
    if |s| > 0 && space(s[|s| - 1]) then TrimEnd(s[..|s| - 1], space) else s
  }

  /** Python's `s.strip()`, for the whitespace predicate `space`. */
  function Strip(s: string, space: char -> bool): (t: string)
    ensures |t| <= |s|
    ensures |t| > 0 ==> !space(t[0]) && !space(t[|t| - 1])
    ensures (forall k :: 0 <= k < |s| ==> space(s[k])) ==> t == ""
  {
    TrimEnd(TrimStart(s, space), space)
  }

  /** A character that is not whitespace survives the strip, at position
      `i` of the stripped text, which is the slice of `s` starting at
      `k - i`. */
  lemma StripKeeps(s: string, space: char -> bool, k: nat) returns (i: nat)
    requires k < |s| && !space(s[k])
    ensures i < |Strip(s, space)| && Strip(s, space)[i] == s[k]
    ensures i <= k && k - i + |Strip(s, space)| <= |s|
    ensures forall m :: 0 <= m < |Strip(s, space)| ==> Strip(s, space)[m] == s[k - i + m]
  {
    var t1 := TrimStart(s, space);
    var t := TrimEnd(t1, space);
    var off := |s| - |t1|;
    assert k >= off;
    i := k - off;
    assert t1[i] == s[k];
    assert i < |t|;
    assert t == t1[..|t|] == s[off..][..|t|];
  }

  /** Strip removes exactly the padding around a text that neither starts nor
      ends with whitespace. */
  lemma StripPadding(lead: string, core: string, trail: string, space: char -> bool)
    requires forall k :: 0 <= k < |lead| ==> space(lead[k])
    requires forall k :: 0 <= k < |trail| ==> space(trail[k])
    requires |core| > 0 && !space(core[0]) && !space(core[|core| - 1])
    ensures Strip(lead + core + trail, space) == core
  {
    var s := lead + core + trail;
    var t := TrimStart(s, space);
    assert s[|lead|] == core[0];
    assert |s| - |t| <= |lead|;
    assert t[0] == s[|s| - |t|];
    assert |s| - |t| == |lead|;
    assert t == core + trail;
    var u := TrimEnd(t, space);
    assert t[|core| - 1] == core[|core| - 1];
    assert |u| >= |core|;
    assert u[|u| - 1] == t[|u| - 1];
    assert |u| == |core|;
  }

  /** A text made only of whitespace strips to nothing. */
  lemma StripBlank(s: string, space: char -> bool)
    requires forall k :: 0 <= k < |s| ==> space(s[k])
    ensures Strip(s, space) == ""
  {
  }

  // ---------------------------------------------------------------------
  // Lower case
  // ---------------------------------------------------------------------

  /** Python's `str.lower()` on one character, for the characters whose lower
      case is an ASCII letter: 'A' to 'Z', and KELVIN SIGN (U+212A), whose
      lower case is 'k'. Every other character is kept as it is. */
  function LowerChar(c: char): (r: char)
    ensures !('A' <= r <= 'Z') && r != '\U{212a}'
    ensures 'A' <= c <= 'Z' ==> r as int == c as int + 32
    ensures c == '\U{212a}' ==> r == 'k'
    ensures !('A' <= c <= 'Z') && c != '\U{212a}' ==> r == c
  {
    if 'A' <= c <= 'Z' then (c as int + 32) as char
    else if c == '\U{212a}' then 'k'
    else c
  }

  /** Python's `s.lower()`, character by character as `LowerChar` does it. */
  function Lower(s: string): (r: string)
    ensures |r| == |s|
    ensures forall k :: 0 <= k < |s| ==> r[k] == LowerChar(s[k])
    ensures forall k :: 0 <= k < |r| ==> !('A' <= r[k] <= 'Z') && LowerChar(r[k]) == r[k]
  {
    seq(|s|, k requires 0 <= k < |s| => LowerChar(s[k]))
  }

  /** Lower-casing twice changes nothing more. */
  lemma LowerIdempotent(s: string)
    ensures Lower(Lower(s)) == Lower(s)
  {
  }

  /** Any spelling of a lower-case ASCII word with some letters in capitals
      lowers to the word. */
  lemma LowerCapitals(w: string, u: string)
    requires |u| == |w|
    requires forall k :: 0 <= k < |w| ==> 'a' <= w[k] <= 'z'
    requires forall k :: 0 <= k < |w| ==> u[k] == w[k] || u[k] as int == w[k] as int - 32
    ensures Lower(u) == w
  {
  }

  /** A character whose lower case is a letter is not whitespace. */
  lemma LetterNotSpace(c: char)
    requires 'a' <= LowerChar(c) <= 'z'
    ensures !IsSpace(c)
  {
  }

  /** A text with no upper-case letter is its own lower case. */
  lemma LowerKeeps(s: string)
    requires forall k :: 0 <= k < |s| ==> 'a' <= s[k] <= 'z'
    ensures Lower(s) == s
  {
  }

  // ---------------------------------------------------------------------
  // Split and join
  // ---------------------------------------------------------------------

  /** How many times `sep` occurs in `s`. */
  function Occurrences(s: string, sep: char): nat
  {
    if |s| == 0 then 0 else (if s[0] == sep then 1 else 0) + Occurrences(s[1..], sep)
  }

  /** Python's `s.split(sep)` for a one-character separator: the pieces
      between separators, one more than there are separators, none of them
      holding the separator. */
  function Split(s: string, sep: char): (parts: seq<string>)
    ensures |parts| == Occurrences(s, sep) + 1
    ensures forall k :: 0 <= k < |parts| ==> sep !in parts[k]
    decreases |s|
  {
    if |s| == 0 then [""]
    else
      var rest := Split(s[1..], sep);
      if s[0] == sep then [""] + rest
      else
        assert sep !in [s[0]] + rest[0];
        [[s[0]] + rest[0]] + rest[1..]
  }

  /** Python's `sep.join(parts)`. */
  function Join(parts: seq<string>, sep: char): string
    requires |parts| > 0
  {
    if |parts| == 1 then parts[0] else parts[0] + [sep] + Join(parts[1..], sep)
  }

  /** Joining the pieces of a split gives back the text. */
  lemma {:induction false} JoinSplit(s: string, sep: char)
    ensures Join(Split(s, sep), sep) == s
    decreases |s|
  {
    if |s| > 0 {
      var rest := Split(s[1..], sep);
      JoinSplit(s[1..], sep);
      if s[0] == sep {
        assert Split(s, sep)[1..] == rest;
      } else {
        var parts := Split(s, sep);
        assert parts[0] == [s[0]] + rest[0];
        if |rest| > 1 {
          assert parts[1..] == rest[1..];
          assert Join(rest, sep) == rest[0] + [sep] + Join(rest[1..], sep);
        }
      }
    }
  }

  /** A text without the separator splits into itself alone. */
  lemma {:induction false} SplitWithout(s: string, sep: char)
    requires sep !in s
    ensures Split(s, sep) == [s]
    decreases |s|
  {
    if |s| > 0 {
      SplitWithout(s[1..], sep);
      assert [s[0]] + s[1..] == s;
    }
  }

  /** The first piece of a split ends at the first separator. */
  lemma {:induction false} SplitAfter(p: string, sep: char, rest: string)
    requires sep !in p
    ensures Split(p + [sep] + rest, sep) == [p] + Split(rest, sep)
    decreases |p|
  {
    var s := p + [sep] + rest;
    if |p| == 0 {
      assert s[1..] == rest;
    } else {
      assert s[1..] == p[1..] + [sep] + rest;
      SplitAfter(p[1..], sep, rest);
      assert [p[0]] + p[1..] == p;
    }
  }

  /** Splitting separator-free pieces joined by the separator gives them back. */
  lemma {:induction false} SplitJoin(parts: seq<string>, sep: char)
    requires |parts| > 0
    requires forall k :: 0 <= k < |parts| ==> sep !in parts[k]
    ensures Split(Join(parts, sep), sep) == parts
    decreases |parts|
  {
    if |parts| == 1 {
      SplitWithout(parts[0], sep);
    } else {
      SplitJoin(parts[1..], sep);
      SplitAfter(parts[0], sep, Join(parts[1..], sep));
      assert [parts[0]] + parts[1..] == parts;
    }
  }
}
