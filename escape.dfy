/**
 * The search-term escaping helper of the blog router: every character of a
 * fixed class (`- [ ] { } ( ) * + ? . , \ ^ $ | #`) or any whitespace
 * character is prefixed with a backslash, in one left-to-right pass, so that
 * the term can be compiled into a pattern that matches it literally.
 */
module Escape {
  import opened Wrappers

  /** The characters listed explicitly in the escaping class: - [ ] { } ( ) * + ? . , \ ^ $ | # */
  predicate IsPunctuationSpecial(c: char)
    ensures IsPunctuationSpecial(c) ==> c < '\U{80}'
  {
    c in {'-', '[', ']', '{', '}', '(', ')', '*', '+', '?', '.', ',', '\\', '^', '$', '|', '#'}
  }

  /**
   * The characters matched by `\s` in a JavaScript regular expression:
   * the WhiteSpace and LineTerminator code points of ECMAScript.
   */
  predicate IsWhitespace(c: char)
    ensures IsWhitespace(c) ==> c <= '\U{FFFF}' && !IsPunctuationSpecial(c)
  {
    || c == '\t' || c == '\n' || c == '\U{000B}' || c == '\U{000C}' || c == '\r'
    || c == ' ' || c == '\U{00A0}' || c == '\U{1680}'
    || ('\U{2000}' <= c <= '\U{200A}')
    || c == '\U{2028}' || c == '\U{2029}' || c == '\U{202F}' || c == '\U{205F}'
    || c == '\U{3000}' || c == '\U{FEFF}'
  }

  /** A character the escaping pass prefixes with a backslash; letters, digits and `_` never are. */
  predicate IsSpecial(c: char)
    ensures ('a' <= c <= 'z' || 'A' <= c <= 'Z' || '0' <= c <= '9' || c == '_') ==> !IsSpecial(c)
  {
    IsPunctuationSpecial(c) || IsWhitespace(c)
  }

  /** What one input character becomes. */
  function EscapeChar(c: char): (r: string)
    ensures |r| == if IsSpecial(c) then 2 else 1
    ensures r[|r| - 1] == c
    ensures |r| == 2 ==> r[0] == '\\'
  {
    if IsSpecial(c) then ['\\', c] else [c]
  }

  /**
   * escapeRegex: a single global replacement of every special character by
   * a backslash followed by that character. The replacement text is never
   * itself rescanned.
   */
  function EscapeRegex(s: string): (r: string)
    ensures |s| <= |r| <= 2 * |s|
  {
    if s == [] then [] else EscapeChar(s[0]) + EscapeRegex(s[1..])
  }

  /** The number of special characters in a string. */
  function CountSpecial(s: string): (n: nat)
    ensures n <= |s|
  {
    if s == [] then 0 else (if IsSpecial(s[0]) then 1 else 0) + CountSpecial(s[1..])
  }

  /**
   * Reads an escaped pattern back, left to right: a backslash followed by a
   * special character stands for that character; any other special
   * character (an unescaped one, or a backslash that escapes nothing
   * special) means the text is not an escaped literal.
   */
  function Unescape(r: string): (s: Option<string>)
    decreases |r|
  {
    if r == [] then Some([])
    else if r[0] == '\\' then
      if |r| >= 2 && IsSpecial(r[1]) then
        match Unescape(r[2..])
        case None => None
        case Some(t) => Some([r[1]] + t)
      else None
    else if IsSpecial(r[0]) then None
    else
      match Unescape(r[1..])
      case None => None
      case Some(t) => Some([r[0]] + t)
  }

  /** The empty string escapes to the empty string. */
  lemma EscapeEmpty()
    ensures EscapeRegex("") == ""
  {
  }

  /** Output length is input length plus one backslash per special character. */
  lemma {:induction false} EscapeLength(s: string)
    ensures |EscapeRegex(s)| == |s| + CountSpecial(s)
  {
    if s != [] {
      EscapeLength(s[1..]);
    }
  }

  /** The pass works on the original characters only: it distributes over concatenation. */
  lemma {:induction false} EscapeConcat(a: string, b: string)
    ensures EscapeRegex(a + b) == EscapeRegex(a) + EscapeRegex(b)
  {
    if a == [] {
      assert a + b == b;
    } else {
      assert (a + b)[0] == a[0];
      assert (a + b)[1..] == a[1..] + b;
      EscapeConcat(a[1..], b);
    }
  }

  /**
   * Per-character mapping: the character at position i of the input turns
   * into EscapeChar(s[i]), exactly in between the images of what precedes
   * and follows it, and lands right after the image of the prefix.
   */
  lemma EscapeAt(s: string, i: nat)
    requires i < |s|
    ensures EscapeRegex(s) == EscapeRegex(s[..i]) + EscapeChar(s[i]) + EscapeRegex(s[i + 1..])
    ensures var k := i + CountSpecial(s[..i]); if IsSpecial(s[i])
      then k + 1 < |EscapeRegex(s)| && EscapeRegex(s)[k] == '\\' && EscapeRegex(s)[k + 1] == s[i]
      else k < |EscapeRegex(s)| && EscapeRegex(s)[k] == s[i]
  {
    assert s == s[..i] + [s[i]] + s[i + 1..];
    EscapeConcat(s[..i] + [s[i]], s[i + 1..]);
    EscapeConcat(s[..i], [s[i]]);
    assert EscapeRegex([s[i]]) == EscapeChar(s[i]) by {
      assert [s[i]][1..] == [];
    }
    EscapeLength(s[..i]);
  }

  /** A string is left unchanged exactly when it holds no special character. */
  lemma EscapeFixedIff(s: string)
    ensures EscapeRegex(s) == s <==> forall i :: 0 <= i < |s| ==> !IsSpecial(s[i])
  {
    if forall i :: 0 <= i < |s| ==> !IsSpecial(s[i]) {
      NoSpecialFixed(s);
    } else {
      var j :| 0 <= j < |s| && IsSpecial(s[j]);
      SpecialCounted(s, j);
      EscapeLength(s);
    }
  }

  /** Without special characters, escaping leaves a string as it is. */
  lemma {:induction false} NoSpecialFixed(s: string)
    requires forall i :: 0 <= i < |s| ==> !IsSpecial(s[i])
    ensures EscapeRegex(s) == s
  {
    if s != [] {
      assert !IsSpecial(s[0]);
      forall i | 0 <= i < |s[1..]| ensures !IsSpecial(s[1..][i]) {
        assert s[1..][i] == s[i + 1];
      }
      NoSpecialFixed(s[1..]);
      assert s == [s[0]] + s[1..];
    }
  }

  /** A special character somewhere in s makes CountSpecial(s) positive. */
  lemma {:induction false} SpecialCounted(s: string, j: nat)
    requires j < |s| && IsSpecial(s[j])
    ensures CountSpecial(s) > 0
  {
    if j > 0 {
      assert s[1..][j - 1] == s[j];
      SpecialCounted(s[1..], j - 1);
    }
  }

  /** Reading the escaped text back gives the original term. */
  lemma {:induction false} UnescapeEscape(s: string)
    ensures Unescape(EscapeRegex(s)) == Some(s)
  {
    if s != [] {
      var r := EscapeRegex(s);
      UnescapeEscape(s[1..]);
      if IsSpecial(s[0]) {
        assert r[2..] == EscapeRegex(s[1..]);
      } else {
        assert r[1..] == EscapeRegex(s[1..]);
      }
      assert s == [s[0]] + s[1..];
    }
  }

  /** Conversely, any text that reads back as a literal is the escape of what it reads as. */
  lemma {:induction false} EscapeUnescape(r: string, s: string)
    requires Unescape(r) == Some(s)
    ensures EscapeRegex(s) == r
  {
    if r != [] {
      if r[0] == '\\' {
        var t := Unescape(r[2..]).value;
        EscapeUnescape(r[2..], t);
        assert s == [r[1]] + t;
        assert s[1..] == t;
        assert r == [r[0], r[1]] + r[2..];
      } else {
        var t := Unescape(r[1..]).value;
        EscapeUnescape(r[1..], t);
        assert s == [r[0]] + t;
        assert s[1..] == t;
        assert r == [r[0]] + r[1..];
      }
    }
  }

  /** Distinct search terms give distinct patterns. */
  lemma EscapeInjective(a: string, b: string)
    requires EscapeRegex(a) == EscapeRegex(b)
    ensures a == b
  {
    UnescapeEscape(a);
    UnescapeEscape(b);
  }

  /**
   * Single pass: a backslash already followed by a special character in the
   * input is escaped once per character, so the two-character term `\.`
   * becomes the four characters `\\\.` and not anything longer.
   */
  lemma EscapeBackslashDot()
    ensures EscapeRegex("\\.") == "\\\\\\."
  {
    assert "\\."[1..] == ".";
    assert "."[1..] == "";
  }
}
