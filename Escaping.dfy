/**
 * HTML escaping of task titles before they are written into a label's
 * markup. Each of the five characters `&`, `<`, `>`, `"` and `'` is
 * rewritten into its character reference; every other character is kept.
 */
module Escaping {

  /** The five characters that escapeHtml rewrites. */
  predicate IsSpecial(c: char) {
    c == '&' || c == '<' || c == '>' || c == '"' || c == '\''
  }

  /** True when no character of s is one of the five special characters. */
  predicate NoSpecials(s: string) {
    forall i :: 0 <= i < |s| ==> !IsSpecial(s[i])
  }

  /** The replacement written for one input character. */
  function EscapeChar(c: char): (e: string)
    ensures IsSpecial(c) <==> e != [c]
    ensures IsSpecial(c) ==> 4 <= |e| <= 6 && e[0] == '&' && e[|e| - 1] == ';'
  {
    match c
    case '&' => "&amp;"
    case '<' => "&lt;"
    case '>' => "&gt;"
    case '"' => "&quot;"
    case '\'' => "&#039;"
    case _ => [c]
  }

  /** escapeHtml: the string with every character replaced by EscapeChar of it. */
  function EscapeHtml(s: string): (r: string)
    ensures |s| <= |r| <= 6 * |s|
  {
    if s == [] then [] else EscapeChar(s[0]) + EscapeHtml(s[1..])
  }

  /** True when one of the five references begins at position i of r. */
  predicate EntityAt(r: string, i: nat)
    requires i <= |r|
  {
    var t := r[i..];
    "&amp;" <= t || "&lt;" <= t || "&gt;" <= t || "&quot;" <= t || "&#039;" <= t
  }

  /**
   * Markup that can carry no tag, no attribute quote and no stray
   * reference: none of `<`, `>`, `"`, `'` occurs, and every `&` opens one
   * of the five references.
   */
  predicate IsSafeMarkup(r: string) {
    (forall i :: 0 <= i < |r| ==> r[i] != '<' && r[i] != '>' && r[i] != '"' && r[i] != '\'') &&
    (forall i :: 0 <= i < |r| && r[i] == '&' ==> EntityAt(r, i))
  }

  /**
   * Decoding of the five references escapeHtml writes, and of no other:
   * each is replaced by its character, and any other character, including
   * an `&` that opens none of them, is kept.
   */
  function Unescape(s: string): (r: string)
    ensures |r| <= |s|
    decreases |s|
  {
    if s == [] then []
    else if "&amp;" <= s then "&" + Unescape(s[5..])
    else if "&lt;" <= s then "<" + Unescape(s[4..])
    else if "&gt;" <= s then ">" + Unescape(s[4..])
    else if "&quot;" <= s then "\"" + Unescape(s[6..])
    else if "&#039;" <= s then "'" + Unescape(s[6..])
    else [s[0]] + Unescape(s[1..])
  }

  /** Escaping distributes over concatenation. */
  lemma {:induction false} EscapeConcat(a: string, b: string)
    ensures EscapeHtml(a + b) == EscapeHtml(a) + EscapeHtml(b)
  {
    if a == [] {
      assert a + b == b;
    } else {
      assert (a + b)[0] == a[0];
      assert (a + b)[1..] == a[1..] + b;
      EscapeConcat(a[1..], b);
    }
  }

  /** A string that contains a special character grows when escaped. */
  lemma {:induction false} EscapeGrows(s: string, k: nat)
    requires k < |s| && IsSpecial(s[k])
    ensures |EscapeHtml(s)| > |s|
  {
    if k > 0 {
      EscapeGrows(s[1..], k - 1);
    }
  }

  /** Escaping leaves a string unchanged exactly when it has no special character. */
  lemma {:induction false} EscapeIdentity(s: string)
    ensures EscapeHtml(s) == s <==> NoSpecials(s)
  {
    if s == [] {
    } else if IsSpecial(s[0]) {
      EscapeGrows(s, 0);
    } else {
      EscapeIdentity(s[1..]);
      assert NoSpecials(s) <==> NoSpecials(s[1..]) by {
        if NoSpecials(s[1..]) {
          forall i | 0 <= i < |s| ensures !IsSpecial(s[i]) {
            if i > 0 { assert s[i] == s[1..][i - 1]; }
          }
        }
        if NoSpecials(s) {
          forall i | 0 <= i < |s[1..]| ensures !IsSpecial(s[1..][i]) {
            assert s[1..][i] == s[i + 1];
          }
        }
      }
      assert EscapeHtml(s) == [s[0]] + EscapeHtml(s[1..]);
      if EscapeHtml(s) == s {
        assert EscapeHtml(s[1..]) == EscapeHtml(s)[1..];
      }
    }
  }

  /** A prefix of t is a prefix of t followed by anything. */
  lemma PrefixExtends(p: string, t: string, b: string)
    requires p <= t
    ensures p <= t + b
  {
    assert (t + b)[..|p|] == t[..|p|];
  }

  /** A reference that begins at i still begins there after more text is appended. */
  lemma EntityAtExtends(a: string, b: string, i: nat)
    requires i <= |a| && EntityAt(a, i)
    ensures EntityAt(a + b, i)
  {
    var t := a[i..];
    assert (a + b)[i..] == t + b;
    if "&amp;" <= t { PrefixExtends("&amp;", t, b); }
    else if "&lt;" <= t { PrefixExtends("&lt;", t, b); }
    else if "&gt;" <= t { PrefixExtends("&gt;", t, b); }
    else if "&quot;" <= t { PrefixExtends("&quot;", t, b); }
    else { PrefixExtends("&#039;", t, b); }
  }

  /** Safe markup stays safe under concatenation. */
  lemma SafeConcat(a: string, b: string)
    requires IsSafeMarkup(a) && IsSafeMarkup(b)
    ensures IsSafeMarkup(a + b)
  {
    var r := a + b;
    forall i | 0 <= i < |r| && r[i] == '&' ensures EntityAt(r, i) {
      if i < |a| {
        assert a[i] == '&';
        EntityAtExtends(a, b, i);
      } else {
        assert b[i - |a|] == '&';
        assert r[i..] == b[i - |a|..];
      }
    }
  }

  /** The replacement of any single character is safe markup. */
  lemma EscapeCharSafe(c: char)
    ensures IsSafeMarkup(EscapeChar(c))
  {
    var e := EscapeChar(c);
    if IsSpecial(c) {
      assert e[0..] == e;
      assert forall i :: 0 < i < |e| ==> e[i] != '&';
    }
  }

  /** escapeHtml's output contains no raw `<`, `>`, `"`, `'`, and every `&` opens a reference. */
  lemma {:induction false} EscapeSafe(s: string)
    ensures IsSafeMarkup(EscapeHtml(s))
  {
    if s != [] {
      EscapeCharSafe(s[0]);
      EscapeSafe(s[1..]);
      SafeConcat(EscapeChar(s[0]), EscapeHtml(s[1..]));
    }
  }

  /** Decoding the replacement of c, followed by any text, gives c back first. */
  lemma UnescapeAfterChar(c: char, rest: string)
    ensures Unescape(EscapeChar(c) + rest) == [c] + Unescape(rest)
  {
    var e := EscapeChar(c);
    var s := e + rest;
    assert s[..|e|] == e && s[|e|..] == rest;
    if IsSpecial(c) {
      assert s[0] == '&' && s[1] == e[1];
      // The second character tells the five references apart.
      if c != '&' { assert !("&amp;" <= s) by { assert s[1] != 'a'; } }
      if c == '>' || c == '"' || c == '\'' { assert !("&lt;" <= s) by { assert s[1] != 'l'; } }
      if c == '"' || c == '\'' { assert !("&gt;" <= s) by { assert s[1] != 'g'; } }
      if c == '\'' { assert !("&quot;" <= s) by { assert s[1] != 'q'; } }
    } else {
      assert s == [c] + rest && c != '&';
      assert s[1..] == rest;
      assert !("&amp;" <= s) && !("&lt;" <= s) && !("&gt;" <= s) && !("&quot;" <= s) && !("&#039;" <= s);
    }
  }

  /** Decoding undoes escaping. */
  lemma {:induction false} UnescapeEscape(s: string)
    ensures Unescape(EscapeHtml(s)) == s
  {
    if s != [] {
      UnescapeAfterChar(s[0], EscapeHtml(s[1..]));
      UnescapeEscape(s[1..]);
      assert s == [s[0]] + s[1..];
    }
  }

  /** Two different titles never escape to the same markup. */
  lemma EscapeInjective(a: string, b: string)
    requires EscapeHtml(a) == EscapeHtml(b)
    ensures a == b
  {
    UnescapeEscape(a);
    UnescapeEscape(b);
  }
}
