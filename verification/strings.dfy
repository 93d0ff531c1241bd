/** String helpers of the element tree: PHP's `strtolower` restricted to
    ASCII, PHP's `htmlspecialchars` with its PHP 8.1 default flags
    (ENT_QUOTES, double encoding on), the matching decoder, and a
    character count used to reason about serialised markup. */
module Strings {

  /* ---------------------------------------------------------------- */
  /*  ASCII lower-casing (strtolower)                                  */
  /* ---------------------------------------------------------------- */

  predicate IsUpperAscii(c: char) {
    'A' <= c <= 'Z'
  }

  function LowerChar(c: char): (r: char)
    ensures !IsUpperAscii(r)
  {
    if IsUpperAscii(c) then (c as int + 32) as char else c
  }

  /** A string is lower-case when it holds no ASCII upper-case letter. */
  predicate IsLower(s: string) {
    forall i :: 0 <= i < |s| ==> !IsUpperAscii(s[i])
  }

  /** strtolower: every ASCII upper-case letter becomes its lower-case
      counterpart, every other character is kept. */
  function Lower(s: string): (r: string)
    ensures |r| == |s|
    ensures IsLower(r)
    ensures forall i :: 0 <= i < |s| && !IsUpperAscii(s[i]) ==> r[i] == s[i]
    ensures forall i :: 0 <= i < |s| && IsUpperAscii(s[i]) ==> r[i] as int == s[i] as int + 32
  {
    seq(|s|, i requires 0 <= i < |s| => LowerChar(s[i]))
  }

  /** Lower-casing leaves an already lower-case string alone ... */
  lemma LowerOfLower(s: string)
    requires IsLower(s)
    ensures Lower(s) == s
  {
  }

  /** ... so it is idempotent. */
  lemma LowerIdempotent(s: string)
    ensures Lower(Lower(s)) == Lower(s)
  {
    LowerOfLower(Lower(s));
  }

  /* ---------------------------------------------------------------- */
  /*  htmlspecialchars and its decoder                                 */
  /* ---------------------------------------------------------------- */

  /** The characters htmlspecialchars rewrites. */
  predicate IsSpecial(c: char) {
    c == '&' || c == '"' || c == '\'' || c == '<' || c == '>'
  }

  /** The characters that could end a quoted attribute value or open or
      close a tag. */
  predicate IsMarkup(c: char) {
    c == '"' || c == '\'' || c == '<' || c == '>'
  }

  /** No character of s could end a quoted value or open or close a tag. */
  predicate MarkupFree(s: string) {
    forall i :: 0 <= i < |s| ==> !IsMarkup(s[i])
  }

  function EscapeChar(c: char): (r: string)
    ensures |r| >= 1
    ensures MarkupFree(r)
  {
    match c
    case '&' => "&amp;"
    case '"' => "&quot;"
    case '\'' => "&#039;"
    case '<' => "&lt;"
    case '>' => "&gt;"
    case _ => [c]
  }

  /** htmlspecialchars: each special character becomes its entity,
      every other character is copied. */
  function Escape(s: string): (r: string)
    ensures |r| >= |s|
    ensures MarkupFree(r)
    decreases |s|
  {
    if |s| == 0 then "" else EscapeChar(s[0]) + Escape(s[1..])
  }

  /** Escaping distributes over concatenation. */
  lemma {:induction false} EscapeConcat(a: string, b: string)
    ensures Escape(a + b) == Escape(a) + Escape(b)
    decreases |a|
  {
    if |a| == 0 {
      assert a + b == b;
    } else {
      assert (a + b)[0] == a[0];
      assert (a + b)[1..] == a[1..] + b;
      EscapeConcat(a[1..], b);
      var x := EscapeChar(a[0]);
      calc {
        Escape(a + b);
        x + Escape(a[1..] + b);
        x + (Escape(a[1..]) + Escape(b));
        { assert x + (Escape(a[1..]) + Escape(b)) == (x + Escape(a[1..])) + Escape(b); }
        Escape(a) + Escape(b);
      }
    }
  }

  /** Escaping changes a string iff the string holds a special character:
      on plain text it is a no-op. */
  lemma {:induction false} EscapeIdentityIff(s: string)
    ensures Escape(s) == s <==> forall i :: 0 <= i < |s| ==> !IsSpecial(s[i])
    decreases |s|
  {
    if |s| == 0 {
    } else {
      EscapeIdentityIff(s[1..]);
      if IsSpecial(s[0]) {
        assert |EscapeChar(s[0])| > 1;
        assert |Escape(s)| > |s|;
      } else {
        assert Escape(s) == [s[0]] + Escape(s[1..]);
        if Escape(s) == s {
          assert Escape(s[1..]) == s[1..];
        }
        if forall i :: 0 <= i < |s| ==> !IsSpecial(s[i]) {
          assert forall i :: 0 <= i < |s[1..]| ==> !IsSpecial(s[1..][i]);
          assert s == [s[0]] + s[1..];
        }
      }
    }
  }

  /** Escaping is not idempotent: the entity of a literal ampersand is
      itself escaped again. */
  lemma EscapeDoubleEncodes()
    ensures Escape("&") == "&amp;"
    ensures Escape(Escape("&")) == "&amp;amp;"
  {
    EscapeAmp("&", "amp;");
  }

  lemma EscapeAmp(amp: string, tail: string)
    requires amp == "&" && tail == "amp;"
    ensures Escape(amp) == amp + tail
    ensures Escape(amp + tail) == amp + tail + tail
  {
    assert Escape(amp) == EscapeChar('&') + Escape("");
    EscapeConcat(amp, tail);
    EscapeIdentityIff(tail);
  }


  predicate StartsWith(s: string, p: string) {
    |p| <= |s| && s[..|p|] == p
  }

  /** The decoder for the five entities Escape writes: each of them
      becomes its character; anything else, numeric references other
      than `&#039;` included, is copied unchanged. */
  function Unescape(s: string): string
    decreases |s|
  {
    if |s| == 0 then ""
    else if s[0] != '&' then [s[0]] + Unescape(s[1..])
    else if StartsWith(s, "&amp;") then "&" + Unescape(s[5..])
    else if StartsWith(s, "&quot;") then "\"" + Unescape(s[6..])
    else if StartsWith(s, "&#039;") then "'" + Unescape(s[6..])
    else if StartsWith(s, "&lt;") then "<" + Unescape(s[4..])
    else if StartsWith(s, "&gt;") then ">" + Unescape(s[4..])
    else "&" + Unescape(s[1..])
  }

  /** A string whose second character differs from an entity's cannot
      start with that entity. */
  lemma NotStartsWith(s: string, p: string, i: nat)
    requires i < |p| && i < |s| && s[i] != p[i]
    ensures !StartsWith(s, p)
  {
  }

  /** Decoding reads one escaped character back from the front. */
  lemma UnescapeEscapeChar(c: char, t: string)
    ensures Unescape(EscapeChar(c) + t) == [c] + Unescape(t)
  {
    var e := EscapeChar(c) + t;
    if c == '&' {
      assert e[..5] == "&amp;" && e[5..] == t;
    } else if c == '"' {
      NotStartsWith(e, "&amp;", 1);
      assert e[..6] == "&quot;" && e[6..] == t;
    } else if c == '\'' {
      NotStartsWith(e, "&amp;", 1);
      NotStartsWith(e, "&quot;", 1);
      assert e[..6] == "&#039;" && e[6..] == t;
    } else if c == '<' {
      NotStartsWith(e, "&amp;", 1);
      NotStartsWith(e, "&quot;", 1);
      NotStartsWith(e, "&#039;", 1);
      assert e[..4] == "&lt;" && e[4..] == t;
    } else if c == '>' {
      NotStartsWith(e, "&amp;", 1);
      NotStartsWith(e, "&quot;", 1);
      NotStartsWith(e, "&#039;", 1);
      NotStartsWith(e, "&lt;", 1);
      assert e[..4] == "&gt;" && e[4..] == t;
    } else {
      assert e[0] == c && e[1..] == t;
    }
  }

  /** Decoding undoes escaping, so escaped attribute values and text lose
      nothing. */
  lemma {:induction false} UnescapeEscape(s: string)
    ensures Unescape(Escape(s)) == s
    decreases |s|
  {
    if |s| == 0 {
    } else {
      UnescapeEscapeChar(s[0], Escape(s[1..]));
      UnescapeEscape(s[1..]);
      assert s == [s[0]] + s[1..];
    }
  }

  /** Escaping is injective: two strings with the same escaped form are
      equal. */
  lemma EscapeInjective(a: string, b: string)
    requires Escape(a) == Escape(b)
    ensures a == b
  {
    UnescapeEscape(a);
    UnescapeEscape(b);
  }

  /** Concatenation regrouped. */
  lemma Assoc(a: string, b: string, c: string)
    ensures (a + b) + c == a + (b + c)
  {
  }

  /* ---------------------------------------------------------------- */
  /*  Character counting                                               */
  /* ---------------------------------------------------------------- */

  function Count(c: char, s: string): (r: nat)
    ensures r <= |s|
    decreases |s|
  {
    if |s| == 0 then 0 else (if s[0] == c then 1 else 0) + Count(c, s[1..])
  }

  /** A string without c counts no c. */
  lemma {:induction false} CountAbsent(c: char, s: string)
    requires forall i :: 0 <= i < |s| ==> s[i] != c
    ensures Count(c, s) == 0
    decreases |s|
  {
    if |s| > 0 {
      CountAbsent(c, s[1..]);
    }
  }

  lemma {:induction false} CountConcat(c: char, a: string, b: string)
    ensures Count(c, a + b) == Count(c, a) + Count(c, b)
    decreases |a|
  {
    if |a| == 0 {
      assert a + b == b;
    } else {
      assert (a + b)[1..] == a[1..] + b;
      CountConcat(c, a[1..], b);
    }
  }
}
