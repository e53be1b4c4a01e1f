/**
 The character-level HTML text encoder used for every piece of server-supplied
 free text that the activity board inserts as markup, and the decoder that
 undoes it.

 `EscapeHtml` replaces each of the five HTML-significant characters
 `& < > " '` by its character reference and keeps every other character.
 `Unescape` decodes exactly those five references. On the encoder's output it
 agrees with what an HTML parser reads back as text, because in that output
 every `&` begins one of the five references and no `<` is left; the two
 exceptions are the parser's own input normalisation, which turns a carriage
 return (alone or before a line feed) into a line feed and drops U+0000 in
 body text, and which `Unescape` does not perform.
 */
module Html {

  /** The characters the encoder rewrites. */
  predicate IsSpecial(c: char) {
    c == '&' || c == '<' || c == '>' || c == '"' || c == '\''
  }

  /** The characters that could open or close a tag or an attribute value. */
  predicate IsDelimiter(c: char) {
    c == '<' || c == '>' || c == '"' || c == '\''
  }

  /** A string with none of the five special characters. */
  predicate IsSafe(s: string) {
    forall i :: 0 <= i < |s| ==> !IsSpecial(s[i])
  }

  /** True iff `t` starts with one of the five character references. */
  predicate StartsWithEntity(t: string) {
    "&amp;" <= t || "&lt;" <= t || "&gt;" <= t || "&quot;" <= t || "&#39;" <= t
  }

  /** The replacement for one character: its reference, or the character itself. */
  function EscapeChar(c: char): (e: string)
    ensures IsSpecial(c) ==> StartsWithEntity(e) && |e| >= 4
    ensures !IsSpecial(c) ==> e == [c]
    ensures forall i :: 0 <= i < |e| ==> !IsDelimiter(e[i])
    ensures forall i :: 0 < i < |e| ==> e[i] != '&'
  {
    match c
    case '&' => "&amp;"
    case '<' => "&lt;"
    case '>' => "&gt;"
    case '"' => "&quot;"
    case '\'' => "&#39;"
    case _ => [c]
  }

  /** Encodes `s`, one character at a time, left to right. */
  function EscapeHtml(s: string): (r: string)
    ensures |r| >= |s|
    ensures forall i :: 0 <= i < |r| ==> !IsDelimiter(r[i])
  {
    if |s| == 0 then "" else EscapeChar(s[0]) + EscapeHtml(s[1..])
  }

  /** Decodes the five character references; every other character is kept. */
  function Unescape(t: string): string
    decreases |t|
  {
    if |t| == 0 then ""
    else if "&amp;" <= t then "&" + Unescape(t[5..])
    else if "&lt;" <= t then "<" + Unescape(t[4..])
    else if "&gt;" <= t then ">" + Unescape(t[4..])
    else if "&quot;" <= t then "\"" + Unescape(t[6..])
    else if "&#39;" <= t then "'" + Unescape(t[5..])
    else [t[0]] + Unescape(t[1..])
  }

  /** Every `&` in `r` begins one of the five references. */
  predicate AmpersandsAreEntities(r: string) {
    forall i :: 0 <= i < |r| && r[i] == '&' ==> StartsWithEntity(r[i..])
  }

  /** A reference at the front of `e` is still at the front once text is appended. */
  lemma EntityPrefixExtends(e: string, rest: string)
    requires StartsWithEntity(e)
    ensures StartsWithEntity(e + rest)
  {
  }

  /** Every `&` in the encoder's output is the first character of one of the five references. */
  lemma {:induction false} AmpersandsStartEntities(s: string)
    ensures AmpersandsAreEntities(EscapeHtml(s))
  {
    var r := EscapeHtml(s);
    if |s| > 0 {
      var e := EscapeChar(s[0]);
      var rest := EscapeHtml(s[1..]);
      assert r == e + rest;
      AmpersandsStartEntities(s[1..]);
      forall i | 0 <= i < |r| && r[i] == '&'
        ensures StartsWithEntity(r[i..])
      {
        if i < |e| {
          assert r[i] == e[i];
          assert i == 0 && IsSpecial(s[0]);
          assert r[i..] == e + rest;
          EntityPrefixExtends(e, rest);
          assert StartsWithEntity(r[i..]);
        } else {
          var j := i - |e|;
          assert r[i] == rest[j] == '&';
          assert AmpersandsAreEntities(rest);
          assert StartsWithEntity(rest[j..]);
          assert r[i..] == rest[j..];
        }
      }
    }
  }

  /** The encoder maps each character independently: it distributes over concatenation. */
  lemma {:induction false} EscapeConcat(a: string, b: string)
    ensures EscapeHtml(a + b) == EscapeHtml(a) + EscapeHtml(b)
  {
    if |a| == 0 {
      assert a + b == b;
    } else {
      assert (a + b)[0] == a[0];
      assert (a + b)[1..] == a[1..] + b;
      EscapeConcat(a[1..], b);
    }
  }

  /** A string with a special character grows strictly under the encoder. */
  lemma {:induction false} EscapeGrowsOnSpecial(s: string)
    requires !IsSafe(s)
    ensures |EscapeHtml(s)| > |s|
  {
    if IsSpecial(s[0]) {
      assert |EscapeChar(s[0])| >= 4;
    } else {
      var k :| 0 <= k < |s| && IsSpecial(s[k]);
      assert s[1..][k - 1] == s[k];
      EscapeGrowsOnSpecial(s[1..]);
    }
  }

  /** The encoder leaves a string unchanged exactly when it holds no special character. */
  lemma {:induction false} EscapeIdentityIffSafe(s: string)
    ensures EscapeHtml(s) == s <==> IsSafe(s)
  {
    if IsSafe(s) {
      if |s| > 0 {
        assert IsSafe(s[1..]) by {
          forall i | 0 <= i < |s[1..]| ensures !IsSpecial(s[1..][i]) {
            assert s[1..][i] == s[i + 1];
          }
        }
        EscapeIdentityIffSafe(s[1..]);
        assert !IsSpecial(s[0]);
        assert s == [s[0]] + s[1..];
      }
    } else {
      EscapeGrowsOnSpecial(s);
    }
  }

  /** Decoding one encoded character in front of any text yields that character. */
  lemma UnescapeStep(c: char, rest: string)
    ensures Unescape(EscapeChar(c) + rest) == [c] + Unescape(rest)
  {
    var t := EscapeChar(c) + rest;
    match c
    case '&' =>
      assert t[..5] == "&amp;";
      assert t[5..] == rest;
    case '<' =>
      assert t[..4] == "&lt;";
      assert t[1] == 'l';
      assert t[4..] == rest;
    case '>' =>
      assert t[..4] == "&gt;";
      assert t[1] == 'g';
      assert t[4..] == rest;
    case '"' =>
      assert t[..6] == "&quot;";
      assert t[1] == 'q';
      assert t[6..] == rest;
    case '\'' =>
      assert t[..5] == "&#39;";
      assert t[1] == '#';
      assert t[5..] == rest;
    case _ =>
      assert t[0] == c;
      assert t[1..] == rest;
  }

  /** Decoding undoes encoding. */
  lemma {:induction false} RoundTrip(s: string)
    ensures Unescape(EscapeHtml(s)) == s
  {
    if |s| > 0 {
      UnescapeStep(s[0], EscapeHtml(s[1..]));
      RoundTrip(s[1..]);
      assert s == [s[0]] + s[1..];
    }
  }

  /** Distinct strings have distinct encodings. */
  lemma EscapeInjective(a: string, b: string)
    ensures EscapeHtml(a) == EscapeHtml(b) ==> a == b
  {
    RoundTrip(a);
    RoundTrip(b);
  }
}
