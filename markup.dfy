/**
 * `escapeHtml` (app.js:338-345): five `replaceAll` passes, `&` first, so
 * that the ampersands the later passes introduce are not encoded again.
 */
module Markup {
  import opened Text

  /**
   * The five passes in the order app.js runs them. The result holds no raw
   * `<`, `>`, `"` or `'`, and a text with none of the five characters is
   * returned as it is.
   */
  function EscapeHtml(input: string): (r: string)
    ensures '<' !in r && '>' !in r && '"' !in r && '\'' !in r
    ensures '&' !in input && '<' !in input && '>' !in input && '"' !in input && '\'' !in input
      ==> r == input
  {
    var amp := ReplaceAll(input, '&', "&amp;");
    var lt := ReplaceAll(amp, '<', "&lt;");
    var gt := ReplaceAll(lt, '>', "&gt;");
    var quot := ReplaceAll(gt, '"', "&quot;");
    var r := ReplaceAll(quot, '\'', "&#39;");
    assert '&' !in input && '<' !in input && '>' !in input && '"' !in input && '\'' !in input
      ==> r == input
    by {
      if '&' !in input && '<' !in input && '>' !in input && '"' !in input && '\'' !in input {
        ReplaceAllAbsent(input, '&', "&amp;");
        ReplaceAllAbsent(input, '<', "&lt;");
        ReplaceAllAbsent(input, '>', "&gt;");
        ReplaceAllAbsent(input, '"', "&quot;");
        ReplaceAllAbsent(input, '\'', "&#39;");
      }
    }
    r
  }

  /** The entity a single character becomes, or the character itself. */
  function EscapeChar(c: char): string {
    match c
    case '&' => "&amp;"
    case '<' => "&lt;"
    case '>' => "&gt;"
    case '"' => "&quot;"
    case '\'' => "&#39;"
    case _ => [c]
  }

  /** Escaping character by character, in one pass. */
  function EscapeEach(s: string): (r: string)
    ensures '<' !in r && '>' !in r && '"' !in r && '\'' !in r
  {
    if s == [] then [] else EscapeChar(s[0]) + EscapeEach(s[1..])
  }

  /** The decoder for the five entities: what a browser reads back from the markup. */
  function Unescape(s: string): string
  {
    if s == [] then []
    else if StartsWith(s, "&amp;") then "&" + Unescape(s[5..])
    else if StartsWith(s, "&lt;") then "<" + Unescape(s[4..])
    else if StartsWith(s, "&gt;") then ">" + Unescape(s[4..])
    else if StartsWith(s, "&quot;") then "\"" + Unescape(s[6..])
    else if StartsWith(s, "&#39;") then "'" + Unescape(s[5..])
    else [s[0]] + Unescape(s[1..])
  }

  /** An entity the passes have written is left alone by the passes after it. */
  lemma LaterPassesSkip(e: string)
    requires '<' !in e && '>' !in e && '"' !in e && '\'' !in e
    ensures ReplaceAll(e, '<', "&lt;") == e
    ensures ReplaceAll(e, '>', "&gt;") == e
    ensures ReplaceAll(e, '"', "&quot;") == e
    ensures ReplaceAll(e, '\'', "&#39;") == e
  {
    ReplaceAllAbsent(e, '<', "&lt;");
    ReplaceAllAbsent(e, '>', "&gt;");
    ReplaceAllAbsent(e, '"', "&quot;");
    ReplaceAllAbsent(e, '\'', "&#39;");
  }

  lemma EscapeHtmlOfChar(c: char)
    ensures EscapeHtml([c]) == EscapeChar(c)
  {
    if c == '&' {
      ReplaceAllHit(c, "&amp;");
      LaterPassesSkip("&amp;");
    } else if c == '<' {
      ReplaceAllAbsent([c], '&', "&amp;");
      ReplaceAllHit(c, "&lt;");
      LaterPassesSkip("&lt;");
    } else if c == '>' {
      ReplaceAllAbsent([c], '&', "&amp;");
      ReplaceAllAbsent([c], '<', "&lt;");
      ReplaceAllHit(c, "&gt;");
      LaterPassesSkip("&gt;");
    } else if c == '"' {
      ReplaceAllAbsent([c], '&', "&amp;");
      ReplaceAllAbsent([c], '<', "&lt;");
      ReplaceAllAbsent([c], '>', "&gt;");
      ReplaceAllHit(c, "&quot;");
      LaterPassesSkip("&quot;");
    } else if c == '\'' {
      ReplaceAllAbsent([c], '&', "&amp;");
      ReplaceAllAbsent([c], '<', "&lt;");
      ReplaceAllAbsent([c], '>', "&gt;");
      ReplaceAllAbsent([c], '"', "&quot;");
      ReplaceAllHit(c, "&#39;");
    }
  }

  /**
   * Running the five passes one after the other is the same as escaping
   * each character on its own: because `&` goes first, no entity that one
   * pass writes is touched by a later pass.
   */
  lemma {:induction false} EscapeHtmlIsPerCharacter(s: string)
    ensures EscapeHtml(s) == EscapeEach(s)
  {
    if s != [] {
      var c, rest := [s[0]], s[1..];
      assert s == c + rest;
      var amp1, amp2 := ReplaceAll(c, '&', "&amp;"), ReplaceAll(rest, '&', "&amp;");
      ReplaceAllAppend(c, rest, '&', "&amp;");
      var lt1, lt2 := ReplaceAll(amp1, '<', "&lt;"), ReplaceAll(amp2, '<', "&lt;");
      ReplaceAllAppend(amp1, amp2, '<', "&lt;");
      var gt1, gt2 := ReplaceAll(lt1, '>', "&gt;"), ReplaceAll(lt2, '>', "&gt;");
      ReplaceAllAppend(lt1, lt2, '>', "&gt;");
      var q1, q2 := ReplaceAll(gt1, '"', "&quot;"), ReplaceAll(gt2, '"', "&quot;");
      ReplaceAllAppend(gt1, gt2, '"', "&quot;");
      ReplaceAllAppend(q1, q2, '\'', "&#39;");
      EscapeHtmlOfChar(s[0]);
      EscapeHtmlIsPerCharacter(rest);
    }
  }

  /** `p` is a prefix of `s`. */
  predicate StartsWith(s: string, p: string) {
    |p| <= |s| && s[..|p|] == p
  }

  lemma UnescapeAfterChar(c: char, rest: string)
    ensures Unescape(EscapeChar(c) + rest) == [c] + Unescape(rest)
  {
    var s := EscapeChar(c) + rest;
    if c == '&' {
      assert s[..5] == "&amp;" && s[5..] == rest;
    } else if c == '<' {
      assert !StartsWith(s, "&amp;") by { assert s[1] == 'l'; }
      assert s[..4] == "&lt;" && s[4..] == rest;
    } else if c == '>' {
      assert !StartsWith(s, "&amp;") && !StartsWith(s, "&lt;") by { assert s[1] == 'g'; }
      assert s[..4] == "&gt;" && s[4..] == rest;
    } else if c == '"' {
      assert !StartsWith(s, "&amp;") && !StartsWith(s, "&lt;") && !StartsWith(s, "&gt;") by {
        assert s[1] == 'q';
      }
      assert s[..6] == "&quot;" && s[6..] == rest;
    } else if c == '\'' {
      assert !StartsWith(s, "&amp;") && !StartsWith(s, "&lt;") && !StartsWith(s, "&gt;")
        && !StartsWith(s, "&quot;") by { assert s[1] == '#'; }
      assert s[..5] == "&#39;" && s[5..] == rest;
    } else {
      assert s[0] == c && s[1..] == rest;
      assert !StartsWith(s, "&amp;") && !StartsWith(s, "&lt;") && !StartsWith(s, "&gt;")
        && !StartsWith(s, "&quot;") && !StartsWith(s, "&#39;") by { assert s[0] != '&'; }
    }
  }

  /** Decoding the escaped text gives back the original text. */
  lemma {:induction false} EscapeHtmlRoundTrip(s: string)
    ensures Unescape(EscapeHtml(s)) == s
  {
    EscapeHtmlIsPerCharacter(s);
    EachRoundTrip(s);
  }

  lemma {:induction false} EachRoundTrip(s: string)
    ensures Unescape(EscapeEach(s)) == s
  {
    if s != [] {
      UnescapeAfterChar(s[0], EscapeEach(s[1..]));
      EachRoundTrip(s[1..]);
    }
  }
}
