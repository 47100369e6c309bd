/**
 * `escapeHtml`, used when student names are written into the printable page:
 * the five characters `& < > " '` become entities, every other character is
 * kept.
 */
module Html {

  /** The entity each special character is written as. */
  function Entity(ch: char): string
  {
    match ch
    case '&' => "&amp;"
    case '<' => "&lt;"
    case '>' => "&gt;"
    case '"' => "&quot;"
    case '\'' => "&#39;"
    case _ => [ch]
  }

  predicate Special(ch: char)
  {
    ch == '&' || ch == '<' || ch == '>' || ch == '"' || ch == '\''
  }

  function EscapeHtml(s: string): string
    decreases |s|
  {
    if s == [] then [] else Entity(s[0]) + EscapeHtml(s[1..])
  }

  predicate StartsWith(s: string, p: string)
  {
    |p| <= |s| && forall i :: 0 <= i < |p| ==> s[i] == p[i]
  }

  /** Reads the entities back: the inverse of EscapeHtml. */
  function UnescapeHtml(s: string): string
    decreases |s|
  {
    if s == [] then []
    else if s[0] != '&' then [s[0]] + UnescapeHtml(s[1..])
    else if StartsWith(s, "&amp;") then "&" + UnescapeHtml(s[5..])
    else if StartsWith(s, "&lt;") then "<" + UnescapeHtml(s[4..])
    else if StartsWith(s, "&gt;") then ">" + UnescapeHtml(s[4..])
    else if StartsWith(s, "&quot;") then "\"" + UnescapeHtml(s[6..])
    else if StartsWith(s, "&#39;") then "'" + UnescapeHtml(s[5..])
    else "&" + UnescapeHtml(s[1..])
  }

  lemma EntityDecodes(ch: char, rest: string)
    ensures UnescapeHtml(Entity(ch) + rest) == [ch] + UnescapeHtml(rest)
  {
    var s := Entity(ch) + rest;
    if ch == '&' {
      assert s[..5] == "&amp;" && s[5..] == rest;
    } else if ch == '<' {
      assert s[..4] == "&lt;" && s[4..] == rest;
      assert s[1] == 'l';
    } else if ch == '>' {
      assert s[..4] == "&gt;" && s[4..] == rest;
      assert s[1] == 'g';
    } else if ch == '"' {
      assert s[..6] == "&quot;" && s[6..] == rest;
      assert s[1] == 'q';
    } else if ch == '\'' {
      assert s[..5] == "&#39;" && s[5..] == rest;
      assert s[1] == '#';
    } else {
      assert s[0] == ch && s[1..] == rest;
    }
  }

  /** Unescaping the escaped text gives the original text back, so no two
      names are rendered alike. */
  lemma {:induction false} EscapeRoundTrip(s: string)
    ensures UnescapeHtml(EscapeHtml(s)) == s
    decreases |s|
  {
    if s != [] {
      EscapeRoundTrip(s[1..]);
      EntityDecodes(s[0], EscapeHtml(s[1..]));
      assert [s[0]] + s[1..] == s;
    }
  }

  /** The escaped text holds no `<`, `>`, `"` or `'`. */
  lemma {:induction false} EscapeIsSafe(s: string)
    ensures '<' !in EscapeHtml(s) && '>' !in EscapeHtml(s)
    ensures '"' !in EscapeHtml(s) && '\'' !in EscapeHtml(s)
    decreases |s|
  {
    if s != [] {
      EscapeIsSafe(s[1..]);
      var e := Entity(s[0]);
      assert EscapeHtml(s) == e + EscapeHtml(s[1..]);
      assert forall ch :: ch in e ==> ch !in "<>\"'";
    }
  }

  /** Text without special characters is left as it is. */
  lemma {:induction false} EscapePlain(s: string)
    requires forall i :: 0 <= i < |s| ==> !Special(s[i])
    ensures EscapeHtml(s) == s
    decreases |s|
  {
    if s != [] {
      EscapePlain(s[1..]);
      assert [s[0]] + s[1..] == s;
    }
  }

  /** The escape of a name with markup in it. */
  lemma EscapeExample()
    ensures EscapeHtml("<b>") == "&lt;b&gt;"
  {
    assert EscapeHtml(">") == "&gt;";
    assert EscapeHtml("b>") == "b&gt;";
  }
}
