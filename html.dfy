/** `escapeHtml`: the five characters significant in HTML text and attributes replaced by entities. */
module Html {

  /** The characters `escapeHtml` replaces. */
  predicate Special(c: char) {
    c == '&' || c == '<' || c == '>' || c == '"' || c == '\''
  }

  /** The replacement for one character: its entity, or the character itself. */
  function Entity(c: char): (r: string)
    ensures Special(c) ==> |r| > 1 && r[0] == '&'
    ensures !Special(c) ==> r == [c]
    ensures forall i :: 0 <= i < |r| ==> !Special(r[i]) || (i == 0 && r[i] == '&')
  {
    match c
    case '&' => "&amp;"
    case '<' => "&lt;"
    case '>' => "&gt;"
    case '"' => "&quot;"
    case '\'' => "&#039;"
    case _ => [c]
  }

  /** `escapeHtml(str)`: every character replaced by its `Entity`, in order. */
  function EscapeHtml(s: string): (r: string)
    ensures |r| >= |s|
    ensures forall i :: 0 <= i < |r| ==> r[i] != '<' && r[i] != '>' && r[i] != '"' && r[i] != '\''
  {
    if s == [] then [] else Entity(s[0]) + EscapeHtml(s[1..])
  }

  /** A reference decoder for the five entities `EscapeHtml` writes; anything else is copied. */
  function Unescape(s: string): string
    decreases |s|
  {
    if s == [] then []
    else if "&amp;" <= s then "&" + Unescape(s[5..])
    else if "&lt;" <= s then "<" + Unescape(s[4..])
    else if "&gt;" <= s then ">" + Unescape(s[4..])
    else if "&quot;" <= s then "\"" + Unescape(s[6..])
    else if "&#039;" <= s then "'" + Unescape(s[6..])
    else [s[0]] + Unescape(s[1..])
  }

  lemma UnescapeEntity(c: char, rest: string)
    ensures Unescape(Entity(c) + rest) == [c] + Unescape(rest)
  {
    var t := Entity(c) + rest;
    assert t[|Entity(c)|..] == rest;
    match c
    case '&' => assert "&amp;" <= t;
    case '<' => assert "&lt;" <= t && t[1] == 'l';
    case '>' => assert "&gt;" <= t && t[1] == 'g';
    case '"' => assert "&quot;" <= t && t[1] == 'q';
    case '\'' => assert "&#039;" <= t && t[1] == '#';
    case _ => assert t[0] == c && t[0] != '&';
  }

  /** Un-escaping the five entities gives back the input: `escapeHtml` loses nothing. */
  lemma {:induction false} UnescapeEscape(s: string)
    ensures Unescape(EscapeHtml(s)) == s
  {
    if s != [] {
      UnescapeEntity(s[0], EscapeHtml(s[1..]));
      UnescapeEscape(s[1..]);
    }
  }

  /** `escapeHtml` changes a string exactly when it holds one of the five characters. */
  lemma {:induction false} EscapeHtmlIdentity(s: string)
    ensures EscapeHtml(s) == s <==> forall i :: 0 <= i < |s| ==> !Special(s[i])
  {
    if s != [] {
      EscapeHtmlIdentity(s[1..]);
      if Special(s[0]) {
        assert |EscapeHtml(s)| > |s|;
      } else {
        assert forall i :: 1 <= i < |s| ==> s[i] == s[1..][i - 1];
      }
    }
  }

  /** `r[i..]` begins with one of the five entities. */
  predicate EntityAt(r: string, i: nat)
    requires i <= |r|
  {
    var t := r[i..];
    "&amp;" <= t || "&lt;" <= t || "&gt;" <= t || "&quot;" <= t || "&#039;" <= t
  }

  /** Every `&` in the output begins one of the five entities. */
  lemma {:induction false} AmpersandsStartEntities(s: string, i: nat)
    requires i < |EscapeHtml(s)| && EscapeHtml(s)[i] == '&'
    ensures EntityAt(EscapeHtml(s), i)
  {
    var e := Entity(s[0]);
    var r := EscapeHtml(s);
    var rest := EscapeHtml(s[1..]);
    assert r == e + rest;
    if i < |e| {
      assert i == 0 && Special(s[0]);
      assert r[i..] == e + rest;
    } else {
      var j := i - |e|;
      assert r[i..] == rest[j..];
      AmpersandsStartEntities(s[1..], j);
    }
  }
}
