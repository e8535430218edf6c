/** The first step of Dot::markdownToHtml: htmlspecialchars() with PHP 8.1's default flags
    (ENT_QUOTES), which rewrites the five characters & < > " ' as entities. */
module Escape {
  import opened Text

  const Amp := "&amp;"
  const Lt := "&lt;"
  const Gt := "&gt;"
  const Quot := "&quot;"
  const Apos := "&#039;"

  predicate IsSpecial(c: char) {
    c == '&' || c == '<' || c == '>' || c == '"' || c == '\''
  }

  function EscapeChar(c: char): (r: string)
    ensures |r| >= 1
    ensures IsSpecial(c) ==> r[0] == '&'
    ensures !IsSpecial(c) ==> r == [c]
  {
    match c
    case '&' => Amp
    case '<' => Lt
    case '>' => Gt
    case '"' => Quot
    case '\'' => Apos
    case _ => [c]
  }

  /** htmlspecialchars($str): each special character becomes its entity, all else is copied. */
  function HtmlSpecialChars(s: string): (r: string)
    ensures |r| >= |s|
    ensures forall i :: 0 <= i < |r| ==> r[i] != '<' && r[i] != '>'
  {
    if s == [] then [] else EscapeChar(s[0]) + HtmlSpecialChars(s[1..])
  }

  /** One of the five entities starts at position `i` of `t`. */
  predicate EntityAt(t: string, i: nat)
    requires i <= |t|
  {
    StartsWith(t[i..], Amp) || StartsWith(t[i..], Lt) || StartsWith(t[i..], Gt) ||
    StartsWith(t[i..], Quot) || StartsWith(t[i..], Apos)
  }

  /** Escaped text: no raw markup character, and every ampersand begins an entity. */
  predicate Escaped(t: string) {
    forall i :: 0 <= i < |t| ==>
      t[i] != '<' && t[i] != '>' && t[i] != '"' && t[i] != '\'' && (t[i] == '&' ==> EntityAt(t, i))
  }

  /** The inverse of htmlspecialchars on its own output (htmlspecialchars_decode with ENT_QUOTES). */
  function Unescape(t: string): string
  {
    if t == [] then []
    else if StartsWith(t, Amp) then "&" + Unescape(t[|Amp|..])
    else if StartsWith(t, Lt) then "<" + Unescape(t[|Lt|..])
    else if StartsWith(t, Gt) then ">" + Unescape(t[|Gt|..])
    else if StartsWith(t, Quot) then "\"" + Unescape(t[|Quot|..])
    else if StartsWith(t, Apos) then "'" + Unescape(t[|Apos|..])
    else [t[0]] + Unescape(t[1..])
  }

  lemma StartsWithAppend(x: string, y: string, e: string)
    requires StartsWith(x, e)
    ensures StartsWith(x + y, e)
  {
    assert (x + y)[..|e|] == x[..|e|];
  }

  lemma EscapedAppend(a: string, b: string)
    requires Escaped(a) && Escaped(b)
    ensures Escaped(a + b)
  {
    forall i | 0 <= i < |a + b| && (a + b)[i] == '&' ensures EntityAt(a + b, i) {
      if i < |a| {
        assert EntityAt(a, i);
        assert (a + b)[i..] == a[i..] + b;
        forall e | e in [Amp, Lt, Gt, Quot, Apos] && StartsWith(a[i..], e) ensures StartsWith((a + b)[i..], e) {
          StartsWithAppend(a[i..], b, e);
        }
      } else {
        assert (a + b)[i..] == b[i - |a|..];
        assert EntityAt(b, i - |a|);
      }
    }
  }

  lemma EscapeCharEscaped(c: char)
    ensures Escaped(EscapeChar(c))
  {
    var e := EscapeChar(c);
    if IsSpecial(c) {
      assert e[0..] == e;
      assert forall i :: 0 < i < |e| ==> e[i] != '&' && e[i] != '<' && e[i] != '>' && e[i] != '"' && e[i] != '\'';
    }
  }

  /** After escaping, the text holds no `<`, `>`, `"` or `'`, and every `&` begins an entity. */
  lemma {:induction false} EscapeIsEscaped(s: string)
    ensures Escaped(HtmlSpecialChars(s))
    decreases |s|
  {
    if s != [] {
      EscapeCharEscaped(s[0]);
      EscapeIsEscaped(s[1..]);
      EscapedAppend(EscapeChar(s[0]), HtmlSpecialChars(s[1..]));
    }
  }

  /** A character of `t` differing from the entity's rules the entity out at the start. */
  lemma NotEntity(t: string, e: string, k: nat)
    requires k < |e| && k < |t| && t[k] != e[k]
    ensures !StartsWith(t, e)
  {
    if |e| <= |t| {
      assert t[..|e|][k] == t[k];
    }
  }

  lemma UnescapeEntity(e: string, c: char, rest: string)
    requires |e| >= 2 && e[0] == '&'
    requires (e == Amp && c == '&') || (e == Lt && c == '<') || (e == Gt && c == '>') ||
             (e == Quot && c == '"') || (e == Apos && c == '\'')
    ensures Unescape(e + rest) == [c] + Unescape(rest)
  {
    var t := e + rest;
    assert t[..|e|] == e && t[|e|..] == rest;
    assert t[1] == e[1];
    if e != Amp { NotEntity(t, Amp, 1); }
    if e != Amp && e != Lt { NotEntity(t, Lt, 1); }
    if e == Quot || e == Apos { NotEntity(t, Gt, 1); }
    if e == Apos { NotEntity(t, Quot, 1); }
  }

  lemma UnescapePlainChar(c: char, rest: string)
    requires !IsSpecial(c)
    ensures Unescape([c] + rest) == [c] + Unescape(rest)
  {
    var t := [c] + rest;
    assert t[0] == c && t[1..] == rest;
    NotEntity(t, Amp, 0);
    NotEntity(t, Lt, 0);
    NotEntity(t, Gt, 0);
    NotEntity(t, Quot, 0);
    NotEntity(t, Apos, 0);
  }

  lemma UnescapeEscapeChar(c: char, rest: string)
    ensures Unescape(EscapeChar(c) + rest) == [c] + Unescape(rest)
  {
    if IsSpecial(c) {
      UnescapeEntity(EscapeChar(c), c, rest);
    } else {
      UnescapePlainChar(c, rest);
    }
  }

  /** Escaping loses nothing: decoding the entities gives back the original text. */
  lemma {:induction false} UnescapeOfEscape(s: string)
    ensures Unescape(HtmlSpecialChars(s)) == s
    decreases |s|
  {
    if s != [] {
      UnescapeEscapeChar(s[0], HtmlSpecialChars(s[1..]));
      UnescapeOfEscape(s[1..]);
    }
  }

  /** Text without any of the five special characters is left unchanged. */
  lemma {:induction false} EscapePlain(s: string)
    requires forall i :: 0 <= i < |s| ==> !IsSpecial(s[i])
    ensures HtmlSpecialChars(s) == s
    decreases |s|
  {
    if s != [] {
      EscapePlain(s[1..]);
    }
  }
}
