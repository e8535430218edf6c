/** Dot::renderTemplate: for each placeholder in turn, every `{{KEY}}` (the key upper-cased)
    in the template is replaced by the value with str_replace. The placeholders form an
    ordered map; a later key sees what the earlier ones inserted. */
module Template {
  import opened Text

  /** The token for a key: `"{{" . strtoupper($key) . "}}"`. */
  function Token(key: string): (t: string)
    ensures |t| == |key| + 4 && StartsWith(t, "{{") && EndsWith(t, "}}")
  {
    var t := "{{" + ToUpper(key) + "}}";
    assert t[..2] == "{{" && t[|t| - 2..] == "}}";
    t
  }

  /** The template after the substitutions of `ps`, applied one after another. */
  function RenderSeq(template: string, ps: seq<(string, string)>): (r: string)
    ensures (forall k :: 0 <= k < |ps| ==> ps[k].1 == Token(ps[k].0)) ==> r == template
    decreases |ps|
  {
    if ps == [] then template
    else RenderSeq(ReplaceAll(template, Token(ps[0].0), ps[0].1), ps[1..])
  }

  /** The foreach loop of renderTemplate, reassigning the template at each placeholder. */
  method RenderTemplate(template: string, placeholders: seq<(string, string)>) returns (r: string)
    ensures r == RenderSeq(template, placeholders)
  {
    r := template;
    var i := 0;
    while i < |placeholders|
      invariant 0 <= i <= |placeholders|
      invariant RenderSeq(r, placeholders[i..]) == RenderSeq(template, placeholders)
    {
      assert placeholders[i..][1..] == placeholders[i + 1..];
      r := ReplaceAll(r, Token(placeholders[i].0), placeholders[i].1);
      i := i + 1;
    }
    assert placeholders[i..] == [];
  }

  /** Substituting `ps` and then `qs` is substituting `ps + qs`: each key works on the
      result of all the keys before it. */
  lemma {:induction false} RenderAppend(t: string, ps: seq<(string, string)>, qs: seq<(string, string)>)
    ensures RenderSeq(t, ps + qs) == RenderSeq(RenderSeq(t, ps), qs)
    decreases |ps|
  {
    if ps == [] {
      assert ps + qs == qs;
    } else {
      assert (ps + qs)[1..] == ps[1..] + qs;
      RenderAppend(ReplaceAll(t, Token(ps[0].0), ps[0].1), ps[1..], qs);
    }
  }

  /** A template in which no supplied key's token occurs comes back unchanged (in
      particular with no placeholders at all). */
  lemma {:induction false} RenderWithoutTokens(t: string, ps: seq<(string, string)>)
    requires forall i :: 0 <= i < |ps| ==> !Occurs(t, Token(ps[i].0))
    ensures RenderSeq(t, ps) == t
    decreases |ps|
  {
    if ps != [] {
      ReplaceAllAbsent(t, Token(ps[0].0), ps[0].1);
      assert forall i :: 0 <= i < |ps[1..]| ==> ps[1..][i] == ps[i + 1];
      RenderWithoutTokens(t, ps[1..]);
    }
  }

  /** One placeholder: the template is cut at every occurrence of the token, left to right,
      and the value is put between the pieces; no piece contains the token. */
  lemma RenderOne(t: string, key: string, value: string)
    ensures RenderSeq(t, [(key, value)]) == Implode(Explode(t, Token(key)), value)
    ensures forall k :: 0 <= k < |Explode(t, Token(key))| ==> !Occurs(Explode(t, Token(key))[k], Token(key))
  {
    ReplaceAllIsImplodeExplode(t, Token(key), value);
    ExplodePiecesFree(t, Token(key));
    assert [(key, value)][1..] == [];
  }

  /** Keys match case-insensitively: a key and its upper-cased form have the same token. */
  lemma KeysIgnoreCase(t: string, key: string, value: string)
    ensures RenderSeq(t, [(key, value)]) == RenderSeq(t, [(ToUpper(key), value)])
  {
    ToUpperIdempotent(key);
    assert Token(key) == Token(ToUpper(key));
  }

  /** A token inserted by an earlier value is expanded by a later key. */
  lemma EarlierValueIsRescanned()
    ensures RenderSeq("{{A}}", [("a", "{{B}}"), ("b", "x")]) == "x"
  {
    assert Token("a") == "{{A}}" && Token("b") == "{{B}}";
    var one := ReplaceAll("{{A}}", "{{A}}", "{{B}}");
    assert StartsWith("{{A}}", "{{A}}");
    assert "{{A}}"[5..] == [];
    assert one == "{{B}}";
    assert StartsWith("{{B}}", "{{B}}");
    assert "{{B}}"[5..] == [];
    assert ReplaceAll("{{B}}", "{{B}}", "x") == "x";
    assert [("a", "{{B}}"), ("b", "x")][1..] == [("b", "x")];
  }

  /** Replacing a token can join the text around it into a new occurrence of that token,
      even when the value holds no `{{`: the token of a supplied key can remain. */
  lemma TokenCanRemain()
    ensures RenderSeq("{{{{A}}A}}", [("a", "")]) == "{{A}}"
    ensures Occurs(RenderSeq("{{{{A}}A}}", [("a", "")]), Token("a"))
  {
    assert Token("a") == "{{A}}";
    JoinedToken();
    assert [("a", "")][1..] == [];
    assert StartsWith("{{A}}"[0..], "{{A}}");
  }

  lemma JoinedToken()
    ensures ReplaceAll("{{{{A}}A}}", "{{A}}", "") == "{{A}}"
  {
    var s := "{{{{A}}A}}";
    TokenThenTail();
    assert s[1..][1..] == "{{A}}A}}";
    KeepFirst(s[1..], "{{A}}", "");
    KeepFirst(s, "{{A}}", "");
  }

  /** The token is removed and the tail `A}}`, which holds no `{`, is kept. */
  lemma TokenThenTail()
    ensures ReplaceAll("{{A}}A}}", "{{A}}", "") == "A}}"
  {
    var tail := "A}}";
    AbsentChar(tail, "{{A}}", 0);
    ReplaceAllAbsent(tail, "{{A}}", "");
    assert "{{A}}A}}"[..5] == "{{A}}" && "{{A}}A}}"[5..] == tail;
  }

  /** Where the search string does not start, str_replace keeps the first character. */
  lemma KeepFirst(s: string, p: string, v: string)
    requires s != [] && |p| >= 3 && |s| >= 3 && s[2] != p[2]
    ensures ReplaceAll(s, p, v) == [s[0]] + ReplaceAll(s[1..], p, v)
  {
    assert !StartsWith(s, p) by {
      if |p| <= |s| { assert s[..|p|][2] != p[2]; }
    }
  }
}
