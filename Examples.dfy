/**
 * Concrete behaviours of the substitution with the default delimiters
 * `{{` and `}}` and with custom ones.
 */
module Examples {
  import opened Wrappers
  import opened Matcher
  import opened Scanner
  import opened Substitution
  import opened Providers
  import opened Templates

  /** Upper-casing of ASCII letters. */
  function Upper(v: string): (r: string)
    ensures |r| == |v|
    ensures forall k :: 0 <= k < |v| ==>
      r[k] == if 'a' <= v[k] <= 'z' then (v[k] as int - 32) as char else v[k]
  {
    if v == [] then []
    else [if 'a' <= v[0] <= 'z' then (v[0] as int - 32) as char else v[0]] + Upper(v[1..])
  }

  /** A mutator like PHP's strtoupper, which turns null into "". */
  function UpperCoercingNull(o: Option<string>): Option<string> {
    match o
    case Some(v) => Some(Upper(v))
    case None => Some([])
  }

  /** A mutator that upper-cases and passes null through. */
  function UpperKeepingNull(o: Option<string>): Option<string> {
    match o
    case Some(v) => Some(Upper(v))
    case None => None
  }

  /** A placeholder between plain text is replaced by its value. */
  lemma HelloWorld(w: string)
    ensures Render("{{", "}}", WrapArrayProvider(map["name" := Some(w)]), "Hello, {{name}}!") == "Hello, " + w + "!"
  {
    assert "Hello, {{name}}!" == "Hello, " + ("{{" + "name" + "}}" + "!");
    PlaceholderInPlainText("{{", "}}", WrapArrayProvider(map["name" := Some(w)]), "Hello, ", "name", "!");
  }

  /** A placeholder the provider cannot resolve is left as it is. */
  lemma UnresolvedKept(entries: map<string, Option<string>>)
    requires "missing" !in entries
    ensures Render("{{", "}}", WrapArrayProvider(entries), "{{missing}}") == "{{missing}}"
  {
    assert "{{missing}}" == "" + ("{{" + "missing" + "}}" + "");
    PlaceholderInPlainText("{{", "}}", WrapArrayProvider(entries), "", "missing", "");
  }

  /** Custom delimiters. */
  lemma CustomDelimiters(y: string)
    ensures Render("<%", "%>", WrapArrayProvider(map["x" := Some(y)]), "<%x%>") == y
  {
    assert "<%x%>" == "" + ("<%" + "x" + "%>" + "");
    PlaceholderInPlainText("<%", "%>", WrapArrayProvider(map["x" := Some(y)]), "", "x", "");
  }

  /** An escaped start delimiter is printed as the delimiter, and what
      follows it, "x}}" say, is no longer a placeholder. */
  lemma EscapedStartDelimiter(entries: map<string, Option<string>>, rest: string)
    requires PlainText(rest, "{{")
    ensures Render("{{", "}}", WrapArrayProvider(entries), "\\{{" + rest) == "{{" + rest
  {
    var s := "\\{{" + rest;
    var fn := WrapArrayProvider(entries);
    var p, h := BuildPattern("{{", "}}"), Handler("{{", "}}", fn);
    assert ReplaceAll(p, h, s, 0) == "{{" + rest by {
      SplitStartsAt(s, 0, "\\{{", rest);
      EscapedStartStep("{{", "}}", fn, s, 0);
      PlainTailCopied("{{", "}}", h, s, 3, rest);
    }
  }

  /** An escaped stop delimiter is printed as the delimiter. */
  lemma EscapedStopDelimiter(entries: map<string, Option<string>>)
    ensures Render("{{", "}}", WrapArrayProvider(entries), "a\\}}") == "a}}"
  {
    var s := "a\\}}";
    var fn := WrapArrayProvider(entries);
    assert StartsAt(s, 1, "\\" + "}}");
    EscapedStopAtEnd("{{", "}}", fn, s, 1);
    assert StartsAt(s, 0, "a");
    PlainPieceThen("{{", "}}", Handler("{{", "}}", fn), s, 0, "a", "}}");
  }

  /** The optional backslash between the delimiter's characters: `\{\{`
      is an escaped start too. */
  lemma EscapedStartWithInnerBackslash(entries: map<string, Option<string>>)
    ensures Render("{{", "}}", WrapArrayProvider(entries), "\\{\\{") == "{{"
  {
    var s := "\\{\\{";
    var p := BuildPattern("{{", "}}");
    assert MatchAtoms(p.escapedStart, s, 0) == Some(4);
    HandleEscapes("{{", "}}", WrapArrayProvider(entries), s);
  }

  /** A bare escape of the start delimiter's first character is printed
      as the whole start delimiter. */
  lemma BareEscapeOfStartCharacter(entries: map<string, Option<string>>)
    ensures Render("{{", "}}", WrapArrayProvider(entries), "\\{") == "{{"
  {
    var s := "\\{";
    var p := BuildPattern("{{", "}}");
    assert MatchAtoms(p.escapedStart, s, 0).None?;
    assert MatchAtoms(p.escapedStop, s, 0).None?;
    HandleEscapes("{{", "}}", WrapArrayProvider(entries), s);
  }

  /** Any other escape keeps its backslash. */
  lemma OtherEscapeKept(entries: map<string, Option<string>>)
    ensures Render("{{", "}}", WrapArrayProvider(entries), "\\a") == "\\a"
  {
    GenericEscapeStep("{{", "}}", WrapArrayProvider(entries), "\\a", 0);
  }

  /** A resolved placeholder passes through the mutator. */
  lemma MutatorApplied(w: string)
    ensures Render("{{", "}}", Compose(WrapArrayProvider(map["n" := Some(w)]), Some(UpperKeepingNull)), "{{n}}") == Upper(w)
  {
    assert "{{n}}" == "" + ("{{" + "n" + "}}" + "");
    PlaceholderInPlainText("{{", "}}", Compose(WrapArrayProvider(map["n" := Some(w)]), Some(UpperKeepingNull)), "", "n", "");
  }

  /** With a string function as mutator, which turns null into "", an
      unresolved placeholder disappears: the mutator sees null too. */
  lemma MutatorCoercingNull(entries: map<string, Option<string>>)
    requires "missing" !in entries
    ensures Render("{{", "}}", Compose(WrapArrayProvider(entries), Some(UpperCoercingNull)), "{{missing}}") == ""
  {
    assert "{{missing}}" == "" + ("{{" + "missing" + "}}" + "");
    PlaceholderInPlainText("{{", "}}", Compose(WrapArrayProvider(entries), Some(UpperCoercingNull)), "", "missing", "");
  }

  /** With a mutator that passes null through, an unresolved placeholder
      is kept. */
  lemma MutatorKeepingNull(entries: map<string, Option<string>>)
    requires "missing" !in entries
    ensures Render("{{", "}}", Compose(WrapArrayProvider(entries), Some(UpperKeepingNull)), "{{missing}}") == "{{missing}}"
  {
    assert "{{missing}}" == "" + ("{{" + "missing" + "}}" + "");
    PlaceholderInPlainText("{{", "}}", Compose(WrapArrayProvider(entries), Some(UpperKeepingNull)), "", "missing", "");
  }

  /** With `%>`, whose `%` preg_quote leaves alone, the unit is `%>`
      itself and takes no backslash: `<%\%>x%>` is a placeholder with the
      name `\` that ends at the first `%>`. */
  lemma UnescapedStopUnit()
    ensures MatchAt(BuildPattern("<%", "%>"), "<%\\%>x%>", 0) == Some(5)
  {
    var s := "<%\\%>x%>";
    var u := StopUnit("%>");
    assert u == "%>";
    assert StartsAt(s, 3, "%>");
    assert s[2 + 0] != "%>"[0] && s[2 + 0] != u[0];
    assert StopOrMore(s, 3, u, "%>") == Some(5);
    assert Placeholder(s, 0, "<%", u, "%>") == Some(5);
  }

  /** The stop unit `\}}` is given up when the placeholder cannot close
      after it: `{{a\}}` is a placeholder with the name `a\`. */
  lemma StopUnitGivenUp()
    ensures MatchAt(BuildPattern("{{", "}}"), "{{a\\}}", 0) == Some(6)
  {
    var s := "{{a\\}}";
    var u := StopUnit("}}");
    assert u == "\\}}";
    assert StartsAt(s, 3, u) && !StartsAt(s, 3, "}}");
    assert StopOrMore(s, 6, u, "}}").None?;
    assert StopOrMore(s, 4, u, "}}") == Some(6);
    UnitGivenUp(s, 3, u, "}}");
    assert Placeholder(s, 0, "{{", u, "}}") == Some(6);
  }
}
