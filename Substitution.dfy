/**
 * Template::isVariable, Template::unescapeVariable and
 * Template::handleMatches: what replaces one match, and, combined with the
 * scan, what the whole substitution emits for each kind of token.
 */
module Substitution {
  import opened Wrappers
  import opened Matcher
  import opened Scanner

  /** PHP's substr($s, 0, $n): the first `n` characters, or all of a
      shorter string. */
  function Take(s: string, n: nat): (r: string)
    ensures |r| == if |s| <= n then |s| else n
    ensures r == s[..|r|]
  {
    if |s| <= n then s else s[..n]
  }

  /** Template::isVariable: longer than both delimiters together, begins
      with start and ends with stop. */
  predicate IsVariable(start: string, stop: string, str: string): (b: bool)
    ensures b <==> |start| + |stop| < |str| && start + UnescapeVariable(start, stop, str) + stop == str
  {
    var b := |start| + |stop| < |str| && str[..|start|] == start && str[|str| - |stop|..] == stop;
    assert |start| + |stop| <= |str| ==> str == str[..|start|] + UnescapeVariable(start, stop, str) + str[|str| - |stop|..];
    b
  }

  /** Template::unescapeVariable: the text between the two delimiters. */
  function UnescapeVariable(start: string, stop: string, str: string): (name: string)
    requires |start| + |stop| <= |str|
    ensures |name| == |str| - |start| - |stop|
  {
    str[|start|..|str| - |stop|]
  }

  /** Template::handleMatches: an escaped start (checked first) becomes
      start, an escaped stop becomes stop, a placeholder becomes the value
      of its name when that is not null, and everything else is kept. */
  function HandleMatch(start: string, stop: string, fn: string -> Option<string>, m: string): (r: string)
    ensures r == start || r == stop || r == m ||
      (IsVariable(start, stop, m) && fn(UnescapeVariable(start, stop, m)) == Some(r))
  {
    if Take(m, 2) == [Backslash] + Take(start, 1) then start
    else if Take(m, 2) == [Backslash] + Take(stop, 1) then stop
    else if IsVariable(start, stop, m) then
      match fn(UnescapeVariable(start, stop, m))
      case Some(v) => v
      case None => m
    else m
  }

  /** The callback Template::replace hands to the scan. */
  function Handler(start: string, stop: string, fn: string -> Option<string>): (h: string -> string)
    ensures forall m :: h(m) == HandleMatch(start, stop, fn, m)
  {
    m => HandleMatch(start, stop, fn, m)
  }

  /** The result of Template::replace for a lookup function `fn`. */
  function Render(start: string, stop: string, fn: string -> Option<string>, s: string): (r: string)
    ensures Backslash !in s && (forall j :: 0 <= j < |s| ==> !StartsAt(s, j, start)) ==> r == s
  {
    PlainTextUnchanged(start, stop, Handler(start, stop, fn), s);
    ReplaceAll(BuildPattern(start, stop), Handler(start, stop, fn), s, 0)
  }

  // ----- isVariable and unescapeVariable -----

  /** start + name + stop is a variable exactly when the name is non-empty,
      and its name is recovered. */
  lemma VariableOfName(start: string, stop: string, name: string)
    ensures IsVariable(start, stop, start + name + stop) <==> |name| > 0
    ensures UnescapeVariable(start, stop, start + name + stop) == name
  {
    var str := start + name + stop;
    assert str[..|start|] == start;
    assert str[|str| - |stop|..] == stop;
    assert str[|start|..|str| - |stop|] == name;
  }

  // ----- handleMatches, one match at a time -----

  /** The classification by the first two characters, in its priority
      order; a short match that is a generic escape is kept with its
      backslash. */
  lemma HandleEscapes(start: string, stop: string, fn: string -> Option<string>, m: string)
    requires |start| > 0 && |stop| > 0 && |m| >= 2 && m[0] == Backslash
    ensures m[1] == start[0] ==> HandleMatch(start, stop, fn, m) == start
    ensures m[1] != start[0] && m[1] == stop[0] ==> HandleMatch(start, stop, fn, m) == stop
    ensures m[1] != start[0] && m[1] != stop[0] && |m| == 2 ==> HandleMatch(start, stop, fn, m) == m
  {
    assert Take(m, 2) == [m[0], m[1]];
    assert Take(start, 1) == [start[0]];
    assert Take(stop, 1) == [stop[0]];
  }

  /** A placeholder whose first character is not a backslash is replaced
      by the looked-up value, or kept verbatim when the lookup is null. */
  lemma HandlePlaceholder(start: string, stop: string, fn: string -> Option<string>, name: string)
    requires |start| > 0 && |stop| > 0 && |name| > 0 && start[0] != Backslash
    ensures HandleMatch(start, stop, fn, start + name + stop) ==
      match fn(name) case Some(v) => v case None => start + name + stop
  {
    var m := start + name + stop;
    VariableOfName(start, stop, name);
    assert m[0] == start[0];
    assert Take(m, 2)[0] == m[0];
  }

  /** The text of a placeholder match is a variable. */
  lemma PlaceholderIsVariable(start: string, unit: string, stop: string, s: string, i: nat, e: nat)
    requires i <= |s| && |unit| > 0
    requires Placeholder(s, i, start, unit, stop) == Some(e)
    ensures IsVariable(start, stop, s[i..e])
  {
    var m := s[i..e];
    StartsAtSlice(s, i, start);
    StartsAtSlice(s, e - |stop|, stop);
    assert m[..|start|] == s[i..i + |start|];
    assert m[|m| - |stop|..] == s[e - |stop|..e];
  }

  /** Every match the pattern finds is one of four kinds, each with its
      replacement (start not beginning with a backslash). */
  lemma ClassifyMatch(start: string, stop: string, fn: string -> Option<string>, s: string, i: nat)
    requires |start| > 0 && |stop| > 0 && start[0] != Backslash && i <= |s|
    requires MatchAt(BuildPattern(start, stop), s, i).Some?
    ensures var e := MatchAt(BuildPattern(start, stop), s, i).value;
      var r := HandleMatch(start, stop, fn, s[i..e]);
      i + 2 <= e &&
      (s[i] == Backslash && s[i + 1] == start[0] ==> r == start) &&
      (s[i] == Backslash && s[i + 1] != start[0] && s[i + 1] == stop[0] ==> r == stop) &&
      (s[i] == Backslash && s[i + 1] != start[0] && s[i + 1] != stop[0] ==> e == i + 2 && r == s[i..e]) &&
      (s[i] != Backslash ==>
        (IsVariable(start, stop, s[i..e]) &&
         r == match fn(UnescapeVariable(start, stop, s[i..e])) case Some(v) => v case None => s[i..e]))
  {
    var e := MatchAt(BuildPattern(start, stop), s, i).value;
    var m := s[i..e];
    MatchKinds(start, stop, s, i);
    if s[i] == Backslash {
      HandleEscapes(start, stop, fn, m);
    } else {
      PlaceholderIsVariable(start, StopUnit(stop), stop, s, i, e);
      HandlePlaceholder(start, stop, fn, UnescapeVariable(start, stop, m));
    }
  }

  // ----- the substitution, token by token -----

  /** HandleEscapes for the callback that the scan is given: an escaped
      start, or an escaped stop when the delimiters begin differently,
      becomes the delimiter. */
  lemma EscapeHandled(start: string, stop: string, fn: string -> Option<string>, d: string)
    requires |start| > 0 && |stop| > 0
    requires d == start || (d == stop && start[0] != stop[0])
    ensures Handler(start, stop, fn)([Backslash] + d) == d
  {
    HandleEscapes(start, stop, fn, [Backslash] + d);
  }

  /** An escaped delimiter match, once found, is replaced by the delimiter. */
  lemma EscapeReplaced(start: string, stop: string, fn: string -> Option<string>, s: string, i: nat, d: string)
    requires |start| > 0 && |stop| > 0 && i <= |s|
    requires d == start || (d == stop && start[0] != stop[0])
    requires MatchAt(BuildPattern(start, stop), s, i) == Some(i + 1 + |d|)
    requires s[i..i + 1 + |d|] == [Backslash] + d
    ensures ReplaceAll(BuildPattern(start, stop), Handler(start, stop, fn), s, i) ==
      d + ReplaceAll(BuildPattern(start, stop), Handler(start, stop, fn), s, i + 1 + |d|)
  {
    EscapeHandled(start, stop, fn, d);
    ReplacedBy(BuildPattern(start, stop), Handler(start, stop, fn), s, i, i + 1 + |d|, [Backslash] + d, d);
  }

  /** `\` + start is emitted as start, and the scan resumes right after it. */
  lemma EscapedStartStep(start: string, stop: string, fn: string -> Option<string>, s: string, i: nat)
    requires |start| > 0 && |stop| > 0 && Backslash !in start
    requires StartsAt(s, i, [Backslash] + start)
    ensures ReplaceAll(BuildPattern(start, stop), Handler(start, stop, fn), s, i) ==
      start + ReplaceAll(BuildPattern(start, stop), Handler(start, stop, fn), s, i + 1 + |start|)
  {
    EscapedStartMatch(start, stop, s, i);
    StartsAtSlice(s, i, [Backslash] + start);
    EscapeReplaced(start, stop, fn, s, i, start);
  }

  /** An escaped start with backslashes between its characters, `\{\{` as
      well as `\{{`, is emitted as start too, and the scan resumes after
      the whole escape. */
  lemma EscapedSpreadStartStep(start: string, stop: string, fn: string -> Option<string>, b: seq<bool>, s: string, i: nat)
    requires |start| > 0 && |stop| > 0 && Backslash !in start && |b| == |start| && !b[0]
    requires StartsAt(s, i, [Backslash] + Spread(start, b))
    ensures ReplaceAll(BuildPattern(start, stop), Handler(start, stop, fn), s, i) ==
      start + ReplaceAll(BuildPattern(start, stop), Handler(start, stop, fn), s, i + 1 + |Spread(start, b)|)
  {
    var e := i + 1 + |Spread(start, b)|;
    var m := s[i..e];
    EscapedSpreadStartMatch(start, stop, b, s, i);
    StartsAtSlice(s, i, [Backslash] + Spread(start, b));
    assert m == [Backslash] + Spread(start, b);
    assert m[1] == Spread(start, b)[0] == start[0];
    HandleEscapes(start, stop, fn, m);
    ReplacedBy(BuildPattern(start, stop), Handler(start, stop, fn), s, i, e, m, start);
  }

  /** `\` + stop is emitted as stop when the delimiters begin differently. */
  lemma EscapedStopStep(start: string, stop: string, fn: string -> Option<string>, s: string, i: nat)
    requires |start| > 0 && |stop| > 0 && Backslash !in stop && start[0] != stop[0]
    requires StartsAt(s, i, [Backslash] + stop)
    ensures ReplaceAll(BuildPattern(start, stop), Handler(start, stop, fn), s, i) ==
      stop + ReplaceAll(BuildPattern(start, stop), Handler(start, stop, fn), s, i + 1 + |stop|)
  {
    EscapedStopMatch(start, stop, s, i);
    StartsAtSlice(s, i, [Backslash] + stop);
    EscapeReplaced(start, stop, fn, s, i, stop);
  }

  /** An escaped stop delimiter that ends the text becomes the delimiter. */
  lemma EscapedStopAtEnd(start: string, stop: string, fn: string -> Option<string>, s: string, i: nat)
    requires |start| > 0 && |stop| > 0 && Backslash !in stop && start[0] != stop[0]
    requires StartsAt(s, i, [Backslash] + stop) && i + 1 + |stop| == |s|
    ensures ReplaceAll(BuildPattern(start, stop), Handler(start, stop, fn), s, i) == stop
  {
    EscapedStopStep(start, stop, fn, s, i);
  }

  /** When both delimiters begin with the same character, an escaped stop
      is emitted as start: the start check comes first. */
  lemma SharedFirstCharacterStartWins(start: string, stop: string, fn: string -> Option<string>, s: string, i: nat)
    requires |start| > 0 && |stop| > 0 && start[0] == stop[0]
    requires StartsAt(s, i, [Backslash] + stop)
    ensures MatchAt(BuildPattern(start, stop), s, i).Some?
    ensures ReplaceAll(BuildPattern(start, stop), Handler(start, stop, fn), s, i) ==
      start + ReplaceAll(BuildPattern(start, stop), Handler(start, stop, fn), s, MatchAt(BuildPattern(start, stop), s, i).value)
  {
    var p := BuildPattern(start, stop);
    EscapedDelimiterRecognised(stop, s, i);
    StartsAtHead(s, i, Backslash, stop);
    assert s[i + 1] == s[i..i + 1 + |stop|][1];
    if MatchAtoms(p.escapedStart, s, i).Some? {
      EscapedMatchShape(start, s, i);
    } else {
      EscapedMatchShape(stop, s, i);
    }
    var e := MatchAt(p, s, i).value;
    HandleEscapes(start, stop, fn, s[i..e]);
  }

  /** Any other escape `\x` is emitted unchanged, backslash included. */
  lemma GenericEscapeStep(start: string, stop: string, fn: string -> Option<string>, s: string, i: nat)
    requires |start| > 0 && |stop| > 0
    requires i + 1 < |s| && s[i] == Backslash
    requires s[i + 1] != Newline && s[i + 1] != start[0] && s[i + 1] != stop[0]
    ensures ReplaceAll(BuildPattern(start, stop), Handler(start, stop, fn), s, i) ==
      [Backslash, s[i + 1]] + ReplaceAll(BuildPattern(start, stop), Handler(start, stop, fn), s, i + 2)
  {
    var p := BuildPattern(start, stop);
    if MatchAtoms(p.escapedStart, s, i).Some? {
      EscapedMatchShape(start, s, i);
      assert false;
    }
    if MatchAtoms(p.escapedStop, s, i).Some? {
      EscapedMatchShape(stop, s, i);
      assert false;
    }
    HandleEscapes(start, stop, fn, s[i..i + 2]);
  }

  /** HandlePlaceholder for the callback that the scan is given. */
  lemma PlaceholderHandled(start: string, stop: string, fn: string -> Option<string>, name: string)
    requires |start| > 0 && |stop| > 0 && |name| > 0 && start[0] != Backslash
    ensures Handler(start, stop, fn)(start + name + stop) ==
      match fn(name) case Some(v) => v case None => start + name + stop
  {
    HandlePlaceholder(start, stop, fn, name);
  }

  /** A placeholder match, once found, is replaced by the looked-up value,
      or kept verbatim when the lookup gives null. */
  lemma PlaceholderReplaced(start: string, stop: string, fn: string -> Option<string>, s: string, i: nat, name: string)
    requires |start| > 0 && |stop| > 0 && start[0] != Backslash && |name| > 0
    requires StartsAt(s, i, start + name + stop)
    requires MatchAt(BuildPattern(start, stop), s, i) == Some(i + |start| + |name| + |stop|)
    ensures ReplaceAll(BuildPattern(start, stop), Handler(start, stop, fn), s, i) ==
      (match fn(name) case Some(v) => v case None => start + name + stop) +
      ReplaceAll(BuildPattern(start, stop), Handler(start, stop, fn), s, i + |start| + |name| + |stop|)
  {
    PlaceholderHandled(start, stop, fn, name);
    TextReplacedBy(BuildPattern(start, stop), Handler(start, stop, fn), s, i,
      start + name + stop, match fn(name) case Some(v) => v case None => start + name + stop);
  }

  /** A placeholder with a plain name is replaced by the looked-up value,
      or left verbatim when the lookup gives null, and the scan resumes
      after its stop delimiter. */
  lemma PlaceholderStep(start: string, stop: string, fn: string -> Option<string>, s: string, i: nat, name: string)
    requires |start| > 0 && |stop| > 0 && start[0] != Backslash && |name| > 0
    requires StartsAt(s, i, start + name + stop)
    requires forall x :: 0 <= x < |name| ==> name[x] != Backslash && name[x] != Newline
    requires forall x :: i + |start| < x < i + |start| + |name| ==> !StartsAt(s, x, stop)
    requires !StartsAt(s, i + |start|, StopUnit(stop))
    ensures ReplaceAll(BuildPattern(start, stop), Handler(start, stop, fn), s, i) ==
      (match fn(name) case Some(v) => v case None => start + name + stop) +
      ReplaceAll(BuildPattern(start, stop), Handler(start, stop, fn), s, i + |start| + |name| + |stop|)
  {
    PlaceholderMatch(start, stop, s, i, name);
    PlaceholderReplaced(start, stop, fn, s, i, name);
  }

  /** Text in which no token can start: no backslash and no first
      character of start. */
  predicate PlainText(t: string, start: string)
    requires |start| > 0
  {
    forall k :: 0 <= k < |t| ==> t[k] != Backslash && t[k] != start[0]
  }

  /** A name the placeholder alternative reads with `.` up to the first
      stop: no backslash, no newline, no first character of stop. */
  predicate PlainName(name: string, stop: string)
    requires |stop| > 0
  {
    |name| > 0 && forall k :: 0 <= k < |name| ==> name[k] != Backslash && name[k] != Newline && name[k] != stop[0]
  }

  /** No match starts anywhere inside a piece of plain text. */
  lemma PlainTextUnmatched(start: string, stop: string, s: string, i: nat, piece: string)
    requires |start| > 0 && PlainText(piece, start) && StartsAt(s, i, piece)
    ensures Unmatched(BuildPattern(start, stop), s, i, i + |piece|)
    ensures s[i..i + |piece|] == piece
  {
    forall j | i <= j < i + |piece| ensures MatchAt(BuildPattern(start, stop), s, j).None? {
      assert s[i + (j - i)] == piece[j - i];
      NoMatchAtPlainChar(start, stop, s, j);
    }
    StartsAtSlice(s, i, piece);
  }

  /** A placeholder with a plain name is matched up to its stop delimiter. */
  lemma PlainNameMatched(start: string, stop: string, s: string, i: nat, name: string)
    requires |start| > 0 && |stop| > 0 && start[0] != Backslash
    requires PlainName(name, stop) && StartsAt(s, i, start + name + stop)
    ensures MatchAt(BuildPattern(start, stop), s, i) == Some(i + |start| + |name| + |stop|)
  {
    SplitStartsAt(s, i, start + name, stop);
    SplitStartsAt(s, i, start, name);
    NoStopInName(s, i + |start|, name, stop);
    assert s[i + |start|] == name[0];
    NoUnitAt(s, i + |start|, StopUnit(stop), stop);
    PlaceholderMatch(start, stop, s, i, name);
  }

  /** The scan replaces a plain-name placeholder by the callback's result
      `v` on start + name + stop and goes on with `rest` after its stop delimiter. */
  lemma PlainNameConsumed(start: string, stop: string, callback: string -> string, v: string, rest: string,
                          s: string, i: nat, name: string)
    requires |start| > 0 && |stop| > 0 && start[0] != Backslash
    requires PlainName(name, stop) && StartsAt(s, i, start + name + stop)
    requires callback(start + name + stop) == v
    requires ReplaceAll(BuildPattern(start, stop), callback, s, i + |start| + |name| + |stop|) == rest
    ensures ReplaceAll(BuildPattern(start, stop), callback, s, i) == v + rest
  {
    StartsAtSlice(s, i, start + name + stop);
    PlainNameMatched(start, stop, s, i, name);
    MatchReplaced(BuildPattern(start, stop), callback, s, i, i + |start| + |name| + |stop|);
  }

  /** A plain-name placeholder whose text the callback maps to `v`,
      followed by plain text up to the end. */
  lemma PlaceholderThenPlainText(start: string, stop: string, callback: string -> string, v: string,
                                 s: string, i: nat, name: string, post: string)
    requires |start| > 0 && |stop| > 0 && start[0] != Backslash
    requires PlainName(name, stop) && PlainText(post, start)
    requires StartsAt(s, i, start + name + stop)
    requires StartsAt(s, i + |start| + |name| + |stop|, post)
    requires i + |start| + |name| + |stop| + |post| == |s|
    requires callback(start + name + stop) == v
    ensures ReplaceAll(BuildPattern(start, stop), callback, s, i) == v + post
  {
    PlainTailCopied(start, stop, callback, s, i + |start| + |name| + |stop|, post);
    PlainNameConsumed(start, stop, callback, v, post, s, i, name);
  }

  /** Plain text, a plain-name placeholder whose text the callback maps to
      `v`, and plain text, from position `i` on. */
  lemma PlaceholderInPlainTextAt(start: string, stop: string, callback: string -> string, v: string,
                                 s: string, i: nat, pre: string, name: string, post: string)
    requires |start| > 0 && |stop| > 0 && start[0] != Backslash
    requires PlainText(pre, start) && PlainName(name, stop) && PlainText(post, start)
    requires StartsAt(s, i, pre) && StartsAt(s, i + |pre|, start + name + stop)
    requires StartsAt(s, i + |pre| + |start| + |name| + |stop|, post)
    requires i + |pre| + |start| + |name| + |stop| + |post| == |s|
    requires callback(start + name + stop) == v
    ensures ReplaceAll(BuildPattern(start, stop), callback, s, i) == pre + (v + post)
  {
    PlaceholderThenPlainText(start, stop, callback, v, s, i + |pre|, name, post);
    PlainPieceThen(start, stop, callback, s, i, pre, v + post);
  }

  /** PlaceholderInPlainTextAt for the callback the scan is given for the
      lookup `fn`. */
  lemma PlaceholderLookedUp(start: string, stop: string, fn: string -> Option<string>,
                            s: string, i: nat, pre: string, name: string, post: string)
    requires |start| > 0 && |stop| > 0 && start[0] != Backslash
    requires PlainText(pre, start) && PlainName(name, stop) && PlainText(post, start)
    requires StartsAt(s, i, pre) && StartsAt(s, i + |pre|, start + name + stop)
    requires StartsAt(s, i + |pre| + |start| + |name| + |stop|, post)
    requires i + |pre| + |start| + |name| + |stop| + |post| == |s|
    ensures ReplaceAll(BuildPattern(start, stop), Handler(start, stop, fn), s, i) ==
      pre + ((match fn(name) case Some(v) => v case None => start + name + stop) + post)
  {
    PlaceholderHandled(start, stop, fn, name);
    PlaceholderInPlainTextAt(start, stop, Handler(start, stop, fn),
      match fn(name) case Some(v) => v case None => start + name + stop, s, i, pre, name, post);
  }

  /** Plain text around one placeholder with a plain name: the text is kept
      and the placeholder is replaced by its value, or kept when null. */
  lemma PlaceholderInPlainText(start: string, stop: string, fn: string -> Option<string>,
                               pre: string, name: string, post: string)
    requires |start| > 0 && |stop| > 0 && start[0] != Backslash
    requires PlainText(pre, start) && PlainName(name, stop) && PlainText(post, start)
    ensures Render(start, stop, fn, pre + (start + name + stop + post)) ==
      pre + ((match fn(name) case Some(v) => v case None => start + name + stop) + post)
  {
    var s := pre + (start + name + stop + post);
    SplitStartsAt(s, 0, pre, start + name + stop + post);
    SplitStartsAt(s, |pre|, start + name + stop, post);
    PlaceholderLookedUp(start, stop, fn, s, 0, pre, name, post);
  }
}
