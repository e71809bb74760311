/**
 * The compiled pattern of a template and the matching of one token at one
 * position of the input, following the PCRE regex built by
 * Template::getRegex: four alternatives tried leftmost-first,
 *   escaped start | escaped stop | backslash + any char | start (unit)+? stop
 * where a unit is a backslash followed by stop, or one character.
 * PCRE's backtracking order is spelled out by the functions below.
 */
module Matcher {
  import opened Wrappers

  const Backslash: char := '\\'
  /** PCRE's `.` matches every character except this one. */
  const Newline: char := '\n'

  /** One piece of an escaped-delimiter matcher: a character that must be
      present, or a character that is taken when present (greedily). */
  datatype Atom = Lit(c: char) | OptLit(c: char)

  /** The compiled pattern: the two escaped-delimiter matchers, and the
      start delimiter, the first unit alternative and the stop delimiter
      of the placeholder alternative. */
  datatype Pattern = Pattern(escapedStart: seq<Atom>, escapedStop: seq<Atom>, start: string, unit: string, stop: string)

  /** Both escaped matchers begin with a mandatory character and the unit
      is not empty, so no alternative and no unit can match the empty
      string. */
  predicate ValidPattern(p: Pattern) {
    |p.escapedStart| > 0 && p.escapedStart[0].Lit? &&
    |p.escapedStop| > 0 && p.escapedStop[0].Lit? &&
    |p.unit| > 0
  }

  /** `d` occurs in `s` at position `i`. */
  predicate StartsAt(s: string, i: nat, d: string) {
    i + |d| <= |s| && forall m :: 0 <= m < |d| ==> s[i + m] == d[m]
  }

  /** The delimiter's characters joined by an optional backslash. */
  function Interleave(str: string): (r: seq<Atom>)
    ensures |r| == if str == [] then 0 else 2 * |str| - 1
    ensures str != [] ==> r[0] == Lit(str[0])
  {
    if |str| == 0 then []
    else if |str| == 1 then [Lit(str[0])]
    else [Lit(str[0]), OptLit(Backslash)] + Interleave(str[1..])
  }

  /** Template::escapedStringMatcher: a backslash, then the characters of
      `str` with an optional backslash between consecutive characters. */
  function EscapedStringMatcher(str: string): (r: seq<Atom>)
    ensures |r| == if str == [] then 1 else 2 * |str|
    ensures r[0] == Lit(Backslash)
    ensures str != [] ==> r[1] == Lit(str[0])
  {
    [Lit(Backslash)] + Interleave(str)
  }

  /** The characters preg_quote puts a backslash in front of (with `/`
      as the pattern delimiter). */
  const PregQuoted: set<char> :=
    {'.', '\\', '+', '*', '?', '[', '^', ']', '$', '(', ')', '{', '}', '=', '!', '<', '>', '|', ':', '-', '#', '/'}

  /** ASCII letters and digits, which PCRE reads as escape sequences after
      a backslash. */
  predicate Alphanumeric(c: char) {
    'a' <= c <= 'z' || 'A' <= c <= 'Z' || '0' <= c <= '9'
  }

  /** What the first unit alternative, the text `(?:\` followed by
      preg_quote(stop), matches. When preg_quote escapes stop's first
      character, the leading backslash pairs with the one preg_quote adds
      and the unit is a literal backslash followed by stop. When it leaves
      a punctuation character as it is, PCRE reads backslash + that
      character as the character itself and the unit is stop. */
  function StopUnit(stop: string): (u: string)
    ensures |u| > 0
    ensures u == stop || u == [Backslash] + stop
  {
    if |stop| > 0 && stop[0] !in PregQuoted && !Alphanumeric(stop[0]) then stop else [Backslash] + stop
  }

  /** The pattern Template::getRegex builds from the two delimiters. */
  function BuildPattern(start: string, stop: string): (p: Pattern)
    ensures ValidPattern(p)
    ensures p.start == start && p.stop == stop && p.unit == StopUnit(stop)
    ensures p.escapedStart == EscapedStringMatcher(start)
    ensures p.escapedStop == EscapedStringMatcher(stop)
  {
    Pattern(EscapedStringMatcher(start), EscapedStringMatcher(stop), start, StopUnit(stop), stop)
  }

  /** Matches `atoms` at `i`; the end of the first match in backtracking
      order (an optional character is tried taken first), if any. */
  function MatchAtoms(atoms: seq<Atom>, s: string, i: nat): (r: Option<nat>)
    requires i <= |s|
    ensures r.Some? ==> i <= r.value <= |s|
    ensures r.Some? && atoms != [] && atoms[0].Lit? ==> i < r.value
    decreases |atoms|
  {
    if atoms == [] then Some(i)
    else match atoms[0]
      case Lit(c) =>
        if i < |s| && s[i] == c then MatchAtoms(atoms[1..], s, i + 1) else None
      case OptLit(c) =>
        var taken := if i < |s| && s[i] == c then MatchAtoms(atoms[1..], s, i + 1) else None;
        if taken.Some? then taken else MatchAtoms(atoms[1..], s, i)
  }

  /** `(?:UNIT|.)+?STOP` at `j`, where no unit has been matched yet: one
      unit is mandatory (`unit` tried before `.`), then StopOrMore. */
  function UnitsThenStop(s: string, j: nat, unit: string, stop: string): (r: Option<nat>)
    requires j <= |s| && |unit| > 0
    ensures r.Some? ==> j + 1 + |stop| <= r.value <= |s| && StartsAt(s, r.value - |stop|, stop)
    decreases |s| - j, 0
  {
    var escaped := if StartsAt(s, j, unit) then StopOrMore(s, j + |unit|, unit, stop) else None;
    if escaped.Some? then escaped
    else if j < |s| && s[j] != Newline then StopOrMore(s, j + 1, unit, stop)
    else None
  }

  /** After at least one unit the lazy quantifier first tries to close with
      `stop`, and only then takes one more unit. */
  function StopOrMore(s: string, j: nat, unit: string, stop: string): (r: Option<nat>)
    requires j <= |s| && |unit| > 0
    ensures r.Some? ==> j + |stop| <= r.value <= |s| && StartsAt(s, r.value - |stop|, stop)
    decreases |s| - j, 1
  {
    if StartsAt(s, j, stop) then Some(j + |stop|) else UnitsThenStop(s, j, unit, stop)
  }

  /** The placeholder alternative: start, one or more units, stop. */
  function Placeholder(s: string, i: nat, start: string, unit: string, stop: string): (r: Option<nat>)
    requires i <= |s| && |unit| > 0
    ensures r.Some? ==>
      i + |start| + 1 + |stop| <= r.value <= |s| &&
      StartsAt(s, i, start) && StartsAt(s, r.value - |stop|, stop)
  {
    if StartsAt(s, i, start) then UnitsThenStop(s, i + |start|, unit, stop) else None
  }

  /** The alternative `\\.`: a backslash and one non-newline character. */
  function GenericEscape(s: string, i: nat): (r: Option<nat>)
    requires i <= |s|
    ensures r.Some? <==> i + 1 < |s| && s[i] == Backslash && s[i + 1] != Newline
    ensures r.Some? ==> r.value == i + 2
  {
    if i + 1 < |s| && s[i] == Backslash && s[i + 1] != Newline then Some(i + 2) else None
  }

  /** The end of the match of the whole pattern at `i`: the first of the
      four alternatives, in order, that matches (leftmost-first, not longest). */
  function MatchAt(p: Pattern, s: string, i: nat): (r: Option<nat>)
    requires ValidPattern(p) && i <= |s|
    ensures r.Some? ==> i < r.value <= |s|
  {
    var a := MatchAtoms(p.escapedStart, s, i);
    if a.Some? then a
    else
      var b := MatchAtoms(p.escapedStop, s, i);
      if b.Some? then b
      else
        var c := GenericEscape(s, i);
        if c.Some? then c
        else Placeholder(s, i, p.start, p.unit, p.stop)
  }

  // ----- Lemmas about the matcher -----

  /** An occurrence is a slice equal to the delimiter. */
  lemma StartsAtSlice(s: string, i: nat, d: string)
    requires StartsAt(s, i, d)
    ensures s[i..i + |d|] == d
  {
    forall m | 0 <= m < |d| ensures s[i..i + |d|][m] == d[m] {
      assert s[i + m] == d[m];
    }
  }

  /** The atoms of Interleave: the delimiter's characters at even
      positions, optional backslashes at odd ones. */
  lemma {:induction false} InterleaveAtoms(str: string)
    ensures forall j :: 0 <= j < |Interleave(str)| ==>
      Interleave(str)[j] == if j % 2 == 0 then Lit(str[j / 2]) else OptLit(Backslash)
    decreases |str|
  {
    if |str| >= 2 {
      InterleaveAtoms(str[1..]);
      var r := Interleave(str);
      var t := Interleave(str[1..]);
      assert r == [Lit(str[0]), OptLit(Backslash)] + t;
      forall j | 2 <= j < |r|
        ensures r[j] == if j % 2 == 0 then Lit(str[j / 2]) else OptLit(Backslash)
      {
        assert r[j] == t[j - 2];
        assert (j - 2) % 2 == j % 2 && (j - 2) / 2 + 1 == j / 2;
        assert str[1..][(j - 2) / 2] == str[j / 2];
      }
    }
  }

  /** The atoms of the escaped-delimiter matcher: a backslash, then the
      delimiter's characters at odd positions and optional backslashes
      between them. */
  lemma EscapedStringMatcherAtoms(str: string)
    ensures forall j :: 0 < j < |EscapedStringMatcher(str)| ==>
      EscapedStringMatcher(str)[j] == if j % 2 == 1 then Lit(str[j / 2]) else OptLit(Backslash)
  {
    InterleaveAtoms(str);
    var r := EscapedStringMatcher(str);
    forall j | 0 < j < |r|
      ensures r[j] == if j % 2 == 1 then Lit(str[j / 2]) else OptLit(Backslash)
    {
      assert r[j] == Interleave(str)[j - 1];
      assert (j - 1) % 2 == 0 <==> j % 2 == 1;
      if j % 2 == 1 {
        assert (j - 1) / 2 == j / 2;
      }
    }
  }

  /** An occurrence of `a + b` is an occurrence of `a` followed by one of `b`. */
  lemma SplitStartsAt(s: string, i: nat, a: string, b: string)
    requires StartsAt(s, i, a + b)
    ensures StartsAt(s, i, a) && StartsAt(s, i + |a|, b)
  {
    forall m | 0 <= m < |a| ensures s[i + m] == a[m] {
      assert (a + b)[m] == a[m];
    }
    forall m | 0 <= m < |b| ensures s[i + |a| + m] == b[m] {
      assert (a + b)[|a| + m] == b[m];
    }
  }

  /** An occurrence of `[c] + d` begins with `c`. */
  lemma StartsAtHead(s: string, i: nat, c: char, d: string)
    ensures StartsAt(s, i, [c] + d) ==> i < |s| && s[i] == c
  {
    if StartsAt(s, i, [c] + d) {
      assert ([c] + d)[0] == c;
    }
  }

  /** A greedy optional backslash in front of a character that is not a
      backslash is skipped, so the delimiter itself matches exactly. */
  lemma {:induction false} InterleaveMatchesExactly(d: string, s: string, i: nat)
    requires StartsAt(s, i, d)
    requires Backslash !in d
    ensures MatchAtoms(Interleave(d), s, i) == Some(i + |d|)
    decreases |d|
  {
    if |d| == 0 {
    } else if |d| == 1 {
      assert s[i] == d[0];
      assert Interleave(d)[1..] == [];
    } else {
      var atoms := Interleave(d);
      assert s[i] == d[0];
      assert s[i + 1] == d[1];
      assert atoms[1..] == [OptLit(Backslash)] + Interleave(d[1..]);
      assert atoms[1..][1..] == Interleave(d[1..]);
      assert s[i + 1..i + 1 + |d[1..]|] == d[1..];
      InterleaveMatchesExactly(d[1..], s, i + 1);
    }
  }

  /** Whatever characters the delimiter holds, its own text is matched
      (backtracking out of a wrongly taken optional backslash). */
  lemma {:induction false} InterleaveMatches(d: string, s: string, i: nat)
    requires StartsAt(s, i, d)
    ensures MatchAtoms(Interleave(d), s, i).Some?
    decreases |d|
  {
    if |d| == 0 {
    } else if |d| == 1 {
      assert s[i] == d[0];
      assert Interleave(d)[1..] == [];
    } else {
      var atoms := Interleave(d);
      assert s[i] == d[0];
      assert atoms[1..] == [OptLit(Backslash)] + Interleave(d[1..]);
      assert atoms[1..][1..] == Interleave(d[1..]);
      assert s[i + 1..i + 1 + |d[1..]|] == d[1..];
      InterleaveMatches(d[1..], s, i + 1);
    }
  }

  /** A backslash followed by the delimiter is always recognised as an
      escaped delimiter, and exactly that text is consumed when the
      delimiter holds no backslash. */
  lemma EscapedDelimiterRecognised(d: string, s: string, i: nat)
    requires StartsAt(s, i, [Backslash] + d)
    ensures MatchAtoms(EscapedStringMatcher(d), s, i).Some?
    ensures Backslash !in d ==> MatchAtoms(EscapedStringMatcher(d), s, i) == Some(i + 1 + |d|)
  {
    var atoms := EscapedStringMatcher(d);
    StartsAtHead(s, i, Backslash, d);
    SplitStartsAt(s, i, [Backslash], d);
    assert atoms[1..] == Interleave(d);
    InterleaveMatches(d, s, i + 1);
    if Backslash !in d {
      InterleaveMatchesExactly(d, s, i + 1);
    }
  }

  /** The delimiter's characters, each preceded by a backslash where `b`
      holds: the texts an escaped-delimiter matcher accepts after its
      leading backslash. */
  function Spread(d: string, b: seq<bool>): (r: string)
    requires |b| == |d|
    ensures |d| <= |r| <= 2 * |d|
    ensures |d| > 0 && !b[0] ==> r[0] == d[0]
  {
    if |d| == 0 then [] else (if b[0] then [Backslash, d[0]] else [d[0]]) + Spread(d[1..], b[1..])
  }

  /** After the delimiter's first character, the optional backslash is
      taken when it is there and the rest matches after it. */
  lemma InterleaveTaken(d: string, s: string, i: nat)
    requires |d| >= 2 && i + 1 < |s| && s[i] == d[0] && s[i + 1] == Backslash
    requires MatchAtoms(Interleave(d[1..]), s, i + 2).Some?
    ensures MatchAtoms(Interleave(d), s, i) == MatchAtoms(Interleave(d[1..]), s, i + 2)
  {
    var atoms := Interleave(d);
    assert atoms[1..] == [OptLit(Backslash)] + Interleave(d[1..]);
    assert atoms[1..][1..] == Interleave(d[1..]);
  }

  /** After the delimiter's first character, an absent optional backslash
      is skipped. */
  lemma InterleaveSkipped(d: string, s: string, i: nat)
    requires |d| >= 2 && i + 1 < |s| && s[i] == d[0] && s[i + 1] != Backslash
    ensures MatchAtoms(Interleave(d), s, i) == MatchAtoms(Interleave(d[1..]), s, i + 1)
  {
    var atoms := Interleave(d);
    assert atoms[1..] == [OptLit(Backslash)] + Interleave(d[1..]);
    assert atoms[1..][1..] == Interleave(d[1..]);
  }

  /** A spread text whose second character is preceded by a backslash:
      the first character, the backslash, then the spread rest with no
      backslash in front of its first character. */
  lemma SpreadTakenTail(d: string, b: seq<bool>, s: string, i: nat)
    requires |b| == |d| && |d| >= 2 && !b[0] && b[1]
    requires StartsAt(s, i, Spread(d, b))
    ensures s[i] == d[0] && s[i + 1] == Backslash
    ensures StartsAt(s, i + 2, Spread(d[1..], [false] + b[2..]))
    ensures |Spread(d, b)| == 2 + |Spread(d[1..], [false] + b[2..])|
  {
    var rest := Spread(d[2..], b[2..]);
    var b' := [false] + b[2..];
    assert d[1..][1..] == d[2..] && b[1..][1..] == b[2..] && b'[1..] == b[2..];
    assert Spread(d, b) == [d[0]] + ([Backslash] + ([d[1]] + rest));
    assert Spread(d[1..], b') == [d[1]] + rest;
    SplitStartsAt(s, i, [d[0]], [Backslash] + ([d[1]] + rest));
    StartsAtHead(s, i, d[0], [Backslash] + ([d[1]] + rest));
    SplitStartsAt(s, i + 1, [Backslash], [d[1]] + rest);
    StartsAtHead(s, i + 1, Backslash, [d[1]] + rest);
  }

  /** A spread text whose second character has no backslash in front. */
  lemma SpreadSkippedTail(d: string, b: seq<bool>, s: string, i: nat)
    requires |b| == |d| && |d| >= 2 && !b[0] && !b[1]
    requires StartsAt(s, i, Spread(d, b))
    ensures s[i] == d[0] && s[i + 1] == d[1]
    ensures StartsAt(s, i + 1, Spread(d[1..], b[1..]))
    ensures |Spread(d, b)| == 1 + |Spread(d[1..], b[1..])|
  {
    var rest := Spread(d[2..], b[2..]);
    assert d[1..][1..] == d[2..] && b[1..][1..] == b[2..];
    assert Spread(d[1..], b[1..]) == [d[1]] + rest;
    assert Spread(d, b) == [d[0]] + ([d[1]] + rest);
    SplitStartsAt(s, i, [d[0]], [d[1]] + rest);
    StartsAtHead(s, i, d[0], [d[1]] + rest);
    StartsAtHead(s, i + 1, d[1], rest);
  }

  /** For a delimiter without backslashes, the interleaved matcher consumes
      exactly its characters with a backslash in front of any of them but
      the first. */
  lemma {:induction false} InterleaveMatchesSpread(d: string, b: seq<bool>, s: string, i: nat)
    requires |b| == |d| && |d| > 0 && !b[0] && Backslash !in d
    requires StartsAt(s, i, Spread(d, b))
    ensures MatchAtoms(Interleave(d), s, i) == Some(i + |Spread(d, b)|)
    decreases |d|
  {
    if |d| == 1 {
      assert Spread(d, b) == [d[0]];
      assert s[i] == Spread(d, b)[0];
      assert Interleave(d)[1..] == [];
    } else if b[1] {
      SpreadTakenTail(d, b, s, i);
      InterleaveMatchesSpread(d[1..], [false] + b[2..], s, i + 2);
      InterleaveTaken(d, s, i);
    } else {
      SpreadSkippedTail(d, b, s, i);
      InterleaveMatchesSpread(d[1..], b[1..], s, i + 1);
      InterleaveSkipped(d, s, i);
    }
  }

  /** A backslash, then a delimiter without backslashes whose characters
      after the first may each be preceded by a backslash, is matched by
      the escaped-delimiter matcher, exactly. */
  lemma EscapedSpreadRecognised(d: string, b: seq<bool>, s: string, i: nat)
    requires |b| == |d| && |d| > 0 && !b[0] && Backslash !in d
    requires StartsAt(s, i, [Backslash] + Spread(d, b))
    ensures MatchAtoms(EscapedStringMatcher(d), s, i) == Some(i + 1 + |Spread(d, b)|)
  {
    var atoms := EscapedStringMatcher(d);
    StartsAtHead(s, i, Backslash, Spread(d, b));
    SplitStartsAt(s, i, [Backslash], Spread(d, b));
    assert atoms[1..] == Interleave(d);
    InterleaveMatchesSpread(d, b, s, i + 1);
  }

  /** Every escaped-delimiter match begins with a backslash and the
      delimiter's first character. */
  lemma EscapedMatchShape(d: string, s: string, i: nat)
    requires i <= |s| && |d| > 0
    requires MatchAtoms(EscapedStringMatcher(d), s, i).Some?
    ensures i + 2 <= MatchAtoms(EscapedStringMatcher(d), s, i).value
    ensures s[i] == Backslash && s[i + 1] == d[0]
  {
    var atoms := EscapedStringMatcher(d);
    assert atoms[1] == Lit(d[0]);
    assert atoms[1..][0] == Lit(d[0]);
    assert MatchAtoms(atoms, s, i) == MatchAtoms(atoms[1..], s, i + 1);
  }

  /** `\` + start, for a start without backslashes, is matched by the
      first alternative, exactly. */
  lemma EscapedStartMatch(start: string, stop: string, s: string, i: nat)
    requires |start| > 0 && Backslash !in start
    requires StartsAt(s, i, [Backslash] + start)
    ensures MatchAt(BuildPattern(start, stop), s, i) == Some(i + 1 + |start|)
  {
    EscapedDelimiterRecognised(start, s, i);
  }

  /** The same for the spread form of start: `\{\{` as well as `\{{`. */
  lemma EscapedSpreadStartMatch(start: string, stop: string, b: seq<bool>, s: string, i: nat)
    requires |start| > 0 && Backslash !in start && |b| == |start| && !b[0]
    requires StartsAt(s, i, [Backslash] + Spread(start, b))
    ensures MatchAt(BuildPattern(start, stop), s, i) == Some(i + 1 + |Spread(start, b)|)
  {
    EscapedSpreadRecognised(start, b, s, i);
  }

  /** `\` + stop, for a stop without backslashes and not beginning like
      start, is matched by the second alternative, exactly. */
  lemma EscapedStopMatch(start: string, stop: string, s: string, i: nat)
    requires |start| > 0 && |stop| > 0 && Backslash !in stop && start[0] != stop[0]
    requires StartsAt(s, i, [Backslash] + stop)
    ensures MatchAt(BuildPattern(start, stop), s, i) == Some(i + 1 + |stop|)
  {
    assert ([Backslash] + stop)[1] == stop[0];
    if MatchAtoms(EscapedStringMatcher(start), s, i).Some? {
      EscapedMatchShape(start, s, i);
      assert false;
    }
    EscapedDelimiterRecognised(stop, s, i);
  }

  /** A position holding neither a backslash nor the start delimiter starts
      no match. */
  lemma NoMatchAt(start: string, stop: string, s: string, i: nat)
    requires i < |s| && s[i] != Backslash && !StartsAt(s, i, start)
    ensures MatchAt(BuildPattern(start, stop), s, i).None?
  {
  }

  /** The four kinds of match: an escaped start or an escaped stop (a
      backslash and that delimiter's first character), a generic escape
      (exactly two characters, a backslash first), or a placeholder. */
  lemma MatchKinds(start: string, stop: string, s: string, i: nat)
    requires |start| > 0 && |stop| > 0 && i <= |s|
    requires MatchAt(BuildPattern(start, stop), s, i).Some?
    ensures var e := MatchAt(BuildPattern(start, stop), s, i).value;
      (s[i] == Backslash && i + 2 <= e && (s[i + 1] == start[0] || s[i + 1] == stop[0])) ||
      (s[i] == Backslash && e == i + 2 && s[i + 1] != Newline) ||
      Placeholder(s, i, start, StopUnit(stop), stop) == Some(e)
  {
    var p := BuildPattern(start, stop);
    if MatchAtoms(p.escapedStart, s, i).Some? {
      EscapedMatchShape(start, s, i);
    } else if MatchAtoms(p.escapedStop, s, i).Some? {
      EscapedMatchShape(stop, s, i);
    }
  }

  /** Non-greedy closing: a placeholder whose name holds no backslash and no
      newline ends at the first stop delimiter found after one character. */
  lemma {:induction false} StopOrMoreOverPlainText(s: string, j: nat, k: nat, unit: string, stop: string)
    requires |unit| > 0 && (unit == stop || unit == [Backslash] + stop)
    requires j <= k && StartsAt(s, k, stop)
    requires forall x :: j <= x < k ==> s[x] != Backslash && s[x] != Newline
    requires forall x :: j <= x < k ==> !StartsAt(s, x, stop)
    ensures StopOrMore(s, j, unit, stop) == Some(k + |stop|)
    decreases k - j
  {
    if j < k {
      NoUnitAt(s, j, unit, stop);
      StopOrMoreOverPlainText(s, j + 1, k, unit, stop);
    }
  }

  /** Neither a backslash nor the beginning of stop is the beginning of
      a stop unit. */
  lemma NoUnitAt(s: string, j: nat, unit: string, stop: string)
    requires unit == stop || unit == [Backslash] + stop
    requires j < |s| && s[j] != Backslash && !StartsAt(s, j, stop)
    ensures !StartsAt(s, j, unit)
  {
    StartsAtHead(s, j, Backslash, stop);
  }

  /** A plain character where no stop unit begins is taken as a unit by
      the `.` alternative. */
  lemma PlainUnit(s: string, j: nat, unit: string, stop: string)
    requires |unit| > 0 && j < |s| && s[j] != Newline && !StartsAt(s, j, unit)
    ensures UnitsThenStop(s, j, unit, stop) == StopOrMore(s, j + 1, unit, stop)
  {
  }

  /** Where the body cannot close but a unit begins, that unit is taken
      before the `.` alternative: the placeholder ends where the scan after
      the unit closes, even though a stop may begin inside the unit. */
  lemma UnitTaken(s: string, j: nat, unit: string, stop: string, e: nat)
    requires |unit| > 0 && j <= |s| && !StartsAt(s, j, stop) && StartsAt(s, j, unit)
    requires StopOrMore(s, j + |unit|, unit, stop) == Some(e)
    ensures StopOrMore(s, j, unit, stop) == Some(e)
  {
  }

  /** Where the body cannot close but a stop unit begins and nothing can
      close after it, the unit is given up and its first character is read
      by the `.` alternative instead. */
  lemma UnitGivenUp(s: string, j: nat, unit: string, stop: string)
    requires |unit| > 0 && j < |s| && !StartsAt(s, j, stop) && StartsAt(s, j, unit)
    requires StopOrMore(s, j + |unit|, unit, stop).None? && s[j] != Newline
    ensures StopOrMore(s, j, unit, stop) == StopOrMore(s, j + 1, unit, stop)
  {
  }

  /** Once start is found, the placeholder alternative is whatever its
      mandatory first unit and the lazy closing give right after it. */
  lemma PlaceholderOpens(s: string, i: nat, j: nat, k: nat, start: string, unit: string, stop: string)
    requires StartsAt(s, i, start) && j == i + |start| && j <= |s| && |unit| > 0
    requires UnitsThenStop(s, j, unit, stop) == Some(k)
    ensures Placeholder(s, i, start, unit, stop) == Some(k)
  {
  }

  /** Units over a run of plain characters `s[j..k]`, not beginning with a
      stop unit, close at the first stop that is found at `k` and at no
      position inside the run after `j`. */
  lemma UnitsOverPlainText(unit: string, stop: string, s: string, j: nat, k: nat)
    requires |unit| > 0 && (unit == stop || unit == [Backslash] + stop)
    requires j < k && StartsAt(s, k, stop) && !StartsAt(s, j, unit)
    requires forall x :: j <= x < k ==> s[x] != Backslash && s[x] != Newline
    requires forall x :: j < x < k ==> !StartsAt(s, x, stop)
    ensures UnitsThenStop(s, j, unit, stop) == Some(k + |stop|)
  {
    PlainUnit(s, j, unit, stop);
    StopOrMoreOverPlainText(s, j + 1, k, unit, stop);
  }

  /** The characters of an occurrence of `name` are those of `name`. */
  lemma NameCharacters(s: string, j: nat, name: string)
    requires StartsAt(s, j, name)
    requires forall x :: 0 <= x < |name| ==> name[x] != Backslash && name[x] != Newline
    ensures forall x :: j <= x < j + |name| ==> s[x] != Backslash && s[x] != Newline
  {
    forall x | j <= x < j + |name| ensures s[x] != Backslash && s[x] != Newline {
      assert s[j + (x - j)] == name[x - j];
    }
  }

  /** The placeholder `start + name + stop` is matched to its end when the
      name is plain text, does not begin with a stop unit, and no stop
      delimiter begins inside it after its first character. */
  lemma PlaceholderExtent(start: string, unit: string, stop: string, s: string, i: nat, name: string)
    requires |unit| > 0 && (unit == stop || unit == [Backslash] + stop)
    requires StartsAt(s, i, start) && StartsAt(s, i + |start|, name) && StartsAt(s, i + |start| + |name|, stop)
    requires |name| > 0
    requires forall x :: 0 <= x < |name| ==> name[x] != Backslash && name[x] != Newline
    requires forall x :: i + |start| < x < i + |start| + |name| ==> !StartsAt(s, x, stop)
    requires !StartsAt(s, i + |start|, unit)
    ensures Placeholder(s, i, start, unit, stop) == Some(i + |start| + |name| + |stop|)
  {
    var j := i + |start|;
    var k := j + |name|;
    NameCharacters(s, j, name);
    UnitsOverPlainText(unit, stop, s, j, k);
    PlaceholderOpens(s, i, j, k + |stop|, start, unit, stop);
  }

  /** Such a placeholder is what the whole pattern matches at its position,
      provided start does not begin with a backslash. */
  lemma PlaceholderMatch(start: string, stop: string, s: string, i: nat, name: string)
    requires |start| > 0 && start[0] != Backslash && |name| > 0
    requires StartsAt(s, i, start + name + stop)
    requires forall x :: 0 <= x < |name| ==> name[x] != Backslash && name[x] != Newline
    requires forall x :: i + |start| < x < i + |start| + |name| ==> !StartsAt(s, x, stop)
    requires !StartsAt(s, i + |start|, StopUnit(stop))
    ensures MatchAt(BuildPattern(start, stop), s, i) == Some(i + |start| + |name| + |stop|)
  {
    SplitStartsAt(s, i, start + name, stop);
    SplitStartsAt(s, i, start, name);
    PlaceholderExtent(start, StopUnit(stop), stop, s, i, name);
    StartsAtHead(s, i, start[0], start[1..]);
    assert start == [start[0]] + start[1..];
  }

  /** A character that is neither a backslash nor the first character of
      start starts no match. */
  lemma NoMatchAtPlainChar(start: string, stop: string, s: string, i: nat)
    requires |start| > 0 && i < |s| && s[i] != Backslash && s[i] != start[0]
    ensures MatchAt(BuildPattern(start, stop), s, i).None?
  {
    StartsAtHead(s, i, start[0], start[1..]);
    assert start == [start[0]] + start[1..];
    NoMatchAt(start, stop, s, i);
  }

  /** A name without the first character of stop holds no stop delimiter. */
  lemma NoStopInName(s: string, j: nat, name: string, stop: string)
    requires |stop| > 0 && StartsAt(s, j, name)
    requires forall k :: 0 <= k < |name| ==> name[k] != stop[0]
    ensures forall x :: j <= x < j + |name| ==> !StartsAt(s, x, stop)
  {
    forall x | j <= x < j + |name| ensures !StartsAt(s, x, stop) {
      assert s[j + (x - j)] == name[x - j];
      StartsAtHead(s, x, stop[0], stop[1..]);
      assert stop == [stop[0]] + stop[1..];
    }
  }
}
