/**
 * The single left-to-right, non-overlapping scan of preg_replace_callback
 * as used by Template::replace: at each position the pattern is tried; a
 * match is replaced by the callback's result and the scan resumes after
 * it; otherwise one character is copied through.
 */
module Scanner {
  import opened Wrappers
  import opened Matcher

  /** No match of `p` starts at any position from `i` up to `k`. */
  predicate Unmatched(p: Pattern, s: string, i: nat, k: nat) {
    ValidPattern(p) && k <= |s| && forall j :: i <= j < k ==> MatchAt(p, s, j).None?
  }

  /** The output of the scan from position `i` on; a callback that gives
      every match back unchanged leaves the input as it is. */
  function ReplaceAll(p: Pattern, callback: string -> string, s: string, i: nat): (r: string)
    requires ValidPattern(p) && i <= |s|
    ensures (forall m :: callback(m) == m) ==> r == s[i..]
    decreases |s| - i
  {
    if i == |s| then []
    else match MatchAt(p, s, i)
      case Some(e) =>
        assert s[i..] == s[i..e] + s[e..];
        callback(s[i..e]) + ReplaceAll(p, callback, s, e)
      case None =>
        assert s[i..] == [s[i]] + s[i + 1..];
        [s[i]] + ReplaceAll(p, callback, s, i + 1)
  }

  /** preg_replace_callback: the scan as a loop appending to the output. */
  method ReplaceCallback(p: Pattern, callback: string -> string, s: string) returns (r: string)
    requires ValidPattern(p)
    ensures r == ReplaceAll(p, callback, s, 0)
  {
    r := [];
    var i := 0;
    while i < |s|
      invariant i <= |s|
      invariant r + ReplaceAll(p, callback, s, i) == ReplaceAll(p, callback, s, 0)
      decreases |s| - i
    {
      var m := MatchAt(p, s, i);
      if m.Some? {
        MatchReplaced(p, callback, s, i, m.value);
        r := r + callback(s[i..m.value]);
        i := m.value;
      } else {
        NoMatchCopied(p, callback, s, i);
        r := r + [s[i]];
        i := i + 1;
      }
    }
  }

  /** A match is replaced by the callback's result on its text. */
  lemma MatchReplaced(p: Pattern, callback: string -> string, s: string, i: nat, e: nat)
    requires ValidPattern(p) && i <= |s|
    requires MatchAt(p, s, i) == Some(e)
    ensures ReplaceAll(p, callback, s, i) == callback(s[i..e]) + ReplaceAll(p, callback, s, e)
  {
  }

  /** Where no match starts, one character is copied through. */
  lemma NoMatchCopied(p: Pattern, callback: string -> string, s: string, i: nat)
    requires ValidPattern(p) && i < |s|
    requires MatchAt(p, s, i).None?
    ensures ReplaceAll(p, callback, s, i) == [s[i]] + ReplaceAll(p, callback, s, i + 1)
  {
  }

  /** A stretch of positions where no match starts is copied verbatim. */
  lemma {:induction false} UnmatchedSpanCopied(p: Pattern, callback: string -> string, s: string, i: nat, k: nat)
    requires ValidPattern(p) && i <= k && Unmatched(p, s, i, k)
    ensures ReplaceAll(p, callback, s, i) == s[i..k] + ReplaceAll(p, callback, s, k)
    decreases k - i
  {
    if i < k {
      var rest, tail := ReplaceAll(p, callback, s, i + 1), ReplaceAll(p, callback, s, k);
      assert ReplaceAll(p, callback, s, i) == [s[i]] + rest by {
        NoMatchCopied(p, callback, s, i);
      }
      assert rest == s[i + 1..k] + tail by {
        UnmatchedSpanCopied(p, callback, s, i + 1, k);
      }
      assert s[i..k] == [s[i]] + s[i + 1..k];
    }
  }

  /** A match whose text `m` the callback maps to `v` is replaced by `v`. */
  lemma ReplacedBy(p: Pattern, callback: string -> string, s: string, i: nat, e: nat, m: string, v: string)
    requires ValidPattern(p) && i <= |s|
    requires MatchAt(p, s, i) == Some(e) && s[i..e] == m && callback(m) == v
    ensures ReplaceAll(p, callback, s, i) == v + ReplaceAll(p, callback, s, e)
  {
    MatchReplaced(p, callback, s, i, e);
  }

  /** A match over an occurrence of `text` that the callback maps to `v`
      is replaced by `v`. */
  lemma TextReplacedBy(p: Pattern, callback: string -> string, s: string, i: nat, text: string, v: string)
    requires ValidPattern(p) && StartsAt(s, i, text)
    requires MatchAt(p, s, i) == Some(i + |text|) && callback(text) == v
    ensures ReplaceAll(p, callback, s, i) == v + ReplaceAll(p, callback, s, i + |text|)
  {
    StartsAtSlice(s, i, text);
    ReplacedBy(p, callback, s, i, i + |text|, text, v);
  }

  /** Unmatched text, one match with text `m` that the callback maps to
      `v`, and unmatched text up to the end: the text around the match is
      kept and the match is replaced by `v`. */
  lemma OneMatchBetweenSpans(p: Pattern, callback: string -> string, s: string, i: nat, k: nat, e: nat, m: string, v: string)
    requires ValidPattern(p) && i <= k && Unmatched(p, s, i, k)
    requires MatchAt(p, s, k) == Some(e) && s[k..e] == m && callback(m) == v
    requires Unmatched(p, s, e, |s|)
    ensures ReplaceAll(p, callback, s, i) == s[i..k] + (v + s[e..])
  {
    UnmatchedSpanCopied(p, callback, s, i, k);
    ReplacedBy(p, callback, s, k, e, m, v);
    UnmatchedSpanCopied(p, callback, s, e, |s|);
    assert s[e..|s|] == s[e..];
  }

  /** Text holding no backslash and no occurrence of the start delimiter
      is returned unchanged, whatever the callback. */
  lemma PlainTextUnchanged(start: string, stop: string, callback: string -> string, s: string)
    ensures Backslash !in s && (forall j :: 0 <= j < |s| ==> !StartsAt(s, j, start)) ==>
      ReplaceAll(BuildPattern(start, stop), callback, s, 0) == s
  {
    if Backslash !in s && forall j :: 0 <= j < |s| ==> !StartsAt(s, j, start) {
      forall j | 0 <= j < |s| ensures MatchAt(BuildPattern(start, stop), s, j).None? {
        NoMatchAt(start, stop, s, j);
      }
      UnmatchedSpanCopied(BuildPattern(start, stop), callback, s, 0, |s|);
    }
  }

  /** Characters that are neither backslashes nor the first character of
      start are copied one by one. */
  lemma PlainSpanCopied(start: string, stop: string, callback: string -> string, s: string, i: nat, k: nat)
    requires |start| > 0 && i <= k <= |s|
    requires forall j :: i <= j < k ==> s[j] != Backslash && s[j] != start[0]
    ensures ReplaceAll(BuildPattern(start, stop), callback, s, i) ==
      s[i..k] + ReplaceAll(BuildPattern(start, stop), callback, s, k)
  {
    forall j | i <= j < k ensures MatchAt(BuildPattern(start, stop), s, j).None? {
      NoMatchAtPlainChar(start, stop, s, j);
    }
    UnmatchedSpanCopied(BuildPattern(start, stop), callback, s, i, k);
  }

  /** A piece of plain text (no backslash, no first character of start)
      found at `i` is copied as it is. */
  lemma PlainPieceCopied(start: string, stop: string, callback: string -> string, s: string, i: nat, piece: string)
    requires |start| > 0 && StartsAt(s, i, piece)
    requires forall k :: 0 <= k < |piece| ==> piece[k] != Backslash && piece[k] != start[0]
    ensures ReplaceAll(BuildPattern(start, stop), callback, s, i) ==
      piece + ReplaceAll(BuildPattern(start, stop), callback, s, i + |piece|)
  {
    forall j | i <= j < i + |piece| ensures s[j] != Backslash && s[j] != start[0] {
      assert s[i + (j - i)] == piece[j - i];
    }
    StartsAtSlice(s, i, piece);
    PlainSpanCopied(start, stop, callback, s, i, i + |piece|);
  }

  /** Plain text running to the end of the input is copied as it is. */
  lemma PlainTailCopied(start: string, stop: string, callback: string -> string, s: string, i: nat, piece: string)
    requires |start| > 0 && StartsAt(s, i, piece) && i + |piece| == |s|
    requires forall k :: 0 <= k < |piece| ==> piece[k] != Backslash && piece[k] != start[0]
    ensures ReplaceAll(BuildPattern(start, stop), callback, s, i) == piece
  {
    PlainPieceCopied(start, stop, callback, s, i, piece);
  }

  /** A piece of plain text found at `i`, followed by text the scan turns
      into `rest`, is copied in front of `rest`. */
  lemma PlainPieceThen(start: string, stop: string, callback: string -> string, s: string, i: nat, piece: string, rest: string)
    requires |start| > 0 && StartsAt(s, i, piece)
    requires forall k :: 0 <= k < |piece| ==> piece[k] != Backslash && piece[k] != start[0]
    requires ReplaceAll(BuildPattern(start, stop), callback, s, i + |piece|) == rest
    ensures ReplaceAll(BuildPattern(start, stop), callback, s, i) == piece + rest
  {
    PlainPieceCopied(start, stop, callback, s, i, piece);
  }
}
