# php-string-template in Dafny

A model of `Shura\StringTemplate\Template`, a small PHP template engine.

A template has a start delimiter and a stop delimiter, `{{` and `}}` by
default. It also has a provider that maps a placeholder name to a value or
to null. `replace` scans the input once, left to right, with one regular
expression that has four alternatives. They are tried in order, and the
first one that matches wins:

1. an escaped start delimiter: a backslash, then the start delimiter's
   characters, with an optional backslash between any two of them;
2. an escaped stop delimiter, built the same way;
3. a generic escape: a backslash and any one character except a newline;
4. a placeholder, matched non-greedily: the start delimiter, one or more
   units, then the stop delimiter. A unit is the stop unit or any one
   character except a newline. The stop unit is the bare stop delimiter
   when its first character is one `preg_quote` leaves alone and is not a
   letter or digit (as for `%`), and a backslash followed by the stop
   delimiter otherwise (as for `}`); the "Matcher.StopUnit" line under
   "## Left out" says where this differs from PCRE.

`handleMatches` decides what replaces each match:

- a match beginning with a backslash and the first character of start
  becomes start;
- otherwise, a match beginning with a backslash and the first character of
  stop becomes stop;
- a placeholder becomes the value of its name, or stays as it is when the
  lookup gives null;
- every other match is kept unchanged.

Text that matches nothing is copied through. An optional mutator is wrapped
around the provider: it receives whatever the provider returns, null
included. An array given as the provider is wrapped so that an unset or null
entry reads as null. The compiled pattern is built on first use and then
cached in a field of the object.

Modules:

- `Wrappers`: `Option`, which stands for PHP's "value or null".
- `Matcher`: the compiled pattern as data and the matching of one token at
  one position. PCRE's backtracking order is written out as recursive
  functions, which is where "leftmost-first" and "non-greedy" happen.
- `Scanner`: the left-to-right scan of `preg_replace_callback`. It is
  specified by the function `ReplaceAll` and implemented as the loop method
  `ReplaceCallback`.
- `Substitution`: `isVariable`, `unescapeVariable` and `handleMatches`,
  plus what the whole substitution emits for each kind of token.
- `Providers`: the array adapter and the composition with the mutator.
- `Templates`: the `Template` class. Its delimiters and provider are fixed
  at construction, its pattern cache is a mutable field, and `Replace`
  runs the scan.
- `Examples`: concrete substitutions with the default delimiters and with
  custom ones.

Three behaviours of the code are easy to misread:

- The mutator is applied to the provider's result even when that result is
  null. The test for null is made on the composed result (src/Template.php:112-117, 96).
- Alternatives are tried leftmost-first, not longest-first. An escaped
  start is therefore always preferred. Inside a placeholder, a stop unit
  is tried first as one unit, and is given up, its backslash read as an
  ordinary character, when the placeholder cannot close after it. So
  `{{a\}}b}}` is one placeholder running to the last `}}`, while `{{a\}}`
  alone is a placeholder named `a\`.
- Text comes back unchanged whenever it contains no backslash and no start
  delimiter. It does not also need to be free of the stop delimiter.

## Model

| member | source | states |
|---|---|---|
| Matcher.Interleave | src/Template.php:51-54 | the delimiter's characters joined by optional backslashes; its first atom is the first character |
| Matcher.EscapedStringMatcher | src/Template.php:48-55 | a mandatory backslash, then the delimiter's first character, then the rest interleaved; twice as long as the delimiter |
| Matcher.StopUnit | src/Template.php:62-65 | the first unit alternative is never empty and is either the stop delimiter or a backslash followed by it |
| Matcher.BuildPattern | src/Template.php:60-65 | the pattern is valid (no alternative matches the empty string) and holds the escaped matchers of both delimiters, the delimiters themselves and the stop unit |
| Matcher.MatchAtoms | src/Template.php:50-54 | a match of an escaped-delimiter matcher ends inside the input, and after its start when the first atom is mandatory |
| Matcher.UnitsThenStop | src/Template.php:65 | a placeholder body after at least one unit ends with the stop delimiter, inside the input |
| Matcher.StopOrMore | src/Template.php:65 | the lazy closing: a found end lies inside the input and is preceded by stop |
| Matcher.Placeholder | src/Template.php:65 | a placeholder match begins with start, ends with stop, and holds at least one character in between |
| Matcher.GenericEscape | src/Template.php:65 | `\\.` matches exactly when a backslash is followed by a non-newline character, and then consumes two characters |
| Matcher.MatchAt | src/Template.php:64-65 | the first of the four alternatives that matches; a match is never empty |
| Matcher.StartsAtSlice | src/Template.php:64-65 | an occurrence of a delimiter is a slice equal to it |
| Matcher.InterleaveAtoms | src/Template.php:51-54 | the delimiter's characters sit at even positions, optional backslashes at odd ones |
| Matcher.EscapedStringMatcherAtoms | src/Template.php:48-55 | the escaped matcher's atoms are the delimiter's characters at odd positions and optional backslashes between them |
| Matcher.SplitStartsAt | src/Template.php:64-65 | an occurrence of a + b is one of a followed by one of b |
| Matcher.StartsAtHead | src/Template.php:64-65 | an occurrence of [c] + d begins with c |
| Matcher.InterleaveMatchesExactly | src/Template.php:51-54 | for a delimiter without backslashes, the interleaved matcher consumes exactly the delimiter's text |
| Matcher.InterleaveMatches | src/Template.php:51-54 | the interleaved matcher matches the delimiter's own text, whatever characters it holds |
| Matcher.Spread | src/Template.php:50-54 | the delimiter's characters, each preceded by a backslash where chosen: between one and two times the delimiter's length, beginning with its first character when that one has no backslash |
| Matcher.InterleaveTaken | src/Template.php:51-54 | after the first character, a backslash present is taken by the greedy `\\?` when the rest matches after it |
| Matcher.InterleaveSkipped | src/Template.php:51-54 | after the first character, the `\\?` is skipped when no backslash is there |
| Matcher.SpreadTakenTail | src/Template.php:50-54 | a spread text with a backslash before its second character is the first character, that backslash, and the spread rest |
| Matcher.SpreadSkippedTail | src/Template.php:50-54 | a spread text without a backslash before its second character is the first character and the spread rest |
| Matcher.InterleaveMatchesSpread | src/Template.php:51-54 | for a delimiter without backslashes, the interleaved matcher consumes exactly its characters with a backslash before any of them but the first, by induction |
| Matcher.EscapedSpreadRecognised | src/Template.php:48-55 | for a delimiter without backslashes, `\` + that spread text is an escaped-delimiter match consuming exactly that text |
| Matcher.EscapedDelimiterRecognised | src/Template.php:48-55 | a backslash followed by the delimiter is always an escaped-delimiter match, consuming exactly that text when the delimiter holds no backslash |
| Matcher.EscapedMatchShape | src/Template.php:48-55 | every escaped-delimiter match begins with a backslash and the delimiter's first character, and is at least two long |
| Matcher.EscapedStartMatch | src/Template.php:64 | for a start delimiter without backslashes, `\` + start is matched by the first alternative, exactly |
| Matcher.EscapedSpreadStartMatch | src/Template.php:64 | for a start delimiter without backslashes, `\` + start with backslashes before any of its characters but the first is matched by the first alternative, exactly |
| Matcher.EscapedStopMatch | src/Template.php:64 | for a stop delimiter without backslashes, `\` + stop is matched by the second alternative, exactly, when the delimiters begin differently |
| Matcher.NoMatchAt | src/Template.php:64-65 | no match starts where there is neither a backslash nor the start delimiter |
| Matcher.MatchKinds | src/Template.php:64-65 | every match is an escaped delimiter, a two-character generic escape, or a placeholder |
| Matcher.StopOrMoreOverPlainText | src/Template.php:65 | the non-greedy body over plain characters closes at the first stop delimiter |
| Matcher.NoUnitAt | src/Template.php:65 | where neither a backslash nor the stop delimiter begins, no stop unit begins |
| Matcher.UnitTaken | src/Template.php:65 | where the body cannot close but a stop unit begins, the unit is taken whole and the placeholder ends where the body after it closes |
| Matcher.UnitGivenUp | src/Template.php:65 | where the body cannot close but a stop unit begins and nothing can close after it, the body goes on after one `.` character instead |
| Matcher.PlainUnit | src/Template.php:65 | a plain character is taken as one unit by the `.` alternative |
| Matcher.PlaceholderOpens | src/Template.php:65 | after the start delimiter, the placeholder ends where its units and closing stop end |
| Matcher.UnitsOverPlainText | src/Template.php:65 | units over a run of plain characters close at the first stop after the first character |
| Matcher.NameCharacters | src/Template.php:65 | the characters of an occurrence of a name are the name's characters |
| Matcher.PlaceholderExtent | src/Template.php:65 | start + plain name + stop is matched as a placeholder up to its stop |
| Matcher.PlaceholderMatch | src/Template.php:64-65 | that placeholder is what the whole pattern matches there, when start does not begin with a backslash |
| Matcher.NoMatchAtPlainChar | src/Template.php:64-65 | a character that is neither a backslash nor start's first character starts no match |
| Matcher.NoStopInName | src/Template.php:65 | a name without stop's first character holds no stop delimiter |
| Scanner.ReplaceAll | src/Template.php:123 | the scan from position i: a match at i is replaced by the callback's result on its text and the scan resumes at its end, otherwise s[i] is copied and the scan moves on by one; a callback that gives every match back unchanged leaves the input from i as it is |
| Scanner.ReplaceCallback | src/Template.php:123 | the loop that appends each replacement or copied character produces exactly ReplaceAll from position 0 |
| Scanner.MatchReplaced | src/Template.php:123 | a match is replaced by the callback's result on its text and the scan resumes after it |
| Scanner.NoMatchCopied | src/Template.php:123 | where nothing matches, one character is copied and the scan moves on by one |
| Scanner.UnmatchedSpanCopied | src/Template.php:123 | a stretch where no match starts is copied verbatim |
| Scanner.ReplacedBy | src/Template.php:123 | a match whose text the callback maps to v is replaced by v |
| Scanner.TextReplacedBy | src/Template.php:123 | a match over an occurrence of a text that the callback maps to v is replaced by v, and the scan resumes after the text |
| Scanner.OneMatchBetweenSpans | src/Template.php:123 | unmatched text, one match, unmatched text: the text around the match is kept and the match is replaced |
| Scanner.PlainTextUnchanged | src/Template.php:64-65 | input with no backslash and no start delimiter comes back unchanged, whatever the callback |
| Scanner.PlainPieceThen | src/Template.php:123 | plain text in front of what the rest of the scan gives is copied in front of it |
| Scanner.PlainSpanCopied | src/Template.php:123 | characters that are neither a backslash nor start's first character are copied one by one |
| Scanner.PlainPieceCopied | src/Template.php:123 | a piece of plain text at the scan position is copied as it is |
| Scanner.PlainTailCopied | src/Template.php:123 | plain text running to the end of the input is copied as it is |
| Substitution.Take | src/Template.php:89 | PHP's substr($s, 0, $n): the first n characters, or all of a shorter string |
| Substitution.UnescapeVariable | src/Template.php:78-83 | the text between the delimiters, as long as the match minus both delimiters |
| Substitution.HandleMatch | src/Template.php:85-102 | the replacement is start, stop, the match itself, or the non-null value looked up for the match's name |
| Substitution.IsVariable | src/Template.php:71-76 | a match is a variable exactly when it is longer than both delimiters together and is start, then what unescapeVariable returns, then stop |
| Substitution.VariableOfName | src/Template.php:71-83 | start + name + stop is a variable exactly when the name is non-empty, and its name is recovered |
| Substitution.Handler | src/Template.php:119-121 | the callback handed to the scan maps every match text to handleMatches of that whole text with the composed lookup |
| Substitution.Render | src/Template.php:104-124 | replace returns text holding no backslash and no start delimiter unchanged, whatever the lookup |
| Substitution.HandleEscapes | src/Template.php:89-92 | `\` + start's first character gives start; otherwise `\` + stop's first character gives stop; any other two-character escape is kept |
| Substitution.HandlePlaceholder | src/Template.php:93-98 | a placeholder becomes the looked-up value, or stays verbatim when the lookup is null |
| Substitution.PlaceholderIsVariable | src/Template.php:71-76 | the text of every placeholder match is a variable in the sense of isVariable |
| Substitution.ClassifyMatch | src/Template.php:85-102 | every match the pattern finds is replaced according to its kind: start, stop, kept escape, or looked-up value or verbatim placeholder |
| Substitution.EscapeHandled | src/Template.php:89-92 | the callback maps an escaped delimiter to the delimiter |
| Substitution.EscapeReplaced | src/Template.php:89-92 | an escaped-delimiter match in the scan is replaced by the delimiter |
| Substitution.EscapedStartStep | src/Template.php:89-90 | for a start delimiter without backslashes, `\` + start in the input is emitted as start, and the scan resumes after it |
| Substitution.EscapedSpreadStartStep | src/Template.php:89-90 | for a start delimiter without backslashes, `\` + start with backslashes before any of its later characters (`\{\{` as well as `\{{`) is emitted as start, and the scan resumes after the whole escape |
| Substitution.EscapedStopStep | src/Template.php:91-92 | for a stop delimiter without backslashes, `\` + stop is emitted as stop when the delimiters begin differently |
| Substitution.EscapedStopAtEnd | src/Template.php:91-92 | for a stop delimiter without backslashes, `\` + stop at the end of the input is emitted as stop when the delimiters begin differently |
| Substitution.SharedFirstCharacterStartWins | src/Template.php:89-92 | when both delimiters share their first character, an escaped stop is emitted as start |
| Substitution.GenericEscapeStep | src/Template.php:89-101 | any other escape `\x` is emitted unchanged, backslash included |
| Substitution.PlaceholderHandled | src/Template.php:93-98 | the callback maps a placeholder to its value, or to itself when null |
| Substitution.PlaceholderReplaced | src/Template.php:93-98 | a placeholder match in the scan is replaced by its value, or kept when null |
| Substitution.PlaceholderStep | src/Template.php:93-98 | a placeholder whose name holds no backslash, newline or inner stop, and does not begin with the stop unit, is replaced by its value or kept verbatim, and the scan resumes after its stop |
| Substitution.PlainTextUnmatched | src/Template.php:64-65 | no match starts inside plain text |
| Substitution.PlainNameMatched | src/Template.php:65 | a placeholder whose name has no backslash, newline or first character of stop is matched up to its stop delimiter |
| Substitution.PlainNameConsumed | src/Template.php:123 | such a placeholder is handed to the callback whole, its result is emitted, and the scan goes on after the stop delimiter |
| Substitution.PlaceholderThenPlainText | src/Template.php:123 | such a placeholder followed by plain text up to the end gives the callback's result on the placeholder, then the text |
| Substitution.PlaceholderInPlainTextAt | src/Template.php:123 | plain text, such a placeholder, plain text, from a given position: the text is kept and the placeholder is replaced by the callback's result on it |
| Substitution.PlaceholderLookedUp | src/Template.php:93-98 | the same with the callback replace builds: the placeholder becomes its value, or stays verbatim when the lookup is null |
| Substitution.PlaceholderInPlainText | src/Template.php:104-124 | replace on plain text around one placeholder keeps the text and substitutes the placeholder's value, or keeps it when null |
| Providers.WrapArrayProvider | src/Template.php:41-46 | the array provider returns the entry when set and non-null, and null otherwise |
| Providers.Compose | src/Template.php:112-117 | without a mutator the lookup is the provider; with one it is the mutator applied to the provider's result, null included |
| Templates.Template.constructor | src/Template.php:16-39 | for delimiters that are neither "" nor "0", the delimiters are stored, an array provider is wrapped, and no pattern is cached yet |
| Templates.Template.GetRegex | src/Template.php:57-69 | returns the pattern the delimiters determine; it is built on the first call and stays unchanged by later calls |
| Templates.Template.Replace | src/Template.php:104-124 | the result is the scan with the composed lookup's handler, and the pattern is cached afterwards |
| Templates.ReplaceTwice | src/Template.php:57-69 | two replaces on one template give the same result, and the pattern the delimiters determine stays cached |
| Templates.PlaceholderThroughLookup | src/Template.php:93-98 | a placeholder is replaced by mutator(provider(name)), the mutator applied even when the provider gives null, or kept when that is null |
| Examples.Upper | src/Template.php:115 | a mutator's string function: ASCII letters upper-cased, length kept |
| Examples.HelloWorld | src/Template.php:104-124 | "Hello, {{name}}!" with name = w renders "Hello, w!" |
| Examples.UnresolvedKept | src/Template.php:96-98 | an unknown name leaves "{{missing}}" as it is |
| Examples.CustomDelimiters | src/Template.php:16-39 | custom delimiters `<%` and `%>` substitute in the same way |
| Examples.EscapedStartDelimiter | src/Template.php:89-90 | "\{{" followed by plain text, such as "x}}", renders "{{" and that text: the escaped start is printed and what follows is no placeholder |
| Examples.EscapedStopDelimiter | src/Template.php:91-92 | "a\}}" renders "a}}" |
| Examples.EscapedStartWithInnerBackslash | src/Template.php:50-54 | "\{\{" is an escaped start too, and renders "{{" |
| Examples.BareEscapeOfStartCharacter | src/Template.php:89-90 | "\{" renders the whole start delimiter "{{" |
| Examples.OtherEscapeKept | src/Template.php:101 | "\a" renders unchanged |
| Examples.MutatorApplied | src/Template.php:112-117 | a resolved placeholder passes through the mutator |
| Examples.MutatorCoercingNull | src/Template.php:112-117 | a mutator that turns null into "" makes an unresolved placeholder disappear |
| Examples.MutatorKeepingNull | src/Template.php:112-117 | a mutator that passes null through keeps an unresolved placeholder |
| Examples.StopUnitGivenUp | src/Template.php:65 | `{{a\}}` is matched as a whole placeholder: the stop unit `\}}` is given up because nothing closes after it |
| Examples.UnescapedStopUnit | src/Template.php:63-65 | with the stop delimiter `%>`, whose first character `%` preg_quote leaves unescaped, the stop unit takes no backslash: in `<%\%>x%>` the placeholder ends at the first `%>` |

## Left out

- Argument validation and `get_type` (src/Template.php:18-34, 106-110, 126-131) are PHP's dynamic type checks and their exception messages. The model's types rule out a provider, delimiter or mutator of the wrong type. The constructor's check `empty($start)` also throws for the string "0", since PHP's `empty("0")` is true; both delimiters being neither "" nor "0" is a precondition of the constructor, so the exception path itself is not modelled.
- `preg_quote` and PCRE are not modelled as strings. The pattern is represented by its meaning, as data, and matched by explicit backtracking functions.
- Matcher.StopUnit: the unit alternative, `(?:\` followed by `preg_quote($stop)`, is modelled as the bare stop delimiter when `preg_quote` leaves its first character alone, and as a backslash followed by the stop delimiter when it escapes it. That is exact when the first character is punctuation `preg_quote` leaves alone, or one of `} ] { < > = ! : - #`. When it is one of `. * + ? ( ) [ ^ $ | / \`, the added backslash pairs with the leading one and leaves the character as a regex metacharacter (or, for `/`, ends the pattern), which the model does not follow. A first character that is a letter or a digit makes a PCRE escape sequence, which is not modelled either. For NUL, `preg_quote` writes `\000`, so the unit is a backslash, the characters `000` and the rest of the stop delimiter; the model does not follow that either.
- Strings are sequences of one character type. The codepoint splitting of `preg_split('//u')` and the byte counting of `strlen`/`substr` are not distinguished.
- PCRE's backtracking and recursion limits are not modelled. Neither is their error result (null from `preg_replace_callback`).
- The `unescapeRegex` field is declared but never used in the source, so it is not modelled.
- Provider values are strings or null. PHP's conversion of other values to strings is not modelled.
- PHP's loose `==` in `isVariable` is modelled as string equality. At its only call site (src/Template.php:93) every match that passes the length test is a placeholder, which begins with start and ends with stop literally, so the difference does not arise; generic escapes also reach that test but are too short to pass it.
- The provider and the mutator are modelled as pure functions from a name to a value or null. PHP closures may have side effects; they run once per placeholder reaching the lookup, in scan order, and the model does not capture those effects or that order.
- Substitution.UnescapeVariable: requires the input to be at least as long as both delimiters together. It is called only after `isVariable` holds, and PHP's `substr` would return an empty or false result for a shorter input.
- Substitution.PlaceholderStep: stated for names without backslashes and newlines that contain no stop delimiter after their first character and do not begin with the stop unit. Other names go through the general classification in Substitution.ClassifyMatch. The same holds for Templates.PlaceholderThroughLookup.
- Matcher.PlaceholderMatch, Substitution.HandlePlaceholder, Substitution.ClassifyMatch, Substitution.PlaceholderHandled, Substitution.PlaceholderReplaced, Substitution.PlaceholderStep, Substitution.PlainNameMatched, Substitution.PlainNameConsumed, Substitution.PlaceholderThenPlainText, Substitution.PlaceholderInPlainTextAt, Substitution.PlaceholderLookedUp, Substitution.PlaceholderInPlainText and Templates.PlaceholderThroughLookup: stated for a start delimiter that does not begin with a backslash. With such a start, a placeholder also begins with a backslash, so the escape alternatives of the pattern and the escape branches of handleMatches compete with it. The model's functions cover that case, but these lemmas do not describe it.
- Matcher.EscapedStartMatch, Matcher.EscapedSpreadStartMatch, Matcher.EscapedStopMatch, Matcher.EscapedSpreadRecognised, Matcher.InterleaveMatchesSpread, Substitution.EscapedStartStep, Substitution.EscapedSpreadStartStep, Substitution.EscapedStopStep and Substitution.EscapedStopAtEnd: stated for a delimiter without backslashes. For a delimiter that contains one, the optional `\\?` before that character can take the delimiter's own backslash, so which text the escape alternative consumes depends on what follows; the model's functions cover that case, but these lemmas do not describe it.
- Substitution.PlaceholderInPlainText: stated for one placeholder with a plain name between pieces of plain text. Several placeholders in one input follow by chaining the step lemmas, but they are not stated as one lemma.
- Examples.Upper, Examples.UpperCoercingNull and Examples.UpperKeepingNull stand in for a user's mutator such as `strtoupper`. They are not part of the library.
