/**
 * The Template class: delimiters and provider fixed at construction, the
 * compiled pattern built on first use and cached in a field, and replace,
 * which composes the lookup and runs the scan.
 */
module Templates {
  import opened Wrappers
  import opened Matcher
  import opened Scanner
  import opened Substitution
  import opened Providers

  /** The first constructor argument: a callable, or an array of values. */
  datatype ProviderArg = Callable(f: Provider) | ArrayOf(entries: map<string, Option<string>>)

  class Template {
    const provider: Provider
    const start: string
    const stop: string
    /** The cached compiled pattern; None until the first GetRegex. */
    var regex: Option<Pattern>

    /** The delimiters are non-empty and a cached pattern is the one the
        delimiters determine. */
    ghost predicate Valid()
      reads this
    {
      |start| > 0 && |stop| > 0 &&
      (regex.Some? ==> regex.value == BuildPattern(start, stop))
    }

    /** Template::__construct: it throws unless both delimiters are strings
        that PHP's empty() rejects neither, and so neither "" nor "0". */
    constructor (provider: ProviderArg, start: string := "{{", stop: string := "}}")
      requires |start| > 0 && |stop| > 0 && start != "0" && stop != "0"
      ensures Valid() && regex == None
      ensures this.start == start && this.stop == stop
      ensures this.provider == match provider
        case Callable(f) => f
        case ArrayOf(entries) => WrapArrayProvider(entries)
    {
      var fn: Provider := if provider.ArrayOf? then WrapArrayProvider(provider.entries) else provider.f;
      this.provider := fn;
      this.start := start;
      this.stop := stop;
      regex := None;
    }

    /** Template::getRegex: builds the pattern when none is cached, and
        returns the cached one. */
    method GetRegex() returns (p: Pattern)
      requires Valid()
      modifies this
      ensures Valid()
      ensures p == BuildPattern(start, stop) && regex == Some(p)
      ensures old(regex).Some? ==> regex == old(regex)
    {
      if regex.None? {
        var escapedStart := EscapedStringMatcher(start);
        var escapedStop := EscapedStringMatcher(stop);
        var unit := StopUnit(stop);
        regex := Some(Pattern(escapedStart, escapedStop, start, unit, stop));
      }
      p := regex.value;
    }

    /** Template::replace: the substitution of `s` with the provider, or
        with the mutator wrapped around it. */
    method Replace(s: string, mutator: Option<Mutator> := None) returns (r: string)
      requires Valid()
      modifies this
      ensures Valid() && regex == Some(BuildPattern(start, stop))
      ensures r == Render(start, stop, Compose(provider, mutator), s)
    {
      var fn := Compose(provider, mutator);
      var handler := Handler(start, stop, fn);
      var p := GetRegex();
      r := ReplaceCallback(p, handler, s);
    }
  }

  /** Two calls of Replace on one template, the pattern built by the first
      and reused by the second. */
  method ReplaceTwice(t: Template, s: string) returns (r1: string, r2: string)
    requires t.Valid()
    modifies t
    ensures t.Valid() && r1 == r2
    ensures t.regex == Some(BuildPattern(t.start, t.stop))
  {
    r1 := t.Replace(s);
    var cached := t.regex;
    r2 := t.Replace(s);
    assert t.regex == cached;
  }

  /** A plain placeholder seen through Template::replace's lookup: the
      mutator, when given, receives the provider's result even when that is
      null, and the placeholder stays verbatim exactly when the composed
      lookup gives null. */
  lemma PlaceholderThroughLookup(start: string, stop: string, provider: Provider, mutator: Option<Mutator>,
                                 s: string, i: nat, name: string)
    requires |start| > 0 && |stop| > 0 && start[0] != Backslash && |name| > 0
    requires StartsAt(s, i, start + name + stop)
    requires forall x :: 0 <= x < |name| ==> name[x] != Backslash && name[x] != Newline
    requires forall x :: i + |start| < x < i + |start| + |name| ==> !StartsAt(s, x, stop)
    requires !StartsAt(s, i + |start|, StopUnit(stop))
    ensures var looked := if mutator.Some? then mutator.value(provider(name)) else provider(name);
      ReplaceAll(BuildPattern(start, stop), Handler(start, stop, Compose(provider, mutator)), s, i) ==
      (if looked.Some? then looked.value else start + name + stop) +
      ReplaceAll(BuildPattern(start, stop), Handler(start, stop, Compose(provider, mutator)), s, i + |start| + |name| + |stop|)
  {
    PlaceholderStep(start, stop, Compose(provider, mutator), s, i, name);
  }
}
