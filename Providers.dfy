/**
 * The lookup capabilities of a template: the provider (a callable, or an
 * array wrapped by Template::wrapArrayProvider) and the optional mutator
 * that Template::replace wraps around it.
 */
module Providers {
  import opened Wrappers

  /** A placeholder name to its value, or null. */
  type Provider = string -> Option<string>
  /** A value (possibly null) to a new value (possibly null). */
  type Mutator = Option<string> -> Option<string>

  /** Template::wrapArrayProvider: the entry for the name when it is set to
      a non-null value, null otherwise (PHP's isset). */
  function WrapArrayProvider(entries: map<string, Option<string>>): (provider: Provider)
    ensures forall name :: provider(name).Some? <==> name in entries && entries[name].Some?
    ensures forall name :: name in entries ==> provider(name) == entries[name]
    ensures forall name :: name !in entries ==> provider(name) == None
  {
    name => if name in entries && entries[name].Some? then entries[name] else None
  }

  /** The lookup Template::replace uses: the provider alone, or the mutator
      applied to whatever the provider returns, null included. */
  function Compose(provider: Provider, mutator: Option<Mutator>): (fn: Provider)
    ensures mutator.None? ==> forall name :: fn(name) == provider(name)
    ensures mutator.Some? ==> forall name :: fn(name) == mutator.value(provider(name))
  {
    if mutator.None? then provider else name => mutator.value(provider(name))
  }
}
