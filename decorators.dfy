/**
 * The context that the service error logger attaches to a log line: the
 * bound arguments of the call without `self`, with sensitive values
 * redacted. The logging itself and the signature binding are not modelled.
 */
module Decorators {

  /** A logged argument value: text, or any other object by identity. */
  datatype Value = Text(text: string) | Opaque(id: nat)

  /** The argument names whose values never reach a log line. */
  const ScrubKeys: set<string> := {"password", "hashed_password", "token", "access_token"}

  /** What a scrubbed value is replaced by. */
  const Redacted: Value := Text("<redacted>")

  /** Whether `context` holds no sensitive value any more. */
  predicate IsScrubbed(context: map<string, Value>)
  {
    forall k :: k in context && k in ScrubKeys ==> context[k] == Redacted
  }

  /** `_scrub_context`: the same keys; sensitive ones redacted, all others unchanged. */
  function ScrubContext(context: map<string, Value>): (r: map<string, Value>)
    ensures r.Keys == context.Keys
    ensures forall k :: k in r && k in ScrubKeys ==> r[k] == Redacted
    ensures forall k :: k in r && k !in ScrubKeys ==> r[k] == context[k]
  {
    map k | k in context :: if k in ScrubKeys then Redacted else context[k]
  }

  /** A scrubbed context is left alone by scrubbing. */
  lemma ScrubbedIsFixpoint(context: map<string, Value>)
    requires IsScrubbed(context)
    ensures ScrubContext(context) == context
  {
    var r := ScrubContext(context);
    assert forall k :: k in r ==> r[k] == context[k];
  }

  /** Scrubbing twice is scrubbing once. */
  lemma ScrubIdempotent(context: map<string, Value>)
    ensures ScrubContext(ScrubContext(context)) == ScrubContext(context)
  {
    ScrubbedIsFixpoint(ScrubContext(context));
  }

  /**
   * The context built by both wrappers, synchronous and asynchronous: the
   * bound arguments without `self`, then scrubbed.
   */
  function LogContext(arguments: map<string, Value>): (r: map<string, Value>)
    ensures r.Keys == arguments.Keys - {"self"}
    ensures "self" !in r
    ensures IsScrubbed(r)
    ensures forall k :: k in r && k !in ScrubKeys ==> r[k] == arguments[k]
  {
    ScrubContext(map k | k in arguments && k != "self" :: arguments[k])
  }

  /** Scrubbing the logged context again changes nothing. */
  lemma LogContextIsScrubbed(arguments: map<string, Value>)
    ensures ScrubContext(LogContext(arguments)) == LogContext(arguments)
  {
    ScrubbedIsFixpoint(LogContext(arguments));
  }
}
