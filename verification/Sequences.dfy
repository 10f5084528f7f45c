/** Both ends of a sequence, when it may be shorter than asked for. */
module Sequences {

  /** The first n, or all of it. */
  function Take<T>(s: seq<T>, n: nat): seq<T> {
    if n < |s| then s[..n] else s
  }

  /** The last n, or all of it. */
  function Last<T>(s: seq<T>, n: nat): seq<T> {
    if n < |s| then s[|s| - n..] else s
  }
}
