/** The secure random source behind crypto/rand's rand.Int(rand.Reader, max).
    The reader is a stream that is consumed one draw at a time; each draw
    either succeeds (Sample) or the reader fails (Fault), and a stream that
    has run out fails as well. What rand.Int does inside to turn bytes into
    a uniform value is not modelled: a sample v yields v % max, so every
    value in [0, max) can occur and nothing outside it. */
module Rand {
  import opened Wrappers

  datatype Draw = Sample(value: nat) | Fault

  /** One call of rand.Int(reader, max) on the draws still to come: what it
      returns and what remains of the stream. */
  function DrawOf(tape: seq<Draw>, max: nat): (r: (Option<nat>, seq<Draw>))
    requires max > 0
    ensures r.0.Some? ==> r.0.value < max
    ensures r.0.None? <==> tape == [] || tape[0].Fault?
    ensures r.1 == if tape == [] then [] else tape[1..]
  {
    if tape == [] then (None, [])
    else match tape[0]
      case Fault => (None, tape[1..])
      case Sample(v) => (Some(v % max), tape[1..])
  }

  /** The process-wide reader, with the draws it will still deliver. */
  class Reader {
    var tape: seq<Draw>

    constructor (draws: seq<Draw>)
      ensures tape == draws
    {
      tape := draws;
    }

    /** rand.Int(r, max); it panics unless max > 0. */
    method Int(max: nat) returns (x: Option<nat>)
      requires max > 0
      modifies this
      ensures (x, tape) == DrawOf(old(tape), max)
    {
      if tape == [] {
        return None;
      }
      var d := tape[0];
      tape := tape[1..];
      match d
      case Fault => x := None;
      case Sample(v) => x := Some(v % max);
    }
  }
}
