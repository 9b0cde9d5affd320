/** Schedules made of rounds. */
module Schedules {
  /** The rounds, one after the other. */
  function InRow<T>(rounds: seq<seq<T>>): seq<T> {
    if rounds == [] then [] else rounds[0] + InRow(rounds[1..])
  }
}
