/** The one rule of the simulation kernel the models need: an event holds at most one pending timed notification. */
module Kernel {
  import opened Common

  type Time = nat

  /**
   A timed notification at `at`: an earlier pending one stays, a later one is replaced
   (section 5.10 of IEEE Std 1666-2011).
  */
  function Notify(pending: Option<Time>, at: Time): Option<Time> {
    if pending.Some? && pending.value <= at then pending else Some(at)
  }
}
