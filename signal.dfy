/**
 * The two-lamp traffic signal of one junction (class TL_Signal, main.cpp:94-124):
 * a red and a green output line and the flag `isGreen` that mirrors them.
 */
module Signals {

  class TLSignal {
    var redLamp: bool
    var greenLamp: bool
    var isGreen: bool

    /** Exactly one lamp is lit, and `isGreen` says which. */
    ghost predicate Valid()
      reads this
    {
      redLamp == !isGreen && greenLamp == isGreen
    }

    /** A new signal shows red. */
    constructor ()
      ensures Valid() && !isGreen
    {
      redLamp, greenLamp, isGreen := true, false, false;
    }

    /**
     * Shows green. The new state does not depend on the old one, so turning
     * a green signal green again changes nothing.
     */
    method TurnGreen()
      modifies this
      ensures Valid() && isGreen
      ensures !redLamp && greenLamp
    {
      redLamp := false;
      greenLamp := true;
      isGreen := true;
    }

    /** Shows red, whatever it showed before. */
    method TurnRed()
      modifies this
      ensures Valid() && !isGreen
      ensures redLamp && !greenLamp
    {
      greenLamp := false;
      redLamp := true;
      isGreen := false;
    }
  }
}
