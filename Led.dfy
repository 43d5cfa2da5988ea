/** TLedActor: drives the built-in LED. LedOn and LedOff set it, a
    TEventReceive toggles it, and LedBlink, while the LED is off, schedules
    two toggles: one at once and one a period later. The pin is the list of
    values written to it. */
module Led {
  import opened Time
  import opened Workflow

  /** `context.Send(this, this, new TEventReceive(notBefore))`. */
  ghost predicate ToggleRequest(r: Request, self: Actor, notBefore: Time)
    reads r.ev
  {
    r.Send? && r.sender == self && r.recipient == self
    && r.ev.id == ReceiveId && r.ev.notBefore == notBefore
  }

  class LedActor {
    const self: Actor
    /** Led: the state last written to the pin. */
    var led: bool
    /** Every value written to LedPin, in order. */
    ghost var pin: seq<bool>

    /** The pin shows the LED state: the last value written is `led`, and
        before any write the LED is off. */
    ghost predicate Valid()
      reads this`led, this`pin
    {
      if pin == [] then !led else pin[|pin| - 1] == led
    }

    constructor (self: Actor)
      ensures Valid() && this.self == self && !led && pin == []
    {
      this.self := self;
      led := false;
      pin := [];
    }

    /** OnEvent: dispatch on the event's id; other ids are ignored. A blink
        event carries its period. */
    method OnEvent(ev: Event, now: Time) returns (out: seq<Request>)
      requires Valid()
      requires ev.id == LedBlinkId ==> ev.payload.BlinkPeriod?
      modifies this
      ensures Valid() && WellFormedOutbox(out, ev, {self})
      ensures ev.id == LedOnId ==> led && pin == old(pin) + [true] && out == []
      ensures ev.id == LedOffId ==> !led && pin == old(pin) + [false] && out == []
      ensures ev.id == ReceiveId ==> led == !old(led) && pin == old(pin) + [led] && out == []
      ensures ev.id == LedBlinkId ==> led == old(led) && pin == old(pin)
      ensures ev.id == LedBlinkId && old(led) ==> out == []
      ensures ev.id == LedBlinkId && !old(led) ==>
        |out| == 2 && ToggleRequest(out[0], self, Zero)
        && ToggleRequest(out[1], self, Add(now, MilliSeconds(ev.payload.period)))
        && fresh(out[0].ev) && fresh(out[1].ev)
      ensures ev.id !in {LedOnId, LedOffId, LedBlinkId, ReceiveId} ==>
        out == [] && led == old(led) && pin == old(pin)
    {
      out := [];
      if ev.id == LedOnId {
        led := true;
        pin := pin + [led];
      } else if ev.id == LedOffId {
        led := false;
        pin := pin + [led];
      } else if ev.id == LedBlinkId {
        if !led {
          var first := new Event(ReceiveId, Zero, [], NoPayload);
          var second := new Event(ReceiveId, Add(now, MilliSeconds(ev.payload.period)), [], NoPayload);
          out := [Send(self, self, first), Send(self, self, second)];
          assert EventsOf(out) == [first, second];
        }
      } else if ev.id == ReceiveId {
        led := !led;
        pin := pin + [led];
      }
    }
  }
}
