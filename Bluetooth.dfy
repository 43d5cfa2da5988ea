/** TBluetoothActor<TBluetoothZS040>: sits between a serial actor and its
    owner. Lines coming from the serial actor go through the link state
    machine and reach the owner unless the link consumed them; lines from
    anybody else are sent out through the serial actor. */
module Bluetooth {
  import opened Time
  import opened Workflow
  import opened BluetoothZS040
  import Serial
  import Strings

  class BluetoothActor {
    const self: Actor
    const owner: Actor
    const serial: Actor
    const link: Zs040

    constructor (self: Actor, owner: Actor, serial: Actor)
      ensures this.self == self && this.owner == owner && this.serial == serial
      ensures fresh(link) && link.state == Error && !link.connected
    {
      this.self := self;
      this.owner := owner;
      this.serial := serial;
      link := new Zs040();
    }

    /** OnEvent: Bootstrap initialises the link, serial data is routed by
        its sender, a TEventReceive is handed to the link (which ignores
        it); other ids are ignored. Forwarding uses Send, so the forwarded
        event's Sender becomes this actor. A line from the serial actor
        drives the link as `Zs040.Receive` says: in state OK it sets or
        clears Connected, which IsConnected reports, and in state AT it
        moves the link to OK or Error. */
    method OnEvent(ev: Event, now: Time) returns (out: seq<Request>)
      modifies link
      ensures WellFormedOutbox(out, ev, {owner, serial})
      ensures ev.id == BootstrapId ==> link.state == OK && out == []
      ensures ev.id == Serial.SerialDataId && ev.sender == serial ==>
        (old(link.state) == OK ==> out == [Send(self, owner, ev)] && link.state == OK)
        && (old(link.state) != OK ==> out == [])
        && (old(link.state) == Error ==> link.state == Error && link.connected == old(link.connected))
        && (old(link.state) == OK && old(link.connected) ==>
              link.connected == !(Strings.StartsWith(ev.data, "+") && Strings.Equal(ev.data, "+DISC:SUCCESS")))
        && (old(link.state) == OK && !old(link.connected) ==> link.connected == Strings.Equal(ev.data, "CONNECTED"))
        && (old(link.state) == AT ==>
              link.connected == old(link.connected) && link.state == (if Strings.Equal(ev.data, "OK") then OK else Error))
      ensures ev.id == Serial.SerialDataId && ev.sender != serial ==>
        out == [Send(self, serial, ev)] && link.state == old(link.state) && link.connected == old(link.connected)
      ensures ev.id != Serial.SerialDataId ==> out == [] && link.connected == old(link.connected)
      ensures ev.id != Serial.SerialDataId && ev.id != BootstrapId ==> link.state == old(link.state)
    {
      out := [];
      if ev.id == BootstrapId {
        link.Init();
      } else if ev.id == Serial.SerialDataId {
        if ev.sender == serial {
          var consumed := link.Receive(ev.data);
          if !consumed {
            out := [Send(self, owner, ev)];
          }
        } else {
          out := [Send(self, serial, ev)];
        }
        assert EventsOf(out) == if out == [] then [] else [ev];
      }
    }
  }
}
