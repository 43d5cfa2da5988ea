/** TBluetoothZS040: the link state of a ZS-040 Bluetooth module, driven by
    the lines its serial port delivers. In OK state every line belongs to the
    application (the result is false) and the module's own notices
    "CONNECTED" and "+DISC:SUCCESS" track the connection; in Error state
    every line is swallowed; in AT state the reply to a command decides
    between OK and Error. */
module BluetoothZS040 {
  import Strings

  datatype LinkState = Error | AT | OK

  class Zs040 {
    var state: LinkState
    var connected: bool

    /** TBluetoothZS040(owner, serial): starts in Error, not connected. */
    constructor ()
      ensures state == Error && !connected
    {
      state := Error;
      connected := false;
    }

    /** Init(): the module needs no AT handshake and is OK at once. */
    method Init()
      modifies this`state
      ensures state == OK
    {
      state := OK;
    }

    /** Receive(TEventSerialData): true when the line was consumed by the
        link, false when it is for the application. */
    method Receive(data: seq<char>) returns (consumed: bool)
      modifies this
      ensures old(state) == Error ==> consumed && state == Error && connected == old(connected)
      ensures old(state) == OK ==> !consumed && state == OK
      ensures old(state) == OK && old(connected) ==>
        connected == !(Strings.StartsWith(data, "+") && Strings.Equal(data, "+DISC:SUCCESS"))
      ensures old(state) == OK && !old(connected) ==> connected == Strings.Equal(data, "CONNECTED")
      ensures old(state) == AT ==>
        consumed && connected == old(connected)
        && state == (if Strings.Equal(data, "OK") then OK else Error)
    {
      match state {
        case Error =>
        case OK =>
          if connected {
            if Strings.StartsWith(data, "+") {
              if Strings.Equal(data, "+DISC:SUCCESS") {
                connected := false;
              }
            }
          } else if Strings.Equal(data, "CONNECTED") {
            connected := true;
          }
          return false;
        case AT =>
          if Strings.Equal(data, "OK") {
            state := OK;
          } else {
            state := Error;
          }
      }
      return true;
    }

    function IsOK(): (r: bool)
      reads this
      ensures r <==> state == OK
    {
      state == OK
    }

    function IsConnected(): (r: bool)
      reads this
      ensures r == connected
    {
      connected
    }
  }

  /** Only the exact notices change the connection: a NUL-free line other
      than "+DISC:SUCCESS" leaves a connection up, and one other than
      "CONNECTED" leaves it down. */
  lemma NoticesAreExact(data: seq<char>)
    requires Strings.NulFree(data)
    ensures Strings.Equal(data, "+DISC:SUCCESS") <==> data == "+DISC:SUCCESS"
    ensures Strings.Equal(data, "CONNECTED") <==> data == "CONNECTED"
    ensures data == "+DISC:SUCCESS" ==> Strings.StartsWith(data, "+")
  {
    Strings.EqualIffSame(data, "+DISC:SUCCESS");
    Strings.EqualIffSame(data, "CONNECTED");
    if data == "+DISC:SUCCESS" {
      Strings.StartsWithIffPrefix(data, "+");
    }
  }
}
