/** TSensorAM2320: a temperature and humidity sensor on the I2C bus. A
    periodic TEventReceive wakes the sensor, asks for its four data
    registers and accepts the 8-byte reply only if the function code, the
    length and the CRC-16 checksum are right; the readings are then
    published to the owner. A failed read powers the sensor off, counts an
    error and tells the owner; the next event powers it on again and waits
    PowerOnDelay before reading. */
module SensorAM2320 {
  import opened Time
  import opened Workflow

  // ---------------------------------------------------------------------
  // CRC16: the checksum of Modbus over Serial Line (section 6.2.2 of the
  // Modbus over Serial Line specification V1.02): register preset to
  // 0xFFFF, each byte XORed into the low end, eight shifts to the right
  // folding in the reflected polynomial 0xA001 whenever a set bit drops out.
  // ---------------------------------------------------------------------

  const CrcPreset: bv16 := 0xFFFF
  const CrcPolynomial: bv16 := 0xA001

  /** One of the eight shifts of the inner loop. */
  function ShiftStep(crc: bv16): bv16
  {
    if crc & 0x01 != 0 then (crc >> 1) ^ CrcPolynomial else crc >> 1
  }

  /** n shifts in a row. */
  function Shifts(crc: bv16, n: nat): bv16
    decreases n
  {
    if n == 0 then crc else ShiftStep(Shifts(crc, n - 1))
  }

  /** One pass of the outer loop: the byte goes in, eight shifts follow. */
  function ByteStep(crc: bv16, b: bv8): bv16
  {
    Shifts(crc ^ (b as bv16), 8)
  }

  /** The register after the bytes of data, starting from crc. */
  function CrcFrom(crc: bv16, data: seq<bv8>): bv16
    decreases |data|
  {
    if data == [] then crc else CrcFrom(ByteStep(crc, data[0]), data[1..])
  }

  /** CRC16(ptr, length) as a function of the bytes it reads. */
  function Crc16(data: seq<bv8>): (r: bv16)
    ensures data == [] ==> r == CrcPreset
  {
    CrcFrom(CrcPreset, data)
  }

  /** CRC16(ptr, length): the loop of the source, over the length bytes at
      ptr (a uint8_t count, so at most 255 of them). */
  method ComputeCrc16(data: seq<bv8>) returns (crc: bv16)
    requires |data| < 0x100
    ensures crc == Crc16(data)
  {
    crc := CrcPreset;
    var i := 0;
    while i < |data|
      invariant 0 <= i <= |data|
      invariant CrcFrom(crc, data[i..]) == Crc16(data)
    {
      crc := crc ^ (data[i] as bv16);
      ghost var mixed := crc;
      var s := 0;
      while s < 8
        invariant 0 <= s <= 8 && crc == Shifts(mixed, s)
      {
        if crc & 0x01 != 0 {
          crc := crc >> 1;
          crc := crc ^ CrcPolynomial;
        } else {
          crc := crc >> 1;
        }
        s := s + 1;
      }
      assert data[i..][1..] == data[i + 1..];
      i := i + 1;
    }
  }

  /** The checksum can be computed piecewise: the register after a is the
      starting point for b. */
  lemma {:induction false} CrcFromAppend(crc: bv16, a: seq<bv8>, b: seq<bv8>)
    ensures CrcFrom(crc, a + b) == CrcFrom(CrcFrom(crc, a), b)
    decreases |a|
  {
    if a == [] {
      assert a + b == b;
    } else {
      assert (a + b)[0] == a[0] && (a + b)[1..] == a[1..] + b;
      CrcFromAppend(ByteStep(crc, a[0]), a[1..], b);
    }
  }

  /** Shifting a register whose low byte is clear never folds in the
      polynomial: eight shifts just move the high byte down. */
  lemma ShiftsClearLow(crc: bv16)
    requires crc & 0xFF == 0
    ensures Shifts(crc, 8) == crc >> 8
  {
    assert Shifts(crc, 1) == crc >> 1;
    assert Shifts(crc, 2) == crc >> 2;
    assert Shifts(crc, 3) == crc >> 3;
    assert Shifts(crc, 4) == crc >> 4;
    assert Shifts(crc, 5) == crc >> 5;
    assert Shifts(crc, 6) == crc >> 6;
    assert Shifts(crc, 7) == crc >> 7;
  }

  /** The low and high byte of a 16-bit value. */
  function Lo(x: bv16): bv8 { (x & 0xFF) as bv8 }
  function Hi(x: bv16): bv8 { (x >> 8) as bv8 }

  /** Appending the checksum, low byte first, brings the register to zero:
      the property a receiver can check a whole frame by. */
  lemma CrcResidue(data: seq<bv8>)
    ensures Crc16(data + [Lo(Crc16(data)), Hi(Crc16(data))]) == 0
  {
    var c := Crc16(data);
    CrcFromAppend(CrcPreset, data, [Lo(c), Hi(c)]);
    ResidueOfRegister(c);
  }

  /** The two bytes of the register, low first, clear it. */
  lemma ResidueOfRegister(c: bv16)
    ensures CrcFrom(c, [Lo(c), Hi(c)]) == 0
  {
    LowByteOfRegister(c);
    HighByteOfRegister(Hi(c));
    var h := ByteStep(c, Lo(c));
    assert [Lo(c), Hi(c)][1..] == [Hi(c)] && [Hi(c)][1..] == [];
    assert CrcFrom(c, [Lo(c), Hi(c)]) == CrcFrom(h, [Hi(c)]);
    assert CrcFrom(h, [Hi(c)]) == CrcFrom(ByteStep(h, Hi(c)), []);
  }

  /** The register's own low byte leaves only its high byte. */
  lemma LowByteOfRegister(c: bv16)
    ensures ByteStep(c, Lo(c)) == Hi(c) as bv16
  {
    var m := c ^ (Lo(c) as bv16);
    assert m & 0xFF == 0 && m >> 8 == Hi(c) as bv16;
    ShiftsClearLow(m);
  }

  /** A register holding just the byte h is cleared by h. */
  lemma HighByteOfRegister(h: bv8)
    ensures ByteStep(h as bv16, h) == 0
  {
    ShiftsClearLow(0);
  }

  /** The check value of CRC-16/MODBUS: the digits "123456789" give 0x4B37. */
  lemma Crc16CheckValue()
    ensures Crc16([0x31, 0x32, 0x33, 0x34, 0x35, 0x36, 0x37, 0x38, 0x39]) == 0x4B37
  {
    var d: seq<bv8> := [0x31, 0x32, 0x33, 0x34, 0x35, 0x36, 0x37, 0x38, 0x39];
    assert ByteStep(0xFFFF, 0x31) == 0x947E;
    assert ByteStep(0x947E, 0x32) == 0xF595;
    assert ByteStep(0xF595, 0x33) == 0x7A75;
    assert ByteStep(0x7A75, 0x34) == 0x30BA;
    assert ByteStep(0x30BA, 0x35) == 0xA471;
    assert ByteStep(0xA471, 0x36) == 0x32E4;
    assert ByteStep(0x32E4, 0x37) == 0x9D73;
    assert ByteStep(0x9D73, 0x38) == 0x37DD;
    assert ByteStep(0x37DD, 0x39) == 0x4B37;
    assert d[1..] == [0x32, 0x33, 0x34, 0x35, 0x36, 0x37, 0x38, 0x39];
  }

  // ---------------------------------------------------------------------
  // Byte order and the reply frame
  // ---------------------------------------------------------------------

  /** bswap(data): the two bytes of the value trade places. */
  function Bswap(x: bv16): (r: bv16)
    ensures Hi(r) == Lo(x) && Lo(r) == Hi(x)
  {
    (x >> 8) | (x << 8)
  }

  lemma BswapInvolution(x: bv16)
    ensures Bswap(Bswap(x)) == x
  {
    assert Hi(Bswap(Bswap(x))) == Hi(x) && Lo(Bswap(Bswap(x))) == Lo(x);
    HiLoDetermine(Bswap(Bswap(x)), x);
  }

  /** A 16-bit value is its two bytes. */
  lemma HiLoDetermine(x: bv16, y: bv16)
    requires Hi(x) == Hi(y) && Lo(x) == Lo(y)
    ensures x == y
  {
  }

  /** TWire::Read(uint16_t&): the first byte read becomes the high byte. */
  function ReadU16(first: bv8, second: bv8): (r: bv16)
    ensures Hi(r) == first && Lo(r) == second
  {
    ((first as bv16) << 8) | (second as bv16)
  }

  /** A uint16_t member of TData filled by TWire::Read(T&), which stores the
      bytes in memory order; on the little-endian target the first byte is
      the low one. */
  function MemoryU16(first: bv8, second: bv8): (r: bv16)
    ensures Lo(r) == first && Hi(r) == second
  {
    ((second as bv16) << 8) | (first as bv16)
  }

  /** bswap turns a field filled in memory order into the value as the
      sensor sent it, high byte first. */
  lemma BswapMemoryOrder(first: bv8, second: bv8)
    ensures Bswap(MemoryU16(first, second)) == ReadU16(first, second)
  {
    HiLoDetermine(Bswap(MemoryU16(first, second)), ReadU16(first, second));
  }

  /** The function code of a register read (0x03). */
  const ReadRegisters: bv8 := 0x03

  /** The two registers the sensor reports, as 16-bit raw values:
      humidity then temperature, in tenths. */
  datatype Reading = Reading(humidity: bv16, temperature: bv16)

  /** What OnReceive makes of the reply. */
  datatype Verdict =
    | Accepted(reading: Reading)
    | WrongCode
    | WrongLength
    | WrongCrc
      /** The transmission was not acknowledged or fewer than 8 bytes came. */
    | NoReply

  /** The checks of OnReceive on the 8 bytes of a reply: TData (Code,
      Length, Humidity, Temperature) is read in memory order, the checksum
      with TWire::Read(uint16_t&) and then bswap'ed; the code is checked
      first, then the length, then CRC16 of TData's 6 bytes. */
  function Validate(reply: seq<bv8>): (v: Verdict)
    requires |reply| == 8
    ensures v != NoReply
    ensures v.WrongCode? <==> reply[0] != ReadRegisters
    ensures v.WrongLength? <==> reply[0] == ReadRegisters && reply[1] != 4
    ensures v.Accepted? <==>
      reply[0] == ReadRegisters && reply[1] == 4 && Crc16(reply[..6]) == MemoryU16(reply[6], reply[7])
  {
    var code := reply[0];
    var length := reply[1];
    var humidity := MemoryU16(reply[2], reply[3]);
    var temperature := MemoryU16(reply[4], reply[5]);
    var crc16 := Bswap(ReadU16(reply[6], reply[7]));
    BswapMemoryOrder(reply[6], reply[7]);
    BswapInvolution(MemoryU16(reply[6], reply[7]));
    if code != ReadRegisters then WrongCode
    else if length != 4 then WrongLength
    else if Crc16(reply[..6]) != crc16 then WrongCrc
    else Accepted(Reading(Bswap(humidity), Bswap(temperature)))
  }

  /** The reply the sensor sends for a reading: code, length, humidity and
      temperature high byte first, then the checksum low byte first. */
  function Frame(r: Reading): (f: seq<bv8>)
    ensures |f| == 8
  {
    var body := [ReadRegisters, 4, Hi(r.humidity), Lo(r.humidity), Hi(r.temperature), Lo(r.temperature)];
    var c := Crc16(body);
    body + [Lo(c), Hi(c)]
  }

  /** Every reading the sensor sends is accepted as that reading. */
  lemma ValidateFrame(r: Reading)
    ensures Validate(Frame(r)) == Accepted(r)
  {
    var f := Frame(r);
    var body := [ReadRegisters, 4, Hi(r.humidity), Lo(r.humidity), Hi(r.temperature), Lo(r.temperature)];
    assert f[..6] == body;
    assert MemoryU16(f[6], f[7]) == Crc16(body) by {
      HiLoDetermine(MemoryU16(f[6], f[7]), Crc16(body));
    }
    BswapMemoryOrder(f[2], f[3]);
    BswapMemoryOrder(f[4], f[5]);
    HiLoDetermine(ReadU16(f[2], f[3]), r.humidity);
    HiLoDetermine(ReadU16(f[4], f[5]), r.temperature);
  }

  /** Only such frames are accepted: an accepted reply is exactly the frame
      of the reading it yields. */
  lemma AcceptedIsFrame(reply: seq<bv8>)
    requires |reply| == 8 && Validate(reply).Accepted?
    ensures reply == Frame(Validate(reply).reading)
  {
    var r := Validate(reply).reading;
    BswapMemoryOrder(reply[2], reply[3]);
    BswapMemoryOrder(reply[4], reply[5]);
    var f := Frame(r);
    assert reply[..6] == f[..6];
    var c := Crc16(reply[..6]);
    assert f[6] == Lo(c) && f[7] == Hi(c);
    assert reply == reply[..6] + [reply[6], reply[7]];
  }

  /** An accepted frame passes the receiver's whole-frame check too. */
  lemma AcceptedHasZeroResidue(reply: seq<bv8>)
    requires |reply| == 8 && Validate(reply).Accepted?
    ensures Crc16(reply) == 0
  {
    AcceptedIsFrame(reply);
    var c := Crc16(reply[..6]);
    assert reply == reply[..6] + [Lo(c), Hi(c)];
    CrcResidue(reply[..6]);
  }

  // ---------------------------------------------------------------------
  // From raw registers to published values
  // ---------------------------------------------------------------------

  /** A register's value as an unsigned number. */
  type u16 = x: int | 0 <= x < 0x1_0000

  /** `(float)data.Temperature / 10` as written: the register is read as an
      unsigned number of tenths, so it is never negative. */
  function TenthsAsWritten(raw: u16): (t: int)
    ensures 0 <= t < 0x1_0000
  {
    raw
  }

  /** The AM2320's temperature register: the top bit is the sign, the other
      fifteen bits the magnitude in tenths of a degree. */
  function SignedTenths(raw: u16): int
  {
    if raw >= 0x8000 then -(raw - 0x8000) else raw
  }

  /** How the sensor encodes a temperature of t tenths. */
  function EncodeTenths(t: int): (raw: u16)
    requires -0x8000 < t < 0x8000
  {
    if t < 0 then 0x8000 - t else t
  }

  /** Decoding with the sign bit gives back every temperature the sensor
      can encode, and tells negative ones from positive ones. */
  lemma SignedTenthsRoundTrip(t: int)
    requires -0x8000 < t < 0x8000
    ensures SignedTenths(EncodeTenths(t)) == t
    ensures t < 0 <==> EncodeTenths(t) >= 0x8000
  {
  }

  /** -10.1 degrees arrives as 0x8065; read as unsigned it becomes 3286.9
      degrees. */
  lemma NegativeTemperatureAsWritten()
    ensures EncodeTenths(-101) == 0x8065
    ensures TenthsAsWritten(0x8065) == 32869 && SignedTenths(0x8065) == -101
  {
  }

  // ---------------------------------------------------------------------
  // The power pin
  // ---------------------------------------------------------------------

  /** The default of the PowerPin template parameter: `uint8_t PowerPin = -1`
      stores 255. */
  const NoPowerPin: bv8 := 0xFF

  /** `PowerPin != -1` as written: the uint8_t is promoted to int, where it
      lies in 0..255 and never equals -1, so the pin is always driven. */
  function PowerPinDrivenAsWritten(pin: bv8): (r: bool)
    ensures r
  {
    pin as int != -1
  }

  /** The evident intent: the default (-1, stored as 255) means "no power
      pin". */
  function PowerPinDriven(pin: bv8): (r: bool)
    ensures r <==> pin as int != (-1) % 0x100
  {
    pin != NoPowerPin
  }

  /** With the default parameter the power pin is driven as written, and
      is not under the evident intent. */
  lemma DefaultPowerPinDriven()
    ensures PowerPinDrivenAsWritten(NoPowerPin) && !PowerPinDriven(NoPowerPin)
  {
  }

  /** `Powered` and the levels written to the power pin, oldest first. */
  datatype PowerState = PowerState(powered: bool, writes: seq<bool>)

  /** PowerOn (on) and PowerOff (!on) as written: only a change of state
      is written to the pin, and since `PowerPin != -1` always holds, every
      change is written, to pin 255 as well. */
  function SwitchPower(p: PowerState, on: bool, pin: bv8): (q: PowerState)
    ensures q.powered == on
    ensures p.powered == on ==> q == p
    ensures p.powered != on ==> q.writes == p.writes + [on]
  {
    if p.powered == on then p
    else PowerState(on, if PowerPinDrivenAsWritten(pin) then p.writes + [on] else p.writes)
  }

  /** PowerOn and PowerOff under the evident intent: a change of state is
      written only when the sensor has a power pin. */
  function SwitchPowerFixed(p: PowerState, on: bool, pin: bv8): (q: PowerState)
    ensures q.powered == on
    ensures p.powered == on ==> q == p
    ensures p.powered != on ==> q.writes == p.writes + (if PowerPinDriven(pin) then [on] else [])
  {
    if p.powered == on then p
    else PowerState(on, if PowerPinDriven(pin) then p.writes + [on] else p.writes)
  }

  /** The two agree on every sensor that has a power pin; without one
      (the default 255), powering on writes the pin as written and does
      not under the intent. */
  lemma SwitchPowerFixedAgrees(p: PowerState, on: bool, pin: bv8)
    ensures PowerPinDriven(pin) ==> SwitchPowerFixed(p, on, pin) == SwitchPower(p, on, pin)
    ensures SwitchPower(PowerState(false, p.writes), true, NoPowerPin).writes == p.writes + [true]
    ensures SwitchPowerFixed(PowerState(false, p.writes), true, NoPowerPin).writes == p.writes
  {
  }

  /** PowerOn and PowerOff are idempotent. */
  lemma SwitchPowerIdempotent(p: PowerState, on: bool, pin: bv8)
    ensures SwitchPower(SwitchPower(p, on, pin), on, pin) == SwitchPower(p, on, pin)
  {
  }

  /** n rounds of OnBootstrap that found no sensor: power on, probe, power off. */
  function FailedRounds(p: PowerState, pin: bv8, n: nat): (q: PowerState)
    ensures n > 0 ==> !q.powered
    decreases n
  {
    if n == 0 then p else SwitchPower(SwitchPower(FailedRounds(p, pin, n - 1), true, pin), false, pin)
  }

  // ---------------------------------------------------------------------
  // The bus
  // ---------------------------------------------------------------------

  /** One request on the I2C bus as the sensor answers it: not acknowledged
      (EndTransmission fails), or the bytes RequestFrom delivers. */
  datatype Exchange = NoAck | Answer(bytes: seq<bv8>)

  /** The answers the bus gives, in order; once they run out the sensor is
      silent. */
  function NextExchange(bus: seq<Exchange>): Exchange
  {
    if bus == [] then NoAck else bus[0]
  }

  function Skip(bus: seq<Exchange>, n: nat): (r: seq<Exchange>)
    ensures |r| == if n <= |bus| then |bus| - n else 0
    ensures n <= |bus| ==> r == bus[n..]
  {
    if n <= |bus| then bus[n..] else []
  }

  /** The probe of OnBootstrap succeeds: 6 bytes with code 3 and length 2. */
  predicate ProbeAnswered(x: Exchange)
  {
    x.Answer? && |x.bytes| == 6 && x.bytes[0] == ReadRegisters && x.bytes[1] == 2
  }

  /** The try of OnBootstrap that finds the sensor, or 2 when neither does. */
  function FirstProbe(bus: seq<Exchange>): (k: nat)
    ensures k <= 2
    ensures k < 2 <==> ProbeAnswered(NextExchange(bus)) || ProbeAnswered(NextExchange(Skip(bus, 1)))
    ensures k < 2 ==> ProbeAnswered(NextExchange(Skip(bus, k)))
  {
    if ProbeAnswered(NextExchange(bus)) then 0
    else if ProbeAnswered(NextExchange(Skip(bus, 1))) then 1
    else 2
  }

  /** What OnReceive makes of the answer to its read request. */
  function ReadVerdict(x: Exchange): (v: Verdict)
    ensures v == NoReply <==> !(x.Answer? && |x.bytes| == 8)
  {
    if x.Answer? && |x.bytes| == 8 then Validate(x.bytes) else NoReply
  }

  /** The register reads the sensor sends: probe (model registers 0x08..0x09)
      and read (humidity and temperature, registers 0x00..0x03). */
  const ProbeCommand: seq<bv8> := [ReadRegisters, 0x08, 0x02]
  const ReadCommand: seq<bv8> := [ReadRegisters, 0x00, 0x04]

  const DefaultAddress: bv8 := 0x5C
  const DefaultPeriod: Time := 8000
  /** PowerOnDelay: how long the sensor needs after power-on. */
  const PowerOnDelay: Time := 1200

  /** A failed read re-arms after Period - PowerOnDelay and the power-on that
      follows waits PowerOnDelay: the next read comes a full Period after the
      failed one, also across the wrap of the clock. */
  lemma RetryAfterFailureIsOnePeriod(now: Time, period: Time)
    ensures Add(Add(now, Sub(period, PowerOnDelay)), PowerOnDelay) == Add(now, period)
  {
    var d := Sub(period, PowerOnDelay);
    AddSubRoundTrip(period, PowerOnDelay);
    AddAssociative(now, d, PowerOnDelay);
  }

  lemma AddAssociative(a: Time, b: Time, c: Time)
    ensures Add(Add(a, b), c) == Add(a, Add(b, c))
  {
    if a + b >= Modulus {
      assert Add(a, b) == a + b - Modulus;
    }
    if b + c >= Modulus {
      assert Add(b, c) == b + c - Modulus;
    }
  }

  class AM2320 {
    const self: Actor
    const owner: Actor
    /** Sensor.Name. */
    const name: string
    /** The Address and PowerPin template parameters. */
    const address: bv8
    const powerPin: bv8
    var period: Time
    var sendValues: bool
    var powered: bool
    /** The levels written to the power pin, oldest first. */
    ghost var powerWrites: seq<bool>
    /** Errors: an unsigned long. */
    var errors: Time
    /** Sensor.Values[Temperature, Humidity].Value in tenths, and
        Sensor.Updated. */
    var temperature: int
    var humidity: int
    var updated: Time
    /** The answers the bus will give, and the register reads written to it. */
    var bus: seq<Exchange>
    ghost var commands: seq<seq<bv8>>

    ghost function Power(): PowerState
      reads this
    {
      PowerState(powered, powerWrites)
    }

    /** TSensorAM2320(owner, name) with the default period; the actor lives
        in static storage, so the readings start at zero. */
    constructor (self: Actor, owner: Actor, name: string, address: bv8, powerPin: bv8, bus: seq<Exchange>)
      ensures this.self == self && this.owner == owner && this.name == name
      ensures this.address == address && this.powerPin == powerPin && this.bus == bus
      ensures period == DefaultPeriod && sendValues && !powered && errors == 0
      ensures powerWrites == [] && commands == []
    {
      this.self := self;
      this.owner := owner;
      this.name := name;
      this.address := address;
      this.powerPin := powerPin;
      this.bus := bus;
      period := DefaultPeriod;
      sendValues := true;
      powered := false;
      powerWrites := [];
      errors := 0;
      temperature := 0;
      humidity := 0;
      updated := 0;
      commands := [];
    }

    method PowerOn()
      modifies this`powered, this`powerWrites
      ensures Power() == SwitchPower(old(Power()), true, powerPin)
    {
      if !powered {
        powered := true;
        if PowerPinDrivenAsWritten(powerPin) {
          powerWrites := powerWrites + [powered];
        }
      }
    }

    method PowerOff()
      modifies this`powered, this`powerWrites
      ensures Power() == SwitchPower(old(Power()), false, powerPin)
    {
      if powered {
        powered := false;
        if PowerPinDrivenAsWritten(powerPin) {
          powerWrites := powerWrites + [powered];
        }
      }
    }

    /** Write a register read to the sensor and take its answer off the bus. */
    method Transact(command: seq<bv8>) returns (x: Exchange)
      modifies this`bus, this`commands
      ensures x == NextExchange(old(bus)) && bus == Skip(old(bus), 1)
      ensures commands == old(commands) + [command]
    {
      commands := commands + [command];
      if bus == [] {
        x := NoAck;
      } else {
        x := bus[0];
        bus := bus[1..];
      }
    }

    /** OnEvent: dispatch on the event's id, with the effect of the handler
        called; other ids are ignored. */
    method OnEvent(ev: Event, now: Time) returns (out: seq<Request>)
      modifies this`powered, this`powerWrites, this`bus, this`commands, this`errors
      modifies this`temperature, this`humidity, this`updated, ev`notBefore
      ensures WellFormedOutbox(out, ev, {self, owner})
      ensures ev.id == BootstrapId ==>
        var k := FirstProbe(old(bus));
        && bus == Skip(old(bus), if k < 2 then k + 1 else 2)
        && commands == old(commands) + (if k == 0 then [ProbeCommand] else [ProbeCommand, ProbeCommand])
        && (k < 2 ==> Power() == SwitchPower(FailedRounds(old(Power()), powerPin, k), true, powerPin))
        && (k == 2 ==> Power() == FailedRounds(old(Power()), powerPin, 2) && out == [])
        && (k < 2 ==>
              && |out| == 2 && out[0].Send? && out[0].sender == self && out[0].recipient == self
              && out[0].ev.id == ReceiveId && out[0].ev.notBefore == Add(now, period)
              && MessageRequest(out[1], self, owner, name, ProbeSucceeded(address as int)))
        && errors == old(errors) && ev.notBefore == old(ev.notBefore)
        && temperature == old(temperature) && humidity == old(humidity) && updated == old(updated)
      ensures ev.id == ReceiveId ==> |out| > 0 && out[|out| - 1] == Resend(self, ev)
      ensures ev.id == ReceiveId && !old(powered) ==>
        && Power() == SwitchPower(old(Power()), true, powerPin)
        && out == [Resend(self, ev)] && ev.notBefore == Add(now, PowerOnDelay)
        && bus == old(bus) && commands == old(commands) && errors == old(errors)
        && temperature == old(temperature) && humidity == old(humidity) && updated == old(updated)
      ensures ev.id == ReceiveId && old(powered) ==>
        bus == Skip(old(bus), 1) && commands == old(commands) + [ReadCommand]
      ensures ev.id == ReceiveId && old(powered) && ReadVerdict(NextExchange(old(bus))).Accepted? ==>
        var r := ReadVerdict(NextExchange(old(bus))).reading;
        && Power() == old(Power()) && errors == old(errors)
        && temperature == TenthsAsWritten(r.temperature as int) && humidity == r.humidity as int
        && updated == now && ev.notBefore == Add(now, period)
        && (sendValues ==>
              |out| == 3
              && ReadingRequest(out[0], self, owner, name, "temperature", temperature)
              && ReadingRequest(out[1], self, owner, name, "humidity", humidity))
        && (!sendValues ==> |out| == 1)
      ensures ev.id == ReceiveId && old(powered) && !ReadVerdict(NextExchange(old(bus))).Accepted? ==>
        && Power() == SwitchPower(old(Power()), false, powerPin)
        && errors == Add(old(errors), 1)
        && temperature == old(temperature) && humidity == old(humidity) && updated == old(updated)
        && |out| == 2 && MessageRequest(out[0], self, owner, name, ErrorCount(errors))
        && ev.notBefore == Add(now, Sub(period, PowerOnDelay))
      ensures ev.id !in {BootstrapId, ReceiveId} ==>
        && out == [] && bus == old(bus) && commands == old(commands) && Power() == old(Power())
        && errors == old(errors) && ev.notBefore == old(ev.notBefore)
        && temperature == old(temperature) && humidity == old(humidity) && updated == old(updated)
    {
      if ev.id == BootstrapId {
        out := OnBootstrap(now);
      } else if ev.id == ReceiveId {
        out := OnReceive(ev, now);
      } else {
        out := [];
      }
    }

    /** OnBootstrap: up to two tries, each powering the sensor on and probing
        it; the first answer with code 3 and length 2 arms the periodic
        TEventReceive and announces the sensor, a failed try powers it off. */
    method OnBootstrap(now: Time) returns (out: seq<Request>)
      modifies this`powered, this`powerWrites, this`bus, this`commands
      ensures var k := FirstProbe(old(bus));
        && bus == Skip(old(bus), if k < 2 then k + 1 else 2)
        && commands == old(commands) + (if k == 0 then [ProbeCommand] else [ProbeCommand, ProbeCommand])
        && (k < 2 ==> Power() == SwitchPower(FailedRounds(old(Power()), powerPin, k), true, powerPin))
        && (k == 2 ==> Power() == FailedRounds(old(Power()), powerPin, 2) && out == [])
      ensures FirstProbe(old(bus)) < 2 ==>
        && |out| == 2 && fresh(out[0].ev) && fresh(out[1].ev) && out[0].ev != out[1].ev
        && out[0].Send? && out[0].sender == self && out[0].recipient == self
        && out[0].ev.id == ReceiveId && out[0].ev.notBefore == Add(now, period)
        && MessageRequest(out[1], self, owner, name, ProbeSucceeded(address as int))
      ensures NoDuplicates(EventsOf(out))
    {
      out := [];
      var tries := 0;
      while tries < 2
        invariant 0 <= tries <= 2
        invariant bus == Skip(old(bus), tries)
        invariant commands == old(commands) + (if tries == 0 then [] else if tries == 1 then [ProbeCommand] else [ProbeCommand, ProbeCommand])
        invariant forall j :: 0 <= j < tries ==> !ProbeAnswered(NextExchange(Skip(old(bus), j)))
        invariant Power() == FailedRounds(old(Power()), powerPin, tries)
      {
        PowerOn();
        var x := Transact(ProbeCommand);
        if ProbeAnswered(x) {
          out := Announce(now);
          return;
        }
        PowerOff();
        SkipSkip(old(bus), tries);
        tries := tries + 1;
      }
    }

    /** The two sends of a successful probe. */
    method Announce(now: Time) returns (out: seq<Request>)
      ensures |out| == 2 && fresh(out[0].ev) && fresh(out[1].ev) && out[0].ev != out[1].ev
      ensures out[0].Send? && out[0].sender == self && out[0].recipient == self
      ensures out[0].ev.id == ReceiveId && out[0].ev.notBefore == Add(now, period)
      ensures MessageRequest(out[1], self, owner, name, ProbeSucceeded(address as int))
      ensures NoDuplicates(EventsOf(out))
    {
      var receive := new Event(ReceiveId, Add(now, period), [], NoPayload);
      var message := new Event(SensorMessageId, Zero, [], SensorMessage(name, ProbeSucceeded(address as int)));
      out := [Send(self, self, receive), Send(self, owner, message)];
      assert EventsOf(out) == [receive, message];
    }

    /** OnReceive: an unpowered sensor is powered on and read PowerOnDelay
        later. Otherwise one read: an accepted reply updates and publishes
        the readings and re-arms a period later; anything else powers the
        sensor off, counts and reports an error and re-arms so that the
        power-on delay completes the period. */
    method OnReceive(ev: Event, now: Time) returns (out: seq<Request>)
      modifies this`powered, this`powerWrites, this`bus, this`commands, this`errors
      modifies this`temperature, this`humidity, this`updated, ev`notBefore
      ensures WellFormedOutbox(out, ev, {self, owner})
      ensures |out| > 0 && out[|out| - 1] == Resend(self, ev)
      ensures !old(powered) ==>
        && Power() == SwitchPower(old(Power()), true, powerPin)
        && out == [Resend(self, ev)] && ev.notBefore == Add(now, PowerOnDelay)
        && bus == old(bus) && commands == old(commands) && errors == old(errors)
        && temperature == old(temperature) && humidity == old(humidity) && updated == old(updated)
      ensures old(powered) ==>
        bus == Skip(old(bus), 1) && commands == old(commands) + [ReadCommand]
      ensures old(powered) && ReadVerdict(NextExchange(old(bus))).Accepted? ==>
        var r := ReadVerdict(NextExchange(old(bus))).reading;
        && Power() == old(Power()) && errors == old(errors)
        && temperature == TenthsAsWritten(r.temperature as int) && humidity == r.humidity as int
        && updated == now && ev.notBefore == Add(now, period)
        && (sendValues ==>
              |out| == 3
              && ReadingRequest(out[0], self, owner, name, "temperature", temperature)
              && ReadingRequest(out[1], self, owner, name, "humidity", humidity))
        && (!sendValues ==> |out| == 1)
      ensures old(powered) && !ReadVerdict(NextExchange(old(bus))).Accepted? ==>
        && Power() == SwitchPower(old(Power()), false, powerPin)
        && errors == Add(old(errors), 1)
        && temperature == old(temperature) && humidity == old(humidity) && updated == old(updated)
        && |out| == 2 && MessageRequest(out[0], self, owner, name, ErrorCount(errors))
        && ev.notBefore == Add(now, Sub(period, PowerOnDelay))
    {
      if !powered {
        PowerOn();
        ev.notBefore := Add(now, PowerOnDelay);
        out := [Resend(self, ev)];
        return;
      }
      var x := Transact(ReadCommand);
      var v := ReadVerdict(x);
      if v.Accepted? {
        out := Accept(ev, now, v.reading);
      } else {
        out := Reject(ev, now);
      }
    }

    /** The good read: store and publish the readings, re-arm a period later. */
    method Accept(ev: Event, now: Time, r: Reading) returns (out: seq<Request>)
      modifies this`temperature, this`humidity, this`updated, ev`notBefore
      ensures WellFormedOutbox(out, ev, {self, owner})
      ensures |out| > 0 && out[|out| - 1] == Resend(self, ev)
      ensures temperature == TenthsAsWritten(r.temperature as int) && humidity == r.humidity as int
      ensures updated == now && ev.notBefore == Add(now, period)
      ensures sendValues ==>
        |out| == 3
        && ReadingRequest(out[0], self, owner, name, "temperature", temperature)
        && ReadingRequest(out[1], self, owner, name, "humidity", humidity)
      ensures !sendValues ==> |out| == 1
    {
      temperature := TenthsAsWritten(r.temperature as int);
      humidity := r.humidity as int;
      updated := now;
      out := [];
      if sendValues {
        out := Readings();
      }
      ev.notBefore := Add(now, period);
      EventsOfAppend(out, Resend(self, ev));
      NoDuplicatesAppend(EventsOf(out), ev);
      out := out + [Resend(self, ev)];
    }

    /** The failed read: power off, count and report the error, re-arm
        PowerOnDelay short of a period. */
    method Reject(ev: Event, now: Time) returns (out: seq<Request>)
      modifies this`powered, this`powerWrites, this`errors, ev`notBefore
      ensures WellFormedOutbox(out, ev, {self, owner})
      ensures Power() == SwitchPower(old(Power()), false, powerPin)
      ensures errors == Add(old(errors), 1)
      ensures |out| == 2 && MessageRequest(out[0], self, owner, name, ErrorCount(errors))
      ensures out[1] == Resend(self, ev) && ev.notBefore == Add(now, Sub(period, PowerOnDelay))
    {
      PowerOff();
      var timeout := Sub(period, PowerOnDelay);
      errors := Add(errors, 1);
      var message := new Event(SensorMessageId, Zero, [], SensorMessage(name, ErrorCount(errors)));
      ev.notBefore := Add(now, timeout);
      out := [Send(self, owner, message), Resend(self, ev)];
      assert EventsOf(out) == [message, ev];
    }

    /** The two TEventSensorData: temperature, then humidity. */
    method Readings() returns (out: seq<Request>)
      ensures |out| == 2 && fresh(out[0].ev) && fresh(out[1].ev) && NoDuplicates(EventsOf(out))
      ensures ReadingRequest(out[0], self, owner, name, "temperature", temperature)
      ensures ReadingRequest(out[1], self, owner, name, "humidity", humidity)
    {
      var t := new Event(SensorDataId, Zero, [], SensorReading(name, "temperature", temperature));
      var h := new Event(SensorDataId, Zero, [], SensorReading(name, "humidity", humidity));
      out := [Send(self, owner, t), Send(self, owner, h)];
      assert EventsOf(out) == [t, h];
    }
  }

  lemma SkipSkip(bus: seq<Exchange>, n: nat)
    ensures Skip(Skip(bus, n), 1) == Skip(bus, n + 1)
  {
  }
}
