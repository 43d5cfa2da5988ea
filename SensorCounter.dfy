/** TSensorCounter: counts debounced pulses on an input pin. The pin
    interrupt counts a rising edge and records when the pin last went high
    and low; a transition that comes sooner than the minimum delay after the
    last accepted one is not counted. A periodic TEventReceive publishes the
    readings to the owner when the count has changed. */
module SensorCounter {
  import opened Time
  import opened Workflow

  /** The gap between neighbouring 32-bit floats around `n`: a float has
      24 significant bits, so every integer below 2^24 is exact and each
      further bit of `n` doubles the gap. */
  function Spacing(n: int): (u: int)
    requires 0 <= n < 0x1_0000_0000
    ensures 1 <= u <= 0x100 && n / u < 0x100_0000
    ensures n < 0x100_0000 <==> u == 1
  {
    if n < 0x100_0000 then 1
    else if n < 0x200_0000 then 2
    else if n < 0x400_0000 then 4
    else if n < 0x800_0000 then 8
    else if n < 0x1000_0000 then 0x10
    else if n < 0x2000_0000 then 0x20
    else if n < 0x4000_0000 then 0x40
    else if n < 0x8000_0000 then 0x80
    else 0x100
  }

  /** The significand `n` rounds to, in units of `Spacing(n)`: the nearest
      one, and the even one on a tie. */
  function Mantissa(n: int): (m: int)
    requires 0 <= n < 0x1_0000_0000
    ensures 0 <= m <= 0x100_0000
  {
    var u := Spacing(n);
    var q, r := n / u, n % u;
    if 2 * r > u || (2 * r == u && q % 2 == 1) then q + 1 else q
  }

  /** A uint32_t converted to `double`, which on the AVR target is the
      32-bit float: exact below 2^24, and otherwise the nearest float,
      within half a gap of `n`. */
  function Float32Of(n: int): (f: int)
    requires 0 <= n < 0x1_0000_0000
    ensures n < 0x100_0000 ==> f == n
    ensures -Spacing(n) <= 2 * (f - n) <= Spacing(n)
  {
    var u, m := Spacing(n), Mantissa(n);
    assert n == u * (n / u) + n % u && 0 <= n % u < u;
    assert u * (n / u + 1) == u * (n / u) + u;
    u * m
  }

  /** Past 2^24 the stored readings lose their last bits: the count after
      2^24 + 1 rising edges compares equal to the one before it, so that
      edge publishes nothing, and a timestamp 2^24 + 1 ms (about 4.7 hours)
      after start-up is published one millisecond early. */
  lemma Float32Loses()
    ensures Float32Of(0x100_0001) == Float32Of(0x100_0000) == 0x100_0000
  {
  }

  class SensorCounter {
    const self: Actor
    const owner: Actor
    /** Sensor.Name. */
    const name: string
    /** The template parameters MinDelayLow and MinDelayHigh (uint16_t). */
    const minDelayLow: Time
    const minDelayHigh: Time
    var period: Time
    var sendValues: bool
    /** PinValue: the level the pin reads now, set by the hardware. */
    var pinLevel: bool
    var lastValue: bool
    var lastTime: Time
    /** Value, Low and High: 32-bit counters written by the interrupt. */
    var value: Time
    var low: Time
    var high: Time
    /** Sensor.Values[Counter, DelayLow, DelayHigh].Value and Sensor.Updated:
        the readings last published, each the `double` (32-bit float) its
        counter converts to. */
    var published: int
    var publishedLow: int
    var publishedHigh: int
    var updated: Time

    /** TSensorCounter(owner, name) with the default delays of 500 ms and
        period of 1000 ms; the actor lives in static storage, so the
        published readings start at zero. */
    constructor (self: Actor, owner: Actor, name: string, minDelayLow: Time, minDelayHigh: Time)
      requires minDelayLow < 0x1_0000 && minDelayHigh < 0x1_0000
      ensures this.self == self && this.owner == owner && this.name == name
      ensures this.minDelayLow == minDelayLow && this.minDelayHigh == minDelayHigh
      ensures period == 1000 && sendValues
      ensures value == 0 && low == 0 && high == 0 && published == 0
    {
      this.self := self;
      this.owner := owner;
      this.name := name;
      this.minDelayLow := minDelayLow;
      this.minDelayHigh := minDelayHigh;
      period := 1000;
      sendValues := true;
      pinLevel := false;
      lastValue := false;
      lastTime := 0;
      value := 0;
      low := 0;
      high := 0;
      published := 0;
      publishedLow := 0;
      publishedHigh := 0;
      updated := 0;
    }

    /** Interrupt(), run at time `now` (TTime::Now()) on a pin change. */
    method Interrupt(now: Time)
      modifies this`lastValue, this`lastTime, this`value, this`low, this`high
      ensures pinLevel == old(lastValue) ==>
        lastValue == old(lastValue) && lastTime == old(lastTime)
        && value == old(value) && low == old(low) && high == old(high)
      ensures lastValue == pinLevel
      ensures pinLevel != old(lastValue) && !Accepted(pinLevel, Sub(now, old(lastTime))) ==>
        lastTime == old(lastTime) && value == old(value) && low == old(low) && high == old(high)
      ensures pinLevel != old(lastValue) && Accepted(pinLevel, Sub(now, old(lastTime))) ==>
        lastTime == now
        && (pinLevel ==> value == Add(old(value), 1) && low == now && high == old(high))
        && (!pinLevel ==> value == old(value) && high == now && low == old(low))
    {
      var level := pinLevel;
      if level != lastValue {
        var delay := Sub(now, MilliSeconds(lastTime));
        if !level {
          if delay < MilliSeconds(minDelayLow) {
            lastValue := level;
            return;
          }
          high := now;
        } else {
          if delay < MilliSeconds(minDelayHigh) {
            lastValue := level;
            return;
          }
          low := now;
          value := Add(value, 1);
        }
        lastTime := now;
        lastValue := level;
      }
    }

    /** A transition to `level` that comes `delay` after the last accepted
        one is counted: not sooner than the minimum delay for that edge. */
    predicate Accepted(level: bool, delay: Time)
    {
      if level then delay >= minDelayHigh else delay >= minDelayLow
    }

    /** OnEvent: dispatch on the event's id; other ids are ignored. */
    method OnEvent(ev: Event, now: Time) returns (out: seq<Request>)
      modifies this, ev`notBefore
      ensures WellFormedOutbox(out, ev, {self, owner})
      ensures ev.id == BootstrapId ==>
        value == 0 && low == 0 && high == 0 && lastValue == pinLevel && lastTime == now
        && |out| == 1 && fresh(out[0].ev)
        && out[0].Send? && out[0].sender == self && out[0].recipient == self
        && out[0].ev.id == ReceiveId && out[0].ev.notBefore == Add(now, period)
      ensures ev.id == ReceiveId && Float32Of(old(value)) == old(published) ==>
        published == old(published) && |out| == 1
      ensures ev.id == ReceiveId && Float32Of(old(value)) != old(published) ==>
        published == Float32Of(value) && publishedLow == Float32Of(low) && publishedHigh == Float32Of(high)
        && updated == now
        && (sendValues ==>
              |out| == 4
              && ReadingRequest(out[0], self, owner, name, "counter", published)
              && ReadingRequest(out[1], self, owner, name, "low", publishedLow)
              && ReadingRequest(out[2], self, owner, name, "high", publishedHigh))
        && (!sendValues ==> |out| == 1)
      ensures ev.id == ReceiveId ==>
        value == old(value) && out[|out| - 1] == Resend(self, ev) && ev.notBefore == Add(now, period)
      ensures ev.id !in {BootstrapId, ReceiveId} ==> out == [] && ev.notBefore == old(ev.notBefore)
    {
      if ev.id == BootstrapId {
        out := OnBootstrap(now);
      } else if ev.id == ReceiveId {
        out := OnReceive(ev, now);
      } else {
        out := [];
      }
    }

    /** OnBootstrap: reset the counters, sample the pin and arm the first
        TEventReceive a period from now. */
    method OnBootstrap(now: Time) returns (out: seq<Request>)
      modifies this`value, this`low, this`high, this`lastValue, this`lastTime
      ensures value == 0 && low == 0 && high == 0 && lastValue == pinLevel && lastTime == now
      ensures |out| == 1 && fresh(out[0].ev) && NoDuplicates(EventsOf(out))
      ensures out[0].Send? && out[0].sender == self && out[0].recipient == self
      ensures out[0].ev.id == ReceiveId && out[0].ev.notBefore == Add(now, period)
    {
      value := 0;
      low := 0;
      high := 0;
      lastValue := pinLevel;
      lastTime := now;
      var e := new Event(ReceiveId, Add(now, period), [], NoPayload);
      out := [Send(self, self, e)];
      assert EventsOf(out) == [e];
    }

    /** OnReceive: publish the readings if the count, converted to the
        stored `double`, differs from the one last published, then re-arm
        the event a period from now. */
    method OnReceive(ev: Event, now: Time) returns (out: seq<Request>)
      modifies this`published, this`publishedLow, this`publishedHigh, this`updated, ev`notBefore
      ensures WellFormedOutbox(out, ev, {self, owner})
      ensures Float32Of(value) == old(published) ==>
        published == old(published) && updated == old(updated) && out == [Resend(self, ev)]
      ensures Float32Of(value) != old(published) ==>
        published == Float32Of(value) && publishedLow == Float32Of(low) && publishedHigh == Float32Of(high)
        && updated == now
      ensures Float32Of(value) != old(published) && sendValues ==>
        |out| == 4
        && ReadingRequest(out[0], self, owner, name, "counter", published)
        && ReadingRequest(out[1], self, owner, name, "low", publishedLow)
        && ReadingRequest(out[2], self, owner, name, "high", publishedHigh)
      ensures Float32Of(value) != old(published) && !sendValues ==> out == [Resend(self, ev)]
      ensures out[|out| - 1] == Resend(self, ev) && ev.notBefore == Add(now, period)
    {
      out := [];
      var counter, delayLow, delayHigh := Float32Of(value), Float32Of(low), Float32Of(high);
      if counter != published {
        published, publishedLow, publishedHigh := counter, delayLow, delayHigh;
        updated := now;
        if sendValues {
          out := Readings();
        }
      }
      ev.notBefore := Add(now, period);
      EventsOfAppend(out, Resend(self, ev));
      NoDuplicatesAppend(EventsOf(out), ev);
      out := out + [Resend(self, ev)];
    }

    /** The three TEventSensorData: counter, low and high, with the
        readings as published. */
    method Readings() returns (out: seq<Request>)
      ensures |out| == 3 && NoDuplicates(EventsOf(out))
      ensures forall i :: 0 <= i < 3 ==> fresh(out[i].ev)
      ensures ReadingRequest(out[0], self, owner, name, "counter", published)
      ensures ReadingRequest(out[1], self, owner, name, "low", publishedLow)
      ensures ReadingRequest(out[2], self, owner, name, "high", publishedHigh)
    {
      var counter := new Event(SensorDataId, Zero, [], SensorReading(name, "counter", published));
      var delayLow := new Event(SensorDataId, Zero, [], SensorReading(name, "low", publishedLow));
      var delayHigh := new Event(SensorDataId, Zero, [], SensorReading(name, "high", publishedHigh));
      out := [Send(self, owner, counter), Send(self, owner, delayLow), Send(self, owner, delayHigh)];
      assert EventsOf(out) == [counter, delayLow, delayHigh];
      assert [counter, delayLow, delayHigh][1..] == [delayLow, delayHigh];
      assert [delayLow, delayHigh][1..] == [delayHigh];
      assert NoDuplicates([delayHigh][1..]);
    }
  }
}
