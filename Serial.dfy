/** TSerialActor: reads the serial port into a line buffer and sends every
    completed line to its owner as TEventSerialData; writes the Data of
    TEventSerialData events to the port, as much as the port takes per
    delivery, followed by the end of line "\n". The port is its available
    input (`rx`), its free output room (`room`) and the characters written
    to it (`tx`). */
module Serial {
  import opened Time
  import opened Ownership
  import opened Workflow
  import opened LineFraming
  import Strings

  /** TEventSerialData::EventID. */
  const SerialDataId: nat := 2

  /** TSerialActor::MaxBufferSize. */
  const MaxBufferSize: nat := 256

  /** What one delivery of a TEventSerialData does with its Data: the
      characters written to the port, and the Data left for a later delivery
      (None when the event is done). */
  datatype WriteOutcome = WriteOutcome(written: seq<char>, pending: Option<seq<char>>)

  /** OnSerialData as written, with `room` = Port.AvailableForWrite():
      `size = min(len, room)`; a partial write keeps the rest, a full write
      adds the end of line, and when nothing can be written the Data is kept
      whole. */
  function WriteStep(data: seq<char>, room: nat): (r: WriteOutcome)
  {
    var size := Strings.Min(|data|, room);
    if size > 0 then
      if size < |data| then WriteOutcome(data[..size], Some(data[size..]))
      else WriteOutcome(data + ['\n'], None)
    else WriteOutcome([], Some(data))
  }

  /** WriteStep with an empty Data finishing as a bare end of line, which is
      what an empty line evidently should produce. */
  function WriteStepFixed(data: seq<char>, room: nat): (r: WriteOutcome)
  {
    if data == [] && room > 0 then WriteOutcome(['\n'], None) else WriteStep(data, room)
  }

  /** What is still owed to the port after an outcome: the pending Data and
      its end of line, or nothing. */
  function Owed(w: WriteOutcome): seq<char>
  {
    match w.pending
    case None => []
    case Some(p) => p + ['\n']
  }

  /** A single delivery neither loses nor repeats a character: what it
      writes followed by what is still owed is the Data and its end of line. */
  lemma WriteStepKeepsEverything(data: seq<char>, room: nat)
    ensures WriteStep(data, room).written + Owed(WriteStep(data, room)) == data + ['\n']
    ensures WriteStepFixed(data, room).written + Owed(WriteStepFixed(data, room)) == data + ['\n']
  {
    var size := Strings.Min(|data|, room);
    if 0 < size < |data| {
      assert data[..size] + (data[size..] + ['\n']) == data + ['\n'];
    }
  }

  /** The deliveries of one event, the port offering `rooms[i]` characters
      at the i-th: the characters written in total and what is left. */
  function Deliveries(data: seq<char>, rooms: seq<nat>, fixed: bool): (r: WriteOutcome)
    decreases |rooms|
  {
    if rooms == [] then WriteOutcome([], Some(data))
    else
      var w := if fixed then WriteStepFixed(data, rooms[0]) else WriteStep(data, rooms[0]);
      match w.pending
      case None => w
      case Some(p) =>
        var t := Deliveries(p, rooms[1..], fixed);
        WriteOutcome(w.written + t.written, t.pending)
  }

  /** Across any number of deliveries the port receives a prefix of the Data
      and its end of line, in order, and the rest is still owed. */
  lemma {:induction false} DeliveriesKeepEverything(data: seq<char>, rooms: seq<nat>, fixed: bool)
    ensures Deliveries(data, rooms, fixed).written + Owed(Deliveries(data, rooms, fixed)) == data + ['\n']
    decreases |rooms|
  {
    if rooms != [] {
      WriteStepKeepsEverything(data, rooms[0]);
      var w := if fixed then WriteStepFixed(data, rooms[0]) else WriteStep(data, rooms[0]);
      if w.pending.Some? {
        var p := w.pending.value;
        DeliveriesKeepEverything(p, rooms[1..], fixed);
        var t := Deliveries(p, rooms[1..], fixed);
        assert w.written + (t.written + Owed(t)) == data + ['\n'];
      }
    }
  }

  /** Non-empty Data goes out completely, with its end of line, within |Data|
      deliveries that each find room on the port. */
  lemma {:induction false} DeliveriesComplete(data: seq<char>, rooms: seq<nat>)
    requires data != [] && |rooms| >= |data|
    requires forall i :: 0 <= i < |rooms| ==> rooms[i] > 0
    ensures Deliveries(data, rooms, false) == WriteOutcome(data + ['\n'], None)
    decreases |data|
  {
    var w := WriteStep(data, rooms[0]);
    if w.pending.Some? {
      var p := w.pending.value;
      DeliveriesComplete(p, rooms[1..]);
      assert data[..rooms[0]] + (p + ['\n']) == data + ['\n'];
    }
  }

  /** As written, a TEventSerialData with empty Data is never finished:
      every delivery writes nothing and puts it back at the head of the
      mailbox, whatever room the port has. */
  lemma {:induction false} EmptyDataNeverWritten(rooms: seq<nat>)
    ensures Deliveries([], rooms, false) == WriteOutcome([], Some([]))
    decreases |rooms|
  {
    if rooms != [] {
      EmptyDataNeverWritten(rooms[1..]);
    }
  }

  /** Corrected, every Data, the empty one included, goes out completely with
      its end of line within |Data| + 1 deliveries that each find room. */
  lemma {:induction false} FixedDeliveriesComplete(data: seq<char>, rooms: seq<nat>)
    requires |rooms| > |data|
    requires forall i :: 0 <= i < |rooms| ==> rooms[i] > 0
    ensures Deliveries(data, rooms, true) == WriteOutcome(data + ['\n'], None)
    decreases |data|
  {
    if data != [] {
      var w := WriteStepFixed(data, rooms[0]);
      if w.pending.Some? {
        var p := w.pending.value;
        FixedDeliveriesComplete(p, rooms[1..]);
        assert data[..rooms[0]] + (p + ['\n']) == data + ['\n'];
      }
    }
  }

  /** How many characters OnReceive reads: what is available, but no more
      than the buffer has room for. */
  function ReadSize(rx: seq<char>, buffer: seq<char>): (n: nat)
    ensures n <= |rx| && (|buffer| <= MaxBufferSize ==> |buffer| + n <= MaxBufferSize)
  {
    if |buffer| > MaxBufferSize then 0 else Strings.Min(|rx|, MaxBufferSize - |buffer|)
  }

  /** The port's room after writing n characters; the end of line is written
      even when no room is reported (the write then blocks). */
  function Drain(room: nat, n: nat): nat
  {
    if n <= room then room - n else 0
  }

  /** The requests OnReceive makes for the text it has scanned: one
      TEventSerialData per completed line, sent to the owner in order, then
      the TEventReceive back to itself. */
  ghost predicate ReceiveRequests(out: seq<Request>, text: seq<char>, self: Actor, owner: Actor, ev: Event)
    reads set i | 0 <= i < |out| :: out[i].ev
  {
    && |out| == |Lines(text)| + 1
    && (forall i :: 0 <= i < |Lines(text)| ==> LineRequest(out[i], Lines(text)[i], self, owner))
    && out[|out| - 1] == Resend(self, ev)
  }

  /** `context.Send(this, Owner, new TEventSerialData(line))`. */
  ghost predicate LineRequest(r: Request, line: seq<char>, self: Actor, owner: Actor)
    reads r.ev
  {
    && r.Send? && r.sender == self && r.recipient == owner
    && r.ev.id == SerialDataId && r.ev.data == line && r.ev.notBefore == Zero
  }

  class SerialActor {
    const self: Actor
    const owner: Actor
    /** Buffer: the characters after the last '\n' read so far. */
    var buffer: seq<char>
    /** Port.AvailableForRead() characters waiting on the port. */
    var rx: seq<char>
    /** Port.AvailableForWrite(). */
    var room: nat
    /** Everything written to the port. */
    ghost var tx: seq<char>
    /** Port.Begin() has been called. */
    var begun: bool

    ghost predicate Valid()
      reads this`buffer
    {
      |buffer| <= MaxBufferSize && '\n' !in buffer
    }

    constructor (self: Actor, owner: Actor)
      ensures Valid() && this.self == self && this.owner == owner
      ensures buffer == [] && rx == [] && room == 0 && tx == [] && !begun
    {
      this.self := self;
      this.owner := owner;
      buffer := [];
      rx := [];
      room := 0;
      tx := [];
      begun := false;
    }

    /** OnEvent: dispatch on the event's id; other ids are ignored. */
    method OnEvent(ev: Event) returns (out: seq<Request>)
      requires Valid()
      modifies this, ev`data
      ensures Valid() && WellFormedOutbox(out, ev, {self, owner})
      ensures ev.id == BootstrapId ==> BootstrapRequests(out, self) && begun
      ensures ev.id == SerialDataId ==>
        SerialDataEffect(out, ev, old(ev.data), old(room), old(tx), room, tx, self)
      ensures ev.id == ReceiveId ==>
        && rx == old(rx)[ReadSize(old(rx), old(buffer))..]
        && buffer == Rest(old(buffer) + old(rx)[..ReadSize(old(rx), old(buffer))])
        && ReceiveRequests(out, old(buffer) + old(rx)[..ReadSize(old(rx), old(buffer))], self, owner, ev)
      ensures ev.id !in {BootstrapId, SerialDataId, ReceiveId} ==> out == []
      ensures ev.id != SerialDataId ==> ev.data == old(ev.data) && room == old(room) && tx == old(tx)
      ensures ev.id != ReceiveId ==> rx == old(rx) && buffer == old(buffer)
      ensures ev.id != BootstrapId ==> begun == old(begun)
      ensures ev.notBefore == old(ev.notBefore)
    {
      if ev.id == BootstrapId {
        out := OnBootstrap();
      } else if ev.id == SerialDataId {
        out := OnSerialData(ev);
      } else if ev.id == ReceiveId {
        out := OnReceive(ev);
      } else {
        out := [];
      }
    }

    /** OnBootstrap: start the port and send the first TEventReceive to self. */
    method OnBootstrap() returns (out: seq<Request>)
      modifies this`begun
      ensures begun && BootstrapRequests(out, self)
      ensures forall i :: 0 <= i < |out| ==> fresh(out[i].ev)
    {
      begun := true;
      var e := new Event(ReceiveId, Zero, [], NoPayload);
      out := [Send(self, self, e)];
    }

    /** OnSerialData: write what the port takes now; put the rest, or the
        whole event when nothing could be written, back at the head of the
        own mailbox. */
    method OnSerialData(ev: Event) returns (out: seq<Request>)
      modifies this`room, this`tx, ev`data
      ensures SerialDataEffect(out, ev, old(ev.data), old(room), old(tx), room, tx, self)
    {
      var len := |ev.data|;
      var size := Strings.Min(len, room);
      if size > 0 {
        tx := tx + ev.data[..size];
        room := room - size;
        if size < len {
          ev.data := ev.data[size..];
          out := [ResendImmediate(self, ev)];
        } else {
          tx := tx + ['\n'];
          room := Drain(room, 1);
          out := [];
        }
      } else {
        out := [ResendImmediate(self, ev)];
      }
    }

    /** OnReceive: read as much as fits into the buffer, send every line the
        new characters complete, keep the unfinished line, and queue the
        TEventReceive again. */
    method OnReceive(ev: Event) returns (out: seq<Request>)
      requires Valid()
      modifies this`buffer, this`rx
      ensures Valid()
      ensures rx == old(rx)[ReadSize(old(rx), old(buffer))..]
      ensures buffer == Rest(old(buffer) + old(rx)[..ReadSize(old(rx), old(buffer))])
      ensures ReceiveRequests(out, old(buffer) + old(rx)[..ReadSize(old(rx), old(buffer))], self, owner, ev)
      ensures WellFormedOutbox(out, ev, {self, owner})
    {
      var size := Strings.Min(|rx|, MaxBufferSize - |buffer|);
      assert size == ReadSize(rx, buffer);
      ghost var text := buffer + rx[..size];
      out := [];
      if size > 0 {
        var buf := buffer + rx[..size];
        rx := rx[size..];
        assert buf[..|buffer|] == buffer;
        var strStart;
        out, strStart := SendLines(buf, |buffer|, self, owner);
        buffer := buf[strStart..];
      } else {
        ScanWithoutNewline(buffer);
        assert text == buffer && buffer[0..] == buffer && rx[0..] == rx;
      }
      assert buffer == Rest(text);
      EventsOfAppend(out, Resend(self, ev));
      NoDuplicatesAppend(EventsOf(out), ev);
      ghost var lineRequests := out;
      out := out + [Resend(self, ev)];
      assert forall i :: 0 <= i < |Lines(text)| ==> out[i] == lineRequests[i];
    }
  }

  /** The scanning loop of OnReceive over `buf`, whose first `from`
      characters were already scanned on an earlier call (they hold no
      '\n'): one request per line, and where the unfinished line starts. */
  method SendLines(buf: seq<char>, from: nat, self: Actor, owner: Actor) returns (out: seq<Request>, strStart: nat)
    requires from <= |buf| && '\n' !in buf[..from]
    ensures strStart == Scan(buf).start && |out| == |Lines(buf)|
    ensures forall i :: 0 <= i < |out| ==> LineRequest(out[i], Lines(buf)[i], self, owner) && fresh(out[i].ev)
    ensures NoDuplicates(EventsOf(out))
  {
    strStart := 0;
    var bufferPos := from;
    out := [];
    ghost var lines: seq<seq<char>> := [];
    ScanWithoutNewline(buf[..from]);
    while bufferPos < |buf|
      invariant from <= bufferPos <= |buf|
      invariant Scan(buf[..bufferPos]) == Scanned(lines, strStart)
      invariant |out| == |lines|
      invariant forall i :: 0 <= i < |out| ==> fresh(out[i].ev)
      invariant forall i :: 0 <= i < |out| ==> LineRequest(out[i], lines[i], self, owner)
      invariant NoDuplicates(EventsOf(out))
    {
      ScanStep(buf, bufferPos);
      if buf[bufferPos] == '\n' {
        out, lines := PushLine(buf, strStart, bufferPos, self, owner, out, lines);
        strStart := bufferPos + 1;
      }
      bufferPos := bufferPos + 1;
    }
    assert buf[..bufferPos] == buf;
  }

  /** The body of the scanning loop at a '\n': the line found is sent. */
  method PushLine(buf: seq<char>, strStart: nat, pos: nat, self: Actor, owner: Actor,
                  out: seq<Request>, ghost lines: seq<seq<char>>)
    returns (out': seq<Request>, ghost lines': seq<seq<char>>)
    requires strStart <= pos <= |buf| && (strStart == 0 || buf[strStart - 1] == '\n')
    requires |out| == |lines| && NoDuplicates(EventsOf(out))
    requires forall i :: 0 <= i < |out| ==> LineRequest(out[i], lines[i], self, owner)
    ensures |out'| == |out| + 1 && out' == out + [out'[|out|]] && fresh(out'[|out|].ev)
    ensures lines' == lines + [TrimCR(buf[strStart..pos])]
    ensures forall i :: 0 <= i < |out'| ==> LineRequest(out'[i], lines'[i], self, owner)
    ensures NoDuplicates(EventsOf(out'))
  {
    var r := EmitLine(buf, strStart, pos, self, owner);
    EventsOfAppend(out, r);
    NoDuplicatesAppend(EventsOf(out), r.ev);
    out' := out + [r];
    lines' := lines + [TrimCR(buf[strStart..pos])];
  }

  /** One line found by the scan: trim its carriage returns and make the
      TEventSerialData for the owner. */
  method EmitLine(buf: seq<char>, strStart: nat, pos: nat, self: Actor, owner: Actor) returns (r: Request)
    requires strStart <= pos <= |buf| && (strStart == 0 || buf[strStart - 1] == '\n')
    ensures LineRequest(r, TrimCR(buf[strStart..pos]), self, owner) && fresh(r.ev)
  {
    var strSize := TrimEnd(buf, strStart, pos);
    var e := new Event(SerialDataId, Zero, buf[strStart..strSize], NoPayload);
    r := Send(self, owner, e);
  }

  /** The request OnBootstrap makes: a fresh TEventReceive, due at once,
      sent to itself. */
  ghost predicate BootstrapRequests(out: seq<Request>, self: Actor)
    reads set i | 0 <= i < |out| :: out[i].ev
  {
    |out| == 1 && out[0].Send? && out[0].sender == self && out[0].recipient == self
    && out[0].ev.id == ReceiveId && out[0].ev.notBefore == Zero
  }

  /** The effect of OnSerialData, as WriteStep computes it from the Data and
      the room: the written characters reach the port, and the event goes
      back to the head of the own mailbox with what is left, unless it is
      done. */
  ghost predicate SerialDataEffect(out: seq<Request>, ev: Event, data: seq<char>, room: nat, tx: seq<char>,
                                   newRoom: nat, newTx: seq<char>, self: Actor)
    reads ev
  {
    var w := WriteStep(data, room);
    && newTx == tx + w.written && newRoom == Drain(room, |w.written|)
    && (w.pending.None? ==> out == [] && ev.data == data)
    && (w.pending.Some? ==> out == [ResendImmediate(self, ev)] && ev.data == w.pending.value)
  }
}
