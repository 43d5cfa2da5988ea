/** TActorLib: the registration chain of actors, the four ways of handing an
    event to a mailbox, and the cooperative scheduler `Run`. The actors are
    the closed set of kinds this repository defines; `OnEvent`'s virtual
    dispatch becomes a match on the kind. Every actor's `Events` list is the
    actor's entry in `Lib.mail`, front first. */
module ActorLib {
  import opened Time
  import opened Workflow
  import PassModel
  import Ownership
  import Led
  import Serial
  import Bluetooth
  import SensorCounter
  import SensorAM2320

  /** A registered actor's concrete class, holding the object that
      implements its `OnEvent`. */
  datatype Kind =
    | LedKind(led: Led.LedActor)
    | SerialKind(serial: Serial.SerialActor)
    | BluetoothKind(bluetooth: Bluetooth.BluetoothActor)
    | CounterKind(counter: SensorCounter.SensorCounter)
    | AM2320Kind(sensor: SensorAM2320.AM2320)

  /** The TActor the handler object is. */
  function Self(k: Kind): Actor
  {
    match k
    case LedKind(h) => h.self
    case SerialKind(h) => h.self
    case BluetoothKind(h) => h.self
    case CounterKind(h) => h.self
    case AM2320Kind(h) => h.self
  }

  /** The actors a handler of this kind sends events to. */
  function Targets(k: Kind): set<Actor>
  {
    match k
    case LedKind(h) => {h.self}
    case SerialKind(h) => {h.self, h.owner}
    case BluetoothKind(h) => {h.owner, h.serial}
    case CounterKind(h) => {h.self, h.owner}
    case AM2320Kind(h) => {h.self, h.owner}
  }

  /** The objects a handler of this kind changes. */
  function HandlerRepr(k: Kind): (r: set<object>)
    ensures forall o :: o in r ==> !(o is Lib) && !(o is Actor) && !(o is Event)
  {
    match k
    case LedKind(h) => {h}
    case SerialKind(h) => {h}
    case BluetoothKind(h) => {h.link}
    case CounterKind(h) => {h}
    case AM2320Kind(h) => {h}
  }

  /** What the handler's `OnEvent` needs of its own state. */
  ghost predicate HandlerValid(k: Kind)
    reads HandlerRepr(k)
  {
    match k
    case LedKind(h) => h.Valid()
    case SerialKind(h) => h.Valid()
    case BluetoothKind(_) => true
    case CounterKind(_) => true
    case AM2320Kind(_) => true
  }

  /** `itActor->OnEvent(event, context)`: the handler's requests come back
      as an outbox, which `Run` hands to the runtime in order. */
  method Dispatch(k: Kind, ev: Event, now: Time) returns (out: seq<Request>)
    requires HandlerValid(k) && Typed(ev)
    modifies HandlerRepr(k), ev`notBefore, ev`data
    ensures HandlerValid(k) && WellFormedOutbox(out, ev, Targets(k))
  {
    match k
    case LedKind(h) =>
      out := h.OnEvent(ev, now);
    case SerialKind(h) =>
      out := h.OnEvent(ev);
    case BluetoothKind(h) =>
      out := h.OnEvent(ev, now);
    case CounterKind(h) =>
      out := h.OnEvent(ev, now);
    case AM2320Kind(h) =>
      out := h.OnEvent(ev, now);
  }

  /** One call of a handler by `Run`: the actor, the event, and the event's
      NotBefore at that moment. */
  datatype Delivery = Delivery(actor: Actor, ev: Event, notBefore: Time)

  /** Every entry of the log went to actor `a` and was due at `now`. */
  ghost predicate DeliveredTo(log: seq<Delivery>, a: Actor, now: Time)
  {
    forall i :: 0 <= i < |log| ==> log[i].actor == a && log[i].notBefore <= now
  }

  lemma DeliveredToAppend(log: seq<Delivery>, more: seq<Delivery>, a: Actor, now: Time)
    requires DeliveredTo(log, a, now) && DeliveredTo(more, a, now)
    ensures DeliveredTo(log + more, a, now)
  {
    forall i | 0 <= i < |log + more|
      ensures (log + more)[i].actor == a && (log + more)[i].notBefore <= now
    {
      if i >= |log| {
        assert (log + more)[i] == more[i - |log|];
      }
    }
  }

  /** Every entry of the log went to a registered actor, was due at `now`,
      and the actors come in registration order. */
  ghost predicate InChainOrder(log: seq<Delivery>, index: map<Actor, nat>, now: Time)
  {
    && (forall i :: 0 <= i < |log| ==> log[i].actor in index && log[i].notBefore <= now)
    && (forall i, j :: 0 <= i < j < |log| ==> index[log[i].actor] <= index[log[j].actor])
  }

  /** Appending one actor's turn to the turns of the actors before it keeps
      the log in registration order. */
  lemma {:induction false} InChainOrderAppend(log: seq<Delivery>, turn: seq<Delivery>, index: map<Actor, nat>, a: Actor, now: Time)
    requires InChainOrder(log, index, now) && DeliveredTo(turn, a, now) && a in index
    requires log != [] ==> index[log[|log| - 1].actor] <= index[a]
    ensures InChainOrder(log + turn, index, now)
    ensures log + turn != [] ==> index[(log + turn)[|log + turn| - 1].actor] <= index[a]
  {
    var all := log + turn;
    forall i, j | 0 <= i < j < |all|
      ensures index[all[i].actor] <= index[all[j].actor]
    {
      if j < |log| {
        assert all[i] == log[i] && all[j] == log[j];
      } else if i < |log| {
        assert all[i] == log[i] && all[j] == turn[j - |log|];
        if i < |log| - 1 {
          assert index[log[i].actor] <= index[log[|log| - 1].actor];
        }
      } else {
        assert all[i] == turn[i - |log|] && all[j] == turn[j - |log|];
      }
    }
    forall i | 0 <= i < |all|
      ensures all[i].actor in index && all[i].notBefore <= now
    {
      if i < |log| {
        assert all[i] == log[i];
      } else {
        assert all[i] == turn[i - |log|];
      }
    }
    if turn != [] {
      assert all[|all| - 1] == turn[|turn| - 1];
    } else if log != [] {
      assert all[|all| - 1] == log[|log| - 1];
    }
  }

  lemma AppendAssoc<T>(a: seq<T>, b: seq<T>, c: seq<T>)
    ensures a + (b + c) == (a + b) + c
  {
  }

  /** begin(): the first event of a list, or end() (null) when it is empty. */
  function Begin(box: seq<Event>): Event?
  {
    if box == [] then null else box[0]
  }

  /** An actor's Events list: empty until something is placed in it. */
  function MailOf(mail: map<Actor, seq<Event>>, a: Actor): seq<Event>
  {
    if a in mail then mail[a] else []
  }

  lemma UpdateTwice(mail: map<Actor, seq<Event>>, a: Actor, b: seq<Event>, c: seq<Event>)
    ensures MailOf(mail[a := b], a) == b && mail[a := b][a := c] == mail[a := c]
  {
  }

  /** The lists after a request is placed: Send and Resend append to the
      recipient's list, the *Immediate pair prepends, and no other list
      changes. */
  function Post(mail: map<Actor, seq<Event>>, r: Request): (m: map<Actor, seq<Event>>)
    ensures m.Keys == mail.Keys + {r.recipient}
    ensures forall a :: a in mail && a != r.recipient ==> m[a] == mail[a]
    ensures |m[r.recipient]| == |MailOf(mail, r.recipient)| + 1
    ensures (r.Send? || r.Resend?) ==> m[r.recipient] == MailOf(mail, r.recipient) + [r.ev]
    ensures (r.SendImmediate? || r.ResendImmediate?) ==> m[r.recipient] == [r.ev] + MailOf(mail, r.recipient)
  {
    var b := MailOf(mail, r.recipient);
    mail[r.recipient := if r.Send? || r.Resend? then b + [r.ev] else [r.ev] + b]
  }

  /** The lists after a whole outbox is placed, request by request. */
  function PostAll(mail: map<Actor, seq<Event>>, out: seq<Request>): (m: map<Actor, seq<Event>>)
    decreases |out|
  {
    if out == [] then mail else PostAll(Post(mail, out[0]), out[1..])
  }

  /** Placing an outbox adds exactly its events to the lists: every list
      grows by the number of requests addressed to it. */
  lemma {:induction false} PostAllSizes(mail: map<Actor, seq<Event>>, out: seq<Request>, a: Actor)
    ensures |MailOf(PostAll(mail, out), a)| == |MailOf(mail, a)| + Addressed(out, a)
    decreases |out|
  {
    if out != [] {
      PostAllSizes(Post(mail, out[0]), out[1..], a);
    }
  }

  /** The number of requests of an outbox addressed to `a`. */
  function Addressed(out: seq<Request>, a: Actor): nat
    decreases |out|
  {
    if out == [] then 0 else (if out[0].recipient == a then 1 else 0) + Addressed(out[1..], a)
  }

  /** An outbox none of whose requests is addressed to `a` adds nothing
      to `a`'s list. */
  lemma {:induction false} AddressedNone(out: seq<Request>, a: Actor)
    requires forall i :: 0 <= i < |out| ==> out[i].recipient != a
    ensures Addressed(out, a) == 0
    decreases |out|
  {
    if out != [] {
      AddressedNone(out[1..], a);
    }
  }

  /** Placing an outbox leaves `a`'s list as it was exactly when no
      request of it is addressed to `a`. */
  lemma {:induction false} PostAllElsewhere(mail: map<Actor, seq<Event>>, out: seq<Request>, a: Actor)
    ensures MailOf(PostAll(mail, out), a) == MailOf(mail, a) <==> Addressed(out, a) == 0
    decreases |out|
  {
    PostAllSizes(mail, out, a);
    if out != [] {
      PostAllElsewhere(Post(mail, out[0]), out[1..], a);
    }
  }

  /** How long one visit leaves `a`'s list `box`: a head that goes back
      keeps the length; a handled head leaves, and each request of its
      outbox addressed to `a` adds one; none is when `a` is not among the
      handler's targets. */
  lemma CountVisit(m0: map<Actor, seq<Event>>, m: map<Actor, seq<Event>>, a: Actor, box: seq<Event>,
                   popped: Event, due: bool, out: seq<Request>, targets: set<Actor>)
    requires box != []
    requires !due ==> m == m0[a := box[1..] + [popped]] && out == []
    requires due ==> m == PostAll(m0[a := box[1..]], out)
    requires forall i :: 0 <= i < |out| ==> out[i].recipient in targets
    ensures |MailOf(m, a)| + (if due then 1 else 0) == |box| + Addressed(out, a)
    ensures a !in targets ==> Addressed(out, a) == 0
  {
    if due {
      PostAllSizes(m0[a := box[1..]], out, a);
    }
    if a !in targets {
      AddressedNone(out, a);
    }
  }

  /** An actor's list as `PassModel` sees it: each event with its
      NotBefore, in list order. */
  ghost function Entries(box: seq<Event>): (r: seq<PassModel.Entry<Event>>)
    reads box
    ensures |r| == |box|
    ensures forall i :: 0 <= i < |box| ==> r[i] == PassModel.Entry(box[i], box[i].notBefore)
  {
    if box == [] then [] else [PassModel.Entry(box[0], box[0].notBefore)] + Entries(box[1..])
  }

  /** The handler calls of a turn as `PassModel` sees them: each event with
      the NotBefore it had when it was handed over. */
  ghost function TurnEntries(turn: seq<Delivery>): (r: seq<PassModel.Entry<Event>>)
    ensures |r| == |turn|
    ensures forall i :: 0 <= i < |turn| ==> r[i] == PassModel.Entry(turn[i].ev, turn[i].notBefore)
  {
    if turn == [] then [] else [PassModel.Entry(turn[0].ev, turn[0].notBefore)] + TurnEntries(turn[1..])
  }

  lemma TurnEntriesAppend(turn: seq<Delivery>, more: seq<Delivery>)
    ensures TurnEntries(turn + more) == TurnEntries(turn) + TurnEntries(more)
  {
    assert TurnEntries(turn + more) == TurnEntries(turn) + TurnEntries(more);
  }

  /** One visit of `Run`'s inner loop as `PassModel` sees it: `entries`
      are the events of `box` with the NotBefore they had before the visit;
      the head is popped and either handed over or sent to the back,
      giving the list `after`; every other event keeps its NotBefore; and
      what is left of `Pass` is then one pop further on. */
  lemma PopMirrored(entries: seq<PassModel.Entry<Event>>, box: seq<Event>, after: seq<Event>, now: Time,
                    start: seq<PassModel.Entry<Event>>, budget: nat, turn0: seq<Delivery>,
                    handled: seq<Delivery>, a: Actor, end: Event?, due: bool, fuel: nat, left: nat)
    requires box != [] && left == fuel - 1 && |entries| == |box|
    requires forall i :: 0 <= i < |box| ==> entries[i].key == box[i]
    requires forall i :: 0 <= i < |box| && (i > 0 || !due) ==> box[i].notBefore == entries[i].notBefore
    requires PassModel.Pass(false, now, start, Ownership.None, [], budget)
             == PassModel.Pass(false, now, entries, Ownership.None, TurnEntries(turn0), fuel)
    requires due == !(now < entries[0].notBefore)
    requires handled == (if due then [Delivery(a, box[0], entries[0].notBefore)] else [])
    requires after == (if due then box[1..] else box[1..] + [box[0]])
    requires end == (if !due && box[1..] == [] then box[0] else null)
    ensures PassModel.Pass(false, now, start, Ownership.None, [], budget)
         == PassModel.Pass(false, now, Entries(after),
                           if end == null then Ownership.None else PassModel.Begin(Entries(after)),
                           TurnEntries(turn0 + handled), left)
  {
    var done := TurnEntries(turn0);
    PassModel.PassPop(false, now, entries, done, fuel);
    TurnEntriesAppend(turn0, handled);
    if due {
      assert Entries(after) == entries[1..];
      assert TurnEntries(handled) == [entries[0]];
    } else {
      assert Entries(after) == entries[1..] + [entries[0]];
      assert TurnEntries(handled) == [] && TurnEntries(turn0 + handled) == done;
    }
  }

  /** Where `Run`'s inner loop leaves the turn, as `PassModel` sees it:
      the list is empty or holds only the boundary, and `Pass` is done; or
      the head is not the boundary and no pops are left (`exhausted`), and
      `Pass` runs out of fuel. */
  lemma PassAtExit(now: Time, start: seq<PassModel.Entry<Event>>, budget: nat, box: seq<Event>, end: Event?,
                   turn: seq<Delivery>, fuel: nat, exhausted: bool)
    requires PassModel.Pass(false, now, start, Ownership.None, [], budget)
             == PassModel.Pass(false, now, Entries(box),
                               if end == null then Ownership.None else PassModel.Begin(Entries(box)),
                               TurnEntries(turn), fuel)
    requires exhausted ==> box != [] && end == null && fuel == 0
    requires !exhausted ==> box == (if end == null then [] else [end])
    ensures PassModel.Pass(false, now, start, Ownership.None, [], budget)
         == if exhausted then PassModel.OutOfFuel else PassModel.Done(Entries(box), TurnEntries(turn))
  {
  }

  /** Why one actor's turn of `Run` ended: its list ran dry, the head was
      the boundary, a handler changed the head, or the visits allowed ran
      out. */
  datatype Stop = Drained | AtBoundary | HeadChanged | OutOfBudget

  /** Every queued event is in the list of the actor `owner` names and in
      no other, and at most once there: a TEvent has one `Next` link. */
  ghost predicate Owns(mail: map<Actor, seq<Event>>, owner: map<Event, Actor>)
  {
    && (forall a, e :: a in mail && e in mail[a] ==> e in owner && owner[e] == a)
    && (forall e :: e in owner ==> owner[e] in mail && e in mail[owner[e]])
    && (forall a :: a in mail ==> NoDuplicates(mail[a]))
  }

  /** An event no list holds, placed at either end of one list, keeps
      ownership exact. */
  lemma OwnsAdd(mail: map<Actor, seq<Event>>, owner: map<Event, Actor>, r: Actor, ev: Event, front: bool)
    requires Owns(mail, owner) && ev !in owner
    ensures var b := MailOf(mail, r);
      Owns(mail[r := if front then [ev] + b else b + [ev]], owner[ev := r])
  {
    var b := MailOf(mail, r);
    assert ev !in b;
    if front {
      NoDuplicatesInsert(b, 0, ev);
      assert b[..0] + [ev] + b[0..] == [ev] + b;
    } else {
      NoDuplicatesInsert(b, |b|, ev);
      assert b[..|b|] + [ev] + b[|b|..] == b + [ev];
    }
  }

  /** The head of a list, taken out of it, is owned by no one. */
  lemma OwnsTake(mail: map<Actor, seq<Event>>, owner: map<Event, Actor>, r: Actor)
    requires Owns(mail, owner) && r in mail && mail[r] != []
    ensures Owns(mail[r := mail[r][1..]], owner - {mail[r][0]})
    ensures mail[r][0] !in mail[r][1..]
  {
    var b := mail[r];
    NoDuplicatesTakeHead(b);
    var m, o := mail[r := b[1..]], owner - {b[0]};
    assert b[0] in owner && owner[b[0]] == r by { assert b[0] in mail[r]; }
    forall a, e | a in m && e in m[a]
      ensures e in o && o[e] == a
    {
      if a == r {
        assert e in b;
      } else {
        assert e in mail[a];
      }
    }
    forall e | e in o
      ensures o[e] in m && e in m[o[e]]
    {
      if owner[e] == r {
        var k :| 0 <= k < |b| && b[k] == e;
        assert b[1..][k - 1] == e;
      }
    }
  }

  /** Ownership is exact and every queued event carries its type's fields. */
  ghost predicate Mailboxes(mail: map<Actor, seq<Event>>, owner: map<Event, Actor>)
  {
    Owns(mail, owner) && forall e :: e in owner ==> Typed(e)
  }

  /** Taking the head of a list keeps the mailboxes exact, and the head
      was queued, in that list only, with its type's fields. */
  lemma MailboxesTake(mail: map<Actor, seq<Event>>, owner: map<Event, Actor>, r: Actor)
    requires Mailboxes(mail, owner) && r in mail && mail[r] != []
    ensures Mailboxes(mail[r := mail[r][1..]], owner - {mail[r][0]})
    ensures mail[r][0] in owner && Typed(mail[r][0])
    ensures (owner - {mail[r][0]}).Keys + {mail[r][0]} == owner.Keys
  {
    OwnsTake(mail, owner, r);
    assert mail[r][0] in mail[r];
  }

  /** The owner of every event after a whole outbox is placed. */
  ghost function OwnAll(owner: map<Event, Actor>, out: seq<Request>): map<Event, Actor>
    decreases |out|
  {
    if out == [] then owner else OwnAll(owner[out[0].ev := out[0].recipient], out[1..])
  }

  /** The events an outbox carries. */
  function Carried(out: seq<Request>): set<Event>
  {
    set i | 0 <= i < |out| :: out[i].ev
  }

  lemma CarriedCons(out: seq<Request>)
    requires out != []
    ensures Carried(out) == {out[0].ev} + Carried(out[1..])
  {
    forall e | e in Carried(out)
      ensures e in {out[0].ev} + Carried(out[1..])
    {
      var i :| 0 <= i < |out| && out[i].ev == e;
      if i > 0 { assert out[1..][i - 1].ev == e; }
    }
    forall e | e in Carried(out[1..])
      ensures e in Carried(out)
    {
      var i :| 0 <= i < |out[1..]| && out[1..][i].ev == e;
      assert out[i + 1].ev == e;
    }
  }

  /** Placing one typed event no list holds keeps the mailboxes exact. */
  lemma MailboxesPost(mail: map<Actor, seq<Event>>, owner: map<Event, Actor>, r: Request)
    requires Mailboxes(mail, owner) && r.ev !in owner && Typed(r.ev)
    ensures Mailboxes(Post(mail, r), owner[r.ev := r.recipient])
  {
    OwnsAdd(mail, owner, r.recipient, r.ev, r.SendImmediate? || r.ResendImmediate?);
  }

  /** Placing a whole outbox of typed events, none held by a list and none
      repeated, keeps the mailboxes exact, and queues exactly the outbox's
      events besides the ones already queued. */
  lemma {:induction false} MailboxesPostAll(mail: map<Actor, seq<Event>>, owner: map<Event, Actor>, out: seq<Request>)
    requires Mailboxes(mail, owner) && NoDuplicates(EventsOf(out))
    requires forall i :: 0 <= i < |out| ==> out[i].ev !in owner && Typed(out[i].ev)
    ensures Mailboxes(PostAll(mail, out), OwnAll(owner, out))
    decreases |out|
  {
    if out != [] {
      MailboxesPost(mail, owner, out[0]);
      var o := owner[out[0].ev := out[0].recipient];
      forall i | 0 <= i < |out[1..]|
        ensures out[1..][i].ev !in o
      {
        NoDuplicatesDistinct(EventsOf(out), 0, i + 1);
      }
      assert EventsOf(out[1..]) == EventsOf(out)[1..];
      MailboxesPostAll(Post(mail, out[0]), o, out[1..]);
    }
  }

  /** Placing a whole outbox queues exactly the events it carries on top
      of those already queued. */
  lemma {:induction false} OwnAllKeys(owner: map<Event, Actor>, out: seq<Request>)
    ensures OwnAll(owner, out).Keys == owner.Keys + Carried(out)
    decreases |out|
  {
    if out != [] {
      OwnAllKeys(owner[out[0].ev := out[0].recipient], out[1..]);
      CarriedCons(out);
    }
  }

  /** TActorLib with its chain of registered actors. */
  class Lib {
    /** Actors: the head of the chain linked through NextActor. */
    var actors: Actor?
    /** The chain in registration order. */
    ghost var chain: seq<Actor>
    /** The position of every registered actor in `chain`. */
    ghost var index: map<Actor, nat>
    /** The class of every registered actor. */
    var kinds: map<Actor, Kind>
    /** Every actor's Events list that has ever been given an event. */
    var mail: map<Actor, seq<Event>>
    /** The actor whose list holds each queued event. */
    ghost var owner: map<Event, Actor>
    /** The LED and serial-port handlers of registered actors. */
    ghost var leds: set<Led.LedActor>
    ghost var serials: set<Serial.SerialActor>
    /** Every handler call `Run` has made. */
    ghost var deliveries: seq<Delivery>

    /** Every event held by some list. */
    ghost function Queued(): set<Event>
      reads this`owner
    {
      owner.Keys
    }

    /** The objects the registered actors' handlers change. */
    ghost function Handlers(): set<object>
      reads this`index, this`kinds
    {
      set a, o | a in index && a in kinds && o in HandlerRepr(kinds[a]) :: o
    }

    /** `Actors` and the NextActor links spell out `chain`, once each. */
    ghost predicate ChainOk()
      reads this`chain, this`index, this`actors, chain`nextActor
    {
      && (forall i :: 0 <= i < |chain| ==> chain[i] in index && index[chain[i]] == i)
      && (forall a :: a in index ==> index[a] < |chain| && chain[index[a]] == a)
      && actors == (if chain == [] then null else chain[0])
      && (forall i {:trigger chain[i].nextActor} :: 0 <= i < |chain| ==>
            chain[i].nextActor == (if i + 1 < |chain| then chain[i + 1] else null))
    }

    /** Every queued event sits once in exactly one list and carries its
        type's fields. */
    ghost predicate MailboxesOk()
      reads this`mail, this`owner
    {
      Mailboxes(mail, owner)
    }

    /** Actor `a`'s handler is `a` itself, and a handler that keeps an
        invariant (the LED and the serial port) keeps it. */
    ghost predicate HandlerOk(a: Actor)
      reads this`kinds, this`leds, this`serials, leds`led, leds`pin, serials`buffer
    {
      && a in kinds && Self(kinds[a]) == a
      && (kinds[a].LedKind? ==> kinds[a].led in leds && kinds[a].led.Valid())
      && (kinds[a].SerialKind? ==> kinds[a].serial in serials && kinds[a].serial.Valid())
    }

    /** Every registered actor's handler is in order. */
    ghost predicate HandlersOk()
      reads this`index, this`kinds, this`leds, this`serials, leds`led, leds`pin, serials`buffer
    {
      forall a :: a in index ==> HandlerOk(a)
    }

    ghost predicate Valid()
      reads this, chain, leds, serials
    {
      ChainOk() && MailboxesOk() && HandlersOk()
    }

    constructor ()
      ensures Valid() && chain == [] && kinds == map[] && mail == map[] && deliveries == []
    {
      actors := null;
      chain := [];
      index := map[];
      kinds := map[];
      mail := map[];
      owner := map[];
      leds := {};
      serials := {};
      deliveries := [];
    }

    /** `recipient->Events.push_front(event)` or `push_back(event)`. */
    method Place(recipient: Actor, ev: Event, front: bool)
      modifies this`mail, this`owner
      ensures mail == old(mail)[recipient :=
        if front then [ev] + old(MailOf(mail, recipient)) else old(MailOf(mail, recipient)) + [ev]]
      ensures owner == old(owner)[ev := recipient]
    {
      var box := MailOf(mail, recipient);
      if front {
        mail := mail[recipient := [ev] + box];
      } else {
        mail := mail[recipient := box + [ev]];
      }
      owner := owner[ev := recipient];
    }

    /** TActorLib::Send: stamps the sender and appends. */
    method Send(sender: Actor, recipient: Actor, ev: Event)
      modifies this`mail, this`owner, ev`sender
      ensures ev.sender == sender
      ensures mail == Post(old(mail), Request.Send(sender, recipient, ev))
      ensures owner == old(owner)[ev := recipient]
    {
      ev.sender := sender;
      Place(recipient, ev, false);
    }

    /** TActorLib::SendImmediate: stamps the sender and prepends. */
    method SendImmediate(sender: Actor, recipient: Actor, ev: Event)
      modifies this`mail, this`owner, ev`sender
      ensures ev.sender == sender
      ensures mail == Post(old(mail), Request.SendImmediate(sender, recipient, ev))
      ensures owner == old(owner)[ev := recipient]
    {
      ev.sender := sender;
      Place(recipient, ev, true);
    }

    /** TActorLib::Resend: appends, keeping the sender. */
    method Resend(recipient: Actor, ev: Event)
      modifies this`mail, this`owner
      ensures mail == Post(old(mail), Request.Resend(recipient, ev))
      ensures owner == old(owner)[ev := recipient]
    {
      Place(recipient, ev, false);
    }

    /** TActorLib::ResendImmediate: prepends, keeping the sender. */
    method ResendImmediate(recipient: Actor, ev: Event)
      modifies this`mail, this`owner
      ensures mail == Post(old(mail), Request.ResendImmediate(recipient, ev))
      ensures owner == old(owner)[ev := recipient]
    {
      Place(recipient, ev, true);
    }

    /** `events.pop_value(itEvent)` with `itEvent` at begin(): the head
        leaves the list, owned by no one, and `itEvent` moves to the new
        head. */
    method Take(a: Actor) returns (ev: Event, itEvent: Event?)
      requires MailboxesOk() && MailOf(mail, a) != []
      modifies this`mail, this`owner
      ensures MailboxesOk()
      ensures ev == old(MailOf(mail, a))[0] && mail == old(mail)[a := old(MailOf(mail, a))[1..]]
      ensures owner == old(owner) - {ev} && owner.Keys + {ev} == old(owner).Keys
      ensures ev !in owner && Typed(ev)
      ensures itEvent == Begin(mail[a])
    {
      ev := mail[a][0];
      MailboxesTake(mail, owner, a);
      mail, owner := mail[a := mail[a][1..]], owner - {ev};
      itEvent := Begin(mail[a]);
    }

    /** One request handed to the runtime: TActorContext forwards it to
        the TActorLib call of the same name. */
    method Hand(r: Request)
      modifies this`mail, this`owner, r.ev`sender
      ensures mail == Post(old(mail), r) && owner == old(owner)[r.ev := r.recipient]
      ensures r.ev.sender == Stamp(r, old(r.ev.sender))
    {
      match r
      case Send(s, t, e) => Send(s, t, e);
      case SendImmediate(s, t, e) => SendImmediate(s, t, e);
      case Resend(t, e) => Resend(t, e);
      case ResendImmediate(t, e) => ResendImmediate(t, e);
    }

    /** The sender an event has once the runtime took request `r` for it:
        Send and SendImmediate stamp it, Resend and ResendImmediate keep
        the sender it had. */
    static function Stamp(r: Request, prev: Actor?): (s: Actor?)
      ensures r.Send? || r.SendImmediate? ==> s == r.sender
      ensures r.Resend? || r.ResendImmediate? ==> s == prev
    {
      if r.Send? || r.SendImmediate? then r.sender else prev
    }

    /** The requests a handler made, handed to the runtime in the order it
        made them; no event is handed twice. */
    method Apply(out: seq<Request>)
      requires NoDuplicates(EventsOf(out))
      modifies this`mail, this`owner, Carried(out)`sender
      ensures mail == PostAll(old(mail), out) && owner == OwnAll(old(owner), out)
      ensures forall i :: 0 <= i < |out| ==> out[i].ev.sender == Stamp(out[i], old(out[i].ev.sender))
      decreases |out|
    {
      if out != [] {
        Hand(out[0]);
        forall j | 0 <= j < |out[1..]|
          ensures out[1..][j].ev != out[0].ev
        {
          NoDuplicatesDistinct(EventsOf(out), 0, j + 1);
        }
        assert EventsOf(out[1..]) == EventsOf(out)[1..];
        CarriedCons(out);
        Apply(out[1..]);
      }
    }

    /** The walk of TActorLib::Register: from `Actors` along the NextActor
        links to the last actor, which is linked to the new one (or the new
        one becomes `Actors`). */
    method LinkLast(actor: Actor)
      requires ChainOk() && actor !in index && actor.nextActor == null
      modifies this`actors, this`chain, this`index, chain`nextActor
      ensures ChainOk() && chain == old(chain) + [actor] && index == old(index)[actor := |old(chain)|]
    {
      if actors == null {
        actors := actor;
      } else {
        var itActor := actors;
        ghost var k := 0;
        while itActor.nextActor != null
          invariant k < |chain| && itActor == chain[k]
          decreases |chain| - k
        {
          itActor := itActor.nextActor;
          k := k + 1;
        }
        itActor.nextActor := actor;
      }
      index := index[actor := |chain|];
      chain := chain + [actor];
    }

    /** The handler of an actor about to be registered, recorded. */
    method Enroll(actor: Actor, kind: Kind)
      requires HandlersOk() && actor !in index && Self(kind) == actor && HandlerValid(kind)
      modifies this`kinds, this`leds, this`serials
      ensures HandlersOk() && HandlerOk(actor) && kinds == old(kinds)[actor := kind]
    {
      kinds := kinds[actor := kind];
      if kind.LedKind? {
        leds := leds + {kind.led};
      } else if kind.SerialKind? {
        serials := serials + {kind.serial};
      }
    }

    /** The TEventBootstrap every actor is sent, from itself, when it is
        registered. */
    method Bootstrap(actor: Actor) returns (ghost b: Event)
      requires Valid()
      modifies this`mail, this`owner
      ensures Valid()
      ensures fresh(b) && b.id == BootstrapId && b.sender == actor
      ensures mail == Post(old(mail), Request.Send(actor, actor, b)) && owner == old(owner)[b := actor]
    {
      var bootstrap := new Event(BootstrapId, Zero, [], NoPayload);
      MailboxesPost(mail, owner, Request.Send(actor, actor, bootstrap));
      Send(actor, actor, bootstrap);
      b := bootstrap;
    }

    /** TActorLib::Register: links the actor at the end of the chain, then
        sends it a TEventBootstrap from itself. The watchdog is left out. */
    method Register(actor: Actor, kind: Kind) returns (ghost b: Event)
      requires Valid() && actor !in index && actor.nextActor == null
      requires Self(kind) == actor && HandlerValid(kind)
      modifies this`actors, this`chain, this`index, this`kinds, this`leds, this`serials
      modifies this`mail, this`owner, chain`nextActor
      ensures Valid()
      ensures chain == old(chain) + [actor] && kinds == old(kinds)[actor := kind]
      ensures fresh(b) && b.id == BootstrapId && b.sender == actor
      ensures mail == Post(old(mail), Request.Send(actor, actor, b)) && owner == old(owner)[b := actor]
    {
      Admit(actor, kind);
      b := Bootstrap(actor);
    }

    /** The actor and its handler recorded, and linked at the end of the
        chain; no list changes. */
    method Admit(actor: Actor, kind: Kind)
      requires Valid() && actor !in index && actor.nextActor == null
      requires Self(kind) == actor && HandlerValid(kind)
      modifies this`actors, this`chain, this`index, this`kinds, this`leds, this`serials
      modifies chain`nextActor
      ensures Valid()
      ensures chain == old(chain) + [actor] && kinds == old(kinds)[actor := kind]
    {
      ghost var registered := index;
      Enroll(actor, kind);
      LinkLast(actor);
      assert HandlerOk(actor);
      assert forall a :: a in registered ==> HandlerOk(a);
    }

    /** `itActor->OnEvent(event, context)` for a registered actor: its
        handler keeps its own invariant and the runtime's state is not
        touched. */
    method Handle(a: Actor, ev: Event, now: Time) returns (out: seq<Request>)
      requires Valid() && a in index && ev !in owner && Typed(ev)
      modifies HandlerRepr(kinds[a]), ev`notBefore, ev`data
      ensures Valid() && WellFormedOutbox(out, ev, Targets(kinds[a]))
    {
      out := Dispatch(kinds[a], ev, now);
    }

    /** The requests a handler made, placed in the lists: a well-formed
        outbox keeps the mailboxes exact. */
    method HandOut(out: seq<Request>)
      requires Valid() && NoDuplicates(EventsOf(out))
      requires forall i :: 0 <= i < |out| ==> out[i].ev !in owner && Typed(out[i].ev)
      modifies this`mail, this`owner, Carried(out)`sender
      ensures Valid() && owner.Keys == old(owner).Keys + Carried(out)
      ensures mail == PostAll(old(mail), out)
    {
      MailboxesPostAll(mail, owner, out);
      OwnAllKeys(owner, out);
      Apply(out);
    }

    /** `itActor->OnEvent(event, context)` followed by the requests the
        handler made, each handed to the runtime as it was made. */
    method Deliver(a: Actor, ev: Event, now: Time) returns (ghost born: set<Event>, ghost out: seq<Request>)
      requires Valid() && a in index && ev !in owner && Typed(ev)
      modifies this`mail, this`owner, this`deliveries, HandlerRepr(kinds[a])
      modifies ev`notBefore, ev`data, ev`sender
      ensures Valid()
      ensures deliveries == old(deliveries) + [Delivery(a, ev, old(ev.notBefore))]
      ensures WellFormedOutbox(out, ev, Targets(kinds[a])) && mail == PostAll(old(mail), out)
      ensures forall e: Event :: old(allocated(e)) && e != ev ==> e.notBefore == old(e.notBefore)
      ensures fresh(born) && owner.Keys <= old(owner).Keys + {ev} + born
    {
      deliveries := deliveries + [Delivery(a, ev, ev.notBefore)];
      var requests := Handle(a, ev, now);
      forall i | 0 <= i < |requests|
        ensures requests[i].ev !in owner && Typed(requests[i].ev)
      {
      }
      born, out := Carried(requests) - {ev}, requests;
      HandOut(requests);
    }

    /** `events.push_back(event)` of an event taken from the list: it goes
        back to the end. */
    method Defer(a: Actor, ev: Event) returns (itEnd: Event?)
      requires Valid() && ev !in owner && Typed(ev)
      modifies this`mail, this`owner
      ensures Valid() && owner == old(owner)[ev := a]
      ensures mail == old(mail)[a := old(MailOf(mail, a)) + [ev]]
      ensures itEnd == (if old(MailOf(mail, a)) == [] then ev else null)
    {
      itEnd := if MailOf(mail, a) == [] then ev else null;
      MailboxesPost(mail, owner, Request.Resend(a, ev));
      Place(a, ev, false);
    }

    /** The body of the inner loop of TActorLib::Run for an event `ev`
        just taken from actor `a`'s list: if it is not due yet (`Now <
        NotBefore`) it goes back to the end of the list, `itEnd` is the
        iterator push_back returns (the event only when the list was empty,
        end() otherwise), and `minSleep` drops to its wait; otherwise
        `minSleep` becomes zero, the event goes to the handler, recorded in
        `handled`, and the requests the handler made, `out`, are placed.
        No event's NotBefore changes but the handled one's. */
    method Settle(a: Actor, ev: Event, now: Time, minSleep0: Time)
      returns (minSleep: Time, due: bool, itEnd: Event?, ghost handled: seq<Delivery>, ghost born: set<Event>,
               ghost out: seq<Request>)
      requires Valid() && a in index && ev !in owner && Typed(ev)
      modifies this`mail, this`owner, this`deliveries, HandlerRepr(kinds[a])
      modifies ev`notBefore, ev`data, ev`sender
      ensures Valid()
      ensures due == !(now < old(ev.notBefore))
      ensures handled == (if due then [Delivery(a, ev, old(ev.notBefore))] else [])
      ensures deliveries == old(deliveries) + handled && DeliveredTo(handled, a, now)
      ensures minSleep <= minSleep0 && (handled != [] ==> minSleep == Zero)
      ensures !due ==> minSleep <= Sub(ev.notBefore, now) && (minSleep == minSleep0 || minSleep == Sub(ev.notBefore, now))
      ensures due == (handled != [])
      ensures !due ==> mail == old(mail)[a := old(MailOf(mail, a)) + [ev]] && out == []
      ensures due ==> WellFormedOutbox(out, ev, Targets(kinds[a])) && mail == PostAll(old(mail), out)
      ensures itEnd == (if !due && old(MailOf(mail, a)) == [] then ev else null)
      ensures forall e: Event :: old(allocated(e)) && (e != ev || !due) ==> e.notBefore == old(e.notBefore)
      ensures fresh(born) && owner.Keys <= old(owner).Keys + {ev} + born
    {
      if now < ev.notBefore {
        var sleep := Sub(ev.notBefore, now);
        minSleep := if minSleep0 > sleep then sleep else minSleep0;
        itEnd := Defer(a, ev);
        due, handled, born, out := false, [], {}, [];
      } else {
        minSleep, due, itEnd := Zero, true, null;
        handled := [Delivery(a, ev, ev.notBefore)];
        born, out := Deliver(a, ev, now);
      }
    }

    /** One pass of the inner loop of TActorLib::Run over actor `a`'s
        list: `pop_value` takes the head, `popped`, moving `itEvent` to the
        next event, and the event is settled: a head that is not due goes
        to the back of the list, and a due one is handed over while every
        other event keeps its NotBefore. */
    method Visit(a: Actor, now: Time, minSleep0: Time)
      returns (minSleep: Time, itEvent: Event?, due: bool, itEnd: Event?, ghost popped: Event,
               ghost handled: seq<Delivery>, ghost born: set<Event>, ghost out: seq<Request>)
      requires Valid() && a in index && MailOf(mail, a) != []
      modifies this`mail, this`owner, this`deliveries, Handlers()
      modifies Queued()`notBefore, Queued()`data, Queued()`sender
      ensures Valid()
      ensures popped == old(MailOf(mail, a))[0] && popped !in old(MailOf(mail, a))[1..]
      ensures itEvent == Begin(old(MailOf(mail, a))[1..])
      ensures due == !(now < old(popped.notBefore))
      ensures handled == (if due then [Delivery(a, popped, old(popped.notBefore))] else [])
      ensures deliveries == old(deliveries) + handled && DeliveredTo(handled, a, now)
      ensures minSleep <= minSleep0 && (handled != [] ==> minSleep == Zero)
      ensures due == (handled != [])
      ensures !due ==> mail == old(mail)[a := old(MailOf(mail, a))[1..] + [popped]] && out == []
      ensures due ==> mail == PostAll(old(mail)[a := old(MailOf(mail, a))[1..]], out)
      ensures |MailOf(mail, a)| + |handled| == |old(MailOf(mail, a))| + Addressed(out, a)
      ensures a !in Targets(kinds[a]) ==> Addressed(out, a) == 0
      ensures forall e: Event :: old(allocated(e)) && (e != popped || !due) ==> e.notBefore == old(e.notBefore)
      ensures !due && itEvent != null ==> itEvent == Begin(MailOf(mail, a))
      ensures itEnd == (if !due && old(MailOf(mail, a))[1..] == [] then popped else null)
      ensures itEnd != null ==> itEvent == null && MailOf(mail, a) == [itEnd]
      ensures fresh(born) && owner.Keys <= old(owner).Keys + born
    {
      ghost var keys, box := owner.Keys, MailOf(mail, a);
      NoDuplicatesTakeHead(box);
      var ev;
      ev, itEvent := Take(a);
      assert owner.Keys + {ev} <= keys;
      minSleep, due, itEnd, handled, born, out := Settle(a, ev, now, minSleep0);
      popped := ev;
      if !due {
        UpdateTwice(old(mail), a, box[1..], box[1..] + [ev]);
      }
      CountVisit(old(mail), mail, a, box, popped, due, out, Targets(kinds[a]));
    }

    /** Where actor `a`'s turn stands between two visits: `itEvent` is the
        head of its list, with no boundary recorded yet, or end() when the
        list is empty or holds only the boundary `end`. While the handlers
        have posted nothing to `a` (`selfPosts` is zero), what is left of
        the turn is what is left of `PassModel.Pass` as written, run from
        the list's entries at the start of the turn, `start`, with `budget`
        pops: `fuel` pops remain and `turn` holds the handler calls made. */
    ghost predicate Turning(a: Actor, now: Time, start: seq<PassModel.Entry<Event>>, budget: nat,
                            itEvent: Event?, end: Event?, turn: seq<Delivery>, selfPosts: nat, fuel: nat)
      reads this, MailOf(mail, a)
    {
      && (itEvent != null ==> itEvent == Begin(MailOf(mail, a)) && end == null)
      && (itEvent == null ==> MailOf(mail, a) == (if end == null then [] else [end]))
      && (selfPosts == 0 ==>
            PassModel.Pass(false, now, start, Ownership.None, [], budget)
            == PassModel.Pass(false, now, Entries(MailOf(mail, a)),
                              if end == null then Ownership.None else PassModel.Begin(Entries(MailOf(mail, a))),
                              TurnEntries(turn), fuel))
    }

    /** What the handlers have posted to `a` during its turn so far:
        `selfPosts` requests were addressed to `a`, so its list, of `size`
        events at the start of the turn, is as long as that plus those
        posts less the events handed over, `turn`; an actor whose kind
        never sends to itself (`a` is not among its `targets`) has posted
        nothing to itself. */
    ghost predicate Counted(a: Actor, size: nat, targets: set<Actor>, turn: seq<Delivery>, selfPosts: nat)
      reads this
    {
      && |MailOf(mail, a)| + |turn| == size + selfPosts
      && (a !in targets ==> selfPosts == 0)
    }

    /** One iteration of the inner loop of TActorLib::Run: `Visit` the
        head; an event that went back becomes the boundary `end` when none
        is recorded yet; a handled event whose handler changed the head of
        the list stops the turn (`changed`, the `break`). Without a stop,
        the turn stands as `Turning` says, one pop further on; `selfPosts`
        adds the requests the handler addressed to `a`. */
    method Round(a: Actor, now: Time, minSleep0: Time, itEvent0: Event?, end0: Event?,
                 ghost start: seq<PassModel.Entry<Event>>, ghost budget: nat, ghost log: seq<Delivery>,
                 ghost turn0: seq<Delivery>, ghost size: nat, ghost targets: set<Actor>, ghost selfPosts0: nat, fuel: nat)
      returns (minSleep: Time, itEvent: Event?, end: Event?, changed: bool, left: nat,
               ghost turn: seq<Delivery>, ghost born: set<Event>, ghost selfPosts: nat)
      requires Valid() && a in index && itEvent0 != null && fuel > 0
      requires deliveries == log + turn0 && DeliveredTo(turn0, a, now)
      requires Turning(a, now, start, budget, itEvent0, end0, turn0, selfPosts0, fuel)
      requires Counted(a, size, targets, turn0, selfPosts0) && targets == Targets(kinds[a])
      modifies this`mail, this`owner, this`deliveries, Handlers()
      modifies Queued()`notBefore, Queued()`data, Queued()`sender
      ensures Valid()
      ensures deliveries == log + turn && DeliveredTo(turn, a, now) && turn0 <= turn
      ensures minSleep <= minSleep0 && (turn != turn0 ==> minSleep == Zero)
      ensures fresh(born) && owner.Keys <= old(owner).Keys + born
      ensures selfPosts >= selfPosts0 && Counted(a, size, targets, turn, selfPosts)
      ensures changed ==> turn != turn0 && selfPosts > 0 && end == null
      ensures left == fuel - 1
      ensures !changed ==> Turning(a, now, start, budget, itEvent, end, turn, selfPosts, left)
    {
      ghost var box, entries := MailOf(mail, a), Entries(MailOf(mail, a));
      var due, itEnd;
      ghost var popped, handled, out;
      minSleep, itEvent, due, itEnd, popped, handled, born, out := Visit(a, now, minSleep0);
      turn := turn0 + handled;
      AppendAssoc(log, turn0, handled);
      DeliveredToAppend(turn0, handled, a, now);
      selfPosts := selfPosts0 + Addressed(out, a);
      end, changed, left := end0, false, fuel - 1;
      if !due {
        if end0 == null {
          end := itEnd;
        }
      } else {
        UpdateTwice(old(mail), a, box[1..], box[1..]);
        PostAllElsewhere(old(mail)[a := box[1..]], out, a);
        changed := itEvent != Begin(MailOf(mail, a));
      }
      if !changed && selfPosts == 0 {
        forall i | 0 < i < |box|
          ensures box[i] != popped
        {
          assert box[1..][i - 1] == box[i];
        }
        PopMirrored(entries, box, MailOf(mail, a), now, start, budget, turn0, handled, a, end, due, fuel, left);
      }
    }

    /** The inner loop of TActorLib::Run for actor `a`: `Round` after
        `Round` while the head is neither end() nor the boundary `end`, and
        until a handler changes the head of the list (`changed`), or after
        `budget` visits. Without that stop, the turn stands as `Turning`
        says, from the entries `start` of the list before the loop, with
        the head at end() or no pops left. */
    method Rounds(a: Actor, now: Time, minSleep0: Time, budget: nat, ghost start: seq<PassModel.Entry<Event>>,
                  ghost targets: set<Actor>)
      returns (minSleep: Time, itEvent: Event?, end: Event?, changed: bool, fuel: nat,
               ghost turn: seq<Delivery>, ghost born: set<Event>, ghost selfPosts: nat)
      requires Valid() && a in index && start == Entries(MailOf(mail, a)) && targets == Targets(kinds[a])
      modifies this`mail, this`owner, this`deliveries, Handlers()
      modifies Queued()`notBefore, Queued()`data, Queued()`sender
      ensures Valid()
      ensures deliveries == old(deliveries) + turn && DeliveredTo(turn, a, now)
      ensures minSleep <= minSleep0 && (turn != [] ==> minSleep == Zero)
      ensures fresh(born) && owner.Keys <= old(owner).Keys + born
      ensures Counted(a, |start|, targets, turn, selfPosts)
      ensures changed ==> turn != [] && selfPosts > 0 && end == null
      ensures !changed ==> Turning(a, now, start, budget, itEvent, end, turn, selfPosts, fuel)
      ensures !changed ==> itEvent == null || fuel == 0
    {
      minSleep, turn, born, selfPosts := minSleep0, [], {}, 0;
      end := null;
      itEvent := Begin(MailOf(mail, a));
      fuel := budget;
      changed := false;
      while itEvent != null && itEvent != end && fuel > 0
        invariant Valid() && !changed
        invariant deliveries == old(deliveries) + turn && DeliveredTo(turn, a, now)
        invariant minSleep <= minSleep0 && (turn != [] ==> minSleep == Zero)
        invariant fresh(owner.Keys - old(owner).Keys)
        invariant Turning(a, now, start, budget, itEvent, end, turn, selfPosts, fuel)
        invariant Counted(a, |start|, targets, turn, selfPosts)
        decreases fuel
      {
        ghost var more;
        minSleep, itEvent, end, changed, fuel, turn, more, selfPosts :=
          Round(a, now, minSleep, itEvent, end, start, budget, old(deliveries), turn, |start|, targets, selfPosts, fuel);
        if changed {
          break;
        }
      }
      born := owner.Keys - old(owner).Keys;
    }

    /** One actor's turn of TActorLib::Run: `Rounds` until the
        list is exhausted, or the head is the first event that went back to
        the end (the end of the pass), or the handler changed the head of
        the list; `stop` says which. The turn also ends after `budget`
        visits. As written, the boundary `end` is whatever push_back
        returned for the first event that went back, which is that event
        only when it was alone in the list: `boundary`, the value `end` had
        at the end of the turn, is then that lone event and the pass was
        over anyway, so the boundary never ends a pass early. When the
        handlers post nothing to `a` during the turn (`selfPosts`, the
        number of requests addressed to `a`, is zero: the list ends as long
        as it started less the events handed over, and that is always so
        for an actor whose kind never sends to itself), the turn is
        `PassModel.Pass` as written, run on the entries of the list: the
        same events are handed over in the same order, and the list is left
        the same. */
    method RunActor(a: Actor, now: Time, minSleep0: Time, budget: nat)
      returns (minSleep: Time, ghost turn: seq<Delivery>, ghost born: set<Event>, ghost boundary: Event?,
               ghost stop: Stop, ghost selfPosts: nat)
      requires Valid() && a in index
      modifies this`mail, this`owner, this`deliveries, Handlers()
      modifies Queued()`notBefore, Queued()`data, Queued()`sender
      ensures Valid()
      ensures deliveries == old(deliveries) + turn && DeliveredTo(turn, a, now)
      ensures minSleep <= minSleep0 && (turn != [] ==> minSleep == Zero)
      ensures fresh(born) && owner.Keys <= old(owner).Keys + born
      ensures boundary != null ==> MailOf(mail, a) == [boundary]
      ensures stop.Drained? ==> MailOf(mail, a) == [] && boundary == null
      ensures stop.AtBoundary? ==> boundary != null
      ensures stop.HeadChanged? ==> turn != [] && selfPosts > 0 && boundary == null
      ensures stop.OutOfBudget? ==> MailOf(mail, a) != [] && boundary == null
      ensures |MailOf(mail, a)| + |turn| == |old(MailOf(mail, a))| + selfPosts
      ensures a !in Targets(kinds[a]) ==> selfPosts == 0
      ensures selfPosts == 0 ==>
        PassModel.Pass(false, now, old(Entries(MailOf(mail, a))), Ownership.None, [], budget)
        == (if stop.OutOfBudget? then PassModel.OutOfFuel
            else PassModel.Done(Entries(MailOf(mail, a)), TurnEntries(turn)))
      ensures selfPosts == 0 && |PassModel.Waiting(old(Entries(MailOf(mail, a))), now)| <= 1
              && budget > |old(MailOf(mail, a))| ==>
        && !stop.OutOfBudget?
        && Entries(MailOf(mail, a)) == PassModel.Waiting(old(Entries(MailOf(mail, a))), now)
        && TurnEntries(turn) == PassModel.Due(old(Entries(MailOf(mail, a))), now)
      ensures selfPosts == 0 && |old(MailOf(mail, a))| >= 2
              && (forall x :: x in old(Entries(MailOf(mail, a))) ==> now < x.notBefore)
              ==> stop.OutOfBudget?
    {
      var itEvent, end, changed, fuel;
      ghost var start, targets := Entries(MailOf(mail, a)), Targets(kinds[a]);
      minSleep, itEvent, end, changed, fuel, turn, born, selfPosts := Rounds(a, now, minSleep0, budget, start, targets);
      boundary := end;
      stop := if changed then HeadChanged else if itEvent != null then OutOfBudget
              else if end == null then Drained else AtBoundary;
      if selfPosts == 0 && !changed {
        PassAtExit(now, start, budget, MailOf(mail, a), end, turn, fuel, itEvent != null);
      }
      if selfPosts == 0 {
        if |PassModel.Waiting(start, now)| <= 1 && budget > |start| {
          PassModel.PassEndsWithOneWaiting(now, start, budget);
        }
        if |start| >= 2 && forall x :: x in start ==> now < x.notBefore {
          PassModel.PassSpins(now, start, [], budget);
        }
      }
    }

    /** The body of the outer loop of TActorLib::Run for the k-th actor of
        the chain: its turn, then `itActor = itActor->NextActor`. The
        deliveries made so far, `log`, stay in registration order. */
    method Turn(itActor: Actor, ghost k: nat, now: Time, minSleep0: Time, budget: nat,
                ghost base: seq<Delivery>, ghost log0: seq<Delivery>)
      returns (minSleep: Time, next: Actor?, ghost log: seq<Delivery>, ghost born: set<Event>)
      requires Valid() && k < |chain| && itActor == chain[k]
      requires deliveries == base + log0 && InChainOrder(log0, index, now)
      requires log0 != [] ==> index[log0[|log0| - 1].actor] < k
      requires log0 != [] ==> minSleep0 == Zero
      modifies this`mail, this`owner, this`deliveries, Handlers()
      modifies Queued()`notBefore, Queued()`data, Queued()`sender
      ensures Valid() && next == (if k + 1 < |chain| then chain[k + 1] else null)
      ensures deliveries == base + log && InChainOrder(log, index, now)
      ensures log != [] ==> index[log[|log| - 1].actor] < k + 1
      ensures log != [] ==> minSleep == Zero
      ensures fresh(born) && owner.Keys <= old(owner).Keys + born
    {
      ghost var turn;
      ghost var after := itActor.nextActor;
      assert after == if k + 1 < |chain| then chain[k + 1] else null;
      ghost var boundary, stop, selfPosts;
      minSleep, turn, born, boundary, stop, selfPosts := RunActor(itActor, now, minSleep0, budget);
      InChainOrderAppend(log0, turn, index, itActor, now);
      AppendAssoc(base, log0, turn);
      log := log0 + turn;
      next := itActor.nextActor;
    }

    /** TActorLib::Run: every registered actor, in registration order, gets
        one turn; the time is sampled once, before the first. Returns the
        shortest wait of the events put back, or zero once an event was
        handled. */
    method Run(now: Time, budget: nat) returns (minSleep: Time, ghost log: seq<Delivery>, ghost born: set<Event>)
      requires Valid()
      modifies this`mail, this`owner, this`deliveries, Handlers()
      modifies Queued()`notBefore, Queued()`data, Queued()`sender
      ensures Valid()
      ensures deliveries == old(deliveries) + log && InChainOrder(log, index, now)
      ensures log != [] ==> minSleep == Zero
      ensures fresh(born) && owner.Keys <= old(owner).Keys + born
    {
      minSleep, log, born := Max, [], {};
      var itActor := actors;
      ghost var k := 0;
      while itActor != null
        invariant Valid()
        invariant k <= |chain| && itActor == (if k < |chain| then chain[k] else null)
        invariant deliveries == old(deliveries) + log && InChainOrder(log, index, now)
        invariant log != [] ==> index[log[|log| - 1].actor] < k
        invariant log != [] ==> minSleep == Zero
        invariant fresh(born) && owner.Keys <= old(owner).Keys + born
        decreases |chain| - k
      {
        ghost var more;
        minSleep, itActor, log, more := Turn(itActor, k, now, minSleep, budget, old(deliveries), log);
        assert fresh(more);
        born := born + more;
        k := k + 1;
      }
    }
  }
}
