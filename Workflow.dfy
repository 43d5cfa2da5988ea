/** The event and actor vocabulary of the runtime: TEvent with its intrusive
    `Next` link, the mailbox TList<TUniquePtr<TEvent>>, TActor, and the four
    ways a handler hands an event back to the runtime (TActorContext). */
module Workflow {
  import opened Time

  /** TEventBootstrap::EventID and TEventReceive::EventID. */
  const BootstrapId: nat := 0
  const ReceiveId: nat := 1

  /** The per-type fields of the event structs other than TEventSerialData's
      `Data`, which handlers change in place and is therefore a field. */
  datatype Payload =
    | NoPayload
      /** TEventLedBlink::Period. */
    | BlinkPeriod(period: Time)
      /** TEventSensorData: the sensor's name, the value's name and the raw
          integer reading it refers to. */
    | SensorReading(source: string, name: string, value: int)
      /** TEventSensorMessage: the sensor's name and what the message says. */
    | SensorMessage(source: string, message: Message)

  /** The texts the sensors format with StringStream. */
  datatype Message =
    | ProbeSucceeded(address: nat)
    | ErrorCount(errors: nat)

  /** TEventLedOn, TEventLedOff and TEventLedBlink EventIDs. */
  const LedOnId: nat := 3
  const LedOffId: nat := 4
  const LedBlinkId: nat := 5

  /** TEventSensorData::EventID and TEventSensorMessage::EventID. */
  const SensorDataId: nat := 6
  const SensorMessageId: nat := 7

  /** A sensor publishing a reading: `context.Send(this, Owner, new
      TEventSensorData(Sensor, value))`. */
  ghost predicate ReadingRequest(r: Request, self: Actor, owner: Actor, source: string, name: string, value: int)
    reads r.ev
  {
    r.Send? && r.sender == self && r.recipient == owner
    && r.ev.id == SensorDataId && r.ev.payload == SensorReading(source, name, value)
  }

  /** A sensor reporting to its owner: `context.Send(this, Owner, new
      TEventSensorMessage(Sensor, message))`. */
  ghost predicate MessageRequest(r: Request, self: Actor, owner: Actor, source: string, message: Message)
    reads r.ev
  {
    r.Send? && r.sender == self && r.recipient == owner
    && r.ev.id == SensorMessageId && r.ev.payload == SensorMessage(source, message)
  }

  /** TEvent: a mailbox node. `next` is the TItemBase::Next owning link. */
  class Event {
    const id: nat
    var notBefore: Time
    var sender: Actor?
    var next: Event?
    var data: seq<char>
    const payload: Payload

    /** `new TEvent...`: NotBefore defaults to TTime() (zero); Sender is not
        initialised by the source and is modelled as null. */
    constructor (id: nat, notBefore: Time, data: seq<char>, payload: Payload)
      ensures this.id == id && this.notBefore == notBefore
      ensures this.data == data && this.payload == payload
      ensures sender == null && next == null
    {
      this.id := id;
      this.notBefore := notBefore;
      this.data := data;
      this.payload := payload;
      sender := null;
      next := null;
    }
  }

  /** The link that follows position i of a well-formed chain. */
  function NextOf(items: seq<Event>, i: nat): Event?
  {
    if i + 1 < |items| then items[i + 1] else null
  }

  /** The first position of x in s. */
  function IndexOf<T(==)>(s: seq<T>, x: T): (i: nat)
    requires x in s
    ensures i < |s| && s[i] == x && x !in s[..i]
  {
    if s[0] == x then 0 else 1 + IndexOf(s[1..], x)
  }

  /** s without its i-th element. */
  function RemoveAt<T>(s: seq<T>, i: nat): (r: seq<T>)
    requires i < |s|
    ensures |r| == |s| - 1
  {
    s[..i] + s[i + 1..]
  }

  /** No element of s occurs twice in it. */
  ghost predicate NoDuplicates<T>(s: seq<T>)
  {
    forall i, j :: 0 <= i < j < |s| ==> s[i] != s[j]
  }

  lemma NoDuplicatesDistinct<T>(s: seq<T>, i: nat, j: nat)
    requires NoDuplicates(s) && i < |s| && j < |s| && i != j
    ensures s[i] != s[j]
  {
    if j < i {
      assert s[j] != s[i];
    }
  }

  /** A sequence without repeats, its head taken off, is a sequence
      without repeats that no longer holds the head. */
  lemma NoDuplicatesTakeHead<T>(b: seq<T>)
    requires NoDuplicates(b) && b != []
    ensures NoDuplicates(b[1..]) && b[0] !in b[1..]
  {
    NoDuplicatesRemove(b, 0);
    assert b[..0] + b[1..] == b[1..];
    forall j | 0 <= j < |b[1..]|
      ensures b[1..][j] != b[0]
    {
      assert b[1..][j] == b[j + 1];
    }
  }

  lemma NoDuplicatesInsert<T>(s: seq<T>, k: nat, x: T)
    requires NoDuplicates(s) && k <= |s| && x !in s
    ensures NoDuplicates(s[..k] + [x] + s[k..])
  {
    var u := s[..k] + [x] + s[k..];
    assert forall i :: 0 <= i < k ==> u[i] == s[i];
    assert forall i :: k < i < |u| ==> u[i] == s[i - 1];
  }

  lemma NoDuplicatesRemove<T>(s: seq<T>, k: nat)
    requires NoDuplicates(s) && k < |s|
    ensures NoDuplicates(s[..k] + s[k + 1..])
  {
    var u := s[..k] + s[k + 1..];
    assert forall i :: 0 <= i < k ==> u[i] == s[i];
    assert forall i :: k <= i < |u| ==> u[i] == s[i + 1];
  }

  /** Inserting x after position k of a duplicate-free chain that lacks x:
      the nodes before and after keep their order, and none of them is the
      k-th node or x. */
  lemma InsertAfter<T>(s: seq<T>, k: nat, x: T, t: seq<T>)
    requires NoDuplicates(s) && k < |s| && x !in s && t == s[..k + 1] + [x] + s[k + 1..]
    ensures NoDuplicates(t) && |t| == |s| + 1 && t[k + 1] == x
    ensures forall i :: 0 <= i <= k ==> t[i] == s[i]
    ensures forall i :: k + 1 < i < |t| ==> t[i] == s[i - 1]
    ensures forall i :: 0 <= i < |t| && i != k && i != k + 1 ==> t[i] != s[k] && t[i] != x
  {
    NoDuplicatesInsert(s, k + 1, x);
    assert forall i :: k + 1 < i < |t| ==> t[i] == s[i - 1];
  }

  lemma RemoveAfter<T>(s: seq<T>, k: nat, t: seq<T>)
    requires NoDuplicates(s) && k + 1 < |s| && t == s[..k + 1] + s[k + 2..]
    ensures NoDuplicates(t) && |t| == |s| - 1
    ensures forall i :: 0 <= i <= k ==> t[i] == s[i]
    ensures forall i :: k < i < |t| ==> t[i] == s[i + 1]
    ensures forall i :: 0 <= i < |t| && i != k ==> t[i] != s[k] && t[i] != s[k + 1]
  {
    RemoveAfterShape(s, k, t);
    NoDuplicatesRemove(s, k + 1);
    forall i | 0 <= i < |t| && i != k
      ensures t[i] != s[k] && t[i] != s[k + 1]
    {
      var j := if i < k then i else i + 1;
      NoDuplicatesDistinct(s, j, k);
      NoDuplicatesDistinct(s, j, k + 1);
    }
  }

  lemma RemoveAfterShape<T>(s: seq<T>, k: nat, t: seq<T>)
    requires k + 1 < |s| && t == s[..k + 1] + s[k + 2..]
    ensures |t| == |s| - 1
    ensures forall i :: 0 <= i <= k ==> t[i] == s[i]
    ensures forall i :: k < i < |t| ==> t[i] == s[i + 1]
  {
    forall i | k < i < |t|
      ensures t[i] == s[i + 1]
    {
      assert t[i] == s[k + 2..][i - k - 1];
    }
  }

  /** TList<TUniquePtr<TEvent>>: a singly linked list owned through `Begin`
      and the `Next` links. `items` is the chain from `begin`. */
  class EventList {
    var begin: Event?
    ghost var items: seq<Event>

    /** The nodes the list owns. */
    ghost function Repr(): set<Event>
      reads this`items
    {
      set e | e in items
    }

    ghost predicate Valid()
      reads this`begin, this`items, Repr()`next
    {
      && NoDuplicates(items)
      && begin == (if items == [] then null else items[0])
      && (forall i {:trigger items[i].next} :: 0 <= i < |items| ==> items[i].next == NextOf(items, i))
    }

    constructor ()
      ensures Valid() && items == []
    {
      begin := null;
      items := [];
    }

    /** empty(): begin() == end(). */
    function Empty(): (r: bool)
      reads this`begin, this`items, Repr()`next
      requires Valid()
      ensures r <==> items == []
    {
      begin == null
    }

    /** size(): counts the nodes by walking from begin() to end(). */
    method Size() returns (s: nat)
      requires Valid()
      ensures s == |items|
    {
      s := 0;
      var it := begin;
      while it != null
        invariant s <= |items|
        invariant it == (if s < |items| then items[s] else null)
        decreases |items| - s
      {
        it := it.next;
        s := s + 1;
      }
    }

    /** insert(it, item). At begin() (which is also end() for an empty list)
        the item becomes the head and begin() is returned. Otherwise the list
        is walked for the node `it` (or for the end when `it` is end()) and
        the item is linked in before it; the iterator returned is `it`
        itself, so a push_back onto a non-empty list returns end(). An `it`
        that is not in the list inserts nothing and returns end(). */
    method Insert(it: Event?, item: Event) returns (r: Event?)
      requires Valid() && item !in items
      modifies this`begin, this`items, Repr()`next, item`next
      ensures Valid()
      ensures it == old(begin) ==> items == [item] + old(items) && r == item
      ensures it != old(begin) && it == null ==> items == old(items) + [item] && r == null
      ensures it != old(begin) && it in old(items) ==>
        items == old(items)[..IndexOf(old(items), it)] + [item] + old(items)[IndexOf(old(items), it)..]
        && r == it
      ensures it != old(begin) && it != null && it !in old(items) ==> items == old(items) && r == null
    {
      if it == begin {
        LinkHead(item);
        return item;
      }
      if begin == null {
        return null;
      }
      // it != begin(): walk for the node whose successor is `it`
      var prev := begin;
      ghost var k := 0;
      while prev.next != it && prev.next != null
        invariant k < |items| && prev == items[k]
        invariant forall j :: 0 <= j <= k ==> items[j] != it
        decreases |items| - k
      {
        prev := prev.next;
        k := k + 1;
      }
      if prev.next == it {
        assert it != null ==> IndexOf(items, it) == k + 1;
        LinkAfter(prev, k, item);
        return it;
      }
      r := null;
    }

    /** `item->Next = Begin; Begin = item`. */
    method LinkHead(item: Event)
      requires Valid() && item !in items
      modifies this`begin, this`items, item`next
      ensures Valid() && items == [item] + old(items)
    {
      item.next := begin;
      begin := item;
      items := [item] + items;
      forall i | 1 <= i < |items|
        ensures items[i].next == NextOf(items, i)
      {
        assert items[i] == old(items)[i - 1];
      }
    }

    /** Links `item` in after the k-th node `prev`:
        `item->Next = prev->Next; prev->Next = item`. */
    method LinkAfter(prev: Event, ghost k: nat, item: Event)
      requires Valid() && k < |items| && prev == items[k] && item !in items
      modifies this`items, prev`next, item`next
      ensures Valid()
      ensures items == old(items)[..k + 1] + [item] + old(items)[k + 1..]
    {
      ghost var s := items;
      ghost var t := s[..k + 1] + [item] + s[k + 1..];
      InsertAfter(s, k, item, t);
      item.next := prev.next;
      prev.next := item;
      items := t;
      forall i | 0 <= i < k
        ensures t[i].next == NextOf(t, i)
      {
        assert t[i].next == old(s[i].next);
      }
      forall i | k + 1 < i < |t|
        ensures t[i].next == NextOf(t, i)
      {
        assert t[i].next == old(s[i - 1].next);
      }
    }

    /** push_back(item) = insert(end(), item). */
    method PushBack(item: Event) returns (r: Event?)
      requires Valid() && item !in items
      modifies this`begin, this`items, Repr()`next, item`next
      ensures Valid() && items == old(items) + [item]
      ensures r == if old(items) == [] then item else null
    {
      r := Insert(null, item);
    }

    /** push_front(item) = insert(begin(), item). */
    method PushFront(item: Event) returns (r: Event?)
      requires Valid() && item !in items
      modifies this`begin, this`items, Repr()`next, item`next
      ensures Valid() && items == [item] + old(items) && r == item
    {
      r := Insert(begin, item);
    }

    /** pop_value(it): unlink the node `it` and hand it over, with its `Next`
        cleared, and move `it` to the node that followed it. A node that is
        not in the list yields null and changes nothing. (`it` must not be
        end(): the source dereferences the node it finds.) */
    method PopValue(it: Event) returns (value: Event?, itOut: Event?)
      requires Valid()
      modifies this`begin, this`items, Repr()`next
      ensures Valid()
      ensures it in old(items) ==>
        && value == it && it.next == null
        && items == RemoveAt(old(items), IndexOf(old(items), it))
        && itOut == NextOf(old(items), IndexOf(old(items), it))
      ensures it !in old(items) ==> value == null && itOut == it && items == old(items)
    {
      if it == begin {
        value := UnlinkHead();
        return value, begin;
      }
      if begin == null {
        return null, it;
      }
      var prev := begin;
      ghost var k := 0;
      while prev.next != it && prev.next != null
        invariant k < |items| && prev == items[k]
        invariant forall j :: 0 <= j <= k ==> items[j] != it
        decreases |items| - k
      {
        prev := prev.next;
        k := k + 1;
      }
      if prev.next == it {
        assert IndexOf(items, it) == k + 1;
        value := UnlinkAfter(prev, k);
        return value, prev.next;
      }
      value, itOut := null, it;
    }

    /** `value(Begin); Begin = value->Next`. */
    method UnlinkHead() returns (value: Event)
      requires Valid() && items != []
      modifies this`begin, this`items, begin`next
      ensures Valid() && value == old(items)[0] && value.next == null
      ensures items == old(items)[1..] && begin == NextOf(old(items), 0)
    {
      ghost var s := items;
      value := begin;
      begin := value.next;
      value.next := null;
      items := items[1..];
      forall i | 0 <= i < |items|
        ensures items[i].next == NextOf(items, i)
      {
        NoDuplicatesDistinct(s, 0, i + 1);
        assert items[i] == s[i + 1];
      }
    }

    /** Unlinks the node after the k-th node `prev` and hands it over:
        `value(prev->Next); prev->Next = value->Next`. */
    method UnlinkAfter(prev: Event, ghost k: nat) returns (value: Event)
      requires Valid() && k + 1 < |items| && prev == items[k]
      modifies this`items, prev`next, prev.next`next
      ensures Valid()
      ensures value == old(items)[k + 1] && value.next == null
      ensures prev.next == NextOf(old(items), k + 1)
      ensures items == RemoveAt(old(items), k + 1)
    {
      ghost var s := items;
      ghost var t := s[..k + 1] + s[k + 2..];
      RemoveAfter(s, k, t);
      NoDuplicatesDistinct(s, k, k + 1);
      value := prev.next;
      prev.next := value.next;
      value.next := null;
      items := t;
      forall i | 0 <= i < k
        ensures t[i].next == NextOf(t, i)
      {
        assert t[i].next == old(s[i].next);
      }
      forall i | k < i < |t|
        ensures t[i].next == NextOf(t, i)
      {
        assert t[i].next == old(s[i + 1].next);
      }
      assert t[k].next == old(s[k + 1].next) == NextOf(s, k + 1);
    }

    /** erase(it): unlink and destroy the node `it` and return the node that
        followed it; a node that is not in the list changes nothing and
        yields end(). The destroyed node's `Next` is cleared before it is
        deleted. (`it` must not be end(): the source dereferences it.) */
    method Erase(it: Event) returns (r: Event?)
      requires Valid()
      modifies this`begin, this`items, Repr()`next
      ensures Valid()
      ensures it in old(items) ==>
        && items == RemoveAt(old(items), IndexOf(old(items), it)) && it.next == null
        && r == NextOf(old(items), IndexOf(old(items), it))
      ensures it !in old(items) ==> r == null && items == old(items)
    {
      var value, itOut := PopValue(it);
      r := if value == null then null else itOut;
    }

    /** pop_front() = erase(begin()), on a non-empty list. */
    method PopFront() returns (r: Event?)
      requires Valid() && items != []
      modifies this`begin, this`items, Repr()`next
      ensures Valid() && items == old(items)[1..] && r == begin
    {
      r := Erase(begin);
    }
  }

  /** TActor: its link in the registration chain. Its `Events` list is
      kept by the runtime, keyed by the actor (ActorLib.Lib.mail). */
  class Actor {
    var nextActor: Actor?

    constructor ()
      ensures nextActor == null
    {
      nextActor := null;
    }
  }

  /** The four TActorContext calls a handler makes, in the order it makes
      them: Send and SendImmediate stamp `Sender`, the Resend pair does not;
      the *Immediate pair places the event at the head of the mailbox. */
  datatype Request =
    | Send(sender: Actor, recipient: Actor, ev: Event)
    | SendImmediate(sender: Actor, recipient: Actor, ev: Event)
    | Resend(recipient: Actor, ev: Event)
    | ResendImmediate(recipient: Actor, ev: Event)

  /** The events of an outbox, in order. */
  function EventsOf(out: seq<Request>): (r: seq<Event>)
    ensures |r| == |out|
    ensures forall i :: 0 <= i < |out| ==> r[i] == out[i].ev
  {
    if out == [] then [] else [out[0].ev] + EventsOf(out[1..])
  }

  lemma EventsOfAppend(out: seq<Request>, r: Request)
    ensures EventsOf(out + [r]) == EventsOf(out) + [r.ev]
  {
    assert EventsOf(out + [r]) == EventsOf(out) + [r.ev];
  }

  lemma NoDuplicatesAppend<T>(s: seq<T>, x: T)
    requires NoDuplicates(s) && x !in s
    ensures NoDuplicates(s + [x])
  {
    NoDuplicatesInsert(s, |s|, x);
    assert s[..|s|] + [x] + s[|s|..] == s + [x];
  }

  /** The event struct an id stands for carries that struct's fields: a
      handler's static_cast on the id relies on it. */
  predicate Typed(e: Event)
  {
    && (e.id == LedBlinkId ==> e.payload.BlinkPeriod?)
    && (e.id == SensorDataId ==> e.payload.SensorReading?)
    && (e.id == SensorMessageId ==> e.payload.SensorMessage?)
  }

  /** An outbox a handler may return for the event `ev` it was given: every
      event in it is `ev` or a well-typed one the handler created, none
      appears twice (each is owned by exactly one TUniquePtr), and every
      recipient is one of the actors the handler knows. */
  twostate predicate WellFormedOutbox(new out: seq<Request>, ev: Event, targets: set<Actor>)
  {
    && (forall i :: 0 <= i < |out| ==> out[i].ev == ev || (fresh(out[i].ev) && Typed(out[i].ev)))
    && NoDuplicates(EventsOf(out))
    && (forall i :: 0 <= i < |out| ==> out[i].recipient in targets)
  }
}
