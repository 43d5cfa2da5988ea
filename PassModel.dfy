/** One actor's turn of TActorLib::Run, on values: the actor's Events list
    is a sequence of entries, each with its identity and its NotBefore, and
    the handler takes every due event and posts nothing back to this list.
    The turn pops the head, delivers it when due and otherwise pushes it
    back to the end, and stops at the end of the list or at the boundary
    `end`, the first event that went back.

    TList::push_back returns `insert(end(), item)`, and insert's walk
    returns the iterator it was given, so on a list that still holds
    something push_back returns end(), not the new item. Run then records a
    boundary only for an event that went back to an empty list: two events
    that are not due yet go round for ever (`PassSpins`), while with at
    most one of them the turn still ends (`PassEndsWithOneWaiting`).
    `Pass` takes `fixed` to choose between that push_back and one that
    returns the item; `PassDrains` proves the second visits every entry
    once. */
module PassModel {
  import opened Time
  import opened Ownership
  import Workflow

  datatype Entry<K> = Entry(key: K, notBefore: Time)

  /** How a turn ends: the list and the delivered events, in order, or not
      within the number of pops allowed. */
  datatype Outcome<K> = Done(box: seq<Entry<K>>, delivered: seq<Entry<K>>) | OutOfFuel

  /** The entries that are not due at `now`, in list order. */
  function Waiting<K(==)>(box: seq<Entry<K>>, now: Time): seq<Entry<K>>
  {
    if box == [] then []
    else (if now < box[0].notBefore then [box[0]] else []) + Waiting(box[1..], now)
  }

  /** The entries that are due at `now`, in list order. */
  function Due<K(==)>(box: seq<Entry<K>>, now: Time): seq<Entry<K>>
  {
    if box == [] then []
    else (if now < box[0].notBefore then [] else [box[0]]) + Due(box[1..], now)
  }

  /** begin() of the list: its head, or end() (None) when it is empty. */
  function Begin<K(==)>(box: seq<Entry<K>>): Option<Entry<K>>
  {
    if box == [] then None else Some(box[0])
  }

  /** The iterator `push_back(e)` returns for list `rest`: as written, the
      new item only when `rest` was empty (the head branch of insert) and
      end() otherwise; fixed, always the new item. */
  function PushedAt<K(==)>(rest: seq<Entry<K>>, e: Entry<K>, fixed: bool): (r: Option<Entry<K>>)
    ensures r == Some(e) || (r == None && !fixed && rest != [])
    ensures fixed || rest == [] ==> r == Some(e)
  {
    if fixed || rest == [] then Some(e) else None
  }

  /** The inner loop of TActorLib::Run over one actor's list `box`, with
      the boundary `end` and the events delivered so far; `fuel` bounds the
      number of pops. */
  function Pass<K(==)>(fixed: bool, now: Time, box: seq<Entry<K>>, end: Option<Entry<K>>,
                delivered: seq<Entry<K>>, fuel: nat): Outcome<K>
    decreases fuel
  {
    if box == [] || Begin(box) == end then Done(box, delivered)
    else if fuel == 0 then OutOfFuel
    else
      var e, rest := box[0], box[1..];
      if now < e.notBefore then
        var itEnd := PushedAt(rest, e, fixed);
        Pass(fixed, now, rest + [e], if end == None then itEnd else end, delivered, fuel - 1)
      else
        Pass(fixed, now, rest, end, delivered + [e], fuel - 1)
  }

  /** Nothing is lost or made up on the way, with either push_back: a
      turn that ends holds in its list and its delivered events the same
      entries as before, and only adds to the delivered ones. */
  lemma {:induction false} PassKeepsEntries<K>(fixed: bool, now: Time, box: seq<Entry<K>>, end: Option<Entry<K>>,
                                             delivered: seq<Entry<K>>, fuel: nat)
    ensures var r := Pass(fixed, now, box, end, delivered, fuel);
      r.Done? ==> (multiset(r.box) + multiset(r.delivered) == multiset(box) + multiset(delivered)
                   && delivered <= r.delivered)
    decreases fuel
  {
    if box != [] && Begin(box) != end && fuel > 0 {
      var e, rest := box[0], box[1..];
      assert box == [e] + rest;
      if now < e.notBefore {
        PassKeepsEntries(fixed, now, rest + [e], if end == None then PushedAt(rest, e, fixed) else end,
                         delivered, fuel - 1);
      } else {
        PassKeepsEntries(fixed, now, rest, end, delivered + [e], fuel - 1);
      }
    }
  }

  /** As written: a list of two or more entries none of which is due never
      ends its turn, however many pops are allowed: each pushed-back entry
      finds the list non-empty, so no boundary is recorded. */
  lemma {:induction false} PassSpins<K>(now: Time, box: seq<Entry<K>>, delivered: seq<Entry<K>>, fuel: nat)
    requires |box| >= 2 && forall e :: e in box ==> now < e.notBefore
    ensures Pass(false, now, box, None, delivered, fuel) == OutOfFuel
    decreases fuel
  {
    if fuel > 0 {
      var e, rest := box[0], box[1..];
      assert PushedAt(rest, e, false) == None;
      forall x | x in rest + [e]
        ensures now < x.notBefore
      {
        if x in rest {
          assert x in box;
        }
      }
      PassSpins(now, rest + [e], delivered, fuel - 1);
    }
  }

  /** The smallest input that shows it: two events, both due at time 2,
      looked at at time 1. */
  lemma TwoWaitingEventsSpin()
    ensures Pass(false, 1, [Entry(0, 2), Entry(1, 2)], None, [], 1000) == OutOfFuel
  {
    PassSpins(1, [Entry(0, 2), Entry(1, 2)], [], 1000);
  }

  /** One pop of a waiting head: it goes to the end of the list. */
  lemma PassWaitStep<K>(fixed: bool, now: Time, e: Entry<K>, rest: seq<Entry<K>>, end: Option<Entry<K>>,
                     delivered: seq<Entry<K>>, fuel: nat)
    requires Some(e) != end && fuel > 0 && now < e.notBefore
    ensures Pass(fixed, now, [e] + rest, end, delivered, fuel)
         == Pass(fixed, now, rest + [e], if end == None then PushedAt(rest, e, fixed) else end, delivered, fuel - 1)
  {
    assert ([e] + rest)[1..] == rest;
  }

  /** One pop of a due head: it is delivered. */
  lemma PassDueStep<K>(fixed: bool, now: Time, e: Entry<K>, rest: seq<Entry<K>>, end: Option<Entry<K>>,
                    delivered: seq<Entry<K>>, fuel: nat)
    requires Some(e) != end && fuel > 0 && e.notBefore <= now
    ensures Pass(fixed, now, [e] + rest, end, delivered, fuel)
         == Pass(fixed, now, rest, end, delivered + [e], fuel - 1)
  {
    assert ([e] + rest)[1..] == rest;
  }

  /** One pop of a list whose head is not the boundary, with no boundary
      recorded yet: a waiting head goes to the back, a due one is
      delivered. */
  lemma PassPop<K>(fixed: bool, now: Time, box: seq<Entry<K>>, delivered: seq<Entry<K>>, fuel: nat)
    requires box != [] && fuel > 0
    ensures Pass(fixed, now, box, None, delivered, fuel)
         == if now < box[0].notBefore
            then Pass(fixed, now, box[1..] + [box[0]], PushedAt(box[1..], box[0], fixed), delivered, fuel - 1)
            else Pass(fixed, now, box[1..], None, delivered + [box[0]], fuel - 1)
  {
  }

  lemma WaitingDueCons<K>(e: Entry<K>, rest: seq<Entry<K>>, now: Time)
    ensures Waiting([e] + rest, now) == (if now < e.notBefore then [e] else []) + Waiting(rest, now)
    ensures Due([e] + rest, now) == (if now < e.notBefore then [] else [e]) + Due(rest, now)
  {
    assert ([e] + rest)[1..] == rest;
  }

  /** As written, mid-turn, with at most one entry waiting in the whole
      list: the entries `rest` not visited yet come before `acc`, the
      waiting entry already pushed back if there is one, and no boundary is
      recorded yet. The turn delivers the due entries of `rest` in order
      and leaves the waiting one, within |rest| + 1 pops: the last pop
      takes the waiting entry off a list it is alone in, so push_back
      returns it and it becomes the boundary. */
  lemma {:induction false} PassOneWaitingFrom<K>(now: Time, rest: seq<Entry<K>>, acc: seq<Entry<K>>,
                                               delivered: seq<Entry<K>>, fuel: nat)
    requires forall x :: x in acc ==> now < x.notBefore
    requires |acc| + |Waiting(rest, now)| <= 1 && fuel >= |rest| + 1
    ensures Pass(false, now, rest + acc, None, delivered, fuel)
         == Done(acc + Waiting(rest, now), delivered + Due(rest, now))
    decreases |rest|, 1
  {
    if rest == [] {
      assert rest + acc == acc && delivered + [] == delivered;
      assert Waiting(rest, now) == [] && Due(rest, now) == [];
      if acc != [] {
        assert acc == [acc[0]];
        PassAlone(now, acc[0], delivered, fuel);
      }
    } else if now < rest[0].notBefore {
      PassOneWaitingAt(now, rest, acc, delivered, fuel);
    } else {
      PassOneWaitingDue(now, rest, acc, delivered, fuel);
    }
  }

  /** The step of `PassOneWaitingFrom` when the next entry is the waiting
      one: it goes to the end, and is the boundary only if the list held
      nothing else. */
  lemma {:induction false} PassOneWaitingAt<K>(now: Time, rest: seq<Entry<K>>, acc: seq<Entry<K>>,
                                             delivered: seq<Entry<K>>, fuel: nat)
    requires forall x :: x in acc ==> now < x.notBefore
    requires |acc| + |Waiting(rest, now)| <= 1 && fuel >= |rest| + 1
    requires rest != [] && now < rest[0].notBefore
    ensures Pass(false, now, rest + acc, None, delivered, fuel)
         == Done(acc + Waiting(rest, now), delivered + Due(rest, now))
    decreases |rest|, 0
  {
    var e, r := rest[0], rest[1..];
    assert rest == [e] + r;
    WaitingDueCons(e, r, now);
    assert acc == [] && Waiting(r, now) == [];
    assert rest + acc == [e] + r;
    if r == [] {
      PassAlone(now, e, delivered, fuel);
      assert delivered + [] == delivered;
    } else {
      PassWaitStep(false, now, e, r, None, delivered, fuel);
      PassOneWaitingFrom(now, r, [e], delivered, fuel - 1);
      assert [e] + [] == [e];
    }
  }

  /** As written, a waiting entry alone in its list: push_back after the
      pop sees an empty list, returns the entry, and the turn stops at it. */
  lemma PassAlone<K>(now: Time, e: Entry<K>, delivered: seq<Entry<K>>, fuel: nat)
    requires now < e.notBefore && fuel > 0
    ensures Pass(false, now, [e], None, delivered, fuel) == Done([e], delivered)
  {
    PassWaitStep(false, now, e, [], None, delivered, fuel);
    assert [] + [e] == [e];
  }

  /** The step of `PassOneWaitingFrom` when the next entry is due: it is
      delivered. */
  lemma {:induction false} PassOneWaitingDue<K>(now: Time, rest: seq<Entry<K>>, acc: seq<Entry<K>>,
                                              delivered: seq<Entry<K>>, fuel: nat)
    requires forall x :: x in acc ==> now < x.notBefore
    requires |acc| + |Waiting(rest, now)| <= 1 && fuel >= |rest| + 1
    requires rest != [] && rest[0].notBefore <= now
    ensures Pass(false, now, rest + acc, None, delivered, fuel)
         == Done(acc + Waiting(rest, now), delivered + Due(rest, now))
    decreases |rest|, 0
  {
    var e, r := rest[0], rest[1..];
    assert rest + acc == [e] + (r + acc);
    assert Waiting(rest, now) == Waiting(r, now) && Due(rest, now) == [e] + Due(r, now);
    PassDueStep(false, now, e, r + acc, None, delivered, fuel);
    PassOneWaitingFrom(now, r, acc, delivered + [e], fuel - 1);
    assert delivered + [e] + Due(r, now) == delivered + Due(rest, now);
  }

  /** As written, with at most one entry not due: the turn ends within
      |box| + 1 pops, delivers exactly the due entries in list order and
      leaves the waiting one, if any. */
  lemma PassEndsWithOneWaiting<K>(now: Time, box: seq<Entry<K>>, fuel: nat)
    requires |Waiting(box, now)| <= 1 && fuel > |box|
    ensures Pass(false, now, box, None, [], fuel) == Done(Waiting(box, now), Due(box, now))
  {
    PassOneWaitingFrom(now, box, [], [], fuel);
    assert box + [] == box;
  }

  /** Fixed, mid-turn: the entries `rest` not visited yet come before the
      entries `acc` already pushed back, and the boundary is the first of
      those. The turn then delivers the due entries of `rest` and leaves
      the waiting ones behind `acc`, in order, within |rest| pops. */
  lemma {:induction false} PassDrainsFrom<K>(now: Time, rest: seq<Entry<K>>, acc: seq<Entry<K>>,
                                           end: Option<Entry<K>>, delivered: seq<Entry<K>>, fuel: nat)
    requires Workflow.NoDuplicates(rest) && forall x :: x in rest ==> x !in acc
    requires forall x :: x in acc ==> now < x.notBefore
    requires end == Begin(acc) && fuel >= |rest|
    ensures Pass(true, now, rest + acc, end, delivered, fuel)
         == Done(acc + Waiting(rest, now), delivered + Due(rest, now))
    decreases |rest|, 1
  {
    if rest == [] {
      assert rest + acc == acc && acc + [] == acc && delivered + [] == delivered;
      assert Waiting(rest, now) == [] && Due(rest, now) == [];
    } else if now < rest[0].notBefore {
      PassDrainsWaiting(now, rest, acc, end, delivered, fuel);
    } else {
      PassDrainsDue(now, rest, acc, end, delivered, fuel);
    }
  }

  /** The step of `PassDrainsFrom` when the next entry is waiting: it joins
      the pushed-back entries, and becomes the boundary if it is the first. */
  lemma {:induction false} PassDrainsWaiting<K>(now: Time, rest: seq<Entry<K>>, acc: seq<Entry<K>>,
                                              end: Option<Entry<K>>, delivered: seq<Entry<K>>, fuel: nat)
    requires Workflow.NoDuplicates(rest) && forall x :: x in rest ==> x !in acc
    requires forall x :: x in acc ==> now < x.notBefore
    requires end == Begin(acc) && fuel >= |rest|
    requires rest != [] && now < rest[0].notBefore
    ensures Pass(true, now, rest + acc, end, delivered, fuel)
         == Done(acc + Waiting(rest, now), delivered + Due(rest, now))
    decreases |rest|, 0
  {
    var e, r := rest[0], rest[1..];
    assert rest == [e] + r;
    Workflow.NoDuplicatesTakeHead(rest);
    assert rest + acc == [e] + (r + acc);
    assert e !in acc;
    WaitingDueCons(e, r, now);
    var acc' := acc + [e];
    var end' := if end == None then PushedAt(r + acc, e, true) else end;
    assert r + acc + [e] == r + acc';
    assert end' == Begin(acc');
    PassWaitStep(true, now, e, r + acc, end, delivered, fuel);
    PassDrainsFrom(now, r, acc', end', delivered, fuel - 1);
    assert acc' + Waiting(r, now) == acc + Waiting(rest, now);
    assert Due(rest, now) == Due(r, now);
  }

  /** The step of `PassDrainsFrom` when the next entry is due: it is
      delivered. */
  lemma {:induction false} PassDrainsDue<K>(now: Time, rest: seq<Entry<K>>, acc: seq<Entry<K>>,
                                          end: Option<Entry<K>>, delivered: seq<Entry<K>>, fuel: nat)
    requires Workflow.NoDuplicates(rest) && forall x :: x in rest ==> x !in acc
    requires forall x :: x in acc ==> now < x.notBefore
    requires end == Begin(acc) && fuel >= |rest|
    requires rest != [] && rest[0].notBefore <= now
    ensures Pass(true, now, rest + acc, end, delivered, fuel)
         == Done(acc + Waiting(rest, now), delivered + Due(rest, now))
    decreases |rest|, 0
  {
    var e, r := rest[0], rest[1..];
    assert rest == [e] + r;
    Workflow.NoDuplicatesTakeHead(rest);
    assert rest + acc == [e] + (r + acc);
    assert e !in acc;
    WaitingDueCons(e, r, now);
    assert Waiting(rest, now) == Waiting(r, now);
    assert Due(rest, now) == [e] + Due(r, now);
    PassDueStep(true, now, e, r + acc, end, delivered, fuel);
    PassDrainsFrom(now, r, acc, end, delivered + [e], fuel - 1);
    assert delivered + [e] + Due(r, now) == delivered + Due(rest, now);
  }

  /** Fixed: a turn over a list without repeats ends within |box| pops,
      delivers exactly the due entries in list order, and leaves exactly
      the waiting ones in list order. */
  lemma PassDrains<K>(now: Time, box: seq<Entry<K>>, fuel: nat)
    requires Workflow.NoDuplicates(box) && fuel >= |box|
    ensures Pass(true, now, box, None, [], fuel) == Done(Waiting(box, now), Due(box, now))
  {
    PassDrainsFrom(now, box, [], None, [], fuel);
    assert box + [] == box;
  }
}
