/**
 * The order-event support code of the probabilistic hash-map test: order
 * records, the trivial hashers on order ids, the time ordering of
 * prioritized events, the argument guard of the event generator, and the
 * replay of a sequence of ARRIVE / DEPART events into a map of live orders.
 */
module OrderEvents {
  import opened Bits
  import opened Wrappers

  newtype uint32 = x: int | 0 <= x < 0x1_0000_0000
  newtype uint16 = x: int | 0 <= x < 0x1_0000

  // Unit-safe wrappers: distinct types over the same machine integer.
  datatype SecurityIdType = SecurityIdType(base: uint32)
  datatype OrderIdType = OrderIdType(base: uint32)
  datatype Quantity = Quantity(base: uint32)
  datatype Price = Price(base: uint16)
  datatype TimeUnit = TimeUnit(base: uint32)

  datatype OrderDirection = Sell | Buy

  datatype OrderEvent = Arrive | Depart

  datatype OrderState = OrderState(
    qty: Quantity,
    prc: Price,
    direction: OrderDirection,
    secId: SecurityIdType,
    ordId: OrderIdType,
    clOrdId: OrderIdType)

  /** The record ARRIVE stores: all fields zero (SELL is the zero direction) except the order id. */
  function ArrivedState(id: OrderIdType): (s: OrderState)
    ensures s.ordId == id && s.direction == Sell
    ensures s.qty.base == 0 && s.prc.base == 0 && s.secId.base == 0 && s.clOrdId.base == 0
  {
    OrderState(Quantity(0), Price(0), Sell, SecurityIdType(0), id, OrderIdType(0))
  }

  /** Trivial hash on order ids: the underlying integer, widened to size_t. */
  function Hasher(val: OrderIdType): (h: nat)
    ensures h < SizeTModulus
  {
    val.base as nat
  }

  /** The generic trivial hasher for unit-safe types, at the order-id type. */
  function UnitSafeTrivialHash(val: OrderIdType): (h: nat)
    ensures h < SizeTModulus
  {
    val.base as nat
  }

  /** Both hashers return the underlying integer, so they agree and never collide. */
  lemma HashersExact(a: OrderIdType, b: OrderIdType)
    ensures Hasher(a) == a.base as nat && UnitSafeTrivialHash(a) == a.base as nat
    ensures Hasher(a) == Hasher(b) <==> a == b
    ensures UnitSafeTrivialHash(a) == UnitSafeTrivialHash(b) <==> a == b
  {
  }

  /** A queued event: when it happens, what happens, and to which order. */
  type PrioritizedOrderEvent = (TimeUnit, OrderEvent, OrderIdType)

  /** The priority-queue ordering compares the times only. */
  predicate EventLess(lhs: PrioritizedOrderEvent, rhs: PrioritizedOrderEvent): (r: bool)
    ensures r ==> lhs.0 != rhs.0
  {
    lhs.0.base < rhs.0.base
  }

  /**
   * EventLess is a strict weak order, as a priority queue requires, and
   * events at the same time are equivalent whatever their kind and order id.
   */
  lemma EventLessStrictWeakOrder(a: PrioritizedOrderEvent, b: PrioritizedOrderEvent, c: PrioritizedOrderEvent)
    ensures !EventLess(a, a)
    ensures EventLess(a, b) && EventLess(b, c) ==> EventLess(a, c)
    ensures EventLess(a, b) ==> !EventLess(b, a)
    ensures !EventLess(a, b) && !EventLess(b, a) && !EventLess(b, c) && !EventLess(c, b)
            ==> !EventLess(a, c) && !EventLess(c, a)
    ensures EventLess(a, b) <==> a.0.base < b.0.base
    ensures a.0 == b.0 ==> !EventLess(a, b) && !EventLess(b, a)
  {
  }

  /**
   * The argument check of the event generator: a negative event count is
   * rejected with runtime_error; otherwise the count is cast to a 32-bit
   * unsigned, which keeps it when it fits.
   */
  function GenerateEventsGuard(eventSz: int): (r: Result<uint32>)
    ensures r.Failure? <==> eventSz < 0
    ensures r.Failure? ==> r.error.RuntimeError?
    ensures r.Success? && eventSz < 0x1_0000_0000 ==> r.value as int == eventSz
    ensures r.Success? ==> (r.value as int - eventSz) % 0x1_0000_0000 == 0
  {
    if eventSz < 0 then Failure(RuntimeError("negative value for event count"))
    else Success((eventSz % 0x1_0000_0000) as uint32)
  }

  /** An entry of the sequenced event list. */
  type SequencedOrderEvent = (OrderEvent, OrderIdType)

  type LiveOrders = map<OrderIdType, OrderState>

  /**
   * One event applied to the live orders: ARRIVE emplaces the zeroed record
   * under the id, which keeps an existing entry as it is; DEPART erases the
   * id, if present.
   */
  function Apply(m: LiveOrders, e: SequencedOrderEvent): (r: LiveOrders)
    ensures e.0 == Arrive ==> r.Keys == m.Keys + {e.1}
    ensures e.0 == Arrive && e.1 !in m ==> r[e.1] == ArrivedState(e.1)
    ensures e.0 == Depart ==> r.Keys == m.Keys - {e.1}
    ensures forall k :: k in r && k in m ==> r[k] == m[k]
  {
    match e.0
    case Arrive => if e.1 in m then m else m[e.1 := ArrivedState(e.1)]
    case Depart => m - {e.1}
  }

  /** The events applied one after the other, in list order. */
  function Replay(m: LiveOrders, events: seq<SequencedOrderEvent>): LiveOrders
  {
    if |events| == 0 then m else Apply(Replay(m, events[..|events| - 1]), events[|events| - 1])
  }

  /** Executes the map operation each event implies, in order, on liveOrders. */
  method ProcessSequencedOrderEvents(liveOrders: LiveOrders, events: seq<SequencedOrderEvent>)
    returns (result: LiveOrders)
    ensures result == Replay(liveOrders, events)
  {
    result := liveOrders;
    for i := 0 to |events|
      invariant result == Replay(liveOrders, events[..i])
    {
      assert events[..i + 1][..i] == events[..i];
      var (eventType, ordId) := events[i];
      match eventType
      case Arrive =>
        if ordId !in result {
          result := result[ordId := ArrivedState(ordId)];
        }
      case Depart =>
        result := result - {ordId};
    }
    assert events[..|events|] == events;
  }

  /** Replaying a concatenation is replaying the first list, then the second. */
  lemma {:induction false} ReplayAppend(m: LiveOrders, e1: seq<SequencedOrderEvent>, e2: seq<SequencedOrderEvent>)
    ensures Replay(m, e1 + e2) == Replay(Replay(m, e1), e2)
  {
    if |e2| == 0 {
      assert e1 + e2 == e1;
    } else {
      var n := |e2| - 1;
      ReplayAppend(m, e1, e2[..n]);
      assert (e1 + e2)[..|e1 + e2| - 1] == e1 + e2[..n];
    }
  }

  /** No event at position lo or later departs order id k. */
  predicate NoDepartFrom(events: seq<SequencedOrderEvent>, lo: nat, k: OrderIdType)
  {
    forall j :: lo <= j < |events| ==> events[j] != (Depart, k)
  }

  /** No event of the list departs order id k. */
  predicate NeverDeparts(events: seq<SequencedOrderEvent>, k: OrderIdType)
  {
    NoDepartFrom(events, 0, k)
  }

  /** Some event arrives order id k and no later event departs it. */
  predicate ArrivesLast(events: seq<SequencedOrderEvent>, k: OrderIdType)
  {
    exists i :: 0 <= i < |events| && events[i] == (Arrive, k) && NoDepartFrom(events, i + 1, k)
  }

  /**
   * Reference definition of the orders live after the events: arrived and
   * not departed since, or live from the start and never departed.
   */
  predicate Live(m: LiveOrders, events: seq<SequencedOrderEvent>, k: OrderIdType)
  {
    ArrivesLast(events, k) || (k in m && NeverDeparts(events, k))
  }

  /** Dropping the last event: no departure from lo on means none in the prefix and none at the end. */
  lemma NoDepartFromPrefix(events: seq<SequencedOrderEvent>, lo: nat, k: OrderIdType)
    requires lo < |events|
    ensures var n := |events| - 1;
            NoDepartFrom(events, lo, k) <==> NoDepartFrom(events[..n], lo, k) && events[n] != (Depart, k)
  {
    var n := |events| - 1;
    var pre := events[..n];
    if NoDepartFrom(events, lo, k) {
      forall j | lo <= j < n
        ensures pre[j] != (Depart, k)
      {
        assert pre[j] == events[j];
      }
    }
    if NoDepartFrom(pre, lo, k) && events[n] != (Depart, k) {
      forall j | lo <= j < |events|
        ensures events[j] != (Depart, k)
      {
        if j < n {
          assert pre[j] == events[j];
        }
      }
    }
  }

  /** Appending an event that does not mention k leaves the reference definition of k as it was. */
  lemma LiveOtherEvent(m: LiveOrders, events: seq<SequencedOrderEvent>, k: OrderIdType)
    requires |events| > 0 && events[|events| - 1].1 != k
    ensures Live(m, events, k) <==> Live(m, events[..|events| - 1], k)
  {
    var n := |events| - 1;
    var pre := events[..n];
    NoDepartFromPrefix(events, 0, k);
    if ArrivesLast(events, k) {
      var i :| 0 <= i < |events| && events[i] == (Arrive, k) && NoDepartFrom(events, i + 1, k);
      assert i != n;
      NoDepartFromPrefix(events, i + 1, k);
      assert pre[i] == events[i];
      assert ArrivesLast(pre, k);
    }
    if ArrivesLast(pre, k) {
      var i :| 0 <= i < |pre| && pre[i] == (Arrive, k) && NoDepartFrom(pre, i + 1, k);
      NoDepartFromPrefix(events, i + 1, k);
      assert pre[i] == events[i];
      assert ArrivesLast(events, k);
    }
  }

  /**
   * After the replay an order id is live exactly when the reference
   * definition says so: the last event for it is ARRIVE, or there is none
   * and it was live before.
   */
  lemma {:induction false} ReplayMembership(m: LiveOrders, events: seq<SequencedOrderEvent>, k: OrderIdType)
    ensures k in Replay(m, events) <==> Live(m, events, k)
  {
    if |events| > 0 {
      var n := |events| - 1;
      var pre := events[..n];
      ReplayMembership(m, pre, k);
      if events[n].1 != k {
        LiveOtherEvent(m, events, k);
      } else if events[n].0 == Arrive {
        assert events[n] == (Arrive, k) && NoDepartFrom(events, n + 1, k);
      } else {
        assert events[n] == (Depart, k);
        assert !NeverDeparts(events, k);
        forall i | 0 <= i < |events| && events[i] == (Arrive, k)
          ensures !NoDepartFrom(events, i + 1, k)
        {
          assert i != n;
        }
      }
    }
  }

  /**
   * After the replay a live order holds the record it started with when it
   * was live from the start and never departed, and otherwise the zeroed
   * record ARRIVE stores.
   */
  lemma {:induction false} ReplayValue(m: LiveOrders, events: seq<SequencedOrderEvent>, k: OrderIdType)
    requires k in Replay(m, events)
    ensures Replay(m, events)[k] == if k in m && NeverDeparts(events, k) then m[k] else ArrivedState(k)
  {
    if |events| > 0 {
      var n := |events| - 1;
      var pre := events[..n];
      NoDepartFromPrefix(events, 0, k);
      if k in Replay(m, pre) {
        ReplayValue(m, pre, k);
      } else {
        ReplayMembership(m, pre, k);
      }
    }
  }

  /** The ids whose orders the reference definition counts as live after replaying events into an empty map. */
  function LiveIds(events: seq<SequencedOrderEvent>): set<OrderIdType>
  {
    set i | 0 <= i < |events| && events[i].0 == Arrive && ArrivesLast(events, events[i].1) :: events[i].1
  }

  /**
   * Replaying the same events into two maps with the same keys, the empty
   * standard map and the hash map of the probabilistic test among them,
   * gives the same key set and the same size; from empty maps that key set
   * is LiveIds.
   */
  lemma ReplayKeysAgree(m1: LiveOrders, m2: LiveOrders, events: seq<SequencedOrderEvent>)
    requires m1.Keys == m2.Keys
    ensures Replay(m1, events).Keys == Replay(m2, events).Keys
    ensures |Replay(m1, events)| == |Replay(m2, events)|
    ensures m1 == map[] ==> Replay(m1, events).Keys == LiveIds(events)
  {
    forall k
      ensures k in Replay(m1, events) <==> k in Replay(m2, events)
    {
      ReplayMembership(m1, events, k);
      ReplayMembership(m2, events, k);
    }
    assert Replay(m1, events).Keys == Replay(m2, events).Keys;
    if m1 == map[] {
      forall k
        ensures k in Replay(m1, events) <==> k in LiveIds(events)
      {
        ReplayMembership(m1, events, k);
        if ArrivesLast(events, k) {
          var i :| 0 <= i < |events| && events[i] == (Arrive, k) && NoDepartFrom(events, i + 1, k);
          assert events[i].1 == k;
        }
      }
    }
  }
}
