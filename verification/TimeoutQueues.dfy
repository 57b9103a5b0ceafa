// Timeout queues: the tail queues of state and NAT entries (ipfilter/fil.c, ip_fil.h).
//
// A "pointer to a pointer" is a Slot: the head field of a queue or the next field of an
// entry.  Each queue also keeps, as ghost state, the sequence of entries it links and the
// number of holds taken on it by ipf_addtimeoutqueue.

module TimeoutQueues {
  import opened SeqFacts

  datatype Slot = NoSlot | HeadOf(q: Queue) | NextOf(e: Entry)

  class Entry {
    var pnext: Slot
    var next: Entry?
    var ifq: Queue?
    var parent: nat
    var die: nat
    var touched: nat

    constructor ()
      ensures pnext == NoSlot && next == null && ifq == null
    {
      pnext, next, ifq, parent, die, touched := NoSlot, null, null, 0, 0, 0;
    }
  }

  class Queue {
    var ttl: nat
    var head: Entry?
    var tail: Slot
    var ref: int
    var user: bool
    var delete: bool
    ghost var entries: seq<Entry>
    ghost var holds: nat

    ghost function SlotAt(k: nat): Slot
      requires k <= |entries|
      reads this`entries
    {
      if k == 0 then HeadOf(this) else NextOf(entries[k - 1])
    }

    ghost function EntryAt(k: nat): Entry?
      requires k <= |entries|
      reads this`entries
    {
      if k == |entries| then null else entries[k]
    }

    // A well-formed list: every forward link, back link and the tail.
    ghost predicate Chain()
      reads this`head, this`tail, this`entries, entries`next, entries`pnext, entries`ifq
    {
      && Distinct(entries)
      && head == EntryAt(0)
      && (forall i {:trigger entries[i].next} | 0 <= i < |entries| :: entries[i].next == EntryAt(i + 1))
      && (forall i {:trigger entries[i].pnext} | 0 <= i < |entries| :: entries[i].pnext == SlotAt(i))
      && (forall i {:trigger entries[i].ifq} | 0 <= i < |entries| :: entries[i].ifq == this)
      && tail == SlotAt(|entries|)
    }

    ghost predicate Counted()
      reads this
    {
      ref == 1 + holds + |entries|
    }

    ghost predicate InOrder(now: nat)
      reads this`head, this`tail, this`entries, this`ttl
      reads entries`next, entries`pnext, entries`ifq, entries`touched, entries`die
    {
      Chain() && Ordered(entries, ttl, now)
    }

    ghost predicate Valid(now: nat)
      reads this, entries
    {
      InOrder(now) && Counted()
    }

    // IPFTQ_INIT
    constructor (ttl: nat)
      ensures Valid(0) && entries == [] && holds == 0 && this.ttl == ttl && !user && !delete
    {
      this.ttl, head, ref, user, delete := ttl, null, 1, false, false;
      entries, holds := [], 0;
      new;
      tail := HeadOf(this);
    }
  }

  ghost predicate NotAfter(es: seq<Entry>, i: int, j: int)
    reads es`touched
  {
    0 <= i < j < |es| ==> es[i].touched <= es[j].touched
  }

  // Sorted by tqe_touched, nothing touched after now, and each entry due ttl after it was
  // touched.
  ghost predicate Ordered(es: seq<Entry>, ttl: nat, now: nat)
    reads es`touched, es`die
  {
    && (forall i, j {:trigger NotAfter(es, i, j)} :: NotAfter(es, i, j))
    && (forall i {:trigger es[i].touched} {:trigger es[i].die} | 0 <= i < |es| ::
          es[i].touched <= now && es[i].die == es[i].touched + ttl)
  }

  // Hence the queue is also sorted by tqe_die.
  lemma SortedByDie(q: Queue, now: nat)
    requires q.Valid(now)
    ensures forall i, j | 0 <= i < j < |q.entries| :: q.entries[i].die <= q.entries[j].die
  {
    forall i, j | 0 <= i < j < |q.entries| ensures q.entries[i].die <= q.entries[j].die {
      assert NotAfter(q.entries, i, j);
    }
  }

  lemma OrderedWithout(es: seq<Entry>, k: nat, ttl: nat, now: nat)
    requires k < |es| && Ordered(es, ttl, now)
    ensures Ordered(Without(es, k), ttl, now)
  {
    forall i, j ensures NotAfter(Without(es, k), i, j) {
      assert NotAfter(es, if i < k then i else i + 1, if j < k then j else j + 1);
    }
  }

  lemma OrderedLast(es: seq<Entry>, e: Entry, ttl: nat, now: nat, ticks: nat)
    requires Ordered(es, ttl, now) && now <= ticks && e.touched == ticks && e.die == ticks + ttl
    ensures Ordered(es + [e], ttl, ticks)
  {
    forall i, j ensures NotAfter(es + [e], i, j) {
      assert NotAfter(es, i, j);
    }
  }

  lemma Elsewhere(q: Queue, e: Entry)
    requires q.Chain() && e.ifq != q
    ensures e !in q.entries
  {
    assert forall i | 0 <= i < |q.entries| :: q.entries[i].ifq == q;
  }

  // Take an entry out of its list, leaving the entry's own links as they are.
  method Unlink(q: Queue, tqe: Entry, ghost k: nat)
    requires q.Chain() && k < |q.entries| && q.entries[k] == tqe
    modifies q`head, q`tail, q`entries, q.entries`next, q.entries`pnext
    ensures q.Chain() && q.entries == Without(old(q.entries), k) && tqe !in q.entries
    ensures tqe.next == old(tqe.next) && tqe.pnext == old(tqe.pnext)
  {
    ghost var es := q.entries;
    DistinctWithout(es, k);
    if k > 0 { DistinctAt(es, k - 1); }
    if k + 1 < |es| { DistinctAt(es, k + 1); }
    assert tqe.pnext == q.SlotAt(k) && tqe.next == q.EntryAt(k + 1);
    match tqe.pnext {
      case HeadOf(p) => p.head := tqe.next;
      case NextOf(e) => e.next := tqe.next;
    }
    assert forall j {:trigger es[j].next} | 0 <= j < |es| && j != k - 1 :: es[j].next == old(es[j].next);
    if tqe.next != null {
      tqe.next.pnext := tqe.pnext;
    } else {
      q.tail := tqe.pnext;
    }
    assert forall j {:trigger es[j].pnext} | 0 <= j < |es| && j != k + 1 :: es[j].pnext == old(es[j].pnext);
    q.entries := Without(es, k);
    UnlinkedChain(q, es, k);
  }

  // The list that is left once the links around entry k of es have been joined.
  lemma UnlinkedChain(q: Queue, es: seq<Entry>, k: nat)
    requires k < |es| && q.entries == Without(es, k)
    requires Distinct(es)
    requires forall j {:trigger es[j].next} | 0 <= j < |es| && j != k - 1 ::
               es[j].next == if j + 1 == |es| then null else es[j + 1]
    requires forall j {:trigger es[j].pnext} | 0 <= j < |es| && j != k + 1 ::
               es[j].pnext == if j == 0 then HeadOf(q) else NextOf(es[j - 1])
    requires forall j {:trigger es[j].ifq} | 0 <= j < |es| :: es[j].ifq == q
    requires q.head == if k == 0 then es[0].next else es[0]
    requires k > 0 ==> es[k - 1].next == es[k].next
    requires k + 1 < |es| ==> q.tail == NextOf(es[|es| - 1]) && es[k + 1].pnext == es[k].pnext
    requires k + 1 == |es| ==> q.tail == es[k].pnext
    ensures q.Chain()
  {
    DistinctWithout(es, k);
  }

  // Add an entry at the end of a list.
  method LinkLast(q: Queue, tqe: Entry)
    requires q.Chain() && tqe !in q.entries
    modifies q`head, q`tail, q`entries, q.entries`next, tqe`next, tqe`pnext
    ensures q.entries == old(q.entries) + [tqe]
    ensures tqe.ifq == q ==> q.Chain()
  {
    DistinctLast(q.entries, tqe);
    if q.entries != [] { DistinctAt(q.entries, |q.entries| - 1); }
    tqe.pnext := q.tail;
    match q.tail {
      case HeadOf(p) => p.head := tqe;
      case NextOf(e) => e.next := tqe;
    }
    q.tail := NextOf(tqe);
    tqe.next := null;
    q.entries := q.entries + [tqe];
  }

  // Add an entry at the front of a list that is not empty.
  method LinkFirst(q: Queue, tqe: Entry)
    requires q.Chain() && tqe !in q.entries && q.head != null && tqe.ifq == q
    modifies q`head, q`entries, q.entries`pnext, tqe`next, tqe`pnext
    ensures q.entries == [tqe] + old(q.entries)
    ensures q.Chain()
  {
    DistinctFirst(q.entries, tqe);
    DistinctAt(q.entries, 0);
    tqe.next := q.head;
    q.head.pnext := NextOf(tqe);
    q.head := tqe;
    tqe.pnext := HeadOf(q);
    q.entries := [tqe] + q.entries;
  }

  // ---------- reference counts ----------

  // ipf_addtimeoutqueue finding the queue: one more hold.
  method Hold(ifq: Queue)
    requires ifq.Counted()
    modifies ifq`ref, ifq`delete, ifq`holds
    ensures ifq.Counted() && ifq.holds == old(ifq.holds) + 1 && !ifq.delete
  {
    ifq.delete := false;
    ifq.ref := ifq.ref + 1;
    ifq.holds := ifq.holds + 1;
  }

  method DeleteTimeoutQueue(ifq: Queue) returns (ref: int)
    modifies ifq`ref, ifq`delete
    ensures ref == ifq.ref == old(ifq.ref) - 1
    ensures ifq.delete == (old(ifq.delete) || (ref == 0 && ifq.user))
  {
    ifq.ref := ifq.ref - 1;
    if ifq.ref == 0 && ifq.user {
      ifq.delete := true;
    }
    ref := ifq.ref;
  }

  // Dropping a hold never brings the count to 0, so it never marks the queue for deletion.
  method Release(ifq: Queue) returns (ref: int)
    requires ifq.Counted() && ifq.holds > 0
    modifies ifq`ref, ifq`delete, ifq`holds
    ensures ifq.Counted() && ifq.holds == old(ifq.holds) - 1
    ensures ref == ifq.ref > 0 && ifq.delete == old(ifq.delete)
  {
    ref := DeleteTimeoutQueue(ifq);
    ifq.holds := ifq.holds - 1;
  }

  // ---------- queue operations ----------

  method QueueAppend(ticks: nat, tqe: Entry, ifq: Queue, parent: nat, ghost now: nat)
    requires ifq.Valid(now) && now <= ticks && tqe.ifq == null
    modifies ifq`head, ifq`tail, ifq`ref, ifq`entries, ifq.entries`next, tqe
    ensures ifq.Valid(ticks) && ifq.entries == old(ifq.entries) + [tqe]
    ensures tqe.parent == parent && tqe.touched == ticks && tqe.die == ticks + ifq.ttl
  {
    Enrol(ticks, tqe, ifq, parent, now);
    ifq.ref := ifq.ref + 1;
    LinkLast(ifq, tqe);
  }

  // The entry's own fields.
  method Enrol(ticks: nat, tqe: Entry, ifq: Queue, parent: nat, ghost now: nat)
    requires ifq.InOrder(now) && now <= ticks && tqe.ifq == null
    modifies tqe`parent, tqe`ifq, tqe`die, tqe`touched
    ensures tqe.parent == parent && tqe.ifq == ifq && tqe.touched == ticks && tqe.die == ticks + ifq.ttl
    ensures ifq.Chain() && tqe !in ifq.entries && Ordered(ifq.entries + [tqe], ifq.ttl, ticks)
  {
    Elsewhere(ifq, tqe);
    tqe.parent, tqe.ifq := parent, ifq;
    tqe.die, tqe.touched := ticks + ifq.ttl, ticks;
    OrderedLast(ifq.entries, tqe, ifq.ttl, now, ticks);
  }

  // The count stays positive: the assertion after the call in the source cannot fail.
  method DeleteQueueEntry(tqe: Entry, ghost k: nat, ghost now: nat)
    requires tqe.ifq != null && tqe.ifq.Valid(now) && k < |tqe.ifq.entries| && tqe.ifq.entries[k] == tqe
    modifies tqe`pnext, tqe`ifq, tqe.ifq`head, tqe.ifq`tail, tqe.ifq`ref, tqe.ifq`delete, tqe.ifq`entries
    modifies tqe.ifq.entries`next, tqe.ifq.entries`pnext
    ensures tqe.ifq == null && tqe.pnext == NoSlot
    ensures var q := old(tqe.ifq); q.Valid(now) && q.ref > 0 && q.delete == old(tqe.ifq.delete)
    ensures old(tqe.ifq).entries == Without(old(tqe.ifq.entries), k)
  {
    var ifq := tqe.ifq;
    if tqe.pnext != NoSlot {
      Orphan(ifq, tqe, k, now);
    }
    var ref := DeleteTimeoutQueue(ifq);
  }

  method Orphan(ifq: Queue, tqe: Entry, ghost k: nat, ghost now: nat)
    requires ifq.InOrder(now) && k < |ifq.entries| && ifq.entries[k] == tqe
    modifies tqe`pnext, tqe`ifq, ifq`head, ifq`tail, ifq`entries, ifq.entries`next, ifq.entries`pnext
    ensures tqe.ifq == null && tqe.pnext == NoSlot
    ensures ifq.InOrder(now) && ifq.entries == Without(old(ifq.entries), k)
  {
    OrderedWithout(ifq.entries, k, ifq.ttl, now);
    Unlink(ifq, tqe, k);
    tqe.pnext := NoSlot;
    tqe.ifq := null;
  }

  // Touch an entry and make it the last one.
  method QueueBack(ticks: nat, tqe: Entry, ghost k: nat, ghost now: nat)
    requires tqe.ifq != null ==>
               && tqe.ifq.Valid(now) && now <= ticks
               && k < |tqe.ifq.entries| && tqe.ifq.entries[k] == tqe
    modifies tqe`die, tqe`touched
    modifies (if tqe.ifq == null then {} else {tqe.ifq})`head
    modifies (if tqe.ifq == null then {} else {tqe.ifq})`tail
    modifies (if tqe.ifq == null then {} else {tqe.ifq})`entries
    modifies (if tqe.ifq == null then {} else set e | e in tqe.ifq.entries)`next
    modifies (if tqe.ifq == null then {} else set e | e in tqe.ifq.entries)`pnext
    ensures tqe.ifq == null ==> unchanged(tqe)
    ensures tqe.ifq != null ==>
              && tqe.ifq.Valid(ticks)
              && tqe.ifq.entries == Without(old(tqe.ifq.entries), k) + [tqe]
              && tqe.touched == ticks
  {
    var ifq := tqe.ifq;
    if ifq == null {
      return;
    }
    TouchLast(ticks, tqe, ifq, k, now);
  }

  method TouchLast(ticks: nat, tqe: Entry, ifq: Queue, ghost k: nat, ghost now: nat)
    requires ifq.InOrder(now) && now <= ticks && k < |ifq.entries| && ifq.entries[k] == tqe
    modifies tqe`die, tqe`touched, ifq`head, ifq`tail, ifq`entries, ifq.entries`next, ifq.entries`pnext
    ensures ifq.InOrder(ticks) && ifq.entries == Without(old(ifq.entries), k) + [tqe] && tqe.touched == ticks
  {
    Touch(ticks, tqe, ifq, ifq, k, now);
    Requeue(ifq, tqe, k, ticks);
  }

  method Requeue(q: Queue, tqe: Entry, ghost k: nat, ghost ticks: nat)
    requires q.Chain() && k < |q.entries| && q.entries[k] == tqe
    requires Ordered(Without(q.entries, k) + [tqe], q.ttl, ticks)
    modifies q`head, q`tail, q`entries, q.entries`next, q.entries`pnext
    ensures q.InOrder(ticks) && q.entries == Without(old(q.entries), k) + [tqe]
  {
    assert tqe.next == q.EntryAt(k + 1) && tqe.ifq == q;
    if tqe.next != null {
      Unlink(q, tqe, k);
      LinkLast(q, tqe);
    } else {
      assert q.entries == Without(q.entries, k) + [tqe];
    }
  }

  // Set the times of entry k of one queue for a place at the end of another, or of the same.
  method Touch(ticks: nat, tqe: Entry, oifq: Queue, nifq: Queue, ghost k: nat, ghost now: nat)
    requires oifq.InOrder(now) && nifq.InOrder(now) && now <= ticks
    requires k < |oifq.entries| && oifq.entries[k] == tqe
    modifies tqe`die, tqe`touched
    ensures tqe.touched == ticks && tqe.die == ticks + nifq.ttl
    ensures Ordered(Without(oifq.entries, k), oifq.ttl, ticks)
    ensures var rest := if oifq == nifq then Without(oifq.entries, k) else nifq.entries;
      tqe !in rest && Ordered(rest + [tqe], nifq.ttl, ticks)
  {
    ghost var rest := Without(oifq.entries, k);
    DistinctWithout(oifq.entries, k);
    OrderedWithout(oifq.entries, k, oifq.ttl, now);
    if oifq != nifq {
      assert tqe.ifq == oifq;
      Elsewhere(nifq, tqe);
    }
    tqe.touched := ticks;
    tqe.die := ticks + nifq.ttl;
    assert Ordered(rest, oifq.ttl, now);
    OrderedLast(if oifq == nifq then rest else nifq.entries, tqe, nifq.ttl, now, ticks);
  }

  // Move an entry to the front, whatever its times.
  method QueueFront(tqe: Entry, ghost k: nat)
    requires tqe.ifq != null ==>
               && tqe.ifq.Chain() && tqe.ifq.Counted()
               && k < |tqe.ifq.entries| && tqe.ifq.entries[k] == tqe
    modifies tqe`next, tqe`pnext
    modifies (if tqe.ifq == null then {} else {tqe.ifq})`head
    modifies (if tqe.ifq == null then {} else {tqe.ifq})`tail
    modifies (if tqe.ifq == null then {} else {tqe.ifq})`entries
    modifies (if tqe.ifq == null then {} else set e | e in tqe.ifq.entries)`next
    modifies (if tqe.ifq == null then {} else set e | e in tqe.ifq.entries)`pnext
    ensures tqe.ifq != null ==>
              && tqe.ifq.Chain() && tqe.ifq.Counted()
              && tqe.ifq.entries == [tqe] + Without(old(tqe.ifq.entries), k)
  {
    var ifq := tqe.ifq;
    if ifq == null {
      return;
    }
    if ifq.head != tqe {
      Unlink(ifq, tqe, k);
      LinkFirst(ifq, tqe);
    } else {
      DistinctAt(ifq.entries, 0);
      assert ifq.entries == [tqe] + Without(ifq.entries, k);
    }
  }

  // Moving to the front keeps an ordered queue ordered exactly when the entry was not
  // touched after the old head.
  lemma FrontOrder(es: seq<Entry>, k: nat, ttl: nat, now: nat)
    requires k < |es| && Ordered(es, ttl, now)
    ensures Ordered([es[k]] + Without(es, k), ttl, now) <==> es[k].touched <= es[0].touched
  {
    var es' := [es[k]] + Without(es, k);
    if es[k].touched <= es[0].touched {
      forall i, j ensures NotAfter(es', i, j) {
        var at := (n: int) => if n == 0 then k as int else if n - 1 < k then n - 1 else n;
        assert NotAfter(es, at(i), at(j)) && NotAfter(es, 0, at(j));
      }
    } else {
      assert !NotAfter(es', 0, 1);
    }
  }

  lemma DisjointQueues(q: Queue, p: Queue)
    requires q.Chain() && p.Chain() && q != p
    ensures forall i | 0 <= i < |q.entries| :: q.entries[i] !in p.entries
  {
    forall i | 0 <= i < |q.entries| ensures q.entries[i] !in p.entries {
      assert q.entries[i].ifq == q;
      Elsewhere(p, q.entries[i]);
    }
  }

  lemma OrderedLater(es: seq<Entry>, ttl: nat, now: nat, ticks: nat)
    requires Ordered(es, ttl, now) && now <= ticks
    ensures Ordered(es, ttl, ticks)
  {
  }

  // An entry touched now may stay in front of one that was also touched now.
  lemma OrderedInPlace(es: seq<Entry>, k: nat, ttl: nat, ticks: nat)
    requires k < |es| && Ordered(Without(es, k), ttl, ticks)
    requires es[k].touched == ticks && es[k].die == ticks + ttl
    requires k + 1 < |es| ==> es[k + 1].die == ticks + ttl
    ensures Ordered(es, ttl, ticks)
  {
    var rest := Without(es, k);
    forall i | 0 <= i < |es| ensures es[i].touched <= ticks && es[i].die == es[i].touched + ttl {
      if i != k { assert es[i] == rest[if i < k then i else i - 1]; }
    }
    forall i, j ensures NotAfter(es, i, j) {
      if 0 <= i < j < |es| {
        assert NotAfter(rest, if i < k then i else i - 1, if j < k then j else j - 1);
        if i == k && j > k + 1 {
          assert rest[k] == es[k + 1] && NotAfter(rest, k, j - 1);
        }
      }
    }
  }

  // Move an entry from one queue to another, or to the back of its own.
  method MoveQueue(ticks: nat, tqe: Entry, oifq: Queue, nifq: Queue, ghost k: nat, ghost now: nat)
    requires oifq.Valid(now) && nifq.Valid(now) && now <= ticks
    requires k < |oifq.entries| && oifq.entries[k] == tqe
    modifies tqe`die, tqe`touched, tqe`ifq, tqe`next, tqe`pnext, oifq, nifq`head, nifq`tail, nifq`ref, nifq`entries
    modifies oifq.entries`next, oifq.entries`pnext, nifq.entries`next
    ensures oifq.Valid(ticks) && nifq.Valid(ticks)
    ensures tqe.ifq == nifq && tqe.touched == ticks && tqe.die == ticks + nifq.ttl
    ensures oifq != nifq ==>
              && oifq.entries == Without(old(oifq.entries), k)
              && nifq.entries == old(nifq.entries) + [tqe]
    ensures oifq == nifq ==>
              || oifq.entries == Without(old(oifq.entries), k) + [tqe]
              || (oifq.entries == old(oifq.entries) && (k + 1 < |oifq.entries| ==> oifq.entries[k + 1].touched == ticks))
    ensures oifq.ttl == old(oifq.ttl) && oifq.delete == old(oifq.delete) && oifq.holds == old(oifq.holds)
  {
    if oifq == nifq && tqe.touched == ticks {
      OrderedLater(oifq.entries, oifq.ttl, now, ticks);
      assert NotAfter(oifq.entries, k, k + 1) && tqe.ifq == oifq;
      assert k + 1 < |oifq.entries| ==> oifq.entries[k + 1].touched <= now;
      return;
    }
    if oifq == nifq {
      MoveWithin(ticks, tqe, oifq, k, now);
    } else {
      MoveAcross(ticks, tqe, oifq, nifq, k, now);
    }
  }

  method MoveWithin(ticks: nat, tqe: Entry, q: Queue, ghost k: nat, ghost now: nat)
    requires q.InOrder(now) && now <= ticks && k < |q.entries| && q.entries[k] == tqe
    modifies tqe`die, tqe`touched, q`head, q`tail, q`entries, q.entries`next, q.entries`pnext
    ensures q.InOrder(ticks) && tqe.touched == ticks && tqe.die == ticks + q.ttl && tqe.ifq == q
    ensures
      || q.entries == Without(old(q.entries), k) + [tqe]
      || (q.entries == old(q.entries) && (k + 1 < |q.entries| ==> q.entries[k + 1].touched == ticks))
  {
    assert tqe.next == q.EntryAt(k + 1) && tqe.ifq == q;
    DistinctAt(q.entries, k);
    assert k + 1 < |q.entries| ==> q.entries[k + 1].die == q.entries[k + 1].touched + q.ttl;
    Touch(ticks, tqe, q, q, k, now);
    if tqe.next == null || tqe.next.die == tqe.die {
      OrderedInPlace(q.entries, k, q.ttl, ticks);
      return;
    }
    Requeue(q, tqe, k, ticks);
  }

  method MoveAcross(ticks: nat, tqe: Entry, oifq: Queue, nifq: Queue, ghost k: nat, ghost now: nat)
    requires oifq.Valid(now) && nifq.Valid(now) && now <= ticks && oifq != nifq
    requires k < |oifq.entries| && oifq.entries[k] == tqe
    modifies tqe`die, tqe`touched, tqe`ifq, tqe`next, tqe`pnext
    modifies oifq`head, oifq`tail, oifq`entries, oifq`ref, oifq`delete, nifq`head, nifq`tail, nifq`ref, nifq`entries
    modifies oifq.entries`next, oifq.entries`pnext, nifq.entries`next
    ensures oifq.Valid(ticks) && nifq.Valid(ticks) && oifq.delete == old(oifq.delete)
    ensures tqe.ifq == nifq && tqe.touched == ticks && tqe.die == ticks + nifq.ttl
    ensures oifq.entries == Without(old(oifq.entries), k) && nifq.entries == old(nifq.entries) + [tqe]
  {
    Touch(ticks, tqe, oifq, nifq, k, now);
    Leave(oifq, tqe, k, nifq, ticks);
    Join(nifq, tqe, oifq, ticks);
  }

  // The first half: leaving the old queue, with the new one untouched.
  method Leave(oifq: Queue, tqe: Entry, ghost k: nat, ghost nifq: Queue, ghost ticks: nat)
    requires oifq.Chain() && oifq.Counted() && k < |oifq.entries| && oifq.entries[k] == tqe
    requires nifq.Chain() && oifq != nifq
    requires Ordered(Without(oifq.entries, k), oifq.ttl, ticks) && Ordered(nifq.entries + [tqe], nifq.ttl, ticks)
    modifies oifq`head, oifq`tail, oifq`entries, oifq`ref, oifq`delete, oifq.entries`next, oifq.entries`pnext
    ensures oifq.Valid(ticks) && oifq.entries == Without(old(oifq.entries), k)
    ensures tqe !in oifq.entries && oifq.delete == old(oifq.delete)
    ensures nifq.Chain() && tqe !in nifq.entries && Ordered(nifq.entries + [tqe], nifq.ttl, ticks)
  {
    UnlinkBeside(oifq, tqe, k, nifq, ticks);
    var ref := DeleteTimeoutQueue(oifq);
  }

  method UnlinkBeside(oifq: Queue, tqe: Entry, ghost k: nat, ghost nifq: Queue, ghost ticks: nat)
    requires oifq.Chain() && k < |oifq.entries| && oifq.entries[k] == tqe
    requires nifq.Chain() && oifq != nifq
    requires Ordered(Without(oifq.entries, k), oifq.ttl, ticks) && Ordered(nifq.entries + [tqe], nifq.ttl, ticks)
    modifies oifq`head, oifq`tail, oifq`entries, oifq.entries`next, oifq.entries`pnext
    ensures oifq.InOrder(ticks) && oifq.entries == Without(old(oifq.entries), k) && tqe !in oifq.entries
    ensures nifq.Chain() && tqe !in nifq.entries && Ordered(nifq.entries + [tqe], nifq.ttl, ticks)
  {
    DisjointQueues(nifq, oifq);
    Unlink(oifq, tqe, k);
  }

  // The second half: entering the new queue, with the old one untouched.
  method Join(nifq: Queue, tqe: Entry, ghost oifq: Queue, ghost ticks: nat)
    requires nifq.Chain() && nifq.Counted() && tqe !in nifq.entries
    requires Ordered(nifq.entries + [tqe], nifq.ttl, ticks)
    requires oifq.Valid(ticks) && oifq != nifq && tqe !in oifq.entries
    modifies tqe`ifq, tqe`next, tqe`pnext, nifq`head, nifq`tail, nifq`ref, nifq`entries, nifq.entries`next
    ensures nifq.Valid(ticks) && nifq.entries == old(nifq.entries) + [tqe]
    ensures oifq.Valid(ticks) && tqe.ifq == nifq
  {
    DisjointQueues(oifq, nifq);
    tqe.ifq := nifq;
    nifq.ref := nifq.ref + 1;
    LinkLast(nifq, tqe);
  }
}
