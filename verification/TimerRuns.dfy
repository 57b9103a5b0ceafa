// Runs over a whole family of timeout queues: whatever sequence of operations is performed,
// with the clock only moving forward, every queue stays well-formed, counted and sorted.

module TimerRuns {
  import opened SeqFacts
  import opened TimeoutQueues

  class Timers {
    var ticks: nat
    // The user-defined queues, newest first.
    var userqs: seq<Queue>
    ghost var queues: set<Queue>

    ghost predicate Valid()
      reads this, queues, set q: Queue, i: nat | q in queues && i < |q.entries| :: q.entries[i]
    {
      && (forall q | q in queues :: q.Valid(ticks))
      && (forall i | 0 <= i < |userqs| :: userqs[i] in queues)
    }

    constructor ()
      ensures Valid() && queues == {} && ticks == 0
    {
      ticks, userqs, queues := 0, [], {};
    }

    method Tick()
      requires Valid()
      modifies this`ticks
      ensures Valid() && ticks == old(ticks) + 1
    {
      forall q | q in queues ensures Ordered(q.entries, q.ttl, ticks + 1) {
        OrderedLater(q.entries, q.ttl, ticks, ticks + 1);
      }
      ticks := ticks + 1;
    }

    // The queues other than q share no entry with it.
    lemma Others(q: Queue)
      requires Valid() && q in queues
      ensures forall p, i | p in queues && p != q && 0 <= i < |p.entries| :: p.entries[i] !in q.entries
    {
      forall p | p in queues && p != q ensures forall i | 0 <= i < |p.entries| :: p.entries[i] !in q.entries {
        DisjointQueues(p, q);
      }
    }

    // A system queue, as IPFTQ_INIT sets it up: nobody holds it and it is not a user's.
    method AddSystemQueue(ttl: nat) returns (ifq: Queue)
      requires Valid()
      modifies this`queues
      ensures Valid() && fresh(ifq) && queues == old(queues) + {ifq}
      ensures ifq.ttl == ttl && ifq.entries == [] && ifq.holds == 0 && !ifq.user
    {
      ifq := new Queue(ttl);
      OrderedLater(ifq.entries, ifq.ttl, 0, ticks);
      queues := queues + {ifq};
    }

    // ipf_addtimeoutqueue: reuse a user queue with this period, or make a new one.
    method AddTimeoutQueue(seconds: nat) returns (ifq: Queue)
      requires Valid()
      modifies this`userqs, this`queues, userqs`ref, userqs`delete, userqs`holds
      ensures Valid() && ifq in queues && ifq.ttl == seconds * 2
      ensures ifq in old(userqs) ==> userqs == old(userqs) && queues == old(queues) && ifq.holds == old(ifq.holds) + 1
      ensures ifq !in old(userqs) ==>
                && fresh(ifq) && ifq.holds == 1 && userqs == [ifq] + old(userqs) && queues == old(queues) + {ifq}
                && forall q | q in old(userqs) :: q.ttl != seconds * 2
    {
      for i := 0 to |userqs|
        invariant forall j | 0 <= j < i :: userqs[j].ttl != seconds * 2
      {
        ifq := userqs[i];
        if ifq.ttl == seconds * 2 {
          assert ifq in userqs;
          Hold(ifq);
          return;
        }
      }
      ifq := NewUserQueue(seconds * 2);
      userqs := [ifq] + userqs;
      queues := queues + {ifq};
    }

    method NewUserQueue(period: nat) returns (ifq: Queue)
      ensures fresh(ifq) && ifq.Valid(ticks) && ifq.ttl == period && ifq.holds == 1 && ifq.entries == []
    {
      ifq := new Queue(period);
      ifq.user := true;
      Hold(ifq);
      OrderedLater(ifq.entries, ifq.ttl, 0, ticks);
    }

    // A hold is given up; the queue stays, as its own count of 1 is never dropped.
    method Drop(ifq: Queue) returns (ref: int)
      requires Valid() && ifq in queues && ifq.holds > 0
      modifies ifq`ref, ifq`delete, ifq`holds
      ensures Valid() && ifq.holds == old(ifq.holds) - 1 && ref == ifq.ref > 0 && ifq.delete == old(ifq.delete)
    {
      ref := Release(ifq);
    }

    method Append(tqe: Entry, q: Queue, parent: nat)
      requires Valid() && q in queues && tqe.ifq == null
      modifies tqe, q`head, q`tail, q`ref, q`entries, q.entries`next
      ensures Valid() && q.entries == old(q.entries) + [tqe]
      ensures tqe.ifq == q && tqe.parent == parent && tqe.touched == ticks && tqe.die == ticks + q.ttl
    {
      Others(q);
      forall p | p in queues ensures tqe !in p.entries { Elsewhere(p, tqe); }
      QueueAppend(ticks, tqe, q, parent, ticks);
    }

    method Delete(tqe: Entry, ghost k: nat)
      requires Valid() && tqe.ifq != null && tqe.ifq in queues
      requires k < |tqe.ifq.entries| && tqe.ifq.entries[k] == tqe
      modifies tqe`pnext, tqe`ifq, tqe.ifq`head, tqe.ifq`tail, tqe.ifq`ref, tqe.ifq`delete, tqe.ifq`entries
      modifies tqe.ifq.entries`next, tqe.ifq.entries`pnext
      ensures Valid() && old(tqe.ifq).entries == Without(old(tqe.ifq.entries), k) && tqe.ifq == null
      ensures old(tqe.ifq).ref > 0
    {
      Others(tqe.ifq);
      DeleteQueueEntry(tqe, k, ticks);
    }

    method Back(tqe: Entry, ghost k: nat)
      requires Valid() && tqe.ifq != null && tqe.ifq in queues
      requires k < |tqe.ifq.entries| && tqe.ifq.entries[k] == tqe
      modifies tqe`die, tqe`touched, tqe.ifq`head, tqe.ifq`tail, tqe.ifq`entries
      modifies tqe.ifq.entries`next, tqe.ifq.entries`pnext
      ensures Valid() && tqe.ifq.entries == Without(old(tqe.ifq.entries), k) + [tqe] && tqe.touched == ticks
    {
      Others(tqe.ifq);
      QueueBack(ticks, tqe, k, ticks);
    }

    method Move(tqe: Entry, oifq: Queue, nifq: Queue, ghost k: nat)
      requires Valid() && oifq in queues && nifq in queues
      requires k < |oifq.entries| && oifq.entries[k] == tqe
      modifies tqe`die, tqe`touched, tqe`ifq, tqe`next, tqe`pnext, oifq, nifq`head, nifq`tail, nifq`ref, nifq`entries
      modifies oifq.entries`next, oifq.entries`pnext, nifq.entries`next
      ensures Valid() && tqe.ifq == nifq && tqe.touched == ticks && tqe.die == ticks + nifq.ttl
      ensures oifq == nifq ==>
                || oifq.entries == Without(old(oifq.entries), k) + [tqe]
                || (oifq.entries == old(oifq.entries) && (k + 1 < |oifq.entries| ==> oifq.entries[k + 1].touched == ticks))
      ensures oifq != nifq ==> oifq.entries == Without(old(oifq.entries), k) && nifq.entries == old(nifq.entries) + [tqe]
    {
      Others(oifq);
      Others(nifq);
      MoveQueue(ticks, tqe, oifq, nifq, k, ticks);
    }
  }
}
