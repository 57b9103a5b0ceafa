// Making room by flushing timeout queues: ipf_queueflush (ipfilter/fil.c).
//
// The delete function is foreign code.  Its n-th call answers with a Reply: whether it took
// its own entry off the queue, whether it returned 0, and what *activep is afterwards.  It
// touches nothing else.  A queue is the sequence of its entries from ifq_head.

module QueueFlush {
  import opened SeqFacts

  datatype Entry = Entry(id: nat, touched: nat)
  datatype Reply = Reply(unlinked: bool, ok: bool, active: nat)
  type DeleteFn = nat -> Reply

  // IPF_TTLVAL: seconds to ticks (ipfilter/ip_fil.h).
  function TtlVal(seconds: nat): nat { seconds / 1 * 2 }

  const HALFDAY := TtlVal(43200)
  const HALFHOUR := TtlVal(1800)
  const HALFMINUTE := TtlVal(30)

  ghost predicate Sorted(es: seq<Entry>) {
    forall i, j | 0 <= i < j < |es| :: es[i].touched <= es[j].touched
  }

  // after is before with some entries of gone taken out and nothing else changed.
  ghost predicate Trimmed(before: seq<Entry>, after: seq<Entry>, gone: set<Entry>) {
    if before == [] then after == []
    else
      || (after != [] && after[0] == before[0] && Trimmed(before[1..], after[1..], gone))
      || (before[0] in gone && Trimmed(before[1..], after, gone))
  }

  lemma {:induction false} TrimmedSelf(es: seq<Entry>, gone: set<Entry>)
    ensures Trimmed(es, es, gone)
  {
    if es != [] { TrimmedSelf(es[1..], gone); }
  }

  lemma {:induction false} TrimmedCompose(a: seq<Entry>, b: seq<Entry>, c: seq<Entry>, g: set<Entry>, h: set<Entry>)
    requires Trimmed(a, b, g) && Trimmed(b, c, h)
    ensures Trimmed(a, c, g + h)
    decreases |a|
  {
    if a != [] {
      if b != [] && b[0] == a[0] && Trimmed(a[1..], b[1..], g) {
        if c != [] && c[0] == b[0] && Trimmed(b[1..], c[1..], h) {
          TrimmedCompose(a[1..], b[1..], c[1..], g, h);
        } else {
          TrimmedCompose(a[1..], b[1..], c, g, h);
        }
      } else {
        TrimmedCompose(a[1..], b, c, g, h);
      }
    }
  }

  lemma {:induction false} TrimmedMembers(a: seq<Entry>, b: seq<Entry>, g: set<Entry>)
    requires Trimmed(a, b, g)
    ensures forall e | e in b :: e in a
    ensures forall e | e in a && e !in b :: e in g
    ensures Sorted(a) ==> Sorted(b)
    decreases |a|
  {
    if a != [] {
      if b != [] && b[0] == a[0] && Trimmed(a[1..], b[1..], g) {
        TrimmedMembers(a[1..], b[1..], g);
        assert a == [a[0]] + a[1..] && b == [b[0]] + b[1..];
        if Sorted(a) {
          forall i, j | 0 <= i < j < |b| ensures b[i].touched <= b[j].touched {
            if i > 0 {
              assert b[i] == b[1..][i - 1] && b[j] == b[1..][j - 1];
            } else {
              assert b[j] == b[1..][j - 1] && b[j] in a[1..];
              var n :| 0 <= n < |a[1..]| && a[1..][n] == b[j];
              assert a[n + 1] == b[j];
            }
          }
        }
      } else {
        TrimmedMembers(a[1..], b, g);
      }
    }
  }

  function CountOk(fn: DeleteFn, lo: nat, hi: nat): nat
    requires lo <= hi
    decreases hi - lo
  {
    if lo == hi then 0 else CountOk(fn, lo, hi - 1) + if fn(hi - 1).ok then 1 else 0
  }

  // The entries the delete function takes off the queue, by number of call.
  function Unlinks(fn: DeleteFn): nat -> bool { (n: nat) => fn(n).unlinked }

  // One walk down es from call number c on, n entries of which were offered: those the delete
  // function did not take stay, and the walk ended only at the end or at a recent entry.
  ghost predicate Walked(es: seq<Entry>, left: seq<Entry>, fn: DeleteFn, c: nat, n: nat, bounded: bool, limit: nat) {
    && n <= |es| && left == Spared(Unlinks(fn), c, es[..n]) + es[n..]
    && (bounded ==> forall i | 0 <= i < n :: es[i].touched <= limit)
    && (n < |es| ==> bounded && limit < es[n].touched)
  }

  // The same about all queues at once.
  ghost predicate TrimmedAt(before: seq<seq<Entry>>, after: seq<seq<Entry>>, gone: set<Entry>, q: int) {
    0 <= q < |before| && q < |after| ==> Trimmed(before[q], after[q], gone)
  }

  ghost predicate TrimmedAll(before: seq<seq<Entry>>, after: seq<seq<Entry>>, gone: set<Entry>) {
    |before| == |after| && forall q {:trigger TrimmedAt(before, after, gone, q)} :: TrimmedAt(before, after, gone, q)
  }

  ghost predicate SortedAt(qs: seq<seq<Entry>>, q: int) { 0 <= q < |qs| ==> Sorted(qs[q]) }

  ghost predicate SortedAll(qs: seq<seq<Entry>>) {
    forall q {:trigger SortedAt(qs, q)} :: SortedAt(qs, q)
  }

  // In the first n queues every remaining entry not touched since limit has been offered.
  ghost predicate CoveredAt(qs: seq<seq<Entry>>, offered: set<Entry>, limit: int, q: int) {
    0 <= q < |qs| ==> forall e | e in qs[q] && e.touched <= limit :: e in offered
  }

  ghost predicate CoveredTo(qs: seq<seq<Entry>>, offered: set<Entry>, limit: int, n: int) {
    forall q {:trigger CoveredAt(qs, offered, limit, q)} | q < n :: CoveredAt(qs, offered, limit, q)
  }

  ghost predicate TouchedBy(es: set<Entry>, limit: int) {
    forall e | e in es :: e.touched <= limit
  }

  // The queues are sorted; only entries handed to the delete function are gone, the rest kept
  // their order; and each of those entries was handed over in a call of its own.
  ghost predicate TableOk(first: seq<seq<Entry>>, qs: seq<seq<Entry>>, drained: set<Entry>, offered: set<Entry>, calls: int) {
    SortedAll(qs) && TrimmedAll(first, qs, drained + offered) && |drained| + |offered| <= calls
  }

  class Table {
    // The system queues in ifq_next order, then the user-defined queues.
    var queues: seq<seq<Entry>>
    var active: nat
    const deletefn: DeleteFn
    const closed: nat
    const timeWait: nat
    var calls: nat
    // Of the flush going on: the queues, the number of calls and the load when it began, the
    // number of calls that have returned 0 since, the entries
    // handed to the delete function by its first step and by the window scan, the values of
    // "try" the scan went through and the numbers of calls when each of its passes began.
    ghost var first: seq<seq<Entry>>
    ghost var since: nat
    ghost var loadThen: nat
    ghost var oks: nat
    ghost var drained: set<Entry>
    ghost var offered: set<Entry>
    ghost var tries: seq<nat>
    ghost var marks: seq<nat>

    ghost predicate Valid()
      reads this
    {
      && closed < |queues| && timeWait < |queues| && Tallied()
      && TableOk(first, queues, drained, offered, calls - since)
    }

    // The answers of the delete function since the flush began.
    ghost predicate Tallied()
      reads this`since, this`loadThen, this`calls, this`oks, this`active
    {
      && since <= calls && oks == CountOk(deletefn, since, calls)
      && active == ActiveAfter(deletefn, since, loadThen, calls)
    }

    // Every remaining entry not touched since limit was offered.
    ghost predicate Covered(limit: int)
      reads this
    {
      CoveredTo(queues, offered, limit, |queues|)
    }

    predicate AboveLow(size: nat, low: int)
      requires size > 0
      reads this
    {
      active * 100 / size > low
    }

    constructor (queues: seq<seq<Entry>>, active: nat, fn: DeleteFn, closed: nat, timeWait: nat)
      requires closed < |queues| && timeWait < |queues| && SortedAll(queues)
      ensures Valid() && this.queues == queues && this.active == active && deletefn == fn
      ensures this.closed == closed && this.timeWait == timeWait && calls == 0
    {
      this.queues, this.active, deletefn := queues, active, fn;
      this.closed, this.timeWait := closed, timeWait;
      calls, first, since, loadThen, oks := 0, queues, 0, active, 0;
      drained, offered, tries, marks := {}, {}, [], [];
      SelfAll(queues);
      new;
      assert drained + offered == {};
    }

    // One walk down a queue: to its end, or to the first entry touched after limit.  The
    // next entry is fetched before the delete function runs; kept is what stays linked of
    // the entries already passed.
    method Walk(entries: seq<Entry>, bounded: bool, limit: nat) returns (left: seq<Entry>, removed: nat)
      requires Tallied()
      modifies this`active, this`calls, this`oks
      ensures Tallied() && removed == oks - old(oks) && old(calls) <= calls
      ensures Walked(entries, left, deletefn, old(calls), calls - old(calls), bounded, limit)
    {
      removed := 0;
      ghost var cut, c, at := Unlinks(deletefn), calls, 0;
      var kept, rest := [], entries;
      while rest != []
        invariant at <= |entries| && rest == entries[at..] && calls == c + at
        invariant kept == Spared(cut, c, entries[..at])
        invariant bounded ==> forall i | 0 <= i < at :: entries[i].touched <= limit
        invariant Tallied() && removed == oks - old(oks)
      {
        var tqe := rest[0];
        if bounded && limit < tqe.touched {
          break;
        }
        rest := rest[1..];
        SparedNext(cut, c, entries, at);
        at := at + 1;
        var unlinked, ok := Delete();
        if !unlinked {
          kept := kept + [tqe];
        }
        if ok {
          removed := removed + 1;
        }
      }
      left := kept + rest;
    }

    // One call of the delete function.
    method Delete() returns (unlinked: bool, ok: bool)
      requires Tallied()
      modifies this`active, this`calls, this`oks
      ensures Tallied() && calls == old(calls) + 1 && oks == old(oks) + if ok then 1 else 0
      ensures unlinked == Unlinks(deletefn)(old(calls))
    {
      var reply := deletefn(calls);
      unlinked, ok := reply.unlinked, reply.ok;
      active, calls := reply.active, calls + 1;
      oks := oks + if ok then 1 else 0;
    }

    // The first step: everything in one queue of finished connections.
    method Drain(q: nat) returns (removed: nat)
      requires Valid() && q < |queues|
      modifies this`queues, this`active, this`calls, this`oks, this`drained
      ensures Valid() && drained == old(drained) + Elements(old(queues[q]))
      ensures removed == oks - old(oks)
      ensures queues == old(queues)[q := Spared(Unlinks(deletefn), old(calls), old(queues[q]))]
      ensures calls == old(calls) + |old(queues[q])|
    {
      ghost var c, es := calls, queues[q];
      var left;
      left, removed := Walk(queues[q], false, 0);
      DrainOk(first, queues, q, left, deletefn, c, calls - c, drained, offered, c - since);
      queues := queues[q := left];
      drained := drained + Elements(es);
    }

    // One pass of the window scan over all queues.
    method Pass(limit: nat) returns (removed: nat)
      requires Valid() && TouchedBy(offered, limit)
      modifies this`queues, this`active, this`calls, this`oks, this`offered, this`tries, this`marks
      ensures Valid() && tries == old(tries) + [limit] && marks == old(marks) + [old(calls)] && old(offered) <= offered
      ensures TouchedBy(offered, limit) && Covered(limit)
      ensures removed == oks - old(oks)
    {
      removed := 0;
      tries, marks := tries + [limit], marks + [calls];
      for q := 0 to |queues|
        invariant Valid() && tries == old(tries) + [limit] && marks == old(marks) + [old(calls)] && old(offered) <= offered
        invariant TouchedBy(offered, limit) && CoveredTo(queues, offered, limit, q)
        invariant removed == oks - old(oks)
      {
        var n := Offer(q, limit);
        removed := removed + n;
      }
    }

    // One queue of a pass.
    method Offer(q: nat, limit: nat) returns (removed: nat)
      requires Valid() && q < |queues| && TouchedBy(offered, limit) && CoveredTo(queues, offered, limit, q)
      modifies this`queues, this`active, this`calls, this`oks, this`offered
      ensures Valid() && old(offered) <= offered
      ensures TouchedBy(offered, limit) && CoveredTo(queues, offered, limit, q + 1)
      ensures removed == oks - old(oks)
    {
      ghost var c, seen: set<Entry> := calls, {};
      var left;
      left, removed := Walk(queues[q], true, limit);
      seen := OfferOk(first, queues, q, left, deletefn, c, calls - c, limit, drained, offered, c - since);
      queues := queues[q := left];
      offered := offered + seen;
    }

    // The whole flush.  The window scan goes from the oldest entries towards now, one pass at a
    // time while the load is above the low mark, and never offers an entry touched in the last
    // half minute; unless the load fell, or the system started less than 45 seconds ago, it has
    // offered every remaining entry older than that.
    method Flush(ticks: nat, size: nat, low: int) returns (removed: nat)
      requires Valid() && size > 0
      modifies this
      ensures Valid() && TrimmedAll(old(queues), queues, drained + offered)
      ensures drained == Finished(old(queues[closed]), old(queues[timeWait]), old(calls), old(active), size, low)
      ensures Schedule(ticks, tries) && |marks| == |tries| && Loaded(deletefn, old(calls), old(active), marks, size, low)
      ensures TouchedBy(offered, if tries == [] then -1 else tries[|tries| - 1])
      ensures AboveLow(size, low) && ticks > 90 ==> tries != [] && tries[|tries| - 1] == ticks - 60 && Covered(ticks - 60)
      ensures old(calls) <= calls && active == ActiveAfter(deletefn, old(calls), old(active), calls)
      ensures |drained| + |offered| <= calls - old(calls)
      ensures removed == if ticks <= 90 && AboveLow(size, low) then 0 else CountOk(deletefn, old(calls), calls)
      ensures ticks <= 90 && closed != timeWait ==>
                queues[closed] == Spared(Unlinks(deletefn), old(calls), old(queues[closed]))
    {
      Begin();
      removed := FinishedQueues(size, low);
      if !AboveLow(size, low) {
        return;
      }
      var found, n := Windows(ticks, size, low);
      if !found {
        return 0;
      }
      removed := removed + n;
    }

    // What the first step hands over: CLOSED, and TIME_WAIT if the load is still above low.
    ghost function Finished(shut: seq<Entry>, waiting: seq<Entry>, c: nat, a: nat, size: nat, low: int): set<Entry>
      requires size > 0
    {
      Elements(shut) + if ActiveAfter(deletefn, c, a, c + |shut|) * 100 / size > low then Elements(waiting) else {}
    }

    ghost method Begin()
      requires Valid()
      modifies this`first, this`since, this`loadThen, this`oks, this`drained, this`offered, this`tries, this`marks
      ensures Valid() && first == queues && since == calls && loadThen == active && oks == 0
      ensures drained == {} && offered == {} && tries == [] && marks == []
    {
      SelfAll(queues);
      first, since, loadThen, oks := queues, calls, active, 0;
      drained, offered, tries, marks := {}, {}, [], [];
      assert drained + offered == {};
    }

    // The second step, if the system has been running long enough for it.
    method Windows(ticks: nat, size: nat, low: int) returns (found: bool, removed: nat)
      requires Valid() && size > 0 && AboveLow(size, low) && offered == {} && tries == [] && marks == []
      modifies this`queues, this`active, this`calls, this`oks, this`offered, this`tries, this`marks
      ensures found <==> ticks > 90
      ensures !found ==> unchanged(this)
      ensures Valid() && Schedule(ticks, tries) && |marks| == |tries| && Loaded(deletefn, since, loadThen, marks, size, low)
      ensures TouchedBy(offered, if tries == [] then -1 else tries[|tries| - 1])
      ensures found ==> tries != [] && (!AboveLow(size, low) || (tries[|tries| - 1] == ticks - 60 && Covered(ticks - 60)))
      ensures removed == oks - old(oks)
    {
      removed := 0;
      var istart, interval;
      found, istart, interval := FirstWindow(ticks);
      if found {
        removed := WindowScan(ticks, istart, interval, size, low);
      }
    }

    method WindowScan(ticks: nat, istart0: nat, interval0: nat, size: nat, low: int) returns (removed: nat)
      requires Valid() && size > 0 && AboveLow(size, low) && offered == {} && tries == [] && marks == []
      requires Window(ticks, istart0, interval0) && FirstAge(ticks, istart0)
      modifies this`queues, this`active, this`calls, this`oks, this`offered, this`tries, this`marks
      ensures Valid() && Schedule(ticks, tries) && tries != []
      ensures |marks| == |tries| && Loaded(deletefn, since, loadThen, marks, size, low)
      ensures TouchedBy(offered, tries[|tries| - 1])
      ensures !AboveLow(size, low) || (tries[|tries| - 1] == ticks - 60 && Covered(ticks - 60))
      ensures removed == oks - old(oks)
    {
      var istart, interval := istart0, interval0;
      var iend := ticks - interval;
      removed := 0;
      while AboveLow(size, low)
        invariant InScan(size, low) && Window(ticks, istart, interval) && iend == ticks - interval
        invariant Underway(ticks, istart, istart0) && (tries == [] ==> AboveLow(size, low))
        invariant removed == oks - old(oks)
        decreases istart
      {
        var done, n;
        n, done, istart, interval, iend := WindowTurn(ticks, istart, interval, iend, size, low, istart0);
        removed := removed + n;
        if done {
          break;
        }
      }
    }

    // One turn of the scan: a pass, and the window moved on.
    method WindowTurn(ticks: nat, istart: nat, interval: nat, iend: nat, size: nat, low: int, ghost istart0: nat)
      returns (removed: nat, done: bool, istart': nat, interval': nat, iend': nat)
      requires size > 0 && InScan(size, low) && AboveLow(size, low) && FirstAge(ticks, istart0)
      requires Window(ticks, istart, interval) && iend == ticks - interval && Underway(ticks, istart, istart0)
      modifies this`queues, this`active, this`calls, this`oks, this`offered, this`tries, this`marks
      ensures InScan(size, low) && tries != [] && Underway(ticks, ticks - tries[|tries| - 1] - StepFrom(ticks - tries[|tries| - 1]), istart0)
      ensures done ==> tries[|tries| - 1] == ticks - 60 && Covered(ticks - 60)
      ensures !done ==> Window(ticks, istart', interval') && iend' == ticks - interval' && istart' < istart
      ensures !done ==> Underway(ticks, istart', istart0)
      ensures removed == oks - old(oks)
    {
      removed := WindowPass(ticks, istart, size, low, istart0);
      OnTime(ticks, istart, istart - StepFrom(istart), istart0);
      done, istart', interval', iend' := NextWindow(ticks, istart, interval, iend);
    }

    // Every pass so far began above low.
    ghost predicate InScan(size: nat, low: int)
      requires size > 0
      reads this
    {
      Valid() && |marks| == |tries| && Loaded(deletefn, since, loadThen, marks, size, low)
    }

    // What has been offered is as old as the last limit, and istart is for the next.
    ghost predicate Underway(ticks: nat, istart: int, istart0: int)
      reads this
    {
      && Due(ticks, tries, istart, istart0)
      && (if tries == [] then offered == {} else TouchedBy(offered, tries[|tries| - 1]))
    }

    lemma OnTime(ticks: nat, age: nat, istart: int, istart0: int)
      requires tries != [] && Schedule(ticks, tries) && age <= ticks && tries[|tries| - 1] == ticks - age
      requires TouchedBy(offered, ticks - age) && istart == age - StepFrom(age)
      ensures Underway(ticks, istart, istart0)
    {
    }

    method WindowPass(ticks: nat, istart: nat, size: nat, low: int, ghost istart0: nat)
      returns (removed: nat)
      requires size > 0 && InScan(size, low) && AboveLow(size, low)
      requires 60 <= istart <= ticks && ticks > 90 && Underway(ticks, istart, istart0) && FirstAge(ticks, istart0)
      modifies this`queues, this`active, this`calls, this`oks, this`offered, this`tries, this`marks
      ensures InScan(size, low) && tries == old(tries) + [ticks - istart] && Schedule(ticks, tries)
      ensures TouchedBy(offered, ticks - istart) && Covered(ticks - istart)
      ensures removed == oks - old(oks)
    {
      DueNow(ticks, tries, istart, istart0);
      LoadedMore(deletefn, since, loadThen, marks, size, low, calls);
      removed := Pass(ticks - istart);
    }

    // The first step: CLOSED, and TIME_WAIT while there is still too much.
    method FinishedQueues(size: nat, low: int) returns (removed: nat)
      requires Valid() && size > 0 && drained == {} && first == queues && since == calls && loadThen == active
      modifies this`queues, this`active, this`calls, this`oks, this`drained
      ensures Valid() && drained == Finished(old(queues[closed]), old(queues[timeWait]), old(calls), old(active), size, low)
      ensures removed == oks - old(oks)
      ensures closed != timeWait ==> queues[closed] == Spared(Unlinks(deletefn), old(calls), old(queues[closed]))
    {
      removed := Drain(closed);
      assert drained == Elements(first[closed]);
      if AboveLow(size, low) {
        var n := DrainWaiting();
        removed := removed + n;
      }
    }

    method DrainWaiting() returns (removed: nat)
      requires Valid() && drained == Elements(first[closed])
      requires closed != timeWait ==> queues[timeWait] == first[timeWait]
      modifies this`queues, this`active, this`calls, this`oks, this`drained
      ensures Valid() && drained == Elements(first[closed]) + Elements(first[timeWait])
      ensures removed == oks - old(oks)
      ensures closed != timeWait ==> queues[closed] == old(queues[closed])
    {
      MembersAll(first, queues, drained + offered, timeWait);
      BothFinished(first[closed], first[timeWait], queues[timeWait]);
      removed := Drain(timeWait);
    }
  }

  // On a system up for at most 90 ticks, with a delete function that always succeeds and a
  // load that stays high: everything in CLOSED is removed, and 0 returned.
  method RemovesUnreported(t: Table, ticks: nat, size: nat, low: int) returns (removed: nat)
    requires t.Valid()
    requires ticks <= 90 && size > 0 && t.closed != t.timeWait && t.AboveLow(size, low)
    requires forall n: nat :: t.deletefn(n).unlinked && t.deletefn(n).ok && t.deletefn(n).active == t.active
    modifies t
    ensures t.Valid() && t.queues[t.closed] == [] && removed == 0
    ensures old(t.calls) <= t.calls && Elements(old(t.queues[t.closed])) <= t.drained
    ensures CountOk(t.deletefn, old(t.calls), t.calls) == t.calls - old(t.calls) >= |Elements(old(t.queues[t.closed]))|
  {
    ghost var c, es := t.calls, t.queues[t.closed];
    NoneSpared(Unlinks(t.deletefn), c, es);
    removed := t.Flush(ticks, size, low);
    AllCounted(t.deletefn, c, t.calls);
    SubsetSize(Elements(es), t.drained);
  }

  // Such a table, with one closed connection.
  method EarlyTable(e: Entry) returns (t: Table)
    ensures fresh(t) && t.Valid()
    ensures t.queues == [[e], []] && t.closed == 0 && t.timeWait == 1 && t.AboveLow(1, 0)
    ensures forall n: nat :: t.deletefn(n).unlinked && t.deletefn(n).ok && t.deletefn(n).active == t.active
  {
    assert SortedAll([[e], []]);
    t := new Table([[e], []], 100, n => Reply(true, true, 100), 0, 1);
  }

  lemma {:induction false} NoneSpared(cut: nat -> bool, c: nat, es: seq<Entry>)
    requires forall n: nat :: cut(n)
    ensures Spared(cut, c, es) == []
  {
    if es != [] { NoneSpared(cut, c, es[..|es| - 1]); }
  }

  lemma {:induction false} AllCounted(fn: DeleteFn, lo: nat, hi: nat)
    requires lo <= hi && forall n: nat :: fn(n).ok
    ensures CountOk(fn, lo, hi) == hi - lo
    decreases hi - lo
  {
    if lo < hi { AllCounted(fn, lo, hi - 1); }
  }

  // The window scan's position: istart is a positive multiple of interval not beyond ticks.
  ghost predicate Window(ticks: nat, istart: int, interval: int) {
    && (interval == HALFDAY || interval == HALFHOUR || interval == HALFMINUTE)
    && istart % interval == 0
    && interval <= istart <= ticks
    && ticks > TtlVal(45)
    && (interval == HALFDAY ==> ticks > TtlVal(64800))
    && (interval == HALFHOUR ==> ticks > TtlVal(2700) && istart <= HALFDAY)
    && (interval == HALFMINUTE ==> istart <= HALFHOUR)
  }

  // How far back, in ticks, the window scan of a system up for that long starts: four days,
  // half a day or half an hour, or as far as the system goes back in whole steps.
  ghost predicate FirstAge(ticks: nat, age: int) {
    if ticks > 129600 then WholeSteps(ticks, age, 691200, 86400)
    else if ticks > 5400 then WholeSteps(ticks, age, 86400, 3600)
    else WholeSteps(ticks, age, 3600, 60)
  }

  ghost predicate WholeSteps(ticks: nat, age: int, far: nat, step: nat)
    requires step > 0
  {
    if far <= ticks then age == far else age % step == 0 && 0 < age <= ticks < age + step
  }

  // How far it moves on from there: by half a day, within half a day by half an hour, and
  // within half an hour by half a minute.
  function StepFrom(age: int): nat {
    if age > 86400 then 86400 else if age > 3600 then 3600 else 60
  }

  // The limits a scan goes through, oldest first.
  ghost predicate Schedule(ticks: nat, tries: seq<nat>) {
    && (tries != [] ==> ticks > 90 && FirstAge(ticks, ticks - tries[0]))
    && (forall i | 0 <= i < |tries| - 1 :: tries[i + 1] == tries[i] + StepFrom(ticks - tries[i]))
    && (tries != [] ==> tries[|tries| - 1] <= ticks - 60)
  }

  // The load was above low when each pass began, at these numbers of calls.
  ghost predicate Loaded(fn: DeleteFn, c: nat, a: nat, marks: seq<nat>, size: nat, low: int)
    requires size > 0
  {
    forall i | 0 <= i < |marks| :: c <= marks[i] && ActiveAfter(fn, c, a, marks[i]) * 100 / size > low
  }

  // What *activep is after call number n, having been a before call number c.
  ghost function ActiveAfter(fn: DeleteFn, c: nat, a: nat, n: nat): nat { if n <= c then a else fn(n - 1).active }

  // Where the scan starts, by how long the system has been running.
  method FirstWindow(ticks: nat) returns (found: bool, istart: nat, interval: nat)
    ensures found <==> ticks > 90
    ensures found ==> Window(ticks, istart, interval) && FirstAge(ticks, istart)
  {
    found, istart, interval := true, 0, 0;
    if ticks > TtlVal(43200 * 15 / 10) {
      istart, interval := TtlVal(86400 * 4), TtlVal(43200);
    } else if ticks > TtlVal(1800 * 15 / 10) {
      istart, interval := TtlVal(43200), TtlVal(1800);
    } else if ticks > TtlVal(30 * 15 / 10) {
      istart, interval := TtlVal(1800), TtlVal(30);
    } else {
      found := false;
    }
    if istart > ticks {
      if ticks - interval < interval {
        istart := interval;
      } else {
        istart := ticks / interval * interval;
        Floor(ticks, interval);
      }
    }
  }

  // Moving the window towards now after a pass with try = ticks - istart.  It never passes
  // the half minute, and stops only there.
  method NextWindow(ticks: nat, istart: nat, interval: nat, iend: nat)
    returns (done: bool, istart': nat, interval': nat, iend': nat)
    requires Window(ticks, istart, interval) && iend == ticks - interval
    ensures done <==> istart == 60
    ensures !done ==> Window(ticks, istart', interval') && iend' == ticks - interval' && istart' == istart - StepFrom(istart)
  {
    done, istart', interval', iend' := false, istart, interval, iend;
    if ticks - istart >= iend {
      if interval == TtlVal(43200) {
        interval' := TtlVal(1800);
      } else if interval == TtlVal(1800) {
        interval' := TtlVal(30);
      } else {
        done := true;
        return;
      }
      if interval' >= ticks {
        done := true;
        return;
      }
      iend' := ticks - interval';
    }
    StepDown(istart, interval, interval');
    istart' := istart' - interval';
  }

  lemma StepDown(istart: nat, interval: nat, interval': nat)
    requires interval == 86400 || interval == 3600 || interval == 60
    requires istart % interval == 0 && interval <= istart
    requires if istart > interval then interval' == interval
             else (interval == 86400 && interval' == 3600) || (interval == 3600 && interval' == 60)
    ensures (istart - interval') % interval' == 0 && interval' <= istart - interval'
  {
    if istart > interval {
      var k := istart / interval;
      assert istart == k * interval && istart - interval == (k - 1) * interval && k >= 2;
      Multiples(k - 1, interval);
    }
  }

  lemma Multiples(k: nat, n: nat)
    requires k > 0 && (n == 86400 || n == 3600 || n == 60)
    ensures (k * n) % n == 0 && n <= k * n
  {
  }

  lemma Floor(ticks: nat, interval: nat)
    requires interval == HALFDAY || interval == HALFHOUR || interval == HALFMINUTE
    requires interval <= ticks
    ensures var m := ticks / interval * interval; m % interval == 0 && interval <= m <= ticks < m + interval
  {
    var k := ticks / interval;
    assert ticks == k * interval + ticks % interval && k > 0;
    Multiples(k, interval);
  }

  // The limits so far, when the next one is ticks - istart.
  ghost predicate NextDue(ticks: nat, tries: seq<nat>, istart: int)
    requires tries != []
  {
    Schedule(ticks, tries) && ticks - istart == tries[|tries| - 1] + StepFrom(ticks - tries[|tries| - 1])
  }

  ghost predicate Due(ticks: nat, tries: seq<nat>, istart: int, istart0: int) {
    if tries == [] then istart == istart0 else NextDue(ticks, tries, istart)
  }

  lemma DueNow(ticks: nat, tries: seq<nat>, istart: int, istart0: int)
    requires 60 <= istart <= ticks && ticks > 90 && FirstAge(ticks, istart0) && Due(ticks, tries, istart, istart0)
    ensures Schedule(ticks, tries + [ticks - istart])
  {
    var tries' := tries + [ticks - istart];
    forall i | 0 <= i < |tries'| - 1 ensures tries'[i + 1] == tries'[i] + StepFrom(ticks - tries'[i]) {
      if i < |tries| - 1 { assert tries[i + 1] == tries[i] + StepFrom(ticks - tries[i]); }
    }
  }

  lemma LoadedMore(fn: DeleteFn, c: nat, a: nat, marks: seq<nat>, size: nat, low: int, n: nat)
    requires size > 0 && Loaded(fn, c, a, marks, size, low) && c <= n && ActiveAfter(fn, c, a, n) * 100 / size > low
    ensures Loaded(fn, c, a, marks + [n], size, low)
  {
  }

  lemma SelfAll(qs: seq<seq<Entry>>)
    ensures TrimmedAll(qs, qs, {})
  {
    forall q ensures TrimmedAt(qs, qs, {}, q) {
      if 0 <= q < |qs| { TrimmedSelf(qs[q], {}); }
    }
  }

  // One queue walked: what is gone from all of them, and their order.
  lemma WalkStep(first: seq<seq<Entry>>, qs: seq<seq<Entry>>, k: nat, left: seq<Entry>, fn: DeleteFn, c: nat, n: nat,
                 bounded: bool, limit: nat, gone: set<Entry>)
    requires TrimmedAll(first, qs, gone) && SortedAll(qs) && k < |qs| && Walked(qs[k], left, fn, c, n, bounded, limit)
    ensures var seen := Elements(qs[k][..n]);
      && TrimmedAll(first, qs[k := left], gone + seen) && SortedAll(qs[k := left])
      && |seen| <= n && (bounded ==> TouchedBy(seen, limit))
  {
    var seen := Elements(qs[k][..n]);
    WalkTrims(qs[k], left, fn, c, n, bounded, limit);
    ElementsSize(qs[k][..n]);
    StepAll(first, qs, k, left, seen, gone);
  }

  lemma DrainOk(first: seq<seq<Entry>>, qs: seq<seq<Entry>>, k: nat, left: seq<Entry>, fn: DeleteFn, c: nat, n: nat,
                drained: set<Entry>, offered: set<Entry>, calls: int)
    requires TableOk(first, qs, drained, offered, calls) && k < |qs| && Walked(qs[k], left, fn, c, n, false, 0)
    ensures TableOk(first, qs[k := left], drained + Elements(qs[k]), offered, calls + n)
    ensures left == Spared(Unlinks(fn), c, qs[k]) && n == |qs[k]|
  {
    WalkStep(first, qs, k, left, fn, c, n, false, 0, drained + offered);
    WholeWalk(qs[k], left, fn, c, n);
    UnionSize(drained, Elements(qs[k]));
    assert (drained + Elements(qs[k])) + offered == (drained + offered) + Elements(qs[k]);
  }

  lemma OfferOk(first: seq<seq<Entry>>, qs: seq<seq<Entry>>, k: nat, left: seq<Entry>, fn: DeleteFn, c: nat, n: nat, limit: nat,
                drained: set<Entry>, offered: set<Entry>, calls: int) returns (seen: set<Entry>)
    requires TableOk(first, qs, drained, offered, calls) && k < |qs| && Walked(qs[k], left, fn, c, n, true, limit)
    requires TouchedBy(offered, limit) && CoveredTo(qs, offered, limit, k)
    ensures TableOk(first, qs[k := left], drained, offered + seen, calls + n)
    ensures TouchedBy(offered + seen, limit) && CoveredTo(qs[k := left], offered + seen, limit, k + 1)
  {
    seen := Elements(qs[k][..n]);
    WalkStep(first, qs, k, left, fn, c, n, true, limit, drained + offered);
    WalkCovered(qs, k, left, fn, c, n, limit, offered);
    UnionSize(offered, seen);
    assert drained + (offered + seen) == (drained + offered) + seen;
  }

  lemma StepAll(first: seq<seq<Entry>>, qs: seq<seq<Entry>>, k: nat, left: seq<Entry>, seen: set<Entry>, gone: set<Entry>)
    requires TrimmedAll(first, qs, gone) && SortedAll(qs) && k < |qs| && Trimmed(qs[k], left, seen)
    ensures TrimmedAll(first, qs[k := left], gone + seen) && SortedAll(qs[k := left])
  {
    var qs' := qs[k := left];
    forall q ensures TrimmedAt(first, qs', gone + seen, q) {
      assert TrimmedAt(first, qs, gone, q);
      if 0 <= q < |qs| {
        if q == k { TrimmedCompose(first[q], qs[q], left, gone, seen); } else { TrimmedWiden(first[q], qs[q], gone, gone + seen); }
      }
    }
    forall q ensures SortedAt(qs', q) {
      assert SortedAt(qs, q);
      if q == k { TrimmedMembers(qs[k], left, seen); }
    }
  }

  // Stopping at the first recent entry of a sorted queue misses none.
  lemma WalkCovered(qs: seq<seq<Entry>>, k: nat, left: seq<Entry>, fn: DeleteFn, c: nat, n: nat, limit: nat, offered: set<Entry>)
    requires SortedAll(qs) && k < |qs| && Walked(qs[k], left, fn, c, n, true, limit) && CoveredTo(qs, offered, limit, k)
    ensures CoveredTo(qs[k := left], offered + Elements(qs[k][..n]), limit, k + 1)
  {
    var qs', offered' := qs[k := left], offered + Elements(qs[k][..n]);
    assert SortedAt(qs, k);
    WalkCovers(qs[k], left, fn, c, n, true, limit);
    WalkTrims(qs[k], left, fn, c, n, true, limit);
    TrimmedMembers(qs[k], left, Elements(qs[k][..n]));
    forall q {:trigger CoveredAt(qs', offered', limit, q)} | q < k + 1 ensures CoveredAt(qs', offered', limit, q) {
      assert q < k ==> CoveredAt(qs, offered, limit, q);
    }
  }

  lemma BothFinished(shut: seq<Entry>, waiting: seq<Entry>, now: seq<Entry>)
    requires now == waiting || (shut == waiting && Elements(now) <= Elements(shut))
    ensures Elements(shut) + Elements(now) == Elements(shut) + Elements(waiting)
  {
  }

  lemma MembersAll(first: seq<seq<Entry>>, qs: seq<seq<Entry>>, gone: set<Entry>, q: nat)
    requires TrimmedAll(first, qs, gone) && q < |qs|
    ensures Elements(qs[q]) <= Elements(first[q])
  {
    assert TrimmedAt(first, qs, gone, q);
    TrimmedMembers(first[q], qs[q], gone);
  }

  // An unbounded walk offers everything.
  lemma WholeWalk(es: seq<Entry>, left: seq<Entry>, fn: DeleteFn, c: nat, n: nat)
    requires Walked(es, left, fn, c, n, false, 0)
    ensures left == Spared(Unlinks(fn), c, es) && Elements(es[..n]) == Elements(es) && n == |es|
  {
    assert n == |es| && es[..n] == es && es[n..] == [];
  }

  // Stopping at the first entry beyond the limit misses nothing in a sorted queue.
  lemma WalkCovers(es: seq<Entry>, left: seq<Entry>, fn: DeleteFn, c: nat, n: nat, bounded: bool, limit: nat)
    requires Walked(es, left, fn, c, n, bounded, limit)
    ensures !bounded || Sorted(es) ==>
              forall e | e in es && (bounded ==> e.touched <= limit) :: e in es[..n]
  {
    forall e | e in es && (!bounded || Sorted(es)) && (bounded ==> e.touched <= limit) ensures e in es[..n] {
      var i :| 0 <= i < |es| && es[i] == e;
      assert i < n ==> es[..n][i] == e;
    }
  }

  lemma UnionSize<T>(a: set<T>, b: set<T>)
    ensures |a + b| <= |a| + |b|
  {
    assert a + b == a + (b - a) && a !! (b - a);
    assert b == (b - a) + (a * b) && (b - a) !! (a * b);
  }

  lemma SubsetSize<T>(a: set<T>, b: set<T>)
    requires a <= b
    ensures |a| <= |b|
  {
    assert b == a + (b - a) && a !! (b - a);
  }

  function Elements(es: seq<Entry>): set<Entry> { set e | e in es }

  lemma {:induction false} ElementsSize(es: seq<Entry>)
    ensures |Elements(es)| <= |es|
  {
    if es != [] {
      var n := |es| - 1;
      ElementsSize(es[..n]);
      assert es == es[..n] + [es[n]];
      assert Elements(es) == Elements(es[..n]) + {es[n]};
      UnionSize(Elements(es[..n]), {es[n]});
    }
  }

  // What is gone after a walk was offered, and what was offered is old enough.
  lemma WalkTrims(es: seq<Entry>, left: seq<Entry>, fn: DeleteFn, c: nat, n: nat, bounded: bool, limit: nat)
    requires Walked(es, left, fn, c, n, bounded, limit)
    ensures Trimmed(es, left, Elements(es[..n])) && (bounded ==> TouchedBy(Elements(es[..n]), limit))
  {
    SparedTrimmed(Unlinks(fn), c, es[..n], Elements(es[..n]));
    TrimmedAppend(es[..n], Spared(Unlinks(fn), c, es[..n]), es[n..], Elements(es[..n]));
    assert es == es[..n] + es[n..];
  }

  lemma {:induction false} SparedTrimmed(cut: nat -> bool, c: nat, es: seq<Entry>, gone: set<Entry>)
    requires forall e | e in es :: e in gone
    ensures Trimmed(es, Spared(cut, c, es), gone)
  {
    if es != [] {
      var n := |es| - 1;
      SparedTrimmed(cut, c, es[..n], gone);
      TrimmedExtend(es[..n], Spared(cut, c, es[..n]), gone, es[n], cut(c + n));
      assert es[..n] + [es[n]] == es && gone + {es[n]} == gone;
      assert Spared(cut, c, es) == if cut(c + n) then Spared(cut, c, es[..n]) else Spared(cut, c, es[..n]) + [es[n]];
    }
  }

  lemma {:induction false} TrimmedWiden(a: seq<Entry>, b: seq<Entry>, g: set<Entry>, h: set<Entry>)
    requires Trimmed(a, b, g) && g <= h
    ensures Trimmed(a, b, h)
    decreases |a|
  {
    if a != [] {
      if b != [] && b[0] == a[0] && Trimmed(a[1..], b[1..], g) {
        TrimmedWiden(a[1..], b[1..], g, h);
      } else {
        TrimmedWiden(a[1..], b, g, h);
      }
    }
  }

  lemma {:induction false} TrimmedExtend(a: seq<Entry>, b: seq<Entry>, g: set<Entry>, e: Entry, cut: bool)
    requires Trimmed(a, b, g)
    ensures Trimmed(a + [e], if cut then b else b + [e], g + {e})
    decreases |a|
  {
    if a == [] {
      assert (a + [e])[1..] == [] && (b + [e])[1..] == [];
    } else {
      assert (a + [e])[1..] == a[1..] + [e];
      if b != [] && b[0] == a[0] && Trimmed(a[1..], b[1..], g) {
        TrimmedExtend(a[1..], b[1..], g, e, cut);
        assert (b + [e])[1..] == b[1..] + [e];
      } else {
        TrimmedExtend(a[1..], b, g, e, cut);
      }
    }
  }

  lemma {:induction false} TrimmedAppend(a: seq<Entry>, b: seq<Entry>, c: seq<Entry>, g: set<Entry>)
    requires Trimmed(a, b, g)
    ensures Trimmed(a + c, b + c, g)
    decreases |a|
  {
    if a == [] {
      assert a + c == c && b + c == c;
      TrimmedSelf(c, g);
    } else {
      assert (a + c)[1..] == a[1..] + c;
      if b != [] && b[0] == a[0] && Trimmed(a[1..], b[1..], g) {
        TrimmedAppend(a[1..], b[1..], c, g);
        assert (b + c)[1..] == b[1..] + c;
      } else {
        TrimmedAppend(a[1..], b, c, g);
      }
    }
  }
}
