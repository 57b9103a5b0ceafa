// The walk of ipf_queueflush on the linked queue itself, with a delete function that orphans
// its entry by ipf_deletequeueentry or fails (ipfilter/fil.c). It does to the linked entries
// what Table.Walk does to the sequence that shows them.

module QueueWalk {
  import opened SeqFacts
  import opened TimeoutQueues
  import F = QueueFlush

  // vs shows the entries: whose they are and when they were touched.
  ghost predicate Shown(es: seq<Entry>, vs: seq<F.Entry>)
    reads es`parent, es`touched
  {
    |vs| == |es| && forall i {:trigger vs[i]} | 0 <= i < |vs| :: vs[i] == F.Entry(es[i].parent, es[i].touched)
  }

  // A valid queue shows a sorted sequence, which is what a flush needs to cover it.
  lemma ShownSorted(q: Queue, vs: seq<F.Entry>, now: nat)
    requires q.Valid(now) && Shown(q.entries, vs)
    ensures F.Sorted(vs)
  {
    forall i, j | 0 <= i < j < |vs| ensures vs[i].touched <= vs[j].touched {
      assert NotAfter(q.entries, i, j);
    }
  }

  lemma {:induction false} SparedShown(cut: nat -> bool, c: nat, es: seq<Entry>, vs: seq<F.Entry>)
    requires Shown(es, vs)
    ensures Shown(Spared(cut, c, es), Spared(cut, c, vs))
  {
    if es != [] {
      var n := |es| - 1;
      assert forall i | 0 <= i < n :: vs[..n][i] == vs[i];
      SparedShown(cut, c, es[..n], vs[..n]);
      var a, b := Spared(cut, c, es[..n]), Spared(cut, c, vs[..n]);
      assert vs[n] == F.Entry(es[n].parent, es[n].touched);
      if !cut(c + n) { ShownAppend(a, b, [es[n]], [vs[n]]); } else { ShownAppend(a, b, [], []); }
    }
  }

  lemma ShownAppend(a: seq<Entry>, b: seq<F.Entry>, a': seq<Entry>, b': seq<F.Entry>)
    requires Shown(a, b) && Shown(a', b')
    ensures Shown(a + a', b + b')
  {
    forall i | 0 <= i < |b + b'| ensures (b + b')[i] == F.Entry((a + a')[i].parent, (a + a')[i].touched) {
      if i < |b| { assert b[i] == F.Entry(a[i].parent, a[i].touched); }
      else { assert b'[i - |b|] == F.Entry(a'[i - |b|].parent, a'[i - |b|].touched); }
    }
  }

  // n entries of es have been offered, from call number c on, and kept is what stayed.
  ghost predicate Left(cut: nat -> bool, c: nat, es: seq<Entry>, n: nat, kept: seq<Entry>, entries: seq<Entry>) {
    n <= |es| && kept == Spared(cut, c, es[..n]) && entries == kept + es[n..]
  }

  lemma LeftNext(cut: nat -> bool, c: nat, es: seq<Entry>, n: nat, kept: seq<Entry>, entries: seq<Entry>)
    requires Left(cut, c, es, n, kept, entries) && n < |es|
    ensures |kept| < |entries| && entries[|kept|] == es[n]
    ensures if cut(c + n) then Left(cut, c, es, n + 1, kept, Without(entries, |kept|))
            else Left(cut, c, es, n + 1, kept + [es[n]], entries)
  {
    SparedNext(cut, c, es, n);
    CutOut(kept, es, n);
    assert kept + [] == kept;
  }

  lemma CutOut(kept: seq<Entry>, es: seq<Entry>, n: nat)
    requires n < |es|
    ensures (kept + es[n..])[|kept|] == es[n]
    ensures Without(kept + es[n..], |kept|) == kept + es[n + 1..]
    ensures kept + es[n..] == (kept + [es[n]]) + es[n + 1..]
  {
    assert es[n..] == [es[n]] + es[n + 1..];
    assert (kept + es[n..])[..|kept|] == kept && (kept + es[n..])[|kept| + 1..] == es[n + 1..];
  }

  ghost predicate Among(entries: seq<Entry>, es: seq<Entry>) {
    forall i | 0 <= i < |entries| :: entries[i] in es
  }

  ghost predicate OldOnly(vs: seq<F.Entry>, n: nat, bounded: bool, limit: nat) {
    bounded ==> forall i | 0 <= i < n && i < |vs| :: vs[i].touched <= limit
  }

  lemma OldNext(vs: seq<F.Entry>, n: nat, bounded: bool, limit: nat)
    requires OldOnly(vs, n, bounded, limit) && n < |vs| && (bounded ==> vs[n].touched <= limit)
    ensures OldOnly(vs, n + 1, bounded, limit)
  {
  }

  ghost predicate Recent(vs: seq<F.Entry>, n: nat, bounded: bool, limit: nat) {
    bounded && n < |vs| && limit < vs[n].touched
  }

  // What a walk is about: the queue's entries when it began and what they show, the number of
  // the first call and how far to go.
  datatype Job = Job(fn: F.DeleteFn, c: nat, es: seq<Entry>, vs: seq<F.Entry>, bounded: bool, limit: nat, now: nat)

  // n entries offered, tqn up next.
  ghost predicate State(q: Queue, w: Job, n: nat, kept: seq<Entry>, tqn: Entry?)
    reads q, q.entries, w.es`parent, w.es`touched
  {
    && q.Valid(w.now) && Left(F.Unlinks(w.fn), w.c, w.es, n, kept, q.entries) && Among(q.entries, w.es)
    && tqn == q.EntryAt(|kept|)
    && Shown(w.es, w.vs) && OldOnly(w.vs, n, w.bounded, w.limit)
  }

  // The next entry is fetched before the delete function runs, so the walk goes on after an
  // entry has left the list.
  method Walk(q: Queue, fn: F.DeleteFn, c: nat, bounded: bool, limit: nat, ghost now: nat, ghost vs: seq<F.Entry>)
    returns (calls: nat, ghost left: seq<F.Entry>)
    requires q.Valid(now) && Shown(q.entries, vs)
    modifies q`head, q`tail, q`ref, q`delete, q`entries, q.entries`next, q.entries`pnext, q.entries`ifq
    ensures q.Valid(now) && q.delete == old(q.delete)
    ensures Shown(q.entries, left) && F.Walked(vs, left, fn, c, calls, bounded, limit)
  {
    ghost var w := Job(fn, c, q.entries, vs, bounded, limit, now);
    Begin(q, w, q.head);
    ghost var kept, tqn;
    calls, kept, tqn := Run(q, fn, c, bounded, limit, w);
    left := Finish(q, w, calls, kept, tqn);
  }

  // The loop.
  method Run(q: Queue, fn: F.DeleteFn, c: nat, bounded: bool, limit: nat, ghost w: Job)
    returns (calls: nat, ghost kept: seq<Entry>, ghost tqn': Entry?)
    requires State(q, w, 0, [], q.head) && w.fn == fn && w.c == c && w.bounded == bounded && w.limit == limit
    modifies q`head, q`tail, q`ref, q`delete, q`entries, w.es`next, w.es`pnext, w.es`ifq
    ensures State(q, w, calls, kept, tqn') && q.delete == old(q.delete)
    ensures tqn' == null || Recent(w.vs, calls, bounded, limit)
  {
    calls, kept := 0, [];
    var tqn, stop := q.head, false;
    while tqn != null && !stop
      invariant State(q, w, calls, kept, tqn) && q.delete == old(q.delete)
      invariant stop ==> Recent(w.vs, calls, bounded, limit)
      decreases |w.es| - calls, !stop
    {
      stop, tqn, kept := OfferNext(q, tqn, fn, c, calls, bounded, limit, w, kept);
      if !stop {
        calls := calls + 1;
      }
    }
    tqn' := tqn;
  }

  lemma Begin(q: Queue, w: Job, tqn: Entry?)
    requires q.Valid(w.now) && tqn == q.head && w.es == q.entries && Shown(w.es, w.vs)
    ensures State(q, w, 0, [], tqn)
  {
    assert q.entries[..0] == [] && [] + q.entries[0..] == q.entries;
  }

  lemma Finish(q: Queue, w: Job, n: nat, kept: seq<Entry>, tqn: Entry?) returns (left: seq<F.Entry>)
    requires State(q, w, n, kept, tqn) && (tqn == null || Recent(w.vs, n, w.bounded, w.limit))
    ensures q.Valid(w.now) && Shown(q.entries, left) && F.Walked(w.vs, left, w.fn, w.c, n, w.bounded, w.limit)
  {
    var cut := F.Unlinks(w.fn);
    left := Spared(cut, w.c, w.vs[..n]) + w.vs[n..];
    ShownParts(w.es, w.vs, n);
    SparedShown(cut, w.c, w.es[..n], w.vs[..n]);
    ShownAppend(kept, Spared(cut, w.c, w.vs[..n]), w.es[n..], w.vs[n..]);
  }

  lemma ShownParts(es: seq<Entry>, vs: seq<F.Entry>, n: nat)
    requires Shown(es, vs) && n <= |es|
    ensures Shown(es[..n], vs[..n]) && Shown(es[n..], vs[n..])
  {
    assert forall i | 0 <= i < n :: vs[..n][i] == vs[i];
    assert forall i | 0 <= i < |vs| - n :: vs[n..][i] == vs[n + i];
  }

  // One turn of the loop: stop at a recent entry, or offer this one and go on.
  method OfferNext(q: Queue, tqe: Entry, fn: F.DeleteFn, c: nat, n: nat, bounded: bool, limit: nat,
                   ghost w: Job, ghost kept: seq<Entry>)
    returns (stop: bool, tqn: Entry?, ghost kept': seq<Entry>)
    requires State(q, w, n, kept, tqe) && w.fn == fn && w.c == c && w.bounded == bounded && w.limit == limit
    modifies q`head, q`tail, q`ref, q`delete, q`entries, w.es`next, w.es`pnext, w.es`ifq
    ensures n < |w.es| && q.delete == old(q.delete)
    ensures State(q, w, if stop then n else n + 1, kept', tqn)
    ensures stop ==> Recent(w.vs, n, bounded, limit)
  {
    Upcoming(q, w, n, kept, tqe);
    if bounded && limit < tqe.touched {
      return true, tqe, kept;
    }
    stop := false;
    OldNext(w.vs, n, bounded, limit);
    ghost var was := q.entries;
    var cut := fn(c + n).unlinked;
    tqn := Offer(q, tqe, cut, |kept|, w);
    kept' := if cut then kept else kept + [tqe];
    Onwards(q, w, n, kept, was, cut, tqn);
  }

  lemma Upcoming(q: Queue, w: Job, n: nat, kept: seq<Entry>, tqe: Entry)
    requires State(q, w, n, kept, tqe)
    ensures n < |w.es| && tqe == w.es[n] && tqe.touched == w.vs[n].touched
    ensures |kept| < |q.entries| && q.entries[|kept|] == tqe
  {
    CutOut(kept, w.es, n);
  }

  lemma Onwards(q: Queue, w: Job, n: nat, kept: seq<Entry>, was: seq<Entry>, cut: bool, tqn: Entry?)
    requires q.Valid(w.now) && Left(F.Unlinks(w.fn), w.c, w.es, n, kept, was) && Among(q.entries, w.es) && n < |w.es|
    requires cut == F.Unlinks(w.fn)(w.c + n) && |kept| < |was|
    requires q.entries == (if cut then Without(was, |kept|) else was)
    requires tqn == q.EntryAt(if cut then |kept| else |kept| + 1)
    requires Shown(w.es, w.vs) && OldOnly(w.vs, n + 1, w.bounded, w.limit)
    ensures State(q, w, n + 1, if cut then kept else kept + [w.es[n]], tqn)
  {
    LeftNext(F.Unlinks(w.fn), w.c, w.es, n, kept, was);
  }

  // One entry offered; what comes next.
  method Offer(q: Queue, tqe: Entry, delete: bool, ghost k: nat, ghost w: Job) returns (tqn: Entry?)
    requires q.Valid(w.now) && k < |q.entries| && q.entries[k] == tqe
    requires Among(q.entries, w.es) && Shown(w.es, w.vs)
    modifies q`head, q`tail, q`ref, q`delete, q`entries, w.es`next, w.es`pnext, w.es`ifq
    ensures q.Valid(w.now) && q.delete == old(q.delete) && Among(q.entries, w.es) && Shown(w.es, w.vs)
    ensures q.entries == if delete then Without(old(q.entries), k) else old(q.entries)
    ensures tqn == q.EntryAt(if delete then k else k + 1)
  {
    tqn := tqe.next;
    assert q.entries[k].ifq == q;
    if delete {
      DeleteQueueEntry(tqe, k, w.now);
    }
  }
}
