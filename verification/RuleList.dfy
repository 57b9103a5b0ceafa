// Placing rules in a list: the list handling of frrequest and ipf_rule_delete
// (ipfilter/fil.c).  As in the source, walks hold pointers to pointers.

module RuleList {
  import opened Basics
  import opened SeqFacts
  import opened RuleOrder

  datatype Slot = NoSlot | HeadOf(l: List) | NextOf(r: Rule)

  // What ipf_rule_compare compares, fr_collect among it: rules are the same when this is.
  datatype Body = Body(collect: nat, text: nat)

  datatype Status = Ok | Eexist | Esrch | Ebusy

  class Rule {
    var next: Rule?
    var pnext: Slot
    var hits: nat
    var ref: nat
    const body: Body

    // A rule as copied in from user space; fr_hits is the wanted offset of an insertion.
    constructor (body: Body, hits: nat)
      ensures next == null && pnext == NoSlot && this.hits == hits && ref == 0 && this.body == body
    {
      this.body := body;
      next, pnext, this.hits, ref := null, NoSlot, hits, 0;
    }
  }

  function Load(s: Slot): Rule?
    requires s != NoSlot
    reads (if s.HeadOf? then {s.l} else {})`head, (if s.NextOf? then {s.r} else {})`next
  {
    match s
    case HeadOf(l) => l.head
    case NextOf(r) => r.next
  }

  class List {
    var head: Rule?
    ghost var rules: seq<Rule>

    ghost function SlotAt(k: nat): Slot
      requires k <= |rules|
      reads this`rules
    {
      if k == 0 then HeadOf(this) else NextOf(rules[k - 1])
    }

    ghost function RuleAt(k: nat): Rule?
      requires k <= |rules|
      reads this`rules
    {
      if k == |rules| then null else rules[k]
    }

    ghost predicate Chain()
      reads this`head, this`rules, rules`next, rules`pnext
    {
      && Distinct(rules)
      && head == RuleAt(0)
      && (forall i {:trigger rules[i].next} | 0 <= i < |rules| :: rules[i].next == RuleAt(i + 1))
      && (forall i {:trigger rules[i].pnext} | 0 <= i < |rules| :: rules[i].pnext == SlotAt(i))
    }

    // Linked, nondecreasing in fr_collect, and no rule twice.
    ghost predicate Valid()
      reads this`head, this`rules, rules`next, rules`pnext
    {
      Chain() && Sorted(rules) && NoTwins(rules)
    }

    constructor ()
      ensures Valid() && rules == []
    {
      head, rules := null, [];
    }

    lemma LoadAt(i: nat)
      requires Chain() && i <= |rules|
      ensures Load(SlotAt(i)) == RuleAt(i)
    {
    }
  }

  ghost predicate InOrder(rs: seq<Rule>, i: int, j: int) {
    0 <= i < j < |rs| ==> rs[i].body.collect <= rs[j].body.collect
  }

  ghost predicate Sorted(rs: seq<Rule>) {
    forall i, j {:trigger InOrder(rs, i, j)} :: InOrder(rs, i, j)
  }

  lemma SortedFrom(rs: seq<Rule>, k: nat)
    requires Sorted(rs)
    ensures forall n | k <= n < |rs| :: rs[k].body.collect <= rs[n].body.collect
  {
    forall n | k <= n < |rs| ensures rs[k].body.collect <= rs[n].body.collect {
      assert InOrder(rs, k, n);
    }
  }

  ghost predicate Differ(rs: seq<Rule>, i: int, j: int) {
    0 <= i < j < |rs| ==> rs[i].body != rs[j].body
  }

  ghost predicate NoTwins(rs: seq<Rule>) {
    forall i, j {:trigger Differ(rs, i, j)} :: Differ(rs, i, j)
  }

  ghost predicate Has(rs: seq<Rule>, b: Body) {
    exists i :: 0 <= i < |rs| && rs[i].body == b
  }

  ghost function Collects(rs: seq<Rule>): (cs: seq<nat>)
    ensures |cs| == |rs| && forall i | 0 <= i < |rs| :: cs[i] == rs[i].body.collect
  {
    seq(|rs|, i requires 0 <= i < |rs| => rs[i].body.collect)
  }

  // ---------- the walks ----------

  // Up to the first rule with a collection number not below c, leaving one slot earlier.
  method SkipBelow(l: List, c: nat) returns (fprev: Slot, ftail: Slot, ghost j: nat, ghost i: nat)
    requires l.Chain()
    ensures j <= i <= |l.rules| && fprev == l.SlotAt(j) && ftail == l.SlotAt(i)
    ensures forall n | 0 <= n < i :: l.rules[n].body.collect < c
    ensures i == j || (i == |l.rules| && j + 1 == i)
  {
    fprev, ftail, j, i := HeadOf(l), HeadOf(l), 0, 0;
    l.LoadAt(0);
    var f := Load(ftail);
    while f != null
      invariant j <= i <= |l.rules| && fprev == l.SlotAt(j) && ftail == l.SlotAt(i) && f == l.RuleAt(i)
      invariant forall n | 0 <= n < i :: l.rules[n].body.collect < c
      invariant i == 0 ==> j == 0
      invariant i > 0 ==> j + 1 == i
      decreases |l.rules| - i
    {
      if c <= f.body.collect {
        ftail, i := fprev, j;
        return;
      }
      fprev, j := ftail, i;
      ftail, i := NextOf(f), i + 1;
      l.LoadAt(i);
      f := Load(ftail);
    }
  }

  // The rule equal to b at or after a slot, if there is one.
  method FindTwin(l: List, from: Slot, b: Body, ghost i: nat) returns (f: Rule?, ghost k: nat)
    requires l.Chain() && i <= |l.rules| && from == l.SlotAt(i)
    ensures f != null ==> i <= k < |l.rules| && f == l.rules[k] && f.body == b
    ensures f == null ==> forall n | i <= n < |l.rules| :: l.rules[n].body != b
  {
    var ftail := from;
    k := i;
    l.LoadAt(k);
    f := Load(ftail);
    while f != null
      invariant i <= k <= |l.rules| && ftail == l.SlotAt(k) && f == l.RuleAt(k)
      invariant forall n | i <= n < k :: l.rules[n].body != b
      decreases |l.rules| - k
    {
      if f.body == b {
        return;
      }
      ftail, k := NextOf(f), k + 1;
      l.LoadAt(k);
      f := Load(ftail);
    }
  }

  // SIOCAD*FR: past every rule with a collection number up to c.
  method AfterBlock(l: List, from: Slot, c: nat, ghost j: nat) returns (ftail: Slot, ghost hi: nat)
    requires l.Chain() && j <= |l.rules| && from == l.SlotAt(j) && Sorted(l.rules)
    requires forall n | 0 <= n < j :: l.rules[n].body.collect <= c
    ensures hi <= |l.rules| && ftail == l.SlotAt(hi)
    ensures forall n | 0 <= n < hi :: l.rules[n].body.collect <= c
    ensures forall n | hi <= n < |l.rules| :: l.rules[n].body.collect > c
  {
    var fprev := from;
    ftail, hi := from, j;
    l.LoadAt(hi);
    var f := Load(ftail);
    while f != null
      invariant hi <= |l.rules| && ftail == fprev == l.SlotAt(hi) && f == l.RuleAt(hi)
      invariant forall n | 0 <= n < hi :: l.rules[n].body.collect <= c
      decreases |l.rules| - hi
    {
      if f.body.collect > c {
        break;
      }
      ftail, hi := NextOf(f), hi + 1;
      fprev := ftail;
      l.LoadAt(hi);
      f := Load(ftail);
    }
    ftail := fprev;
    SortedFrom(l.rules, hi);
  }

  // To the first rule with a collection number not below c.
  method ToBlock(l: List, from: Slot, c: nat, ghost j: nat) returns (fprev: Slot, ghost lo: nat)
    requires l.Chain() && j <= |l.rules| && from == l.SlotAt(j) && Sorted(l.rules)
    requires forall n | 0 <= n < j :: l.rules[n].body.collect < c
    ensures lo <= |l.rules| && fprev == l.SlotAt(lo)
    ensures forall n | 0 <= n < lo :: l.rules[n].body.collect < c
    ensures forall n | lo <= n < |l.rules| :: l.rules[n].body.collect >= c
  {
    fprev, lo := from, j;
    l.LoadAt(lo);
    var f := Load(fprev);
    while f != null
      invariant lo <= |l.rules| && fprev == l.SlotAt(lo) && f == l.RuleAt(lo)
      invariant forall n | 0 <= n < lo :: l.rules[n].body.collect < c
      decreases |l.rules| - lo
    {
      if f.body.collect >= c {
        break;
      }
      fprev, lo := NextOf(f), lo + 1;
      l.LoadAt(lo);
      f := Load(fprev);
    }
    SortedFrom(l.rules, lo);
  }

  // SIOCIN*FR: to the block of collection number c, and hits rules into it.
  method IntoBlock(l: List, from: Slot, c: nat, hits: nat, ghost j: nat)
    returns (ftail: Slot, ghost lo: nat, ghost at: nat)
    requires l.Chain() && j <= |l.rules| && from == l.SlotAt(j) && Sorted(l.rules)
    requires forall n | 0 <= n < j :: l.rules[n].body.collect < c
    ensures lo <= at <= |l.rules| && ftail == l.SlotAt(at) && at - lo <= hits
    ensures forall n | 0 <= n < lo :: l.rules[n].body.collect < c
    ensures forall n | lo <= n < |l.rules| :: l.rules[n].body.collect >= c
    ensures forall n | lo <= n < at :: l.rules[n].body.collect == c
    ensures at - lo < hits ==> at == |l.rules| || l.rules[at].body.collect != c
  {
    ftail, lo := ToBlock(l, from, c, j);
    at := lo;
    var left := hits;
    while left > 0
      invariant lo <= at <= |l.rules| && ftail == l.SlotAt(at) && at - lo == hits - left
      invariant forall n | lo <= n < at :: l.rules[n].body.collect == c
    {
      l.LoadAt(at);
      var f := Load(ftail);
      if f == null {
        break;
      }
      if f.body.collect != c {
        break;
      }
      ftail, at := NextOf(f), at + 1;
      left := left - 1;
    }
  }

  // ---------- changing the list ----------

  method LinkAt(l: List, fp: Rule, ftail: Slot, ghost k: nat)
    requires l.Chain() && k <= |l.rules| && ftail == l.SlotAt(k) && fp !in l.rules
    modifies l`head, l`rules, l.rules`next, l.rules`pnext, fp`next, fp`pnext
    ensures l.Chain() && l.rules == Inserted(old(l.rules), k, fp)
  {
    ghost var rs := l.rules;
    if k > 0 { DistinctAt(rs, k - 1); }
    if k < |rs| { DistinctAt(rs, k); }
    l.LoadAt(k);
    fp.pnext := ftail;
    fp.next := Load(ftail);
    if fp.next != null {
      fp.next.pnext := NextOf(fp);
    }
    match ftail {
      case HeadOf(h) => h.head := fp;
      case NextOf(r) => r.next := fp;
      case NoSlot =>
    }
    l.rules := Inserted(rs, k, fp);
    LinkedChain(l, rs, k, fp);
  }

  lemma LinkedChain(l: List, rs: seq<Rule>, k: nat, fp: Rule)
    requires k <= |rs| && fp !in rs && Distinct(rs) && l.rules == Inserted(rs, k, fp)
    requires l.head == if k == 0 then fp else rs[0]
    requires fp.next == if k == |rs| then null else rs[k]
    requires fp.pnext == if k == 0 then HeadOf(l) else NextOf(rs[k - 1])
    requires k > 0 ==> rs[k - 1].next == fp
    requires k < |rs| ==> rs[k].pnext == NextOf(fp)
    requires forall j {:trigger rs[j].next} | 0 <= j < |rs| && j != k - 1 ::
               rs[j].next == if j + 1 == |rs| then null else rs[j + 1]
    requires forall j {:trigger rs[j].pnext} | 0 <= j < |rs| && j != k ::
               rs[j].pnext == if j == 0 then HeadOf(l) else NextOf(rs[j - 1])
    ensures l.Chain()
  {
    InsertedDistinct(rs, k, fp);
  }

  // ipf_rule_delete, as far as the list goes.
  method Unlink(l: List, f: Rule, ghost k: nat)
    requires l.Chain() && k < |l.rules| && l.rules[k] == f
    modifies l`head, l`rules, l.rules`next, l.rules`pnext
    ensures l.Chain() && l.rules == Without(old(l.rules), k)
    ensures f.next == null && f.pnext == NoSlot
  {
    ghost var rs := l.rules;
    DistinctAt(rs, k);
    if k > 0 { DistinctAt(rs, k - 1); }
    if k + 1 < |rs| { DistinctAt(rs, k + 1); }
    assert f.pnext == l.SlotAt(k) && f.next == l.RuleAt(k + 1);
    match f.pnext {
      case HeadOf(h) => h.head := f.next;
      case NextOf(r) => r.next := f.next;
      case NoSlot =>
    }
    if f.next != null {
      f.next.pnext := f.pnext;
    }
    f.pnext := NoSlot;
    f.next := null;
    l.rules := Without(rs, k);
    UnlinkedChain(l, rs, k);
  }

  lemma UnlinkedChain(l: List, rs: seq<Rule>, k: nat)
    requires k < |rs| && Distinct(rs) && l.rules == Without(rs, k)
    requires k > 0 ==> l.head == rs[0] && rs[k - 1].next == if k + 1 == |rs| then null else rs[k + 1]
    requires k == 0 ==> l.head == if 1 == |rs| then null else rs[1]
    requires k + 1 < |rs| ==> rs[k + 1].pnext == if k == 0 then HeadOf(l) else NextOf(rs[k - 1])
    requires forall j {:trigger rs[j].next} | 0 <= j < |rs| && j != k - 1 && j != k ::
               rs[j].next == if j + 1 == |rs| then null else rs[j + 1]
    requires forall j {:trigger rs[j].pnext} | 0 <= j < |rs| && j != k && j != k + 1 ::
               rs[j].pnext == if j == 0 then HeadOf(l) else NextOf(rs[j - 1])
    ensures l.Chain()
  {
    DistinctWithout(rs, k);
  }

  // ---------- the request ----------

  lemma InsertedOrder(rs: seq<Rule>, k: nat, fp: Rule)
    requires k <= |rs| && Sorted(rs) && NoTwins(rs) && !Has(rs, fp.body)
    requires forall n | 0 <= n < k :: rs[n].body.collect <= fp.body.collect
    requires forall n | k <= n < |rs| :: rs[n].body.collect >= fp.body.collect
    ensures Sorted(Inserted(rs, k, fp)) && NoTwins(Inserted(rs, k, fp))
  {
    var rs' := Inserted(rs, k, fp);
    forall i, j ensures InOrder(rs', i, j) && Differ(rs', i, j) {
      var i', j' := if i < k then i else i - 1, if j < k then j else j - 1;
      assert InOrder(rs, i', j') && Differ(rs, i', j');
    }
  }

  lemma WithoutOrder(rs: seq<Rule>, k: nat)
    requires k < |rs| && Sorted(rs) && NoTwins(rs)
    ensures Sorted(Without(rs, k)) && NoTwins(Without(rs, k))
    ensures !Has(Without(rs, k), rs[k].body)
  {
    var rs' := Without(rs, k);
    forall i, j ensures InOrder(rs', i, j) && Differ(rs', i, j) {
      var i', j' := if i < k then i else i + 1, if j < k then j else j + 1;
      assert InOrder(rs, i', j') && Differ(rs, i', j');
    }
    forall i | 0 <= i < |rs'| ensures rs'[i].body != rs[k].body {
      assert Differ(rs, i, k) && Differ(rs, k, i + 1);
    }
  }

  method Place(l: List, fp: Rule, req: Request, from: Slot, ghost j: nat) returns (ghost at: nat)
    requires l.Valid() && !Has(l.rules, fp.body) && fp !in l.rules && req != Remove
    requires j <= |l.rules| && from == l.SlotAt(j)
    requires forall n | 0 <= n < j :: l.rules[n].body.collect < fp.body.collect
    modifies l`head, l`rules, l.rules`next, l.rules`pnext, fp`next, fp`pnext
    ensures l.Valid() && at <= old(|l.rules|) && l.rules == Inserted(old(l.rules), at, fp)
    ensures Placed(Collects(old(l.rules)), fp.body.collect, req, fp.hits, at)
  {
    ghost var rs := l.rules;
    var c := fp.body.collect;
    var ftail;
    if req == Add {
      ftail, at := AfterBlock(l, from, c, j);
      ghost var lo := FirstOf(rs, c, at);
      assert IsBlock(Collects(rs), c, lo, at);
    } else {
      ghost var lo;
      ftail, lo, at := IntoBlock(l, from, c, fp.hits, j);
      ghost var hi := LastOf(rs, c, lo, at);
      assert IsBlock(Collects(rs), c, lo, hi);
      assert at == lo + Min(fp.hits, hi - lo);
    }
    InsertedOrder(rs, at, fp);
    LinkAt(l, fp, ftail, at);
  }

  lemma {:induction false} FirstOf(rs: seq<Rule>, c: nat, hi: nat) returns (lo: nat)
    requires Sorted(rs) && hi <= |rs|
    requires forall n | 0 <= n < hi :: rs[n].body.collect <= c
    ensures lo <= hi
    ensures forall n | 0 <= n < lo :: rs[n].body.collect < c
    ensures forall n | lo <= n < hi :: rs[n].body.collect == c
    decreases hi
  {
    if hi == 0 || rs[hi - 1].body.collect < c {
      lo := hi;
      forall n | 0 <= n < lo ensures rs[n].body.collect < c {
        assert InOrder(rs, n, hi - 1);
      }
    } else {
      lo := FirstOf(rs, c, hi - 1);
    }
  }

  lemma {:induction false} LastOf(rs: seq<Rule>, c: nat, lo: nat, at: nat) returns (hi: nat)
    requires Sorted(rs) && lo <= at <= |rs|
    requires forall n | lo <= n < |rs| :: rs[n].body.collect >= c
    requires forall n | lo <= n < at :: rs[n].body.collect == c
    ensures at <= hi <= |rs|
    ensures forall n | lo <= n < hi :: rs[n].body.collect == c
    ensures forall n | hi <= n < |rs| :: rs[n].body.collect > c
    ensures at == |rs| || rs[at].body.collect != c ==> hi == at
    decreases |rs| - at
  {
    if at < |rs| && rs[at].body.collect == c {
      hi := LastOf(rs, c, lo, at + 1);
    } else {
      hi := at;
      SortedFrom(rs, at);
    }
  }

  // frrequest on one list.  Adding or inserting refuses a rule that is already there; a
  // rule something else refers to cannot be removed.
  method FrRequest(l: List, fp: Rule, req: Request) returns (status: Status, ghost at: nat)
    requires l.Valid() && fp !in l.rules
    modifies l`head, l`rules, l.rules`next, l.rules`pnext, fp`next, fp`pnext, fp`hits, fp`ref
    ensures l.Valid()
    ensures status != Ok ==> l.rules == old(l.rules)
    ensures req != Remove ==> status == if Has(old(l.rules), fp.body) then Eexist else Ok
    ensures req != Remove && status == Ok ==>
              && at <= old(|l.rules|) && l.rules == Inserted(old(l.rules), at, fp)
              && Placed(Collects(old(l.rules)), fp.body.collect, req, old(fp.hits), at)
              && fp.ref == 1 && fp.hits == 0
    ensures req == Remove ==> (status == Esrch <==> !Has(old(l.rules), fp.body)) && status != Eexist
    ensures req == Remove && status != Esrch ==>
              && at < old(|l.rules|) && old(l.rules)[at].body == fp.body
              && (status == Ebusy <==> old(l.rules[at].ref) > 1)
              && (status == Ok ==> l.rules == Without(old(l.rules), at))
  {
    if req == Remove {
      status, at := RemoveTwin(l, fp.body);
    } else {
      status, at := AddNew(l, fp, req);
    }
  }

  method RemoveTwin(l: List, b: Body) returns (status: Status, ghost at: nat)
    requires l.Valid()
    modifies l`head, l`rules, l.rules`next, l.rules`pnext
    ensures l.Valid()
    ensures status == Esrch <==> !Has(old(l.rules), b)
    ensures status == Ok || status == Esrch || status == Ebusy
    ensures status != Ok ==> l.rules == old(l.rules)
    ensures status != Esrch ==>
              && at < old(|l.rules|) && old(l.rules)[at].body == b
              && (status == Ebusy <==> old(l.rules[at].ref) > 1)
              && (status == Ok ==> l.rules == Without(old(l.rules), at))
  {
    ghost var j, i;
    var fprev, ftail, f;
    fprev, ftail, j, i := SkipBelow(l, b.collect);
    f, at := FindTwin(l, ftail, b, i);
    if f == null {
      return Esrch, 0;
    }
    if f.ref > 1 {
      return Ebusy, at;
    }
    WithoutOrder(l.rules, at);
    Unlink(l, f, at);
    status := Ok;
  }

  method AddNew(l: List, fp: Rule, req: Request) returns (status: Status, ghost at: nat)
    requires l.Valid() && fp !in l.rules && req != Remove
    modifies l`head, l`rules, l.rules`next, l.rules`pnext, fp`next, fp`pnext, fp`hits, fp`ref
    ensures l.Valid()
    ensures status == if Has(old(l.rules), fp.body) then Eexist else Ok
    ensures status != Ok ==> l.rules == old(l.rules)
    ensures status == Ok ==>
              && at <= old(|l.rules|) && l.rules == Inserted(old(l.rules), at, fp)
              && Placed(Collects(old(l.rules)), fp.body.collect, req, old(fp.hits), at)
              && fp.ref == 1 && fp.hits == 0
  {
    ghost var j, i, k;
    var fprev, ftail, f;
    fprev, ftail, j, i := SkipBelow(l, fp.body.collect);
    f, k := FindTwin(l, ftail, fp.body, i);
    if f != null {
      return Eexist, 0;
    }
    assert !Has(l.rules, fp.body);
    at := Place(l, fp, req, fprev, j);
    fp.hits := 0;
    fp.ref := 1;
    status := Ok;
  }
}
