// Choosing a destination: ipf_dstlist_select and ipf_dstlist_select_node, and what the
// connection policy guarantees over a run of choices.

module DstSelect {
  import opened Basics
  import opened SeqFacts
  import opened DstList

  datatype Policy = RoundRobin | Connection | Random | Hashed

  const INT_MAX: nat := 0x7fffffff

  // ---------- choices by position ----------

  // How far behind prev, going round, a position is reached.
  function Dist(prev: nat, i: nat, n: nat): nat
    requires prev < n && i < n
  {
    if i > prev then i - prev else i + n - prev
  }

  // r is the least loaded position other than prev, the first such one after prev.
  ghost predicate FirstLeast(loads: seq<nat>, prev: nat, r: nat)
    requires prev < |loads| && r < |loads|
  {
    && r != prev
    && forall j: nat | j < |loads| && j != prev ::
         && loads[r] <= loads[j]
         && (Dist(prev, j, |loads|) < Dist(prev, r, |loads|) ==> loads[r] < loads[j])
  }

  // What the connection policy picks.  The counters are C ints: only a node below the
  // largest of them can be preferred to the previous one.
  ghost predicate ConnectionPick(loads: seq<nat>, prev: nat, r: nat)
    requires prev < |loads| && r < |loads|
  {
    if exists j: nat :: j < |loads| && j != prev && loads[j] < 0x7fff_ffff
    then FirstLeast(loads, prev, r)
    else r == prev
  }

  // When every other counter is at its limit the previous node is kept, however loaded.
  lemma AllAtLimit(loads: seq<nat>, prev: nat, r: nat)
    requires prev < |loads| && r < |loads| && forall j: nat | j < |loads| && j != prev :: loads[j] >= 0x7fff_ffff
    ensures ConnectionPick(loads, prev, r) <==> r == prev
  {
  }

  // ---------- the selection itself ----------

  ghost function Loads(ns: seq<Node>): (loads: seq<nat>)
    reads ns
    ensures |loads| == |ns| && forall i | 0 <= i < |ns| :: loads[i] == ns[i].states
  {
    seq(|ns|, i requires 0 <= i < |ns| reads ns => ns[i].states)
  }

  ghost predicate Chosen(t: Table, sel: Node?, i: nat)
    reads t`list
  {
    i < |t.list| && sel == t.list[i]
  }

  // The node after position i, wrapping to the head of the list.
  method After(t: Table, node: Node, ghost i: nat) returns (next: Node)
    requires t.Linked() && Chosen(t, node, i)
    ensures Chosen(t, next, Succ(i, |t.list|))
  {
    assert node.next == t.NodeAt(i + 1);
    if node.next == null {
      next := t.dests[0];
    } else {
      next := node.next;
    }
  }

  // Having looked at the positions from after p up to i: r is the best of them, or still p.
  ghost predicate Scanned(loads: seq<nat>, p: nat, i: nat, r: nat, connects: nat)
    requires p < |loads| && i < |loads| && r < |loads|
  {
    var n := |loads|;
    && (r == p ==> connects == INT_MAX)
    && (r != p ==> connects == loads[r] < INT_MAX && Dist(p, r, n) < Dist(p, i, n))
    && forall j: nat | j < n && j != p && Dist(p, j, n) < Dist(p, i, n) ::
         && 0 < loads[j]
         && connects <= loads[j]
         && (r != p && Dist(p, j, n) < Dist(p, r, n) ==> connects < loads[j])
  }

  lemma ScanOne(loads: seq<nat>, p: nat, i: nat, r: nat, connects: nat)
    requires p < |loads| && i < |loads| && r < |loads| && i != p && Scanned(loads, p, i, r, connects)
    ensures loads[i] == 0 ==> ConnectionPick(loads, p, i)
    ensures loads[i] > 0 ==>
              if loads[i] < connects then Scanned(loads, p, Succ(i, |loads|), i, loads[i])
              else Scanned(loads, p, Succ(i, |loads|), r, connects)
  {
    var n := |loads|;
    assert Dist(p, Succ(i, n), n) == Dist(p, i, n) + 1;
    assert forall j: nat | j < n && Dist(p, j, n) == Dist(p, i, n) :: j == i;
  }

  lemma ScanEnd(loads: seq<nat>, p: nat, r: nat, connects: nat)
    requires p < |loads| && r < |loads| && Scanned(loads, p, p, r, connects)
    ensures ConnectionPick(loads, p, r)
  {
    assert forall j: nat | j < |loads| && j != p :: Dist(p, j, |loads|) < Dist(p, p, |loads|);
  }

  method LeastConnected(t: Table, ghost p: nat, ghost loads: seq<nat>) returns (sel: Node, ghost r: nat)
    requires t.Linked() && t.selected != null && Chosen(t, t.selected, p)
    requires |loads| == |t.list| && forall i | 0 <= i < |loads| :: loads[i] == t.list[i].states
    ensures Chosen(t, sel, r) && ConnectionPick(loads, p, r)
  {
    ghost var n := |t.list|;
    DistinctAt(t.list, p);
    sel, r := t.selected, p;
    var connects := INT_MAX;
    ghost var i := Succ(p, n);
    var node := After(t, t.selected, p);
    while node != t.selected
      invariant Chosen(t, node, i) && Chosen(t, sel, r) && Scanned(loads, p, i, r, connects)
      decreases n - Dist(p, i, n)
    {
      assert loads[i] == node.states;
      ScanOne(loads, p, i, r, connects);
      if node.states == 0 {
        sel, r := node, i;
        return;
      }
      if node.states < connects {
        sel, r := node, i;
        connects := node.states;
      }
      node := After(t, node, i);
      i := Succ(i, n);
    }
    ScanEnd(loads, p, r, connects);
  }

  // The position each policy comes to, prev being the one selected last, if any.
  ghost predicate PolicyPick(policy: Policy, loads: seq<nat>, selected: bool, prev: nat, x: nat, r: nat)
    requires r < |loads| && (selected ==> prev < |loads|)
  {
    match policy
    case RoundRobin => r == if selected then Succ(prev, |loads|) else 0
    case Connection => if selected then ConnectionPick(loads, prev, r) else r == 0
    case _ => r == x % |loads|
  }

  // ipf_dstlist_select.  x stands for the random number or the hash of the addresses.
  method Select(t: Table, policy: Policy, family: nat, x: nat, ghost p: nat)
    returns (sel: Node?, ghost r: nat)
    requires t.Linked() && (t.selected != null ==> Chosen(t, t.selected, p))
    modifies t`selected
    ensures t.list == [] ==> sel == null && t.selected == old(t.selected)
    ensures t.list != [] ==> r < |t.list| && t.selected == sel
    ensures t.list != [] ==> sel == if t.list[r].family == family then t.list[r] else null
    ensures t.list != [] ==> PolicyPick(policy, old(Loads(t.list)), old(t.selected) != null, p, x, r)
  {
    r := 0;
    if t.dests == null || t.dests[0] == null {
      return null, 0;
    }
    var chosen: Node;
    match policy {
      case RoundRobin =>
        if t.selected == null {
          chosen, r := t.dests[0], 0;
        } else {
          chosen := After(t, t.selected, p);
          r := Succ(p, |t.list|);
        }
      case Connection =>
        if t.selected == null {
          chosen, r := t.dests[0], 0;
        } else {
          chosen, r := LeastConnected(t, p, Loads(t.list));
        }
      case _ =>
        var k := x % t.nodes;
        chosen, r := t.dests[k], k;
    }
    sel := if chosen.family != family then null else chosen;
    t.selected := sel;
  }

  // ipf_dstlist_select_node: a successful choice adds one to the node's states.
  method SelectNode(t: Table, policy: Policy, family: nat, x: nat, ghost p: nat)
    returns (node: Node?, ghost r: nat)
    requires t.Linked() && (t.selected != null ==> Chosen(t, t.selected, p))
    modifies t`selected, t.list`states
    ensures node != null ==> Chosen(t, node, r)
    ensures t.selected == if t.list == [] then old(t.selected) else node
    ensures var loads := old(Loads(t.list));
      && Loads(t.list) == (if node == null then loads else loads[r := loads[r] + 1])
      && (t.list != [] ==> r < |t.list| && PolicyPick(policy, loads, old(t.selected) != null, p, x, r))
    ensures node == null <==> t.list == [] || t.list[r].family != family
  {
    ghost var loads := Loads(t.list);
    node, r := Select(t, policy, family, x, p);
    assert Loads(t.list) == loads;
    if node == null {
      return;
    }
    AddState(t.list, node, r);
  }

  method AddState(ghost ns: seq<Node>, node: Node, ghost r: nat)
    requires r < |ns| && ns[r] == node && Distinct(ns)
    modifies node`states
    ensures Loads(ns) == old(Loads(ns))[r := old(Loads(ns))[r] + 1]
  {
    DistinctAt(ns, r);
    node.states := node.states + 1;
  }

  // ---------- runs of the connection policy ----------

  function ZeroLoads(n: nat): seq<nat> { seq(n, _ => 0) }

  function LoadsAfter(n: nat, picks: seq<nat>): (loads: seq<nat>)
    ensures |loads| == n
  {
    if picks == [] then ZeroLoads(n) else
    var before := LoadsAfter(n, picks[..|picks| - 1]);
    var r := picks[|picks| - 1];
    if r < n then before[r := before[r] + 1] else before
  }

  // r is a pick the policy allows after these; the first one is made with nothing selected
  // before, and no counter may be at its limit.
  ghost predicate Legal(n: nat, before: seq<nat>, r: nat) {
    && r < n
    && (forall i | 0 <= i < n :: LoadsAfter(n, before)[i] < INT_MAX)
    && if before == [] then r == 0
       else before[|before| - 1] < n && ConnectionPick(LoadsAfter(n, before), before[|before| - 1], r)
  }

  ghost predicate IsRun(n: nat, picks: seq<nat>) {
    picks != [] ==>
      var before := picks[..|picks| - 1];
      IsRun(n, before) && Legal(n, before, picks[|picks| - 1])
  }

  // pos nodes have one more than the others.
  ghost predicate Round(loads: seq<nat>, pos: nat, round: nat) {
    && pos < |loads|
    && forall i | 0 <= i < |loads| :: loads[i] == if i < pos then round + 1 else round
  }

  lemma RoundStep(loads: seq<nat>, pos: nat, round: nat, prev: nat, r: nat)
    requires Round(loads, pos, round) && prev < |loads| && r < |loads| && Succ(prev, |loads|) == pos
    requires loads[pos] < INT_MAX && ConnectionPick(loads, prev, r)
    ensures r == pos
  {
    if |loads| > 1 {
      assert pos != prev && loads[pos] < INT_MAX;
      assert Dist(prev, pos, |loads|) == 1;
    }
  }

  function Cycle(k: nat, n: nat): (r: nat)
    requires n > 0
    ensures r < n
  {
    if k == 0 then 0 else Succ(Cycle(k - 1, n), n)
  }

  // The k-th pick is node k mod n, and the loads never differ by more than one.
  lemma RunIsCyclic(n: nat, picks: seq<nat>)
    requires n > 0 && IsRun(n, picks)
    ensures forall k | 0 <= k < |picks| :: picks[k] == k % n
    ensures forall i, j | 0 <= i < n && 0 <= j < n :: LoadsAfter(n, picks)[i] <= LoadsAfter(n, picks)[j] + 1
  {
    var round := RunRounds(n, picks);
    forall k | 0 <= k < |picks| ensures picks[k] == k % n {
      var q := CycleIsMod(k, n);
    }
  }

  lemma {:induction false} RunRounds(n: nat, picks: seq<nat>) returns (round: nat)
    requires n > 0 && IsRun(n, picks)
    ensures Round(LoadsAfter(n, picks), Cycle(|picks|, n), round)
    ensures forall k | 0 <= k < |picks| :: picks[k] == Cycle(k, n)
  {
    if picks == [] {
      round := 0;
    } else {
      var m := |picks| - 1;
      var before := picks[..m];
      round := RunRounds(n, before);
      forall k | 0 <= k < m ensures picks[k] == Cycle(k, n) {
        assert before[k] == picks[k];
      }
      LegalTurn(n, before, picks[m], round);
      if Cycle(m, n) + 1 == n {
        round := round + 1;
      }
    }
  }

  lemma LegalTurn(n: nat, before: seq<nat>, r: nat, round: nat)
    requires n > 0 && Legal(n, before, r) && Round(LoadsAfter(n, before), Cycle(|before|, n), round)
    requires before != [] ==> before[|before| - 1] == Cycle(|before| - 1, n)
    ensures r == Cycle(|before|, n)
  {
    var loads, p := LoadsAfter(n, before), Cycle(|before|, n);
    if before != [] {
      assert loads[p] < INT_MAX;
      RoundStep(loads, p, round, before[|before| - 1], r);
    }
  }

  lemma {:induction false} CycleIsMod(k: nat, n: nat) returns (q: nat)
    requires n > 0
    ensures k == q * n + Cycle(k, n) && k % n == Cycle(k, n)
  {
    if k == 0 {
      q := 0;
    } else {
      q := CycleIsMod(k - 1, n);
      if Cycle(k - 1, n) + 1 == n {
        assert (q + 1) * n == q * n + n;
        q := q + 1;
      }
    }
    ModOf(k, q, n, Cycle(k, n));
  }

  lemma ModOf(m: nat, q: nat, n: nat, p: nat)
    requires n > 0 && p < n && m == q * n + p
    ensures m % n == p
  {
    var d: int := m / n - q;
    assert m == n * (m / n) + m % n;
    assert d * n + m % n == p by { assert (m / n) * n - q * n == d * n; }
    Multiple(d, n);
  }

  lemma Multiple(d: int, n: int)
    requires n > 0
    ensures d >= 1 ==> d * n >= n
    ensures d <= -1 ==> d * n <= -n
  {
  }

  function Pred(i: nat, n: nat): (r: nat)
    requires i < n
    ensures r < n && Succ(r, n) == i
  {
    if i == 0 then n - 1 else i - 1
  }

  // pos nodes have served once more than the others, the last of them most recently.
  ghost predicate Turn(t: Table, pos: nat, round: nat)
    reads t, t.list
  {
    && Round(Loads(t.list), pos, round)
    && if pos == 0 && round == 0 then t.selected == null
       else t.selected != null && Chosen(t, t.selected, Pred(pos, |t.list|))
  }

  method ServeOne(t: Table, family: nat, ghost pos: nat, ghost round: nat)
    requires t.Linked() && Turn(t, pos, round) && round < INT_MAX
    requires forall i | 0 <= i < |t.list| :: t.list[i].family == family
    modifies t`selected, t.list`states
    ensures t.selected == t.list[pos]
    ensures Turn(t, Succ(pos, |t.list|), if pos + 1 == |t.list| then round + 1 else round)
  {
    ghost var loads, p := Loads(t.list), Pred(pos, |t.list|);
    var node;
    ghost var r;
    node, r := SelectNode(t, Connection, family, 0, p);
    if pos > 0 || round > 0 {
      RoundStep(loads, pos, round, p, r);
    }
  }
}
