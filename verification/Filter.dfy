// The two rule sets, their groups and the requests that edit them: frrequest,
// ipf_group_add, ipf_group_del, ipf_derefrule and SIOCSWAPA (ipfilter/fil.c).
//
// Groups and rules are known by the number they got when they were allocated.  pending
// counts references a request has taken on groups and not yet stored in a live rule.

module Filter {
  import opened Basics
  import opened RuleBase
  import opened SeqFacts
  import opened RuleOrder

  // FR_INOUT of fr_flags and fg_flags; Dir(false, false) is zero.
  datatype Dir = Dir(inq: bool, outq: bool)
  const NODIR := Dir(false, false)

  function DirOf(f: Flags): Dir { Dir(f.inque, f.outque) }

  datatype Group = Group(acct: bool, ruleset: bool, name: string, dir: Dir, ref: int)

  // A rule as loaded, a head called "0" having become one without a name: two rules are the
  // same to ipf_rule_compare when all of this is.
  datatype FRule = FRule(collect: nat, text: nat, conds: set<nat>, flags: Flags,
                         group: Option<string>, head: Option<string>, icmpHead: Option<string>)

  datatype Live = Live(rule: FRule, list: ListId, ruleset: bool,
                       grp: Option<nat>, grphead: Option<nat>, icmpgrp: Option<nat>, ref: nat)

  type Groups = map<nat, Group>
  type Rules = map<nat, Live>
  type Lists = map<ListId, seq<nat>>

  predicate Account(f: FRule) { f.flags.cmd == FR_ACCOUNT }

  function Lst(lists: Lists, l: ListId): seq<nat> {
    if l in lists then lists[l] else []
  }

  // ---------- reference counts ----------

  ghost function Members(rules: Rules, g: nat): set<nat> { set r | r in rules && rules[r].grp == Some(g) }
  ghost function Heads(rules: Rules, g: nat): set<nat> { set r | r in rules && rules[r].grphead == Some(g) }
  ghost function IcmpHeads(rules: Rules, g: nat): set<nat> { set r | r in rules && rules[r].icmpgrp == Some(g) }

  ghost function RefsTo(rules: Rules, g: nat): nat {
    |Members(rules, g)| + |Heads(rules, g)| + |IcmpHeads(rules, g)|
  }

  // ---------- the invariant ----------

  predicate IsNamed(a: Group, acct: bool, ruleset: bool, name: string) {
    a.acct == acct && a.ruleset == ruleset && a.name == name
  }

  // When ipf_group_add gives no group: an empty name, or one for another direction.
  predicate Refused(groups: Groups, acct: bool, ruleset: bool, name: string, dir: Dir) {
    || (name == "" && !acct)
    || exists g :: g in groups && IsNamed(groups[g], acct, ruleset, name) && groups[g].dir != NODIR && groups[g].dir != dir
  }

  // Groups keep their names, and their direction unless they had none and got this one.
  ghost predicate KeysKept(before: Groups, after: Groups, dir: Dir) {
    forall g: nat | g in before ::
      && g in after && SameKey(before[g], after[g])
      && (after[g].dir == before[g].dir || (before[g].dir == NODIR && after[g].dir == dir))
  }

  // What a head of this name and direction came to: no name no group, a refused name no
  // group, and otherwise the group of that name.
  ghost predicate HeadGot(before: Groups, after: Groups, live: Live, name: Option<string>, dir: Dir, got: Option<nat>) {
    match name
    case None => got == None
    case Some(n) =>
      && (got == None <==> Refused(before, Account(live.rule), live.ruleset, n, dir))
      && (got.Some? ==> got.value in after && IsNamed(after[got.value], Account(live.rule), live.ruleset, n))
  }

  // fr_icmpgrp and fr_grphead; the first is asked for without a direction.
  function HeadOf(live: Live, icmp: bool): Option<nat> { if icmp then live.icmpgrp else live.grphead }
  function HeadDir(live: Live, icmp: bool): Dir { if icmp then NODIR else DirOf(live.rule.flags) }
  function WithHead(live: Live, icmp: bool, got: Option<nat>): Live {
    if icmp then live.(icmpgrp := got) else live.(grphead := got)
  }

  ghost predicate GrownAt(before: Groups, after: Groups, dir: Dir, g: nat) {
    && (g in before ==> g in after && SameKey(before[g], after[g]))
    && (g in after ==>
          || (after[g].dir == dir && (g !in before || before[g].dir == NODIR))
          || (g in before && after[g].dir == before[g].dir))
  }

  // Groups keep their names and directions; new ones, and ones without a direction, may
  // have got this one.
  ghost predicate Grown(before: Groups, after: Groups, dir: Dir) {
    forall g: nat {:trigger GrownAt(before, after, dir, g)} :: GrownAt(before, after, dir, g)
  }

  ghost predicate SameKey(a: Group, b: Group) {
    a.acct == b.acct && a.ruleset == b.ruleset && a.name == b.name
  }

  ghost predicate Named(groups: Groups, g: nat, h: nat) {
    g in groups && h in groups && SameKey(groups[g], groups[h]) ==> g == h
  }

  // fg_ref counts the references from live rules and those just taken; no group is left
  // without one.
  ghost predicate GroupOk(groups: Groups, rules: Rules, next: nat, pending: multiset<nat>, g: nat) {
    && (g in groups ==> g < next && groups[g].ref == RefsTo(rules, g) + pending[g] > 0)
    && (g in pending ==> g in groups)
  }

  ghost predicate GroupsOk(groups: Groups, rules: Rules, next: nat, pending: multiset<nat>) {
    && (forall g: nat {:trigger GroupOk(groups, rules, next, pending, g)} :: GroupOk(groups, rules, next, pending, g))
    && (forall g: nat, h: nat {:trigger Named(groups, g, h)} :: Named(groups, g, h))
  }

  ghost predicate RefersOk(groups: Groups, ref: Option<nat>, ruleset: bool) {
    ref.Some? ==> ref.value in groups && groups[ref.value].ruleset == ruleset
  }

  // A live rule refers to groups of its own set only, and is in the list it belongs to.
  ghost predicate RuleOk(groups: Groups, rules: Rules, lists: Lists, next: nat, r: nat) {
    r in rules ==>
      var live := rules[r];
      && r < next && live.ref > 0
      && RefersOk(groups, live.grp, live.ruleset)
      && RefersOk(groups, live.grphead, live.ruleset)
      && RefersOk(groups, live.icmpgrp, live.ruleset)
      && live.list == HomeOf(live)
      && r in Lst(lists, live.list)
  }

  function HomeOf(live: Live): ListId {
    match live.grp
    case Some(g) => GroupList(g)
    case None => Main(Account(live.rule), !live.rule.flags.inque, live.ruleset)
  }

  ghost predicate ListedOk(rules: Rules, lists: Lists, l: ListId, r: nat) {
    r in Lst(lists, l) ==> r in rules && rules[r].list == l
  }

  ghost predicate RulesOk(groups: Groups, rules: Rules, lists: Lists, next: nat) {
    && (forall r: nat {:trigger RuleOk(groups, rules, lists, next, r)} :: RuleOk(groups, rules, lists, next, r))
    && (forall l: ListId, r: nat {:trigger ListedOk(rules, lists, l, r)} :: ListedOk(rules, lists, l, r))
    && (forall l: ListId {:trigger InOrder(rules, lists, l)} :: InOrder(rules, lists, l))
  }

  function RuleOf(rules: Rules, r: nat): Option<FRule> { if r in rules then Some(rules[r].rule) else None }
  function CollectOf(rules: Rules, r: nat): nat { if r in rules then rules[r].rule.collect else 0 }

  function Collects(rules: Rules, ids: seq<nat>): (cs: seq<nat>)
    ensures |cs| == |ids| && forall i | 0 <= i < |ids| :: cs[i] == CollectOf(rules, ids[i])
  {
    seq(|ids|, i requires 0 <= i < |ids| => CollectOf(rules, ids[i]))
  }

  ghost predicate Ranked(rules: Rules, ids: seq<nat>, i: int, j: int) {
    0 <= i < j < |ids| ==> CollectOf(rules, ids[i]) <= CollectOf(rules, ids[j]) && RuleOf(rules, ids[i]) != RuleOf(rules, ids[j])
  }

  // Nondecreasing in fr_collect, and no two rules the same.
  ghost predicate AllRanked(rules: Rules, ids: seq<nat>) {
    forall i, j {:trigger Ranked(rules, ids, i, j)} :: Ranked(rules, ids, i, j)
  }

  ghost predicate InOrder(rules: Rules, lists: Lists, l: ListId) { AllRanked(rules, Lst(lists, l)) }

  lemma RankedDistinct(rules: Rules, ids: seq<nat>)
    requires AllRanked(rules, ids)
    ensures Distinct(ids) && Ascending(Collects(rules, ids))
  {
    forall i, j ensures Apart(ids, i, j) {
      assert Ranked(rules, ids, i, j);
    }
    forall i, j | 0 <= i < j < |ids| ensures Collects(rules, ids)[i] <= Collects(rules, ids)[j] {
      assert Ranked(rules, ids, i, j);
    }
  }

  // Only what the listed rules say matters.
  lemma RankedSame(rules: Rules, rules': Rules, ids: seq<nat>)
    requires AllRanked(rules, ids) && forall r | r in ids :: RuleOf(rules', r) == RuleOf(rules, r)
    ensures AllRanked(rules', ids)
  {
    forall i, j ensures Ranked(rules', ids, i, j) {
      assert Ranked(rules, ids, i, j);
      assert 0 <= i < j < |ids| ==> ids[i] in ids && ids[j] in ids;
    }
  }

  lemma RankedInserted(rules: Rules, ids: seq<nat>, at: nat, r: nat)
    requires AllRanked(rules, ids) && at <= |ids| && r in rules
    requires forall i | 0 <= i < at :: CollectOf(rules, ids[i]) <= rules[r].rule.collect
    requires forall i | at <= i < |ids| :: CollectOf(rules, ids[i]) >= rules[r].rule.collect
    requires forall i | 0 <= i < |ids| :: RuleOf(rules, ids[i]) != Some(rules[r].rule)
    ensures AllRanked(rules, Inserted(ids, at, r))
  {
    forall i, j ensures Ranked(rules, Inserted(ids, at, r), i, j) {
      assert Ranked(rules, ids, if i < at then i else i - 1, if j < at then j else j - 1);
    }
  }

  lemma RankedWithout(rules: Rules, ids: seq<nat>, k: nat)
    requires AllRanked(rules, ids) && k < |ids|
    ensures AllRanked(rules, Without(ids, k))
  {
    forall i, j ensures Ranked(rules, Without(ids, k), i, j) {
      assert Ranked(rules, ids, if i < k then i else i + 1, if j < k then j else j + 1);
    }
  }

  class Softc {
    var groups: Groups
    var rules: Rules
    var lists: Lists
    var next: nat
    var active: bool
    ghost var pending: multiset<nat>

    ghost predicate Inv()
      reads this
    {
      GroupsOk(groups, rules, next, pending) && RulesOk(groups, rules, lists, next)
    }

    ghost predicate Valid()
      reads this
    {
      Inv() && pending == multiset{}
    }

    constructor ()
      ensures Valid() && groups == map[] && rules == map[] && lists == map[] && !active
    {
      groups, rules, lists, next, active, pending := map[], map[], map[], 0, false, multiset{};
    }

    // ipf_findgroup
    method FindGroup(acct: bool, ruleset: bool, name: string) returns (found: Option<nat>)
      ensures found.Some? ==> found.value in groups && IsNamed(groups[found.value], acct, ruleset, name)
      ensures found == None ==> forall g: nat | g in groups :: !IsNamed(groups[g], acct, ruleset, name)
    {
      if exists g: nat :: g in groups && IsNamed(groups[g], acct, ruleset, name) {
        var g: nat :| g in groups && IsNamed(groups[g], acct, ruleset, name);
        return Some(g);
      }
      return None;
    }

    // ipf_group_add: one more reference to the group of this name, made if need be.  Fails
    // on an empty name and on a group for another direction.
    method GroupAdd(acct: bool, ruleset: bool, name: string, dir: Dir) returns (got: Option<nat>)
      requires Inv()
      modifies this`groups, this`next, this`pending
      ensures Inv() && next >= old(next)
      ensures got == None ==> groups == old(groups) && pending == old(pending)
      ensures got.Some? ==>
                && pending == old(pending) + multiset{got.value}
                && got.value in groups && groups[got.value].acct == acct && groups[got.value].ruleset == ruleset
                && groups[got.value].name == name && groups == old(groups)[got.value := groups[got.value]]
                && groups[got.value].dir == dir
      ensures Kept(old(groups), rules, lists, groups, rules, lists, !ruleset)
      ensures got == None <==> Refused(old(groups), acct, ruleset, name, dir)
      ensures Grown(old(groups), groups, dir)
    {
      if !acct && name == "" {
        return None;
      }
      var found := FindGroup(acct, ruleset, name);
      if found == None {
        got := MakeGroup(acct, ruleset, name, dir);
        return;
      }
      var g := found.value;
      OnlyOne(groups, rules, next, pending, g);
      if groups[g].dir != NODIR && dir != groups[g].dir {
        return None;
      }
      AddRef(g, dir);
      return Some(g);
    }

    method AddRef(g: nat, dir: Dir)
      requires Inv() && g in groups && (groups[g].dir == NODIR || groups[g].dir == dir)
      modifies this`groups, this`pending
      ensures Inv() && pending == old(pending) + multiset{g}
      ensures groups == old(groups)[g := old(groups)[g].(dir := dir, ref := old(groups)[g].ref + 1)]
      ensures Kept(old(groups), rules, lists, groups, rules, lists, !old(groups)[g].ruleset)
      ensures Grown(old(groups), groups, dir)
    {
      var fg := groups[g].(dir := dir, ref := groups[g].ref + 1);
      TakeRef(groups, rules, lists, next, pending, g, fg);
      KeptOneGroup(groups, groups[g := fg], rules, lists, !fg.ruleset, g);
      groups := groups[g := fg];
      pending := pending + multiset{g};
    }

    method MakeGroup(acct: bool, ruleset: bool, name: string, dir: Dir) returns (got: Option<nat>)
      requires Inv() && forall g: nat | g in groups :: !IsNamed(groups[g], acct, ruleset, name)
      modifies this`groups, this`next, this`pending
      ensures Inv() && next >= old(next) && got.Some? && got.value !in old(groups)
      ensures pending == old(pending) + multiset{got.value}
      ensures groups == old(groups)[got.value := Group(acct, ruleset, name, dir, 1)]
      ensures Kept(old(groups), rules, lists, groups, rules, lists, !ruleset)
      ensures Grown(old(groups), groups, dir)
    {
      var fg := Group(acct, ruleset, name, dir, 1);
      var groups' := groups[next := fg];
      NewGroupAll(groups, rules, lists, next, pending, fg, groups', pending + multiset{next});
      got := Some(next);
      groups, next, pending := groups', next + 1, pending + multiset{next};
    }

    // ipf_group_del and ipf_group_free: a reference is dropped, and with the last one the
    // group goes.
    method GroupDel(g: nat)
      requires Inv() && g in pending
      modifies this`groups, this`pending
      ensures Inv() && pending == old(pending) - multiset{g}
      ensures g in old(groups) && groups == Dropped(old(groups), g)
      ensures g !in groups ==> RefsTo(rules, g) == 0 && Lst(lists, GroupList(g)) == []
      ensures Kept(old(groups), rules, lists, groups, rules, lists, !old(groups)[g].ruleset)
    {
      DropRef(groups, rules, lists, next, pending, g);
      var fg := groups[g].(ref := groups[g].ref - 1);
      groups := groups[g := fg];
      pending := pending - multiset{g};
      if fg.ref == 0 && Lst(lists, GroupList(g)) == [] {
        groups := groups - {g};
      }
      assert groups == Dropped(old(groups), g);
      KeptOneGroup(old(groups), groups, rules, lists, !old(groups)[g].ruleset, g);
    }

    // Linking a new rule into its list.
    method Install(fr: FRule, ruleset: bool, grp: Option<nat>, req: Request, hits: nat) returns (r: nat, ghost at: nat)
      requires Inv() && RefersOk(groups, grp, ruleset) && (grp.Some? ==> grp.value in pending)
      requires forall r | r in Lst(lists, NewLive(fr, ruleset, grp).list) :: !SameRule(rules, r, fr)
      modifies this`rules, this`lists, this`next, this`pending
      ensures Inv() && pending == Spent(old(pending), grp) && r !in old(rules)
      ensures rules == old(rules)[r := NewLive(fr, ruleset, grp)]
      ensures Entered(old(rules), old(lists), lists, NewLive(fr, ruleset, grp), req, hits, r, at)
      ensures Kept(groups, old(rules), old(lists), groups, rules, lists, !ruleset)
    {
      var live := NewLive(fr, ruleset, grp);
      var ids := Lst(lists, live.list);
      var k := PlaceIn(Collects(rules, ids), fr.collect, req, hits);
      PlaceIsRight(groups, rules, lists, next, live, req, hits, k);
      var rules', lists' := rules[next := live], lists[live.list := Inserted(ids, k, next)];
      InstallAll(groups, rules, lists, next, pending, live, k, rules', lists', Spent(pending, grp));
      r, at := next, k;
      rules, lists, next, pending := rules', lists', next + 1, Spent(pending, grp);
    }

    // fr_icmpgrp or fr_grphead of a new rule; no group is no error.
    method SetHead(r: nat, name: Option<string>, icmp: bool) returns (got: Option<nat>)
      requires Inv() && r in rules && HeadOf(rules[r], icmp) == None
      modifies this`groups, this`rules, this`next, this`pending
      ensures Inv() && pending == old(pending) && rules == old(rules)[r := WithHead(old(rules)[r], icmp, got)]
      ensures HeadGot(old(groups), groups, old(rules)[r], name, HeadDir(old(rules)[r], icmp), got)
      ensures Grown(old(groups), groups, HeadDir(old(rules)[r], icmp))
      ensures Kept(old(groups), old(rules), lists, groups, rules, lists, !old(rules)[r].ruleset)
    {
      got := None;
      if name.Some? {
        got := GroupAdd(Account(rules[r].rule), rules[r].ruleset, name.value, HeadDir(rules[r], icmp));
        ghost var g1 := groups;
        if got.Some? {
          StoreRef(r, got.value, icmp);
          assert pending == old(pending);
          KeptTrans(old(groups), old(rules), lists, g1, old(rules), lists, groups, rules, lists, !old(rules)[r].ruleset);
        }
      }
    }

    method StoreRef(r: nat, g: nat, icmp: bool)
      requires Inv() && r in rules && HeadOf(rules[r], icmp) == None
      requires g in pending && g in groups && groups[g].ruleset == rules[r].ruleset
      modifies this`rules, this`pending
      ensures Inv() && pending == old(pending) - multiset{g}
      ensures rules == old(rules)[r := WithHead(old(rules)[r], icmp, Some(g))]
      ensures Kept(groups, old(rules), lists, groups, rules, lists, !old(rules)[r].ruleset)
    {
      var live := WithHead(rules[r], icmp, Some(g));
      assert RuleOk(groups, rules, lists, next, r);
      StoreOk(groups, rules, lists, next, pending, r, g, icmp);
      KeptOneRule(groups, rules, rules[r := live], lists, lists, !live.ruleset, r, live.list);
      rules := rules[r := live];
      pending := pending - multiset{g};
    }

    // ipf_rule_delete and ipf_derefrule on the last reference.
    method Retire(r: nat, k: nat)
      requires Valid() && r in rules && k < |Lst(lists, rules[r].list)| && Lst(lists, rules[r].list)[k] == r
      modifies this`groups, this`rules, this`lists, this`pending
      ensures Valid() && rules == old(rules) - {r}
      ensures var l := old(rules)[r].list; lists == old(lists)[l := Without(Lst(old(lists), l), k)]
      ensures Kept(old(groups), old(rules), old(lists), groups, rules, lists, !old(rules)[r].ruleset)
    {
      var live := rules[r];
      Withdraw(r, k);
      DropAll(live);
      KeptTrans(old(groups), old(rules), old(lists), old(groups), rules, lists, groups, rules, lists, !live.ruleset);
    }

    // ipf_derefrule: the three references, one after the other.
    method DropAll(live: Live)
      requires Inv() && pending == AllRefs(live)
      requires forall g | g in pending :: g in groups && groups[g].ruleset == live.ruleset
      modifies this`groups, this`pending
      ensures Valid() && Kept(old(groups), rules, lists, groups, rules, lists, !live.ruleset)
    {
      RefsOrder(live);
      DropIf(live.grp, live.ruleset, Regained(Regained(multiset{}, live.grphead), live.icmpgrp));
      ghost var g1 := groups;
      DropIf(live.grphead, live.ruleset, Regained(multiset{}, live.icmpgrp));
      KeptTrans(old(groups), rules, lists, g1, rules, lists, groups, rules, lists, !live.ruleset);
      ghost var g2 := groups;
      DropIf(live.icmpgrp, live.ruleset, multiset{});
      KeptTrans(old(groups), rules, lists, g2, rules, lists, groups, rules, lists, !live.ruleset);
    }

    // Off the list; the rule's references are still counted.
    method Withdraw(r: nat, k: nat)
      requires Valid() && r in rules && k < |Lst(lists, rules[r].list)| && Lst(lists, rules[r].list)[k] == r
      modifies this`rules, this`lists, this`pending
      ensures Inv() && rules == old(rules) - {r}
      ensures var live := old(rules)[r];
        && lists == old(lists)[live.list := Without(Lst(old(lists), live.list), k)]
        && pending == AllRefs(live)
        && (forall g | g in pending :: g in groups && groups[g].ruleset == live.ruleset)
      ensures Kept(groups, old(rules), old(lists), groups, rules, lists, !old(rules)[r].ruleset)
    {
      var live := rules[r];
      var rules', lists' := rules - {r}, lists[live.list := Without(Lst(lists, live.list), k)];
      RetireAll(groups, rules, lists, next, r, k, rules', lists', AllRefs(live));
      rules, lists, pending := rules', lists', AllRefs(live);
    }

    // Drop one reference of the leaving rule, if it has it.
    method DropIf(ref: Option<nat>, ruleset: bool, ghost rest: multiset<nat>)
      requires Inv() && pending == Regained(rest, ref)
      requires forall g | g in pending :: g in groups && groups[g].ruleset == ruleset
      modifies this`groups, this`pending
      ensures Inv() && pending == rest
      ensures forall g | g in pending :: g in groups && groups[g].ruleset == ruleset
      ensures Kept(old(groups), rules, lists, groups, rules, lists, !ruleset)
    {
      if ref.Some? {
        GroupDel(ref.value);
        assert pending == rest;
        forall g | g in rest ensures g in groups && groups[g].ruleset == ruleset {
          assert GroupOk(groups, rules, next, pending, g);
        }
      }
    }

    // The walk over a list for a rule the same as fr.
    method FindTwin(l: ListId, fr: FRule) returns (found: Option<nat>)
      requires Inv()
      ensures found.Some? ==> found.value < |Lst(lists, l)| && SameRule(rules, Lst(lists, l)[found.value], fr)
      ensures found == None ==> forall r | r in Lst(lists, l) :: !SameRule(rules, r, fr)
    {
      var ids := Lst(lists, l);
      for k := 0 to |ids|
        invariant forall i | 0 <= i < k :: !SameRule(rules, ids[i], fr)
      {
        if SameRule(rules, ids[k], fr) {
          return Some(k);
        }
      }
      return None;
    }

    // frrequest, adding or inserting.  A rule that names a group takes a reference to it
    // first and gives it back when the rule is refused.  joined is the groups once that
    // reference was taken.
    method AddRule(req: Request, ruleset: bool, fr: FRule, hits: nat)
      returns (status: Status, ghost id: nat, ghost at: nat, ghost joined: Groups)
      requires Valid() && req != Remove
      modifies this`groups, this`rules, this`lists, this`next, this`pending
      ensures Valid() && Kept(old(groups), old(rules), old(lists), groups, rules, lists, !ruleset)
      ensures status != Ok ==> rules == old(rules) && lists == old(lists)
      ensures status == Fault <==> GroupRefused(old(groups), fr, ruleset)
      ensures status == Fault ==> groups == old(groups)
      ensures status == Einval <==> fr.group == None && DirOf(fr.flags) == NODIR
      ensures status == Esrch <==>
                fr.group.Some? && DirOf(fr.flags) == NODIR && !Account(fr) && !GroupRefused(old(groups), fr, ruleset)
      ensures status == Ok || status == Eexist ==> Joined(old(groups), joined, fr, ruleset)
      ensures status == Eexist ==> Twin(joined, rules, lists, fr, ruleset, id)
      ensures status == Ok ==> Added(old(rules), old(lists), joined, groups, rules, lists, fr, ruleset, req, hits, id, at)
      ensures status != Ebusy
    {
      id, at := 0, 0;
      var grp;
      status, grp := JoinGroup(fr, ruleset);
      joined := groups;
      if status != Ok {
        return;
      }
      if !Account(fr) && DirOf(fr.flags) == NODIR {
        GiveBack(grp, ruleset);
        KeptTrans(old(groups), rules, lists, joined, rules, lists, groups, rules, lists, !ruleset);
        status := Esrch;
        return;
      }
      status, id, at := Enter(fr, ruleset, grp, req, hits);
      KeptTrans(old(groups), old(rules), old(lists), joined, old(rules), old(lists), groups, rules, lists, !ruleset);
    }

    // The group a rule is to be a member of.
    method JoinGroup(fr: FRule, ruleset: bool) returns (status: Status, grp: Option<nat>)
      requires Valid()
      modifies this`groups, this`next, this`pending
      ensures Inv() && pending == Regained(multiset{}, grp) && IsMember(groups, fr, ruleset, grp)
      ensures status == Ok || status == Einval || status == Fault
      ensures status == Fault <==> GroupRefused(old(groups), fr, ruleset)
      ensures status == Einval <==> fr.group == None && DirOf(fr.flags) == NODIR
      ensures status == Ok ==> Joined(old(groups), groups, fr, ruleset) && (fr.group.Some? <==> grp.Some?)
      ensures status != Ok ==> groups == old(groups) && grp == None
      ensures Kept(old(groups), rules, lists, groups, rules, lists, !ruleset)
    {
      grp := None;
      if fr.group.Some? {
        grp := GroupAdd(Account(fr), ruleset, fr.group.value, DirOf(fr.flags));
        return if grp == None then Fault else Ok, grp;
      }
      return if DirOf(fr.flags) == NODIR then Einval else Ok, None;
    }

    // The rule is compared with those of its list and linked in.
    method Enter(fr: FRule, ruleset: bool, grp: Option<nat>, req: Request, hits: nat)
      returns (status: Status, ghost id: nat, ghost at: nat)
      requires Inv() && pending == Regained(multiset{}, grp) && IsMember(groups, fr, ruleset, grp) && req != Remove
      requires fr.group.Some? <==> grp.Some?
      modifies this`groups, this`rules, this`lists, this`next, this`pending
      ensures Valid() && Kept(old(groups), old(rules), old(lists), groups, rules, lists, !ruleset)
      ensures status == Ok || status == Eexist
      ensures status == Eexist ==> rules == old(rules) && lists == old(lists) && Twin(old(groups), rules, lists, fr, ruleset, id)
      ensures status == Ok ==> Added(old(rules), old(lists), old(groups), groups, rules, lists, fr, ruleset, req, hits, id, at)
    {
      var l := NewLive(fr, ruleset, grp).list;
      var found := FindTwin(l, fr);
      if found.Some? {
        id, at := Lst(lists, l)[found.value], found.value;
        assert ListedOk(rules, lists, l, id);
        GiveBack(grp, ruleset);
        return Eexist, id, at;
      }
      var r;
      r, at := NewRule(fr, ruleset, grp, req, hits);
      return Ok, r, at;
    }

    method GiveBack(grp: Option<nat>, ruleset: bool)
      requires Inv() && pending == Regained(multiset{}, grp) && RefersOk(groups, grp, ruleset)
      modifies this`groups, this`pending
      ensures Valid() && Kept(old(groups), rules, lists, groups, rules, lists, !ruleset)
    {
      if grp.Some? {
        GroupDel(grp.value);
        assert pending == multiset{};
      }
    }

    // The rule goes into its list, and then gets the groups it heads.
    method NewRule(fr: FRule, ruleset: bool, grp: Option<nat>, req: Request, hits: nat) returns (r: nat, ghost at: nat)
      requires Inv() && pending == Regained(multiset{}, grp) && IsMember(groups, fr, ruleset, grp)
      requires fr.group.Some? <==> grp.Some?
      requires forall r | r in Lst(lists, NewLive(fr, ruleset, grp).list) :: !SameRule(rules, r, fr)
      modifies this`groups, this`rules, this`lists, this`next, this`pending
      ensures Added(old(rules), old(lists), old(groups), groups, rules, lists, fr, ruleset, req, hits, r, at)
      ensures Valid() && Kept(old(groups), old(rules), old(lists), groups, rules, lists, !ruleset)
    {
      r, at := Install(fr, ruleset, grp, req, hits);
      assert pending == multiset{};
      ghost var r1 := rules;
      SetHeads(r);
      KeptTrans(old(groups), old(rules), old(lists), old(groups), r1, lists, groups, rules, lists, !ruleset);
    }

    method SetHeads(r: nat)
      requires Inv() && r in rules && rules[r].icmpgrp == None && rules[r].grphead == None
      modifies this`groups, this`rules, this`next, this`pending
      ensures Inv() && pending == old(pending) && r in rules && rules == old(rules)[r := rules[r]]
      ensures rules[r] == old(rules)[r].(icmpgrp := rules[r].icmpgrp, grphead := rules[r].grphead)
      ensures HeadGot(old(groups), groups, rules[r], rules[r].rule.icmpHead, NODIR, rules[r].icmpgrp)
      ensures HeadGot(old(groups), groups, rules[r], rules[r].rule.head, DirOf(rules[r].rule.flags), rules[r].grphead)
      ensures KeysKept(old(groups), groups, DirOf(rules[r].rule.flags))
      ensures Kept(old(groups), old(rules), lists, groups, rules, lists, !old(rules)[r].ruleset)
    {
      var fr := rules[r].rule;
      var _ := SetHead(r, fr.icmpHead, true);
      ghost var g1, r1 := groups, rules;
      var _ := SetHead(r, fr.head, false);
      HeadsGot(old(groups), g1, groups, rules[r], DirOf(fr.flags));
      KeptTrans(old(groups), old(rules), lists, g1, r1, lists, groups, rules, lists, !rules[r].ruleset);
    }

    // frrequest, removing.
    method RemoveRule(ruleset: bool, fr: FRule) returns (status: Status, ghost id: nat, ghost k: nat)
      requires Valid()
      modifies this`groups, this`rules, this`lists, this`pending
      ensures Valid() && Kept(old(groups), old(rules), old(lists), groups, rules, lists, !ruleset)
      ensures status != Ok ==> rules == old(rules) && lists == old(lists)
      ensures status == Ok || status == Ebusy ==>
                && SameRule(old(rules), id, fr) && (status == Ok <==> old(rules)[id].ref == 1)
                && Searched(old(groups), fr, ruleset, old(rules)[id].list) && HasDirection(fr)
      ensures status == Ok ==> Removed(old(rules), old(lists), rules, lists, id, k)
      ensures status == Einval <==> fr.group == None && DirOf(fr.flags) == NODIR
      ensures status == Esrch && HasDirection(fr) ==>
                forall l, r | Searched(old(groups), fr, ruleset, l) && r in Lst(lists, l) :: !SameRule(rules, r, fr)
      ensures status != Eexist && status != Fault
    {
      id, k := 0, 0;
      var l;
      status, l := ListToSearch(ruleset, fr);
      ghost var g1 := groups;
      if status != Ok {
        return;
      }
      var found := FindTwin(l, fr);
      if found == None {
        return Esrch, 0, 0;
      }
      var r := Lst(lists, l)[found.value];
      assert ListedOk(rules, lists, l, r) && RuleOk(groups, rules, lists, next, r);
      if rules[r].ref > 1 {
        return Ebusy, r, found.value;
      }
      Retire(r, found.value);
      KeptTrans(old(groups), old(rules), old(lists), g1, old(rules), old(lists), groups, rules, lists, !ruleset);
      return Ok, r, found.value;
    }

    // frrequest, whatever it is asked.  A removal succeeds exactly when the list searched has an
    // equal rule nobody else refers to, and then it has none; an accepted rule is at the place
    // its request gives it.
    method Request(req: Request, ruleset: bool, fr: FRule, hits: nat)
      returns (status: Status, ghost id: nat, ghost at: nat, ghost joined: Groups)
      requires Valid()
      modifies this`groups, this`rules, this`lists, this`next, this`pending
      ensures Valid() && Kept(old(groups), old(rules), old(lists), groups, rules, lists, !ruleset)
      ensures status != Ok ==> rules == old(rules) && lists == old(lists)
      ensures status == Fault <==> req != Remove && GroupRefused(old(groups), fr, ruleset)
      ensures status == Fault ==> groups == old(groups)
      ensures req == Remove ==>
                && (status == Ok <==> Removable(old(groups), old(rules), old(lists), fr, ruleset))
                && (status == Ok ==>
                      && id in old(rules) && old(rules)[id].rule == fr && Searched(old(groups), fr, ruleset, old(rules)[id].list)
                      && Removed(old(rules), old(lists), rules, lists, id, at))
                && (status == Ok || status == Esrch ==> NoneLike(old(groups), rules, lists, fr, ruleset))
      ensures req != Remove ==>
                && (status == Ok || status == Eexist ==> Joined(old(groups), joined, fr, ruleset))
                && (status == Eexist ==> Twin(joined, rules, lists, fr, ruleset, id))
                && (status == Ok ==> Added(old(rules), old(lists), joined, groups, rules, lists, fr, ruleset, req, hits, id, at))
                && (status == Ok || status == Eexist <==> !GroupRefused(old(groups), fr, ruleset) && HasDirection(fr))
    {
      joined := groups;
      if req == Remove {
        status, id, at := RemoveRule(ruleset, fr);
        RemovalExact(old(groups), old(rules), old(lists), old(next), rules, lists, fr, ruleset, status, id, at);
      } else {
        status, id, at, joined := AddRule(req, ruleset, fr, hits);
      }
    }

    // Which list a removal looks in; a group still without direction takes the rule's.
    method ListToSearch(ruleset: bool, fr: FRule) returns (status: Status, l: ListId)
      requires Valid()
      modifies this`groups
      ensures Valid() && Kept(old(groups), rules, lists, groups, rules, lists, !ruleset)
      ensures status == Ok || status == Einval || status == Esrch
      ensures status == Ok ==> OfSet(groups, l, ruleset) && Searched(old(groups), fr, ruleset, l) && HasDirection(fr)
      ensures status == Ok ==> forall m | Searched(old(groups), fr, ruleset, m) :: m == l
      ensures groups == if status == Ok && fr.group.Some?
                        then old(groups)[l.gid := old(groups)[l.gid].(dir := DirOf(fr.flags))] else old(groups)
      ensures status == Einval <==> fr.group == None && DirOf(fr.flags) == NODIR
      ensures status == Esrch && HasDirection(fr) ==> forall m :: !Searched(old(groups), fr, ruleset, m)
    {
      var dir := DirOf(fr.flags);
      l := Main(Account(fr), !fr.flags.inque, ruleset);
      if fr.group.Some? {
        var g := FindGroup(Account(fr), ruleset, fr.group.value);
        if g == None {
          return Esrch, l;
        }
        var fg := groups[g.value];
        OnlyOne(groups, rules, next, pending, g.value);
        if fg.dir == NODIR {
          SetDirOk(groups, rules, lists, next, pending, g.value, dir);
          KeptOneGroup(groups, groups[g.value := fg.(dir := dir)], rules, lists, !ruleset, g.value);
          groups := groups[g.value := fg.(dir := dir)];
        } else if fg.dir != dir {
          return Esrch, l;
        }
        l := GroupList(g.value);
      } else if dir == NODIR {
        return Einval, l;
      }
      if !Account(fr) && dir == NODIR {
        return Esrch, l;
      }
      status := Ok;
    }

    // Another reference to a rule, as a state entry keeps; it makes the rule busy.
    method HoldRule(r: nat)
      requires Valid() && r in rules
      modifies this`rules
      ensures Valid() && rules == old(rules)[r := old(rules)[r].(ref := old(rules)[r].ref + 1)]
    {
      CountOk(groups, rules, lists, next, pending, r, rules[r].ref + 1);
      rules := rules[r := rules[r].(ref := rules[r].ref + 1)];
    }

    // SIOCSWAPA
    method Swap()
      requires Valid()
      modifies this`active
      ensures Valid() && active == !old(active)
    {
      active := !active;
    }
  }

  // The list a rule like this one is looked for in: its group's, if that takes rules of this
  // direction, or the set's own.
  ghost predicate Searched(groups: Groups, fr: FRule, ruleset: bool, l: ListId) {
    match fr.group
    case None => l == Main(Account(fr), !fr.flags.inque, ruleset)
    case Some(name) =>
      && l.GroupList? && l.gid in groups && IsNamed(groups[l.gid], Account(fr), ruleset, name)
      && (groups[l.gid].dir == NODIR || groups[l.gid].dir == DirOf(fr.flags))
  }

  // A rule outside groups needs a direction, and one inside too unless it only accounts.
  predicate HasDirection(fr: FRule) {
    fr.flags.inque || fr.flags.outque || (fr.group.Some? && Account(fr))
  }

  // There is an equal rule to remove, and nothing else refers to it.
  ghost predicate Removable(groups: Groups, rules: Rules, lists: Lists, fr: FRule, ruleset: bool) {
    HasDirection(fr) &&
    exists l, r :: Searched(groups, fr, ruleset, l) && r in Lst(lists, l) && SameRule(rules, r, fr) && rules[r].ref == 1
  }

  // Rule id, at that place of its list, is gone, and nothing else moved.
  ghost predicate Removed(rules: Rules, lists: Lists, rules': Rules, lists': Lists, id: nat, at: nat) {
    id in rules &&
    var ids := Lst(lists, rules[id].list);
    && at < |ids| && ids[at] == id
    && rules' == rules - {id} && lists' == lists[rules[id].list := Without(ids, at)]
  }

  // No list this rule is looked for in has one like it, if it can be looked for at all.
  ghost predicate NoneLike(groups: Groups, rules: Rules, lists: Lists, fr: FRule, ruleset: bool) {
    HasDirection(fr) ==> forall l, r | Searched(groups, fr, ruleset, l) && r in Lst(lists, l) :: !SameRule(rules, r, fr)
  }

  lemma OneTwin(groups: Groups, rules: Rules, lists: Lists, next: nat, l: ListId, r: nat, n: nat, fr: FRule)
    requires RulesOk(groups, rules, lists, next) && r in Lst(lists, l) && n in Lst(lists, l)
    requires SameRule(rules, r, fr) && SameRule(rules, n, fr)
    ensures r == n
  {
    assert InOrder(rules, lists, l);
    var ids := Lst(lists, l);
    var i :| 0 <= i < |ids| && ids[i] == r;
    var j :| 0 <= j < |ids| && ids[j] == n;
    assert Ranked(rules, ids, i, j) && Ranked(rules, ids, j, i);
  }

  lemma OneList(groups: Groups, rules: Rules, next: nat, pending: multiset<nat>, fr: FRule, ruleset: bool, l: ListId, m: ListId)
    requires GroupsOk(groups, rules, next, pending) && Searched(groups, fr, ruleset, l) && Searched(groups, fr, ruleset, m)
    ensures l == m
  {
    if fr.group.Some? { assert Named(groups, l.gid, m.gid); }
  }

  // What the outcome of a removal says about the rules there were and are.
  lemma RemovalExact(groups: Groups, rules: Rules, lists: Lists, next: nat, rules': Rules, lists': Lists,
                     fr: FRule, ruleset: bool, status: Status, id: nat, at: nat)
    requires GroupsOk(groups, rules, next, multiset{}) && RulesOk(groups, rules, lists, next)
    requires status == Ok || status == Ebusy || status == Einval || status == Esrch
    requires status == Ok || status == Ebusy ==>
               && SameRule(rules, id, fr) && (status == Ok <==> rules[id].ref == 1)
               && Searched(groups, fr, ruleset, rules[id].list) && HasDirection(fr)
    requires status == Ok ==> Removed(rules, lists, rules', lists', id, at)
    requires status != Ok ==> rules' == rules && lists' == lists
    requires status == Einval ==> !HasDirection(fr)
    requires status == Esrch ==> NoneLike(groups, rules, lists, fr, ruleset)
    ensures status == Ok <==> Removable(groups, rules, lists, fr, ruleset)
    ensures status == Ok ==> NoneLike(groups, rules', lists', fr, ruleset)
  {
    if status == Ok || status == Ebusy {
      OnlyThis(groups, rules, lists, next, fr, ruleset, id);
      assert RuleOk(groups, rules, lists, next, id);
    }
    if status == Ok {
      NothingLeft(groups, rules, lists, next, rules', lists', fr, ruleset, id, at);
    }
  }

  // An equal rule in the list searched is the only one there.
  lemma OnlyThis(groups: Groups, rules: Rules, lists: Lists, next: nat, fr: FRule, ruleset: bool, id: nat)
    requires GroupsOk(groups, rules, next, multiset{}) && RulesOk(groups, rules, lists, next)
    requires SameRule(rules, id, fr) && Searched(groups, fr, ruleset, rules[id].list)
    ensures forall l, r | Searched(groups, fr, ruleset, l) && r in Lst(lists, l) && SameRule(rules, r, fr) :: r == id
  {
    assert RuleOk(groups, rules, lists, next, id);
    forall l, r | Searched(groups, fr, ruleset, l) && r in Lst(lists, l) && SameRule(rules, r, fr) ensures r == id {
      OneList(groups, rules, next, multiset{}, fr, ruleset, l, rules[id].list);
      OneTwin(groups, rules, lists, next, l, r, id, fr);
    }
  }

  lemma NothingLeft(groups: Groups, rules: Rules, lists: Lists, next: nat, rules': Rules, lists': Lists,
                    fr: FRule, ruleset: bool, id: nat, at: nat)
    requires GroupsOk(groups, rules, next, multiset{}) && RulesOk(groups, rules, lists, next)
    requires SameRule(rules, id, fr) && Searched(groups, fr, ruleset, rules[id].list)
    requires Removed(rules, lists, rules', lists', id, at)
    ensures NoneLike(groups, rules', lists', fr, ruleset)
  {
    var l0 := rules[id].list;
    OnlyThis(groups, rules, lists, next, fr, ruleset, id);
    forall l, r | Searched(groups, fr, ruleset, l) && r in Lst(lists', l) ensures !SameRule(rules', r, fr) {
      OneList(groups, rules, next, multiset{}, fr, ruleset, l, l0);
      var ids := Lst(lists, l0);
      assert r in Without(ids, at) && r in ids[..at] + ids[at + 1..];
      assert r in Lst(lists, l) && (SameRule(rules', r, fr) ==> SameRule(rules, r, fr) && r != id);
    }
  }

  ghost predicate GroupRefused(groups: Groups, fr: FRule, ruleset: bool) {
    fr.group.Some? && Refused(groups, Account(fr), ruleset, fr.group.value, DirOf(fr.flags))
  }

  // A rule in a group without a name faults, whatever else there is.
  method NamelessGroupFaults(sc: Softc, req: Request, ruleset: bool, fr: FRule, hits: nat) returns (status: Status)
    requires sc.Valid() && req != Remove && fr.group == Some("") && !Account(fr)
    modifies sc
    ensures sc.Valid() && status == Fault
    ensures sc.groups == old(sc.groups) && sc.rules == old(sc.rules) && sc.lists == old(sc.lists)
  {
    ghost var id, at, joined;
    status, id, at, joined := sc.Request(req, ruleset, fr, hits);
  }

  // grp is the group the rule names, if it names one and has it.
  ghost predicate IsMember(groups: Groups, fr: FRule, ruleset: bool, grp: Option<nat>) {
    grp.Some? ==>
      && fr.group.Some? && grp.value in groups
      && IsNamed(groups[grp.value], Account(fr), ruleset, fr.group.value) && groups[grp.value].dir == DirOf(fr.flags)
  }

  // Nothing but a reference to the group the rule names, if it names one, was taken.
  ghost predicate Joined(before: Groups, after: Groups, fr: FRule, ruleset: bool) {
    if fr.group == None then after == before
    else exists g: nat :: IsMember(after, fr, ruleset, Some(g)) && after == before[g := after[g]]
  }

  // The rule found in the way: the same, in the list this one would have gone to.
  ghost predicate Twin(groups: Groups, rules: Rules, lists: Lists, fr: FRule, ruleset: bool, id: nat) {
    && id in rules && rules[id].rule == fr && id in Lst(lists, rules[id].list)
    && Searched(groups, fr, ruleset, rules[id].list)
  }

  // One rule more in the list of live, behind its block or hits rules into it.
  ghost predicate Entered(rules: Rules, lists: Lists, lists': Lists, live: Live, req: Request, hits: nat, id: nat, at: nat) {
    var ids := Lst(lists, live.list);
    && at <= |ids| && lists' == lists[live.list := Inserted(ids, at, id)]
    && Placed(Collects(rules, ids), live.rule.collect, req, hits, at)
    && forall r | r in ids :: !SameRule(rules, r, live.rule)
  }

  // A rule was added as number id: in place, with its group and the groups it heads.
  ghost predicate Added(rules: Rules, lists: Lists, joined: Groups, groups': Groups, rules': Rules, lists': Lists,
                        fr: FRule, ruleset: bool, req: Request, hits: nat, id: nat, at: nat) {
    && id !in rules && id in rules' && rules' == rules[id := rules'[id]]
    && var live := rules'[id];
    && live.rule == fr && live.ruleset == ruleset && live.ref == 1
    && (fr.group.Some? <==> live.grp.Some?) && IsMember(joined, fr, ruleset, live.grp) && KeysKept(joined, groups', DirOf(fr.flags))
    && HeadGot(joined, groups', live, fr.icmpHead, NODIR, live.icmpgrp)
    && HeadGot(joined, groups', live, fr.head, DirOf(fr.flags), live.grphead)
    && Entered(rules, lists, lists', live, req, hits, id, at)
  }

  predicate SameRule(rules: Rules, r: nat, fr: FRule) { r in rules && rules[r].rule == fr }

  // Fault: the source goes on with a group it did not get, and dereferences NULL.
  datatype Status = Ok | Einval | Esrch | Eexist | Ebusy | Fault

  function NewLive(fr: FRule, ruleset: bool, grp: Option<nat>): (live: Live)
    ensures live.list == HomeOf(live)
  {
    var live := Live(fr, Main(false, false, false), ruleset, grp, None, None, 1);
    live.(list := HomeOf(live))
  }

  // ---------- what an edit leaves alone ----------

  ghost predicate OfSet(groups: Groups, l: ListId, s: bool) {
    match l
    case Main(_, _, ruleset) => ruleset == s
    case GroupList(g) => g in groups && groups[g].ruleset == s
  }

  ghost predicate KeptGroup(g0: Groups, g1: Groups, s: bool, g: nat) {
    ((g in g0 && g0[g].ruleset == s) || (g in g1 && g1[g].ruleset == s)) ==> g in g0 && g in g1 && g0[g] == g1[g]
  }

  ghost predicate KeptRule(r0: Rules, r1: Rules, s: bool, r: nat) {
    ((r in r0 && r0[r].ruleset == s) || (r in r1 && r1[r].ruleset == s)) ==> r in r0 && r in r1 && r0[r] == r1[r]
  }

  ghost predicate KeptList(g0: Groups, l0: Lists, l1: Lists, s: bool, l: ListId) {
    OfSet(g0, l, s) ==> Lst(l0, l) == Lst(l1, l)
  }

  // Groups, rules and lists of set s are the same before and after.
  ghost predicate Kept(g0: Groups, r0: Rules, l0: Lists, g1: Groups, r1: Rules, l1: Lists, s: bool) {
    && (forall g: nat {:trigger KeptGroup(g0, g1, s, g)} :: KeptGroup(g0, g1, s, g))
    && (forall r: nat {:trigger KeptRule(r0, r1, s, r)} :: KeptRule(r0, r1, s, r))
    && (forall l: ListId {:trigger KeptList(g0, l0, l1, s, l)} :: KeptList(g0, l0, l1, s, l))
  }

  // Only group g changed, and it is not of set s.
  lemma KeptOneGroup(g0: Groups, g1: Groups, rules: Rules, lists: Lists, s: bool, g: nat)
    requires forall h: nat | h != g :: (h in g0 <==> h in g1) && (h in g0 ==> g0[h] == g1[h])
    requires (g in g0 ==> g0[g].ruleset != s) && (g in g1 ==> g1[g].ruleset != s)
    ensures Kept(g0, rules, lists, g1, rules, lists, s)
  {
  }

  // Only rule r and its list changed, and they are not of set s.
  lemma KeptOneRule(groups: Groups, r0: Rules, r1: Rules, l0: Lists, l1: Lists, s: bool, r: nat, l: ListId)
    requires forall n: nat | n != r :: (n in r0 <==> n in r1) && (n in r0 ==> r0[n] == r1[n])
    requires (r in r0 ==> r0[r].ruleset != s) && (r in r1 ==> r1[r].ruleset != s)
    requires !OfSet(groups, l, s) && forall m | m != l :: Lst(l0, m) == Lst(l1, m)
    ensures Kept(groups, r0, l0, groups, r1, l1, s)
  {
  }

  lemma KeptTrans(g0: Groups, r0: Rules, l0: Lists, g1: Groups, r1: Rules, l1: Lists, g2: Groups, r2: Rules, l2: Lists, s: bool)
    requires Kept(g0, r0, l0, g1, r1, l1, s) && Kept(g1, r1, l1, g2, r2, l2, s)
    ensures Kept(g0, r0, l0, g2, r2, l2, s)
  {
    forall g: nat ensures KeptGroup(g0, g2, s, g) {
      assert KeptGroup(g0, g1, s, g) && KeptGroup(g1, g2, s, g);
    }
    forall r: nat ensures KeptRule(r0, r2, s, r) {
      assert KeptRule(r0, r1, s, r) && KeptRule(r1, r2, s, r);
    }
    forall l: ListId ensures KeptList(g0, l0, l2, s, l) {
      assert KeptList(g0, l0, l1, s, l) && KeptList(g1, l1, l2, s, l);
      if l.GroupList? { assert KeptGroup(g0, g1, s, l.gid); }
    }
  }

  // Heading a group for ICMP, which has no direction, first changes nothing for the other.
  lemma HeadsGot(g0: Groups, g1: Groups, g2: Groups, live: Live, dir: Dir)
    requires Grown(g0, g1, NODIR) && Grown(g1, g2, dir)
    requires HeadGot(g0, g1, live, live.rule.icmpHead, NODIR, live.icmpgrp)
    requires HeadGot(g1, g2, live, live.rule.head, dir, live.grphead)
    ensures HeadGot(g0, g2, live, live.rule.icmpHead, NODIR, live.icmpgrp)
    ensures HeadGot(g0, g2, live, live.rule.head, dir, live.grphead)
    ensures KeysKept(g0, g2, dir)
  {
    forall g: nat | g in g0
      ensures g in g2 && SameKey(g0[g], g2[g]) && (g2[g].dir == g0[g].dir || (g0[g].dir == NODIR && g2[g].dir == dir))
    {
      assert GrownAt(g0, g1, NODIR, g) && GrownAt(g1, g2, dir, g);
    }
    if live.icmpgrp.Some? { assert GrownAt(g1, g2, dir, live.icmpgrp.value); }
    if live.rule.head.Some? {
      RefusedSame(g0, g1, Account(live.rule), live.ruleset, live.rule.head.value, dir);
    }
  }

  lemma RefusedSame(g0: Groups, g1: Groups, acct: bool, ruleset: bool, name: string, dir: Dir)
    requires Grown(g0, g1, NODIR)
    ensures Refused(g0, acct, ruleset, name, dir) <==> Refused(g1, acct, ruleset, name, dir)
  {
    if g :| g in g0 && IsNamed(g0[g], acct, ruleset, name) && g0[g].dir != NODIR && g0[g].dir != dir {
      assert GrownAt(g0, g1, NODIR, g);
    }
    if g :| g in g1 && IsNamed(g1[g], acct, ruleset, name) && g1[g].dir != NODIR && g1[g].dir != dir {
      assert GrownAt(g0, g1, NODIR, g);
    }
  }

  lemma OnlyOne(groups: Groups, rules: Rules, next: nat, pending: multiset<nat>, g: nat)
    requires GroupsOk(groups, rules, next, pending) && g in groups
    ensures forall h | h in groups && IsNamed(groups[h], groups[g].acct, groups[g].ruleset, groups[g].name) :: h == g
  {
    forall h | h in groups && IsNamed(groups[h], groups[g].acct, groups[g].ruleset, groups[g].name) ensures h == g {
      assert Named(groups, h, g);
    }
  }

  // Rules do not care about the counts and directions of groups.
  lemma RulesKeep(groups: Groups, groups': Groups, rules: Rules, lists: Lists, next: nat, next': nat)
    requires RulesOk(groups, rules, lists, next) && next <= next'
    requires forall r: nat, k | r in rules && 0 <= k < 3 :: RefersOk(groups, Ref(rules[r], k), rules[r].ruleset)
                                                          ==> RefersOk(groups', Ref(rules[r], k), rules[r].ruleset)
    ensures RulesOk(groups', rules, lists, next')
  {
    forall r: nat ensures RuleOk(groups', rules, lists, next', r) {
      assert RuleOk(groups, rules, lists, next, r);
      assert r in rules ==>
        Ref(rules[r], 0) == rules[r].grp && Ref(rules[r], 1) == rules[r].grphead && Ref(rules[r], 2) == rules[r].icmpgrp;
    }
  }

  ghost function Ref(live: Live, k: int): Option<nat> {
    if k == 0 then live.grp else if k == 1 then live.grphead else live.icmpgrp
  }

  lemma TakeRef(groups: Groups, rules: Rules, lists: Lists, next: nat, pending: multiset<nat>, g: nat, fg: Group)
    requires GroupsOk(groups, rules, next, pending) && RulesOk(groups, rules, lists, next)
    requires g in groups && SameKey(fg, groups[g]) && fg.ref == groups[g].ref + 1
    ensures GroupsOk(groups[g := fg], rules, next, pending + multiset{g})
    ensures RulesOk(groups[g := fg], rules, lists, next)
  {
    var groups', pending' := groups[g := fg], pending + multiset{g};
    forall h: nat ensures GroupOk(groups', rules, next, pending', h) {
      assert GroupOk(groups, rules, next, pending, h);
    }
    forall h: nat, i: nat ensures Named(groups', h, i) {
      assert Named(groups, h, i);
    }
    RulesKeep(groups, groups', rules, lists, next, next);
  }

  lemma NewGroup(groups: Groups, rules: Rules, lists: Lists, next: nat, pending: multiset<nat>, fg: Group)
    requires GroupsOk(groups, rules, next, pending) && RulesOk(groups, rules, lists, next)
    requires fg.ref == 1 && forall g: nat | g in groups :: !SameKey(groups[g], fg)
    ensures next !in groups
    ensures GroupsOk(groups[next := fg], rules, next + 1, pending + multiset{next})
    ensures RulesOk(groups[next := fg], rules, lists, next + 1)
  {
    var groups', pending', next' := groups[next := fg], pending + multiset{next}, next + 1;
    assert GroupOk(groups, rules, next, pending, next);
    Unreferenced(groups, rules, lists, next, next);
    forall h: nat ensures GroupOk(groups', rules, next', pending', h) {
      assert GroupOk(groups, rules, next, pending, h);
    }
    forall h: nat, i: nat ensures Named(groups', h, i) {
      assert Named(groups, h, i);
    }
    RulesKeep(groups, groups', rules, lists, next, next + 1);
  }

  lemma NewGroupAll(groups: Groups, rules: Rules, lists: Lists, next: nat, pending: multiset<nat>, fg: Group,
                    groups': Groups, pending': multiset<nat>)
    requires GroupsOk(groups, rules, next, pending) && RulesOk(groups, rules, lists, next)
    requires fg.ref == 1 && forall g: nat | g in groups :: !IsNamed(groups[g], fg.acct, fg.ruleset, fg.name)
    requires groups' == groups[next := fg] && pending' == pending + multiset{next}
    ensures next !in groups && Grown(groups, groups', fg.dir)
    ensures GroupsOk(groups', rules, next + 1, pending') && RulesOk(groups', rules, lists, next + 1)
    ensures Kept(groups, rules, lists, groups', rules, lists, !fg.ruleset)
  {
    NewGroup(groups, rules, lists, next, pending, fg);
    KeptOneGroup(groups, groups', rules, lists, !fg.ruleset, next);
  }

  lemma Unreferenced(groups: Groups, rules: Rules, lists: Lists, next: nat, g: nat)
    requires RulesOk(groups, rules, lists, next) && g !in groups
    ensures RefsTo(rules, g) == 0
  {
    assert forall r | r in rules :: RuleOk(groups, rules, lists, next, r);
    assert Members(rules, g) == {} && Heads(rules, g) == {} && IcmpHeads(rules, g) == {};
  }

  ghost function Dropped(groups: Groups, g: nat): Groups
    requires g in groups
  {
    if groups[g].ref == 1 then groups - {g} else groups[g := groups[g].(ref := groups[g].ref - 1)]
  }

  lemma DropRef(groups: Groups, rules: Rules, lists: Lists, next: nat, pending: multiset<nat>, g: nat)
    requires GroupsOk(groups, rules, next, pending) && RulesOk(groups, rules, lists, next) && g in pending
    ensures g in groups && groups[g].ref > 0
    ensures groups[g].ref == 1 ==> Lst(lists, GroupList(g)) == [] && RefsTo(rules, g) == 0
    ensures GroupsOk(Dropped(groups, g), rules, next, pending - multiset{g})
    ensures RulesOk(Dropped(groups, g), rules, lists, next)
  {
    assert GroupOk(groups, rules, next, pending, g);
    var groups', pending' := Dropped(groups, g), pending - multiset{g};
    if groups[g].ref == 1 { NoMembers(groups, rules, lists, next, g); }
    forall h: nat ensures GroupOk(groups', rules, next, pending', h) {
      assert GroupOk(groups, rules, next, pending, h);
    }
    forall h: nat, i: nat ensures Named(groups', h, i) {
      assert Named(groups, h, i);
    }
    RulesKeep(groups, groups', rules, lists, next, next);
  }

  lemma ListedIsMember(groups: Groups, rules: Rules, lists: Lists, next: nat, g: nat)
    requires RulesOk(groups, rules, lists, next)
    ensures forall r | r in Lst(lists, GroupList(g)) :: r in Members(rules, g)
  {
    forall r | r in Lst(lists, GroupList(g)) ensures r in Members(rules, g) {
      assert ListedOk(rules, lists, GroupList(g), r) && RuleOk(groups, rules, lists, next, r);
    }
  }

  // Nothing refers to, or is listed in, a group without references.
  lemma NoMembers(groups: Groups, rules: Rules, lists: Lists, next: nat, g: nat)
    requires RulesOk(groups, rules, lists, next) && RefsTo(rules, g) == 0
    ensures Lst(lists, GroupList(g)) == []
    ensures forall r, k | r in rules && 0 <= k < 3 :: Ref(rules[r], k) != Some(g)
  {
    var rs := Lst(lists, GroupList(g));
    assert |rs| > 0 ==> rs[0] in rs;
    ListedIsMember(groups, rules, lists, next, g);
    assert forall r | r in rules && rules[r].grp == Some(g) :: r in Members(rules, g);
    assert forall r | r in rules && rules[r].grphead == Some(g) :: r in Heads(rules, g);
    assert forall r | r in rules && rules[r].icmpgrp == Some(g) :: r in IcmpHeads(rules, g);
    assert Members(rules, g) == {} && Heads(rules, g) == {} && IcmpHeads(rules, g) == {};
  }

  // ---------- rules coming and going ----------

  ghost function Spent(pending: multiset<nat>, ref: Option<nat>): multiset<nat> {
    if ref.Some? then pending - multiset{ref.value} else pending
  }

  ghost function Regained(pending: multiset<nat>, ref: Option<nat>): multiset<nat> {
    if ref.Some? then pending + multiset{ref.value} else pending
  }

  ghost function AllRefs(live: Live): multiset<nat> {
    Regained(Regained(Regained(multiset{}, live.grp), live.grphead), live.icmpgrp)
  }

  lemma RefsOrder(live: Live)
    ensures AllRefs(live) == Regained(Regained(Regained(multiset{}, live.grphead), live.icmpgrp), live.grp)
    ensures Regained(Regained(multiset{}, live.grphead), live.icmpgrp)
         == Regained(Regained(multiset{}, live.icmpgrp), live.grphead)
  {
  }

  // How often one rule refers to a group.
  ghost function Uses(live: Live, g: nat): nat {
    (if live.grp == Some(g) then 1 else 0) + (if live.grphead == Some(g) then 1 else 0)
      + (if live.icmpgrp == Some(g) then 1 else 0)
  }

  lemma RefsUsed(live: Live, g: nat)
    ensures AllRefs(live)[g] == Uses(live, g)
  {
  }

  lemma MembersWith(rules: Rules, r: nat, live: Live, g: nat)
    requires r !in rules
    ensures |Members(rules[r := live], g)| == |Members(rules, g)| + if live.grp == Some(g) then 1 else 0
  {
    var s, s' := Members(rules, g), Members(rules[r := live], g);
    if live.grp == Some(g) {
      assert s' == s + {r};
    } else {
      assert s' == s;
    }
  }

  lemma HeadsWith(rules: Rules, r: nat, live: Live, g: nat)
    requires r !in rules
    ensures |Heads(rules[r := live], g)| == |Heads(rules, g)| + if live.grphead == Some(g) then 1 else 0
  {
    var s, s' := Heads(rules, g), Heads(rules[r := live], g);
    if live.grphead == Some(g) {
      assert s' == s + {r};
    } else {
      assert s' == s;
    }
  }

  lemma IcmpHeadsWith(rules: Rules, r: nat, live: Live, g: nat)
    requires r !in rules
    ensures |IcmpHeads(rules[r := live], g)| == |IcmpHeads(rules, g)| + if live.icmpgrp == Some(g) then 1 else 0
  {
    var s, s' := IcmpHeads(rules, g), IcmpHeads(rules[r := live], g);
    if live.icmpgrp == Some(g) {
      assert s' == s + {r};
    } else {
      assert s' == s;
    }
  }

  lemma RefsWith(rules: Rules, r: nat, live: Live, g: nat)
    requires r !in rules
    ensures RefsTo(rules[r := live], g) == RefsTo(rules, g) + Uses(live, g)
  {
    MembersWith(rules, r, live, g);
    HeadsWith(rules, r, live, g);
    IcmpHeadsWith(rules, r, live, g);
  }

  lemma RefsChange(rules: Rules, r: nat, live: Live, g: nat)
    requires r in rules
    ensures RefsTo(rules[r := live], g) == RefsTo(rules, g) - Uses(rules[r], g) + Uses(live, g)
    ensures RefsTo(rules - {r}, g) == RefsTo(rules, g) - Uses(rules[r], g)
  {
    RefsWith(rules - {r}, r, rules[r], g);
    RefsWith(rules - {r}, r, live, g);
    assert (rules - {r})[r := rules[r]] == rules && (rules - {r})[r := live] == rules[r := live];
  }

  // There is no rule like fr among these, and at is a place for it in their order.
  ghost predicate Fitting(rules: Rules, ids: seq<nat>, fr: FRule, at: nat) {
    && at <= |ids|
    && (forall i | 0 <= i < at :: CollectOf(rules, ids[i]) <= fr.collect)
    && (forall i | at <= i < |ids| :: CollectOf(rules, ids[i]) >= fr.collect)
    && (forall i | 0 <= i < |ids| :: RuleOf(rules, ids[i]) != Some(fr))
  }

  lemma FittingSame(rules: Rules, rules': Rules, ids: seq<nat>, fr: FRule, at: nat)
    requires Fitting(rules, ids, fr, at) && forall r | r in ids :: RuleOf(rules', r) == RuleOf(rules, r)
    ensures Fitting(rules', ids, fr, at)
  {
    forall i | 0 <= i < |ids| ensures RuleOf(rules', ids[i]) == RuleOf(rules, ids[i]) && CollectOf(rules', ids[i]) == CollectOf(rules, ids[i]) {
      assert ids[i] in ids;
    }
  }

  lemma PlaceIsRight(groups: Groups, rules: Rules, lists: Lists, next: nat, live: Live, req: Request, hits: nat, at: nat)
    requires RulesOk(groups, rules, lists, next)
    requires forall r | r in Lst(lists, live.list) :: !SameRule(rules, r, live.rule)
    requires at == PlaceIn(Collects(rules, Lst(lists, live.list)), live.rule.collect, req, hits)
    ensures Placed(Collects(rules, Lst(lists, live.list)), live.rule.collect, req, hits, at)
    ensures Fitting(rules, Lst(lists, live.list), live.rule, at)
  {
    var ids := Lst(lists, live.list);
    assert InOrder(rules, lists, live.list);
    RankedDistinct(rules, ids);
    PlaceInPlaced(Collects(rules, ids), live.rule.collect, req, hits);
    PlacedUnique(Collects(rules, ids), live.rule.collect, req, hits, at, at);
    forall i | 0 <= i < |ids|
      ensures RuleOf(rules, ids[i]) != Some(live.rule) && CollectOf(rules, ids[i]) == Collects(rules, ids)[i]
    {
      assert ids[i] in ids && !SameRule(rules, ids[i], live.rule);
    }
  }

  // A new rule without heads: the reference its membership took is now its own.
  lemma InstallOk(groups: Groups, rules: Rules, lists: Lists, next: nat, pending: multiset<nat>, live: Live, at: nat)
    requires GroupsOk(groups, rules, next, pending) && RulesOk(groups, rules, lists, next)
    requires live.grphead == None && live.icmpgrp == None && live.list == HomeOf(live) && live.ref > 0
    requires RefersOk(groups, live.grp, live.ruleset) && (live.grp.Some? ==> live.grp.value in pending)
    requires Fitting(rules, Lst(lists, live.list), live.rule, at)
    ensures GroupsOk(groups, rules[next := live], next + 1, Spent(pending, live.grp))
    ensures RulesOk(groups, rules[next := live], lists[live.list := Inserted(Lst(lists, live.list), at, next)], next + 1)
  {
    var rules', next', pending' := rules[next := live], next + 1, Spent(pending, live.grp);
    var was := Lst(lists, live.list);
    var lists' := lists[live.list := Inserted(was, at, next)];
    assert RuleOk(groups, rules, lists, next, next);
    forall g: nat ensures GroupOk(groups, rules', next', pending', g) {
      assert GroupOk(groups, rules, next, pending, g);
      RefsWith(rules, next, live, g);
    }
    assert forall r :: r in Inserted(was, at, next) <==> r in was || r == next by { InsertedMembers(was, at, next); }
    forall r: nat ensures RuleOk(groups, rules', lists', next', r) {
      assert RuleOk(groups, rules, lists, next, r);
    }
    forall l: ListId, r: nat ensures ListedOk(rules', lists', l, r) {
      assert ListedOk(rules, lists, l, r);
    }
    forall l: ListId ensures InOrder(rules', lists', l) {
      assert InOrder(rules, lists, l);
      forall r | r in Lst(lists, l) ensures RuleOf(rules', r) == RuleOf(rules, r) {
        assert ListedOk(rules, lists, l, r);
      }
      RankedSame(rules, rules', Lst(lists, l));
      if l == live.list {
        FittingSame(rules, rules', was, live.rule, at);
        RankedInserted(rules', was, at, next);
      }
    }
  }

  lemma InstallAll(groups: Groups, rules: Rules, lists: Lists, next: nat, pending: multiset<nat>, live: Live, at: nat,
                   rules': Rules, lists': Lists, pending': multiset<nat>)
    requires GroupsOk(groups, rules, next, pending) && RulesOk(groups, rules, lists, next)
    requires live.grphead == None && live.icmpgrp == None && live.list == HomeOf(live) && live.ref > 0
    requires RefersOk(groups, live.grp, live.ruleset) && (live.grp.Some? ==> live.grp.value in pending)
    requires Fitting(rules, Lst(lists, live.list), live.rule, at) && rules' == rules[next := live] && pending' == Spent(pending, live.grp)
    requires lists' == lists[live.list := Inserted(Lst(lists, live.list), at, next)]
    ensures GroupsOk(groups, rules', next + 1, pending') && RulesOk(groups, rules', lists', next + 1)
    ensures next !in rules && Kept(groups, rules, lists, groups, rules', lists', !live.ruleset)
  {
    InstallOk(groups, rules, lists, next, pending, live, at);
    assert RuleOk(groups, rules, lists, next, next);
    KeptOneRule(groups, rules, rules', lists, lists', !live.ruleset, next, live.list);
  }

  // Storing a group reference in a rule that had none of that kind.
  lemma StoreOk(groups: Groups, rules: Rules, lists: Lists, next: nat, pending: multiset<nat>, r: nat, g: nat, icmp: bool)
    requires GroupsOk(groups, rules, next, pending) && RulesOk(groups, rules, lists, next)
    requires r in rules && g in pending && g in groups && groups[g].ruleset == rules[r].ruleset
    requires HeadOf(rules[r], icmp) == None
    ensures var live := WithHead(rules[r], icmp, Some(g));
      && GroupsOk(groups, rules[r := live], next, pending - multiset{g})
      && RulesOk(groups, rules[r := live], lists, next)
  {
    var live := WithHead(rules[r], icmp, Some(g));
    var rules', pending' := rules[r := live], pending - multiset{g};
    forall h: nat ensures GroupOk(groups, rules', next, pending', h) {
      assert GroupOk(groups, rules, next, pending, h);
      RefsChange(rules, r, live, h);
    }
    forall n: nat ensures RuleOk(groups, rules', lists, next, n) {
      assert RuleOk(groups, rules, lists, next, n);
    }
    forall l: ListId, n: nat ensures ListedOk(rules', lists, l, n) {
      assert ListedOk(rules, lists, l, n);
    }
    forall l: ListId ensures InOrder(rules', lists, l) {
      assert InOrder(rules, lists, l);
      RankedSame(rules, rules', Lst(lists, l));
    }
  }

  // A rule leaving: its references are to be dropped.
  lemma RetireOk(groups: Groups, rules: Rules, lists: Lists, next: nat, r: nat, k: nat)
    requires GroupsOk(groups, rules, next, multiset{}) && RulesOk(groups, rules, lists, next)
    requires r in rules && k < |Lst(lists, rules[r].list)| && Lst(lists, rules[r].list)[k] == r
    ensures var live := rules[r];
      && GroupsOk(groups, rules - {r}, next, AllRefs(live))
      && RulesOk(groups, rules - {r}, lists[live.list := Without(Lst(lists, live.list), k)], next)
  {
    assert RuleOk(groups, rules, lists, next, r);
    RetiredCounts(groups, rules, next, r);
    RetiredLists(groups, rules, lists, next, r, k);
  }

  lemma RetireAll(groups: Groups, rules: Rules, lists: Lists, next: nat, r: nat, k: nat,
                  rules': Rules, lists': Lists, pending': multiset<nat>)
    requires GroupsOk(groups, rules, next, multiset{}) && RulesOk(groups, rules, lists, next)
    requires r in rules && k < |Lst(lists, rules[r].list)| && Lst(lists, rules[r].list)[k] == r
    requires rules' == rules - {r} && lists' == lists[rules[r].list := Without(Lst(lists, rules[r].list), k)]
    requires pending' == AllRefs(rules[r])
    ensures GroupsOk(groups, rules', next, pending') && RulesOk(groups, rules', lists', next)
    ensures forall g | g in pending' :: g in groups && groups[g].ruleset == rules[r].ruleset
    ensures Kept(groups, rules, lists, groups, rules', lists', !rules[r].ruleset)
  {
    assert RuleOk(groups, rules, lists, next, r);
    RetireOk(groups, rules, lists, next, r, k);
    KeptOneRule(groups, rules, rules', lists, lists', !rules[r].ruleset, r, rules[r].list);
  }

  lemma RetiredCounts(groups: Groups, rules: Rules, next: nat, r: nat)
    requires GroupsOk(groups, rules, next, multiset{}) && r in rules
    requires forall g | g in AllRefs(rules[r]) :: g in groups
    ensures GroupsOk(groups, rules - {r}, next, AllRefs(rules[r]))
  {
    var pending := AllRefs(rules[r]);
    forall g: nat ensures GroupOk(groups, rules - {r}, next, pending, g) {
      assert GroupOk(groups, rules, next, multiset{}, g);
      RefsChange(rules, r, rules[r], g);
      RefsUsed(rules[r], g);
    }
  }

  lemma RetiredLists(groups: Groups, rules: Rules, lists: Lists, next: nat, r: nat, k: nat)
    requires RulesOk(groups, rules, lists, next)
    requires r in rules && k < |Lst(lists, rules[r].list)| && Lst(lists, rules[r].list)[k] == r
    ensures RulesOk(groups, rules - {r}, lists[rules[r].list := Without(Lst(lists, rules[r].list), k)], next)
  {
    var l0 := rules[r].list;
    var was := Lst(lists, l0);
    var rules', lists' := rules - {r}, lists[l0 := Without(was, k)];
    assert InOrder(rules, lists, l0);
    RankedDistinct(rules, was);
    DistinctWithout(was, k);
    WithoutMembers(was, k);
    forall n: nat ensures RuleOk(groups, rules', lists', next, n) {
      assert RuleOk(groups, rules, lists, next, n);
    }
    forall l: ListId, n: nat ensures ListedOk(rules', lists', l, n) {
      assert ListedOk(rules, lists, l, n);
    }
    forall l: ListId ensures InOrder(rules', lists', l) {
      assert InOrder(rules, lists, l);
      if l == l0 { RankedWithout(rules, was, k); }
      forall n | n in Lst(lists', l) ensures RuleOf(rules', n) == RuleOf(rules, n) {
        assert ListedOk(rules, lists, l, n);
      }
      RankedSame(rules, rules', Lst(lists', l));
    }
  }

  lemma SetDirOk(groups: Groups, rules: Rules, lists: Lists, next: nat, pending: multiset<nat>, g: nat, dir: Dir)
    requires GroupsOk(groups, rules, next, pending) && RulesOk(groups, rules, lists, next) && g in groups
    ensures GroupsOk(groups[g := groups[g].(dir := dir)], rules, next, pending)
    ensures RulesOk(groups[g := groups[g].(dir := dir)], rules, lists, next)
  {
    var groups' := groups[g := groups[g].(dir := dir)];
    forall h: nat ensures GroupOk(groups', rules, next, pending, h) {
      assert GroupOk(groups, rules, next, pending, h);
    }
    forall h: nat, i: nat ensures Named(groups', h, i) {
      assert Named(groups, h, i);
    }
    RulesKeep(groups, groups', rules, lists, next, next);
  }

  lemma CountOk(groups: Groups, rules: Rules, lists: Lists, next: nat, pending: multiset<nat>, r: nat, n: nat)
    requires GroupsOk(groups, rules, next, pending) && RulesOk(groups, rules, lists, next) && r in rules && n > 0
    ensures GroupsOk(groups, rules[r := rules[r].(ref := n)], next, pending)
    ensures RulesOk(groups, rules[r := rules[r].(ref := n)], lists, next)
  {
    var live := rules[r].(ref := n);
    var rules' := rules[r := live];
    forall g: nat ensures GroupOk(groups, rules', next, pending, g) {
      assert GroupOk(groups, rules, next, pending, g);
      RefsChange(rules, r, live, g);
    }
    forall m: nat ensures RuleOk(groups, rules', lists, next, m) {
      assert RuleOk(groups, rules, lists, next, m);
    }
    forall l: ListId, m: nat ensures ListedOk(rules', lists, l, m) {
      assert ListedOk(rules, lists, l, m);
    }
    forall l: ListId ensures InOrder(rules', lists, l) {
      assert InOrder(rules, lists, l);
      RankedSame(rules, rules', Lst(lists, l));
    }
  }
}
