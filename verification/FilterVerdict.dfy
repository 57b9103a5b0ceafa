// Edits to the inactive rule set do not change what the active one decides.

module FilterVerdict {
  import opened Basics
  import opened RuleBase
  import opened RuleScan
  import opened RuleMeaning
  import opened Filter
  import SeqFacts

  // ---------- a scan depends only on the lists it can reach ----------

  ghost predicate SameWithin(a: Env, b: Env, lists: iset<ListId>) {
    && a.packet == b.packet && a.stateOk == b.stateOk
    && (forall l | l in lists :: RuleBase.Rules(a.store, l) == RuleBase.Rules(b.store, l))
    && (forall l, r | l in lists && r in RuleBase.Rules(a.store, l) :: r.head.Some? ==> r.head.value in lists)
  }

  lemma {:induction false} ScanLocal(a: Env, b: Env, lists: iset<ListId>, fin: Fin, pass: Flags)
    requires SameWithin(a, b, lists) && (fin.fr != Null ==> fin.fr.list in lists)
    ensures Scan(a, fin, pass) == Scan(b, fin, pass)
    decreases Fuel(fin.depth), 0, 0
  {
    if fin.depth < MAXDEPTH && fin.fr != Null {
      ScanFromLocal(a, b, lists, fin.(depth := fin.depth + 1, fr := Null), fin.fr.list, fin.fr.idx, pass);
    }
  }

  lemma {:induction false} ScanFromLocal(a: Env, b: Env, lists: iset<ListId>, fin: Fin, l: ListId, k: nat, pass: Flags)
    requires SameWithin(a, b, lists) && l in lists && 1 <= fin.depth <= MAXDEPTH
    ensures ScanFrom(a, fin, l, k, pass) == ScanFrom(b, fin, l, k, pass)
    decreases Fuel(fin.depth), 1, |RuleBase.Rules(a.store, l)| - k
  {
    var rules := RuleBase.Rules(a.store, l);
    if k < |rules| {
      var r := rules[k];
      if !Matches(r, a.packet) {
        ScanFromLocal(a, b, lists, fin, l, k + 1, pass);
      } else {
        assert r in rules;
        VisitLocal(a, b, lists, fin, At(l, k), r, pass);
        var (fin', pass') := Visit(a, fin, At(l, k), r, pass);
        if !pass'.quick {
          ScanFromLocal(a, b, lists, fin', l, k + 1, pass');
        } else if WantsState(pass', fin'.state) && !a.stateOk(At(l, k)) {
          ScanFromLocal(a, b, lists, fin'.(fr := At(l, k)), l, k + 1, pass);
        }
      }
    }
  }

  lemma {:induction false} VisitLocal(a: Env, b: Env, lists: iset<ListId>, fin: Fin, me: RulePtr, r: Rule, pass: Flags)
    requires SameWithin(a, b, lists) && 1 <= fin.depth <= MAXDEPTH && (r.head.Some? ==> r.head.value in lists)
    ensures Visit(a, fin, me, r, pass) == Visit(b, fin, me, r, pass)
    decreases Fuel(fin.depth), 0, 1
  {
    if r.head.Some? {
      ScanLocal(a, b, lists, fin.(fr := Start(a.store, r.head.value), hits := fin.hits + [me]),
                if Undecided(r.flags) then pass else r.flags);
    }
  }

  // ---------- the store a packet is checked against ----------

  function ToRule(live: Live): Rule {
    Rule(live.rule.conds, live.rule.flags, match live.grphead case Some(g) => Some(GroupList(g)) case None => None)
  }

  ghost function RulesOf(rules: Filter.Rules, ids: seq<nat>): (rs: seq<Rule>)
    requires forall i | 0 <= i < |ids| :: ids[i] in rules
    ensures |rs| == |ids| && forall i | 0 <= i < |ids| :: rs[i] == ToRule(rules[ids[i]])
  {
    seq(|ids|, i requires 0 <= i < |ids| => ToRule(rules[ids[i]]))
  }

  ghost predicate Complete(rules: Filter.Rules, lists: Lists) {
    forall l, i | l in lists && 0 <= i < |lists[l]| :: lists[l][i] in rules
  }

  ghost function StoreOf(rules: Filter.Rules, lists: Lists): Store
    requires Complete(rules, lists)
  {
    map l | l in lists :: RulesOf(rules, lists[l])
  }

  lemma AllComplete(groups: Groups, rules: Filter.Rules, lists: Lists, next: nat)
    requires RulesOk(groups, rules, lists, next)
    ensures Complete(rules, lists)
  {
    forall l, i | l in lists && 0 <= i < |lists[l]| ensures lists[l][i] in rules {
      assert ListedOk(rules, lists, l, lists[l][i]);
    }
  }

  lemma StoreRules(rules: Filter.Rules, lists: Lists, l: ListId)
    requires Complete(rules, lists)
    ensures RuleBase.Rules(StoreOf(rules, lists), l) == RulesOf(rules, Lst(lists, l))
  {
  }

  // A rule listed in set s is a rule of set s, and so is the group it heads.
  lemma ListedInSet(groups: Groups, rules: Filter.Rules, lists: Lists, next: nat, s: bool, l: ListId, r: nat)
    requires RulesOk(groups, rules, lists, next) && OfSet(groups, l, s) && r in Lst(lists, l)
    ensures r in rules && rules[r].ruleset == s
    ensures rules[r].grphead.Some? ==> OfSet(groups, GroupList(rules[r].grphead.value), s)
  {
    assert ListedOk(rules, lists, l, r) && RuleOk(groups, rules, lists, next, r);
  }

  // Nothing reachable from a list of set s lies outside it, so an edit that keeps set s
  // keeps every verdict reached through it.
  lemma EditKeepsVerdict(g0: Groups, r0: Filter.Rules, l0: Lists, n0: nat, g1: Groups, r1: Filter.Rules, l1: Lists, n1: nat,
                         s: bool, l: ListId, packet: Packet, ok: RulePtr -> bool, pass: Flags)
    requires RulesOk(g0, r0, l0, n0) && RulesOk(g1, r1, l1, n1) && Kept(g0, r0, l0, g1, r1, l1, s) && OfSet(g0, l, s)
    ensures Complete(r0, l0) && Complete(r1, l1)
    ensures var a, b := StoreOf(r0, l0), StoreOf(r1, l1);
      Scan(Env(a, packet, ok), Begin(a, l), pass) == Scan(Env(b, packet, ok), Begin(b, l), pass)
  {
    AllComplete(g0, r0, l0, n0);
    AllComplete(g1, r1, l1, n1);
    var a, b := Env(StoreOf(r0, l0), packet, ok), Env(StoreOf(r1, l1), packet, ok);
    var within := iset m | OfSet(g0, m, s);
    forall m | m in within ensures RuleBase.Rules(a.store, m) == RuleBase.Rules(b.store, m) {
      KeptRules(g0, r0, l0, n0, g1, r1, l1, s, m);
    }
    forall m, r | m in within && r in RuleBase.Rules(a.store, m) ensures r.head.Some? ==> r.head.value in within {
      HeadWithin(g0, r0, l0, n0, s, m, r);
    }
    ScanLocal(a, b, within, Begin(a.store, l), pass);
  }

  lemma KeptRules(g0: Groups, r0: Filter.Rules, l0: Lists, n0: nat, g1: Groups, r1: Filter.Rules, l1: Lists, s: bool, m: ListId)
    requires RulesOk(g0, r0, l0, n0) && Complete(r0, l0) && Complete(r1, l1) && Kept(g0, r0, l0, g1, r1, l1, s) && OfSet(g0, m, s)
    ensures RuleBase.Rules(StoreOf(r0, l0), m) == RuleBase.Rules(StoreOf(r1, l1), m)
  {
    StoreRules(r0, l0, m);
    StoreRules(r1, l1, m);
    assert KeptList(g0, l0, l1, s, m);
    var ids := Lst(l0, m);
    forall i | 0 <= i < |ids| ensures r0[ids[i]] == r1[ids[i]] {
      ListedInSet(g0, r0, l0, n0, s, m, ids[i]);
      assert KeptRule(r0, r1, s, ids[i]);
    }
  }

  lemma HeadWithin(g0: Groups, r0: Filter.Rules, l0: Lists, n0: nat, s: bool, m: ListId, r: Rule)
    requires RulesOk(g0, r0, l0, n0) && Complete(r0, l0) && OfSet(g0, m, s) && r in RuleBase.Rules(StoreOf(r0, l0), m)
    ensures r.head.Some? ==> OfSet(g0, r.head.value, s)
  {
    StoreRules(r0, l0, m);
    var ids := Lst(l0, m);
    var i :| 0 <= i < |ids| && r == ToRule(r0[ids[i]]);
    ListedInSet(g0, r0, l0, n0, s, m, ids[i]);
  }

  // The verdict of rule set s on a packet going in or out, by its rules or its accounting.
  ghost function Verdict(rules: Filter.Rules, lists: Lists, s: bool, acct: bool, out: bool, packet: Packet, ok: RulePtr -> bool, pass: Flags): (Fin, Flags)
    requires Complete(rules, lists)
  {
    var store := StoreOf(rules, lists);
    Scan(Env(store, packet, ok), Begin(store, Main(acct, out, s)), pass)
  }

  // Set s decides every packet alike before and after.
  ghost predicate SameVerdicts(r0: Filter.Rules, l0: Lists, r1: Filter.Rules, l1: Lists, s: bool)
    requires Complete(r0, l0) && Complete(r1, l1)
  {
    forall acct, out, packet, ok, pass ::
      Verdict(r0, l0, s, acct, out, packet, ok, pass) == Verdict(r1, l1, s, acct, out, packet, ok, pass)
  }

  // A request on one set: SIOCADAFR, SIOCINAFR and SIOCRMAFR on the active, SIOCADIFR,
  // SIOCINIFR and SIOCRMIFR on the inactive one.  The other set decides as before.
  method FrRequest(sc: Softc, req: Request, inactive: bool, fr: FRule, hits: nat)
    returns (status: Status, ghost id: nat, ghost at: nat, ghost joined: Groups)
    requires sc.Valid()
    modifies sc`groups, sc`rules, sc`lists, sc`next, sc`pending
    ensures sc.Valid() && Complete(sc.rules, sc.lists) && old(Complete(sc.rules, sc.lists))
    ensures SameVerdicts(old(sc.rules), old(sc.lists), sc.rules, sc.lists, if inactive then sc.active else !sc.active)
    ensures status == Fault <==>
              req != Remove && GroupRefused(old(sc.groups), fr, if inactive then !sc.active else sc.active)
    ensures status == Fault ==> sc.groups == old(sc.groups)
    ensures status != Ok ==> sc.rules == old(sc.rules) && sc.lists == old(sc.lists)
    ensures var which := if inactive then !sc.active else sc.active;
      if req == Remove then
        && (status == Ok <==> Removable(old(sc.groups), old(sc.rules), old(sc.lists), fr, which))
        && (status == Ok ==> SameRule(old(sc.rules), id, fr) && Removed(old(sc.rules), old(sc.lists), sc.rules, sc.lists, id, at))
      else
        status == Ok ==> Added(old(sc.rules), old(sc.lists), joined, sc.groups, sc.rules, sc.lists, fr, which, req, hits, id, at)
  {
    var which := if inactive then !sc.active else sc.active;
    ghost var g0, r0, l0, n0 := sc.groups, sc.rules, sc.lists, sc.next;
    status, id, at, joined := sc.Request(req, which, fr, hits);
    KeptVerdicts(g0, r0, l0, n0, sc.groups, sc.rules, sc.lists, sc.next, !which);
  }

  lemma KeptVerdicts(g0: Groups, r0: Filter.Rules, l0: Lists, n0: nat, g1: Groups, r1: Filter.Rules, l1: Lists, n1: nat, s: bool)
    requires RulesOk(g0, r0, l0, n0) && RulesOk(g1, r1, l1, n1) && Kept(g0, r0, l0, g1, r1, l1, s)
    ensures Complete(r0, l0) && Complete(r1, l1) && SameVerdicts(r0, l0, r1, l1, s)
  {
    AllComplete(g0, r0, l0, n0);
    AllComplete(g1, r1, l1, n1);
    forall acct, out, packet, ok, pass
      ensures Verdict(r0, l0, s, acct, out, packet, ok, pass) == Verdict(r1, l1, s, acct, out, packet, ok, pass)
    {
      EditKeepsVerdict(g0, r0, l0, n0, g1, r1, l1, n1, s, Main(acct, out, s), packet, ok, pass);
    }
  }

  datatype Edit = Edit(req: Request, fr: FRule, hits: nat)

  // Any run of requests on the inactive set, ending early only where one faults: no packet
  // is decided otherwise.
  method EditInactive(sc: Softc, edits: seq<Edit>) returns (done: nat)
    requires sc.Valid()
    modifies sc`groups, sc`rules, sc`lists, sc`next, sc`pending
    ensures sc.Valid() && Complete(sc.rules, sc.lists) && old(Complete(sc.rules, sc.lists)) && done <= |edits|
    ensures done < |edits| ==> edits[done].req != Remove && GroupRefused(sc.groups, edits[done].fr, !sc.active)
    ensures SameVerdicts(old(sc.rules), old(sc.lists), sc.rules, sc.lists, sc.active)
  {
    AllComplete(sc.groups, sc.rules, sc.lists, sc.next);
    done := 0;
    while done < |edits|
      invariant done <= |edits| && sc.Valid() && Complete(sc.rules, sc.lists)
      invariant SameVerdicts(old(sc.rules), old(sc.lists), sc.rules, sc.lists, sc.active)
    {
      ghost var id, at, joined;
      var status;
      status, id, at, joined := FrRequest(sc, edits[done].req, true, edits[done].fr, edits[done].hits);
      if status == Fault {
        break;
      }
      done := done + 1;
    }
  }

  // Trying the edited set out: SIOCSWAPA makes it the active one, and a second SIOCSWAPA
  // brings back the set, and so the decision on every packet, from before the edits.
  method TryOut(sc: Softc, edits: seq<Edit>, back: bool) returns (done: nat)
    requires sc.Valid()
    modifies sc
    ensures sc.Valid() && Complete(sc.rules, sc.lists) && old(Complete(sc.rules, sc.lists))
    ensures back <==> sc.active == old(sc.active)
    ensures SameVerdicts(old(sc.rules), old(sc.lists), sc.rules, sc.lists, if back then sc.active else !sc.active)
  {
    done := EditInactive(sc, edits);
    sc.Swap();
    if back {
      sc.Swap();
    }
  }

  // ---------- what an edit does to the set it is for ----------

  // A quick rule that decides, keeps no state and heads no group, first in a list of a set,
  // decides every packet that matches it and is checked against that list.
  lemma FirstDecides(rules: Filter.Rules, lists: Lists, s: bool, acct: bool, out: bool, id: nat, packet: Packet, ok: RulePtr -> bool, pass: Flags)
    requires Complete(rules, lists) && Lst(lists, Main(acct, out, s)) != [] && Lst(lists, Main(acct, out, s))[0] == id
    requires var fr := rules[id].rule;
      && fr.flags.quick && !fr.flags.keep && fr.flags.cmd != 0 && fr.flags.cmd != 8 && rules[id].grphead == None
      && forall c | c in fr.conds :: packet(c)
    ensures Verdict(rules, lists, s, acct, out, packet, ok, pass).0.fr == At(Main(acct, out, s), 0)
    ensures Verdict(rules, lists, s, acct, out, packet, ok, pass).1 == rules[id].rule.flags
  {
    var l := Main(acct, out, s);
    StoreRules(rules, lists, l);
    var env := Env(StoreOf(rules, lists), packet, ok);
    var r := RuleBase.Rules(env.store, l)[0];
    assert r == ToRule(rules[id]);
    QuickFirst(env, Begin(env.store, l), l, r, pass);
  }

  // A quick rule of the group headed by the first rule of a list decides the packets that
  // match both.
  lemma GroupDecides(rules: Filter.Rules, lists: Lists, s: bool, acct: bool, out: bool, id: nat, g: nat, member: nat,
                     packet: Packet, ok: RulePtr -> bool, pass: Flags)
    requires Complete(rules, lists) && Lst(lists, Main(acct, out, s)) != [] && Lst(lists, Main(acct, out, s))[0] == id
    requires rules[id].grphead == Some(g) && Lst(lists, GroupList(g)) != [] && Lst(lists, GroupList(g))[0] == member
    requires var fr := rules[member].rule;
      && fr.flags.quick && !fr.flags.keep && fr.flags.cmd != 0 && fr.flags.cmd != 8 && rules[member].grphead == None
      && (forall c | c in fr.conds :: packet(c)) && (forall c | c in rules[id].rule.conds :: packet(c))
    ensures Verdict(rules, lists, s, acct, out, packet, ok, pass).0.fr == At(GroupList(g), 0)
    ensures Verdict(rules, lists, s, acct, out, packet, ok, pass).1 == rules[member].rule.flags
  {
    var l, m := Main(acct, out, s), GroupList(g);
    StoreRules(rules, lists, l);
    StoreRules(rules, lists, m);
    var env := Env(StoreOf(rules, lists), packet, ok);
    var r, r' := RuleBase.Rules(env.store, l)[0], RuleBase.Rules(env.store, m)[0];
    assert r == ToRule(rules[id]) && r' == ToRule(rules[member]);
    HeadFirst(env, Begin(env.store, l), l, m, r, r', pass);
  }

  lemma HeadFirst(env: Env, fin: Fin, l: ListId, m: ListId, r: Rule, r': Rule, pass: Flags)
    requires fin.depth == 0 && fin.fr == At(l, 0) && RuleBase.Rules(env.store, l) != [] && RuleBase.Rules(env.store, l)[0] == r
    requires Matches(r, env.packet) && r.head == Some(m) && RuleBase.Rules(env.store, m) != [] && RuleBase.Rules(env.store, m)[0] == r'
    requires r'.head.None? && Matches(r', env.packet) && r'.flags.quick && !r'.flags.keep && !Undecided(r'.flags)
    ensures Scan(env, fin, pass).1 == r'.flags && Scan(env, fin, pass).0.fr == At(m, 0)
  {
    var here := fin.(depth := 1, fr := Null);
    var inner := here.(fr := At(m, 0), hits := here.hits + [At(l, 0)]);
    QuickFirst(env, inner, m, r', Handed(r, pass));
    assert Start(env.store, m) == At(m, 0);
    assert Visit(env, here, At(l, 0), r, pass) == Scan(env, inner, Handed(r, pass));
  }

  lemma QuickFirst(env: Env, fin: Fin, m: ListId, r: Rule, pass: Flags)
    requires fin.depth < MAXDEPTH && fin.fr == At(m, 0) && RuleBase.Rules(env.store, m) != [] && RuleBase.Rules(env.store, m)[0] == r
    requires r.head.None? && Matches(r, env.packet) && r.flags.quick && !r.flags.keep && !Undecided(r.flags)
    ensures Scan(env, fin, pass).1 == r.flags && Scan(env, fin, pass).0.fr == At(m, 0)
    ensures Scan(env, fin, pass).0.state == fin.state
  {
    var here := fin.(depth := fin.depth + 1, fr := Null);
    assert Visit(env, here, At(m, 0), r, pass) == (here.(fr := At(m, 0), hits := here.hits + [At(m, 0)]), r.flags);
  }

  // Only one list differs, and it is not reached from groups: every other one decides alike.
  lemma OtherLists(r0: Filter.Rules, l0: Lists, r1: Filter.Rules, l1: Lists, l: ListId, s: bool, acct: bool, out: bool,
                   packet: Packet, ok: RulePtr -> bool, pass: Flags)
    requires Complete(r0, l0) && Complete(r1, l1) && l.Main? && l != Main(acct, out, s)
    requires forall m | m != l :: Lst(l0, m) == Lst(l1, m)
    requires forall r | r in r0 && r in r1 :: r0[r] == r1[r]
    ensures Verdict(r0, l0, s, acct, out, packet, ok, pass) == Verdict(r1, l1, s, acct, out, packet, ok, pass)
  {
    var a, b := Env(StoreOf(r0, l0), packet, ok), Env(StoreOf(r1, l1), packet, ok);
    var within := iset m | OtherThan(l, m);
    OthersSame(r0, l0, r1, l1, l, packet, ok, within);
    assert RuleBase.Rules(a.store, Main(acct, out, s)) == RuleBase.Rules(b.store, Main(acct, out, s));
    ScanLocal(a, b, within, Begin(a.store, Main(acct, out, s)), pass);
  }

  lemma OthersSame(r0: Filter.Rules, l0: Lists, r1: Filter.Rules, l1: Lists, l: ListId, packet: Packet, ok: RulePtr -> bool, within: iset<ListId>)
    requires Complete(r0, l0) && Complete(r1, l1) && l.Main? && within == iset m | OtherThan(l, m)
    requires forall m | m != l :: Lst(l0, m) == Lst(l1, m)
    requires forall r | r in r0 && r in r1 :: r0[r] == r1[r]
    ensures SameWithin(Env(StoreOf(r0, l0), packet, ok), Env(StoreOf(r1, l1), packet, ok), within)
  {
    var a, b := StoreOf(r0, l0), StoreOf(r1, l1);
    forall m | m in within ensures RuleBase.Rules(a, m) == RuleBase.Rules(b, m) {
      SameRules(r0, l0, r1, l1, m);
    }
    forall m, r | m in within && r in RuleBase.Rules(a, m) ensures r.head.Some? ==> r.head.value in within {
      HeadIsGroup(r0, l0, m, r);
    }
  }

  ghost predicate OtherThan(l: ListId, m: ListId) { m != l }

  lemma SameRules(r0: Filter.Rules, l0: Lists, r1: Filter.Rules, l1: Lists, m: ListId)
    requires Complete(r0, l0) && Complete(r1, l1) && Lst(l0, m) == Lst(l1, m)
    requires forall r | r in r0 && r in r1 :: r0[r] == r1[r]
    ensures RuleBase.Rules(StoreOf(r0, l0), m) == RuleBase.Rules(StoreOf(r1, l1), m)
  {
    StoreRules(r0, l0, m);
    StoreRules(r1, l1, m);
  }

  lemma HeadIsGroup(rules: Filter.Rules, lists: Lists, m: ListId, r: Rule)
    requires Complete(rules, lists) && r in RuleBase.Rules(StoreOf(rules, lists), m)
    ensures r.head.Some? ==> r.head.value.GroupList?
  {
    StoreRules(rules, lists, m);
    var ids := Lst(lists, m);
    var i :| 0 <= i < |ids| && r == ToRule(rules[ids[i]]);
  }

  // An accepted rule outside groups that comes first in its list, is quick, decides, keeps no
  // state and heads no group: it decides the matching packets of its own direction, and those
  // of the other one are decided as before, and so is the accounting.
  lemma AddedDecides(r0: Filter.Rules, l0: Lists, joined: Groups, g1: Groups, r1: Filter.Rules, l1: Lists, next: nat,
                     fr: FRule, s: bool, req: Request, hits: nat, id: nat, packet: Packet, ok: RulePtr -> bool, pass: Flags)
    requires Complete(r0, l0) && RulesOk(g1, r1, l1, next) && Complete(r1, l1)
    requires Added(r0, l0, joined, g1, r1, l1, fr, s, req, hits, id, 0)
    requires fr.group == None && fr.head == None && fr.flags.cmd != 5 && fr.flags.inque
    requires fr.flags.quick && !fr.flags.keep && fr.flags.cmd != 0 && fr.flags.cmd != 8
    ensures (forall c | c in fr.conds :: packet(c)) ==> Verdict(r1, l1, s, false, false, packet, ok, pass).1 == fr.flags
    ensures Verdict(r1, l1, s, false, true, packet, ok, pass) == Verdict(r0, l0, s, false, true, packet, ok, pass)
    ensures forall out :: Verdict(r1, l1, s, true, out, packet, ok, pass) == Verdict(r0, l0, s, true, out, packet, ok, pass)
  {
    assert RuleOk(g1, r1, l1, next, id);
    var l := Main(false, false, s);
    assert r1[id].list == l && Lst(l1, l)[0] == id;
    if forall c | c in fr.conds :: packet(c) {
      FirstDecides(r1, l1, s, false, false, id, packet, ok, pass);
    }
    OtherLists(r0, l0, r1, l1, l, s, false, true, packet, ok, pass);
    forall out ensures Verdict(r1, l1, s, true, out, packet, ok, pass) == Verdict(r0, l0, s, true, out, packet, ok, pass) {
      OtherLists(r0, l0, r1, l1, l, s, true, out, packet, ok, pass);
    }
  }

  // The same rules in the same lists, whatever lists are known to be empty.
  lemma SameLists(rules: Filter.Rules, l0: Lists, l1: Lists, s: bool)
    requires Complete(rules, l0) && Complete(rules, l1) && forall l :: Lst(l0, l) == Lst(l1, l)
    ensures SameVerdicts(rules, l0, rules, l1, s)
  {
    forall acct, out, packet, ok, pass
      ensures Verdict(rules, l0, s, acct, out, packet, ok, pass) == Verdict(rules, l1, s, acct, out, packet, ok, pass)
    {
      var a, b := Env(StoreOf(rules, l0), packet, ok), Env(StoreOf(rules, l1), packet, ok);
      var all := iset l | Lst(l0, l) == Lst(l1, l);
      forall l ensures RuleBase.Rules(a.store, l) == RuleBase.Rules(b.store, l) {
        StoreRules(rules, l0, l);
        StoreRules(rules, l1, l);
      }
      ScanLocal(a, b, all, Begin(a.store, Main(acct, out, s)), pass);
    }
  }

  // Removing a rule right after it was accepted succeeds and undoes the request: the rules,
  // every list and every verdict of both sets are as before.
  method AddThenRemove(sc: Softc, req: Request, set': bool, fr: FRule, hits: nat) returns (added: Status, removed: Status)
    requires sc.Valid() && req != Remove
    modifies sc`groups, sc`rules, sc`lists, sc`next, sc`pending
    ensures sc.Valid() && Complete(sc.rules, sc.lists) && old(Complete(sc.rules, sc.lists))
    ensures added == Ok ==>
              && removed == Ok && sc.rules == old(sc.rules) && (forall l :: Lst(sc.lists, l) == Lst(old(sc.lists), l))
              && forall s :: SameVerdicts(old(sc.rules), old(sc.lists), sc.rules, sc.lists, s)
  {
    ghost var r0, l0, id, at, joined, id', at', joined';
    r0, l0 := sc.rules, sc.lists;
    AllComplete(sc.groups, sc.rules, sc.lists, sc.next);
    added, id, at, joined := sc.Request(req, set', fr, hits);
    removed := Esrch;
    AllComplete(sc.groups, sc.rules, sc.lists, sc.next);
    if added == Ok {
      ghost var g1, r1, l1, n1 := sc.groups, sc.rules, sc.lists, sc.next;
      CanRemove(r0, l0, joined, g1, r1, l1, n1, fr, set', req, hits, id, at);
      removed, id', at', joined' := sc.Request(Remove, set', fr, 0);
      AllComplete(sc.groups, sc.rules, sc.lists, sc.next);
      Undone(g1, r0, l0, r1, l1, n1, fr, set', id, at, sc.rules, sc.lists, id', at');
      forall s ensures SameVerdicts(r0, l0, sc.rules, sc.lists, s) { SameLists(r0, l0, sc.lists, s); }
    }
  }

  lemma CanRemove(r0: Filter.Rules, l0: Lists, joined: Groups, g1: Groups, r1: Filter.Rules, l1: Lists, n1: nat,
                  fr: FRule, s: bool, req: Request, hits: nat, id: nat, at: nat)
    requires GroupsOk(g1, r1, n1, multiset{}) && RulesOk(g1, r1, l1, n1) && HasDirection(fr)
    requires Added(r0, l0, joined, g1, r1, l1, fr, s, req, hits, id, at)
    ensures Searched(g1, fr, s, r1[id].list) && Removable(g1, r1, l1, fr, s)
  {
    assert RuleOk(g1, r1, l1, n1, id);
  }

  lemma Undone(g1: Groups, r0: Filter.Rules, l0: Lists, r1: Filter.Rules, l1: Lists, n1: nat, fr: FRule, s: bool,
               id: nat, at: nat, r2: Filter.Rules, l2: Lists, id': nat, at': nat)
    requires GroupsOk(g1, r1, n1, multiset{}) && RulesOk(g1, r1, l1, n1)
    requires id !in r0 && SameRule(r1, id, fr) && r1 == r0[id := r1[id]] && Searched(g1, fr, s, r1[id].list)
    requires var ids := Lst(l0, r1[id].list); at <= |ids| && l1 == l0[r1[id].list := SeqFacts.Inserted(ids, at, id)]
    requires SameRule(r1, id', fr) && Removed(r1, l1, r2, l2, id', at') && Searched(g1, fr, s, r1[id'].list)
    ensures r2 == r0 && forall l :: Lst(l2, l) == Lst(l0, l)
  {
    SameOne(g1, r1, l1, n1, fr, s, id, id');
    var l := r1[id].list;
    assert InOrder(r1, l1, l);
    RankedDistinct(r1, Lst(l1, l));
    PutAndTaken(Lst(l0, l), at, id, at');
    MapBack(r0, id, r1[id]);
  }

  lemma SameOne(g1: Groups, r1: Filter.Rules, l1: Lists, n1: nat, fr: FRule, s: bool, id: nat, id': nat)
    requires GroupsOk(g1, r1, n1, multiset{}) && RulesOk(g1, r1, l1, n1)
    requires SameRule(r1, id, fr) && Searched(g1, fr, s, r1[id].list)
    requires SameRule(r1, id', fr) && Searched(g1, fr, s, r1[id'].list)
    ensures id == id'
  {
    assert RuleOk(g1, r1, l1, n1, id');
    OnlyThis(g1, r1, l1, n1, fr, s, id);
  }

  lemma PutAndTaken(ids: seq<nat>, at: nat, id: nat, at': nat)
    requires at <= |ids| && at' <= |ids| && SeqFacts.Distinct(SeqFacts.Inserted(ids, at, id)) && SeqFacts.Inserted(ids, at, id)[at'] == id
    ensures SeqFacts.Without(SeqFacts.Inserted(ids, at, id), at') == ids
  {
    SeqFacts.DistinctAt(SeqFacts.Inserted(ids, at, id), at);
  }

  lemma MapBack(rules: Filter.Rules, id: nat, live: Live)
    requires id !in rules
    ensures rules[id := live] - {id} == rules
  {
  }
}
