// Flattening groups: a head that is not quick is followed by its group's rules under the
// head's conditions (ipfilter/fil.c, ipf_scanlist). A quick head keeps its group.

module RuleFlatten {
  import opened Basics
  import opened RuleBase
  import opened RuleScan
  import opened RuleMeaning

  // A rule that decides, keeps no state and does not decapsulate.
  predicate Simple(r: Rule) { !Undecided(r.flags) && !r.flags.keep && r.flags.cmd != FR_DECAPSULATE }

  // The rules, and all those reached from them within h levels of lists, are simple; nothing
  // is nested deeper.
  ghost predicate SimpleWithin(store: Store, rules: seq<Rule>, h: nat)
    decreases h
  {
    && (h == 0 ==> rules == [])
    && forall r | r in rules ::
         Simple(r) && (r.head.Some? ==> h > 0 && SimpleWithin(store, Rules(store, r.head.value), h - 1))
  }

  // ---------- the flags a packet meets ----------

  // In the order of the rules, when d levels of lists may be opened. A matching rule stands
  // for what its group has met, or for itself.
  function Met(env: Env, rules: seq<Rule>, d: nat): seq<Flags>
    decreases d, 1, |rules|
  {
    if d == 0 || rules == [] then [] else MetOne(env, rules[0], d) + Met(env, rules[1..], d)
  }

  function MetInside(env: Env, r: Rule, d: nat): seq<Flags>
    requires d > 0
    decreases d, 0, 0
  {
    if r.head.None? then [] else Met(env, Rules(env.store, r.head.value), d - 1)
  }

  function MetOne(env: Env, r: Rule, d: nat): seq<Flags>
    requires d > 0
    decreases d, 0, 1
  {
    if !Matches(r, env.packet) then []
    else if MetInside(env, r, d) == [] then [r.flags]
    else MetInside(env, r, d)
  }

  // The first quick flags, else the last, else pass; and whether the scan stopped.
  function Decide(fs: seq<Flags>, pass: Flags): (Flags, bool) {
    if fs == [] then (pass, false)
    else if fs[0].quick then (fs[0], true)
    else Decide(fs[1..], fs[0])
  }

  lemma {:induction false} DecideAppend(a: seq<Flags>, b: seq<Flags>, pass: Flags)
    ensures Decide(a + b, pass) == var (p, stop) := Decide(a, pass); if stop then (p, stop) else Decide(b, p)
  {
    if a == [] {
      assert a + b == b;
    } else {
      assert (a + b)[1..] == a[1..] + b;
      if !a[0].quick { DecideAppend(a[1..], b, a[0]); }
    }
  }

  lemma {:induction false} DecideOne(fs: seq<Flags>, pass: Flags, pass': Flags)
    requires fs != []
    ensures Decide(fs, pass) == Decide(fs, pass')
    ensures Decide(fs, pass).0 in fs && Decide(fs, pass).1 == Decide(fs, pass).0.quick
  {
    if !fs[0].quick && |fs| > 1 { DecideOne(fs[1..], fs[0], fs[0]); }
  }

  // ---------- simple rules meet the flags of their decisions ----------

  ghost function FlagsOf(t: seq<Attempt>): (fs: seq<Flags>)
    ensures |fs| == |t| && forall i | 0 <= i < |t| :: fs[i] == t[i].flags
  {
    seq(|t|, i requires 0 <= i < |t| => t[i].flags)
  }

  ghost predicate AllHold(t: seq<Attempt>) { forall i | 0 <= i < |t| :: t[i].holds }

  lemma {:induction false} SettleDecides(t: seq<Attempt>, pass: Flags, fr: RulePtr)
    requires AllHold(t)
    ensures Settle(t, pass, fr).pass == Decide(FlagsOf(t), pass).0
  {
    if t != [] {
      assert FlagsOf(t)[1..] == FlagsOf(t[1..]);
      if !t[0].flags.quick { SettleDecides(t[1..], t[0].flags, t[0].report); }
    }
  }

  lemma HoldAppend(t: seq<Attempt>, u: seq<Attempt>)
    requires AllHold(t) && AllHold(u)
    ensures AllHold(t + u) && FlagsOf(t + u) == FlagsOf(t) + FlagsOf(u)
  {
  }

  lemma MetNext(env: Env, rules: seq<Rule>, k: nat, d: nat)
    requires d > 0 && k < |rules|
    ensures Met(env, rules[k..], d) == MetOne(env, rules[k], d) + Met(env, rules[k + 1..], d)
  {
    assert rules[k..][0] == rules[k] && rules[k..][1..] == rules[k + 1..];
  }

  lemma {:induction false} AttemptsMet(env: Env, l: ListId, k: nat, d: nat, h: nat)
    requires k <= |Rules(env.store, l)| && SimpleWithin(env.store, Rules(env.store, l), h)
    ensures var t := Attempts(env, false, l, k, d);
      AllHold(t) && FlagsOf(t) == Met(env, Rules(env.store, l)[k..], d)
    decreases d, |Rules(env.store, l)| - k
  {
    var rules := Rules(env.store, l);
    if d > 0 && k < |rules| {
      var r := rules[k];
      assert r in rules;
      MetNext(env, rules, k, d);
      AttemptsMet(env, l, k + 1, d, h);
      if r.head.Some? {
        var group := Rules(env.store, r.head.value);
        AttemptsMet(env, r.head.value, 0, d - 1, h - 1);
        assert group[0..] == group;
      }
      RuleMet(env, l, k, d);
      HoldAppend(RuleAttempts(env, false, l, k, d), Attempts(env, false, l, k + 1, d));
    }
  }

  lemma RuleMet(env: Env, l: ListId, k: nat, d: nat)
    requires d > 0 && k < |Rules(env.store, l)| && Simple(Rules(env.store, l)[k])
    requires var inner := Inner(env, false, Rules(env.store, l)[k], d);
      AllHold(inner) && FlagsOf(inner) == MetInside(env, Rules(env.store, l)[k], d)
    ensures var t := RuleAttempts(env, false, l, k, d);
      AllHold(t) && FlagsOf(t) == MetOne(env, Rules(env.store, l)[k], d)
  {
    var r := Rules(env.store, l)[k];
    var inner := Inner(env, false, r, d);
    if inner == [] {
      var own := Own(env, false, At(l, k), r, inner, d);
      assert inner + [own] == [own];
    } else {
      assert inner[0].holds;
    }
  }

  lemma {:induction false} SimpleScannable(store: Store, rules: seq<Rule>, h: nat, d: nat, quick: bool)
    requires SimpleWithin(store, rules, h)
    ensures Scannable(store, rules, d, quick)
    decreases d
  {
    if d > 0 {
      forall r | r in rules && r.head.Some? ensures Scannable(store, Rules(store, r.head.value), d - 1, r.flags.quick) {
        SimpleScannable(store, Rules(store, r.head.value), h - 1, d - 1, r.flags.quick);
      }
    }
  }

  // So the scan decides by the flags met.
  lemma ScanMet(env: Env, l: ListId, pass: Flags)
    requires SimpleWithin(env.store, Rules(env.store, l), MAXDEPTH)
    ensures Scan(env, Begin(env.store, l), pass).1 == Decide(Met(env, Rules(env.store, l), MAXDEPTH), pass).0
  {
    var rules := Rules(env.store, l);
    assert rules[0..] == rules;
    SimpleScannable(env.store, rules, MAXDEPTH, MAXDEPTH, pass.quick);
    ScanMeaning(env, Begin(env.store, l), pass, pass.quick);
    AttemptsMet(env, l, 0, MAXDEPTH, MAXDEPTH);
    SettleDecides(Attempts(env, false, l, 0, MAXDEPTH), pass, Null);
  }

  // ---------- flattening ----------

  function Under(conds: set<nat>, rules: seq<Rule>): (r: seq<Rule>)
    ensures |r| == |rules|
    ensures forall i | 0 <= i < |r| :: r[i] == rules[i].(conds := conds + rules[i].conds)
  {
    seq(|rules|, i requires 0 <= i < |rules| => rules[i].(conds := conds + rules[i].conds))
  }

  // A head and then its group's rules under its conditions.
  function Unfolded(r: Rule, group: seq<Rule>): seq<Rule> {
    [r.(head := None)] + Under(r.conds, group)
  }

  // The flat form of rules nested within h levels; no reference to a packet.
  function Flat(store: Store, rules: seq<Rule>, h: nat): seq<Rule>
    decreases h, 1, |rules|
  {
    if h == 0 || rules == [] then [] else FlatRule(store, rules[0], h) + Flat(store, rules[1..], h)
  }

  function FlatRule(store: Store, r: Rule, h: nat): seq<Rule>
    requires h > 0
    decreases h, 0
  {
    if r.head.None? || r.flags.quick then [r] else Unfolded(r, Flat(store, Rules(store, r.head.value), h - 1))
  }

  // Every list flattened where it is.
  function FlatStore(store: Store): Store {
    map l | l in store :: Flat(store, store[l], MAXDEPTH)
  }

  // The depth flattened to does not matter once it covers the nesting.
  lemma {:induction false} FlatStable(store: Store, rules: seq<Rule>, h: nat, d: nat)
    requires SimpleWithin(store, rules, h) && h <= d
    ensures Flat(store, rules, h) == Flat(store, rules, d)
    decreases h, 1, |rules|
  {
    if h > 0 && rules != [] {
      var r, rest := rules[0], rules[1..];
      assert r in rules && forall s | s in rest :: s in rules;
      FlatStable(store, rest, h, d);
      FlatRuleStable(store, r, h, d);
      assert Flat(store, rules, h) == FlatRule(store, r, h) + Flat(store, rest, h);
      assert Flat(store, rules, d) == FlatRule(store, r, d) + Flat(store, rest, d);
    }
  }

  lemma {:induction false} FlatRuleStable(store: Store, r: Rule, h: nat, d: nat)
    requires 0 < h <= d && (r.head.Some? ==> SimpleWithin(store, Rules(store, r.head.value), h - 1))
    ensures FlatRule(store, r, h) == FlatRule(store, r, d)
    decreases h, 0
  {
    if r.head.Some? { FlatStable(store, Rules(store, r.head.value), h - 1, d - 1); }
  }

  lemma FlatList(store: Store, l: ListId, h: nat)
    requires SimpleWithin(store, Rules(store, l), h) && h <= MAXDEPTH
    ensures Rules(FlatStore(store), l) == Flat(store, Rules(store, l), h)
  {
    FlatStable(store, Rules(store, l), h, MAXDEPTH);
  }

  // The flat form is simple, and nested no deeper than the original.
  lemma {:induction false} FlatSimple(store: Store, rules: seq<Rule>, h: nat)
    requires SimpleWithin(store, rules, h) && h <= MAXDEPTH
    ensures SimpleWithin(FlatStore(store), Flat(store, rules, h), h)
    decreases h, |rules|
  {
    if h > 0 && rules != [] {
      var r := rules[0];
      assert r in rules && forall s | s in rules[1..] :: s in rules;
      FlatSimple(store, rules[1..], h);
      if r.head.Some? {
        var group := Rules(store, r.head.value);
        FlatSimple(store, group, h - 1);
        FlatList(store, r.head.value, h - 1);
        Deeper(FlatStore(store), Flat(store, group, h - 1), h - 1);
        UnderSimple(FlatStore(store), r.conds, Flat(store, group, h - 1), h);
      }
    }
  }

  lemma {:induction false} Deeper(store: Store, rules: seq<Rule>, h: nat)
    requires SimpleWithin(store, rules, h)
    ensures SimpleWithin(store, rules, h + 1)
    decreases h
  {
    forall r | r in rules && r.head.Some? ensures SimpleWithin(store, Rules(store, r.head.value), h) {
      Deeper(store, Rules(store, r.head.value), h - 1);
    }
  }

  lemma UnderSimple(store: Store, conds: set<nat>, rules: seq<Rule>, h: nat)
    requires SimpleWithin(store, rules, h)
    ensures SimpleWithin(store, Under(conds, rules), h)
  {
    forall r | r in Under(conds, rules)
      ensures Simple(r) && (r.head.Some? ==> h > 0 && SimpleWithin(store, Rules(store, r.head.value), h - 1))
    {
      var i :| 0 <= i < |rules| && Under(conds, rules)[i] == r;
      assert rules[i] in rules && r.flags == rules[i].flags && r.head == rules[i].head;
    }
  }

  // Nothing but quick heads is left to open in a flat list, whatever the list was.
  lemma {:induction false} FlatHeadsQuick(store: Store, rules: seq<Rule>, h: nat)
    ensures forall r | r in Flat(store, rules, h) && r.head.Some? :: r.flags.quick
    decreases h, |rules|
  {
    if h > 0 && rules != [] {
      var r := rules[0];
      FlatHeadsQuick(store, rules[1..], h);
      if r.head.Some? && !r.flags.quick {
        var group := Flat(store, Rules(store, r.head.value), h - 1);
        FlatHeadsQuick(store, Rules(store, r.head.value), h - 1);
        forall u | u in Under(r.conds, group) && u.head.Some? ensures u.flags.quick {
          var i :| 0 <= i < |group| && u == Under(r.conds, group)[i];
          assert group[i] in group;
        }
      }
    }
  }

  lemma FlatStoreHeads(store: Store, l: ListId)
    ensures forall r | r in Rules(FlatStore(store), l) && r.head.Some? :: r.flags.quick
  {
    FlatHeadsQuick(store, Rules(store, l), MAXDEPTH);
  }

  // ---------- what the flat form meets ----------

  lemma {:induction false} MetAppend(env: Env, a: seq<Rule>, b: seq<Rule>, d: nat)
    ensures Met(env, a + b, d) == Met(env, a, d) + Met(env, b, d)
  {
    if a == [] {
      assert a + b == b;
    } else if d > 0 {
      assert (a + b)[1..] == a[1..] + b;
      MetAppend(env, a[1..], b, d);
    }
  }

  lemma {:induction false} MetUnder(env: Env, conds: set<nat>, rules: seq<Rule>, d: nat)
    ensures Met(env, Under(conds, rules), d)
         == if forall c | c in conds :: env.packet(c) then Met(env, rules, d) else []
  {
    if rules != [] && d > 0 {
      MetUnder(env, conds, rules[1..], d);
      var u := Under(conds, rules);
      assert u[1..] == Under(conds, rules[1..]);
      assert Matches(u[0], env.packet) <==> (forall c | c in conds :: env.packet(c)) && Matches(rules[0], env.packet) by {
        assert forall c :: c in u[0].conds <==> c in conds || c in rules[0].conds;
      }
      assert MetInside(env, u[0], d) == MetInside(env, rules[0], d);
    }
  }

  lemma MetSingle(env: Env, r: Rule, d: nat)
    requires d > 0
    ensures Met(env, [r], d) == MetOne(env, r, d)
  {
    assert [r][0] == r && [r][1..] == [];
    assert Met(env, [r], d) == MetOne(env, r, d) + Met(env, [], d);
  }

  lemma MetUnfolded(env: Env, r: Rule, group: seq<Rule>, d: nat)
    requires d > 0
    ensures Met(env, Unfolded(r, group), d) == if Matches(r, env.packet) then [r.flags] + Met(env, group, d) else []
  {
    var mine := r.(head := None);
    assert Matches(mine, env.packet) <==> Matches(r, env.packet);
    assert MetInside(env, mine, d) == [];
    MetSingle(env, mine, d);
    MetAppend(env, [mine], Under(r.conds, group), d);
    MetUnder(env, r.conds, group, d);
    assert Met(env, Unfolded(r, group), d) == MetOne(env, mine, d) + Met(env, Under(r.conds, group), d);
  }

  // A non-quick head before what its group has met changes nothing.
  lemma HeadFirst(f: Flags, inner: seq<Flags>, flat: seq<Flags>, pass: Flags)
    requires Decide(inner, f) == Decide(flat, f) && (inner == [] <==> flat == []) && !f.quick
    ensures Decide(if inner == [] then [f] else inner, pass) == Decide([f] + flat, pass)
  {
    assert ([f] + flat)[1..] == flat;
    assert [f][1..] == [];
    if inner != [] { DecideOne(inner, f, pass); }
  }

  // A quick head must keep its group: unfolding it decides alike exactly when the group met
  // nothing, or decides, stopping, for the head's own flags.
  lemma QuickHead(env: Env, r: Rule, d: nat, e: nat, pass: Flags)
    requires d > 0 && e > 0 && r.head.Some? && r.flags.quick && Matches(r, env.packet)
    ensures var inner := MetInside(env, r, d);
      (Decide(MetOne(env, r, d), pass) == Decide(Met(env, Unfolded(r, Rules(env.store, r.head.value)), e), pass))
      <==> inner == [] || Decide(inner, r.flags) == (r.flags, true)
  {
    var inner := MetInside(env, r, d);
    MetUnfolded(env, r, Rules(env.store, r.head.value), e);
    if inner != [] { DecideOne(inner, pass, r.flags); }
  }

  // Where it does not: a quick head whose group's one rule is not quick and decides otherwise.
  lemma QuickHeadDiffers() returns (env: Env, l: ListId, r: Rule, pass: Flags)
    ensures Rules(env.store, l) == [r] && r.head.Some? && r.flags.quick
    ensures var flat := map[l := Unfolded(r, Rules(env.store, r.head.value))];
      Scan(env, Begin(env.store, l), pass).1 != Scan(env.(store := flat), Begin(flat, l), pass).1
  {
    l := Main(false, false, false);
    var g := GroupList(0);
    pass := Flags(2, false, false, false, true, false, 0);
    r := Rule({}, pass.(quick := true), Some(g));
    var member := Rule({}, pass.(cmd := 1), None);
    env := Env(map[l := [r], g := [member]], c => true, p => true);
    var flat := map[l := Unfolded(r, [member])];
    ListScan(env, l, r, member, pass);
    FlatScan(env.(store := flat), l, r.flags, pass);
  }

  lemma ListScan(env: Env, l: ListId, r: Rule, member: Rule, pass: Flags)
    requires Rules(env.store, l) == [r] && r.head.Some? && Rules(env.store, r.head.value) == [member]
    requires Simple(r) && Simple(member) && member.head.None? && r.conds == member.conds == {} && !member.flags.quick
    ensures Scan(env, Begin(env.store, l), pass).1 == member.flags
  {
    var d: nat := MAXDEPTH;
    assert SimpleWithin(env.store, [member], d - 1) && SimpleWithin(env.store, [r], d);
    ScanMet(env, l, pass);
    assert [r][1..] == [] && [member][1..] == [] && [member.flags][1..] == [];
    assert Met(env, [member], d - 1) == [member.flags] + [];
    assert Met(env, [r], d) == MetOne(env, r, d) + [];
  }

  lemma FlatScan(env: Env, l: ListId, f: Flags, pass: Flags)
    requires f.quick && Rules(env.store, l) != [] && Rules(env.store, l)[0] == Rule({}, f, None)
    requires forall r | r in Rules(env.store, l) :: Simple(r) && r.head.None?
    ensures Scan(env, Begin(env.store, l), pass).1 == f
  {
    ScanMet(env, l, pass);
    assert MetOne(env, Rules(env.store, l)[0], MAXDEPTH) == [f];
  }

  // ---------- main result ----------

  ghost predicate Flattened(env: Env, env': Env) {
    env'.packet == env.packet && env'.store == FlatStore(env.store)
  }

  // Nested and flat decide alike, however many levels may still be opened for either.
  lemma {:induction false} FlatDecides(env: Env, env': Env, rules: seq<Rule>, h: nat, d: nat, e: nat, pass: Flags)
    requires Flattened(env, env') && SimpleWithin(env.store, rules, h) && h <= d && h <= e && h <= MAXDEPTH
    ensures var met, flat := Met(env, rules, d), Met(env', Flat(env.store, rules, h), e);
      Decide(met, pass) == Decide(flat, pass) && (met == [] <==> flat == [])
    decreases h, 1, |rules|
  {
    if h > 0 && rules != [] {
      var r, rest := rules[0], rules[1..];
      assert r in rules && forall s | s in rest :: s in rules;
      FlatRuleDecides(env, env', r, h, d, e, pass);
      var mine, other := MetOne(env, r, d), Met(env', FlatRule(env.store, r, h), e);
      MetAppend(env', FlatRule(env.store, r, h), Flat(env.store, rest, h), e);
      DecideAppend(mine, Met(env, rest, d), pass);
      DecideAppend(other, Met(env', Flat(env.store, rest, h), e), pass);
      FlatDecides(env, env', rest, h, d, e, Decide(mine, pass).0);
    }
  }

  lemma {:induction false} FlatRuleDecides(env: Env, env': Env, r: Rule, h: nat, d: nat, e: nat, pass: Flags)
    requires Flattened(env, env') && 0 < h <= d && h <= e && h <= MAXDEPTH
    requires r.head.Some? ==> SimpleWithin(env.store, Rules(env.store, r.head.value), h - 1)
    ensures var met, flat := MetOne(env, r, d), Met(env', FlatRule(env.store, r, h), e);
      Decide(met, pass) == Decide(flat, pass) && (met == [] <==> flat == [])
    decreases h, 0, 1
  {
    if r.head.Some? && !r.flags.quick {
      UnfoldedDecides(env, env', r, h, d, e, pass);
    } else {
      MetSingle(env', r, e);
      if r.head.Some? {
        var g := r.head.value;
        FlatList(env.store, g, h - 1);
        FlatDecides(env, env', Rules(env.store, g), h - 1, d - 1, e - 1, pass);
      }
    }
  }

  lemma {:induction false} UnfoldedDecides(env: Env, env': Env, r: Rule, h: nat, d: nat, e: nat, pass: Flags)
    requires Flattened(env, env') && 0 < h <= d && h <= e && h <= MAXDEPTH && r.head.Some? && !r.flags.quick
    requires SimpleWithin(env.store, Rules(env.store, r.head.value), h - 1)
    ensures var met, flat := MetOne(env, r, d), Met(env', FlatRule(env.store, r, h), e);
      Decide(met, pass) == Decide(flat, pass) && (met == [] <==> flat == [])
    decreases h, 0, 0
  {
    var group := Rules(env.store, r.head.value);
    var flat := Flat(env.store, group, h - 1);
    FlatDecides(env, env', group, h - 1, d - 1, e, r.flags);
    HeadFirst(r.flags, MetInside(env, r, d), Met(env', flat, e), pass);
    MetUnfolded(env', r, flat, e);
  }

  // Flattening every list keeps the verdict of every packet on every list whose rules, and
  // those reached from it, are simple and nested within the limit; whatever else there is.
  lemma FlattenPreservesVerdict(env: Env, l: ListId, pass: Flags)
    requires SimpleWithin(env.store, Rules(env.store, l), 16)
    ensures var flat := FlatStore(env.store);
      Scan(env, Begin(env.store, l), pass).1 == Scan(env.(store := flat), Begin(flat, l), pass).1
  {
    var env' := env.(store := FlatStore(env.store));
    var rules := Rules(env.store, l);
    FlatList(env.store, l, MAXDEPTH);
    FlatSimple(env.store, rules, MAXDEPTH);
    ScanMet(env, l, pass);
    ScanMet(env', l, pass);
    FlatDecides(env, env', rules, MAXDEPTH, MAXDEPTH, MAXDEPTH, pass);
  }
}
