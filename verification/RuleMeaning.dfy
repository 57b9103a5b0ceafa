// What a scan means: the verdict as a choice among the decisions a packet meets, in the
// order the rules are written, and the rule that fin_fr is left at.

module RuleMeaning {
  import opened Basics
  import opened RuleBase
  import opened RuleScan

  // Of the rules reached within d levels of lists, none decapsulates into a group, and rules
  // that decide nothing are only in lists not entered with quick flags; quick says whether
  // these rules may be.
  ghost predicate Scannable(store: Store, rules: seq<Rule>, d: nat, quick: bool)
    decreases d
  {
    d == 0 ||
    forall r | r in rules ::
      && (Undecided(r.flags) ==> !quick)
      && (r.head.Some? ==>
            && r.flags.cmd != FR_DECAPSULATE
            && Scannable(store, Rules(store, r.head.value), d - 1, !Undecided(r.flags) && r.flags.quick))
  }

  // The flags a matching rule enters its group with.
  function Handed(r: Rule, pass: Flags): Flags { if Undecided(r.flags) then pass else r.flags }

  // A decision met by the packet.  holds is false when there is none, the rule only logging,
  // or when it is withdrawn because state was asked for and could not be kept; report is
  // what fin_fr is left pointing at.
  datatype Attempt = Attempt(report: RulePtr, flags: Flags, holds: bool)

  ghost predicate SomeHolds(t: seq<Attempt>) {
    exists i :: 0 <= i < |t| && t[i].holds
  }

  // The decisions of list l from rule k on when d more levels of lists may be opened.  A
  // matching rule decides itself only if no decision of its group holds.
  ghost function Attempts(env: Env, state: bool, l: ListId, k: nat, d: nat): seq<Attempt>
    decreases d, 1, |Rules(env.store, l)| - k
  {
    if d == 0 || k >= |Rules(env.store, l)| then []
    else RuleAttempts(env, state, l, k, d) + Attempts(env, state, l, k + 1, d)
  }

  ghost function Inner(env: Env, state: bool, r: Rule, d: nat): seq<Attempt>
    requires d > 0
    decreases d, 0, 0
  {
    if r.head.None? then [] else Attempts(env, state, r.head.value, 0, d - 1)
  }

  ghost function RuleAttempts(env: Env, state: bool, l: ListId, k: nat, d: nat): seq<Attempt>
    requires d > 0 && k < |Rules(env.store, l)|
    decreases d, 0, 1
  {
    var r := Rules(env.store, l)[k];
    if !Matches(r, env.packet) then [] else
    var inner := Inner(env, state, r, d);
    if SomeHolds(inner) then inner else inner + [Own(env, state, At(l, k), r, inner, d)]
  }

  // The rule's own decision.  With no level left to open, fin_fr keeps the start of the
  // group that was not scanned.
  ghost function Own(env: Env, state: bool, me: RulePtr, r: Rule, inner: seq<Attempt>, d: nat): Attempt {
    var wants := !Undecided(r.flags) && WantsState(r.flags, state);
    Attempt(if wants then me else LeftAt(env, me, r, inner, d),
            r.flags, !Undecided(r.flags) && (wants ==> env.stateOk(me)))
  }

  ghost function LeftAt(env: Env, me: RulePtr, r: Rule, inner: seq<Attempt>, d: nat): RulePtr {
    if inner != [] then inner[|inner| - 1].report
    else if r.head.Some? && d == 1 && Start(env.store, r.head.value) != Null
    then Start(env.store, r.head.value)
    else me
  }

  // ---------- choosing among decisions ----------

  // How many decisions are taken: up to and including the first quick one that holds.
  ghost predicate IsTaken(t: seq<Attempt>, n: nat) {
    && n <= |t|
    && (forall i | 0 <= i < n - 1 :: !(t[i].holds && t[i].flags.quick))
    && (n < |t| ==> n > 0 && t[n - 1].holds && t[n - 1].flags.quick)
  }

  // The last of the first n decisions that holds gives the flags, or none does.
  ghost predicate LastHolding(t: seq<Attempt>, n: nat, pass0: Flags, pass: Flags)
    requires n <= |t|
  {
    && (SomeHolds(t[..n]) ==>
          exists i :: 0 <= i < n && t[i].holds && pass == t[i].flags && !SomeHolds(t[i + 1..n]))
    && (!SomeHolds(t[..n]) ==> pass == pass0)
  }

  // The verdict: the last decision taken that holds, else the default.  fin_fr: the report
  // of the last decision taken, holding or not.
  ghost predicate IsVerdict(t: seq<Attempt>, n: nat, pass0: Flags, fr0: RulePtr, pass: Flags, fr: RulePtr) {
    && IsTaken(t, n)
    && fr == (if n == 0 then fr0 else t[n - 1].report)
    && LastHolding(t, n, pass0, pass)
  }

  datatype Settled = Settled(pass: Flags, fr: RulePtr, stopped: bool)

  ghost function Settle(t: seq<Attempt>, pass: Flags, fr: RulePtr): Settled {
    if t == [] then Settled(pass, fr, false)
    else if !t[0].holds then Settle(t[1..], pass, t[0].report)
    else if t[0].flags.quick then Settled(t[0].flags, t[0].report, true)
    else Settle(t[1..], t[0].flags, t[0].report)
  }

  lemma {:induction false} SettleIsVerdict(t: seq<Attempt>, pass: Flags, fr: RulePtr) returns (n: nat)
    ensures IsVerdict(t, n, pass, fr, Settle(t, pass, fr).pass, Settle(t, pass, fr).fr)
  {
    if t == [] {
      n := 0;
    } else if t[0].holds && t[0].flags.quick {
      n := 1;
      assert t[..1][0].holds && t[1..1] == [];
    } else {
      var m := SettleIsVerdict(t[1..], if t[0].holds then t[0].flags else pass, t[0].report);
      n := m + 1;
      TakenCons(t, m);
      VerdictCons(t, m, if t[0].holds then t[0].flags else pass, Settle(t, pass, fr).pass, pass);
    }
  }

  lemma TakenCons(t: seq<Attempt>, m: nat)
    requires t != [] && IsTaken(t[1..], m) && !(t[0].holds && t[0].flags.quick)
    ensures IsTaken(t, m + 1)
  {
    forall i | 0 <= i < m ensures !(t[i].holds && t[i].flags.quick) {
      if i > 0 { assert t[1..][i - 1] == t[i]; }
    }
  }

  lemma VerdictCons(t: seq<Attempt>, m: nat, pass1: Flags, pass: Flags, pass0: Flags)
    requires m < |t| && pass1 == (if t[0].holds then t[0].flags else pass0)
    requires LastHolding(t[1..], m, pass1, pass)
    ensures LastHolding(t, m + 1, pass0, pass)
  {
    var n := m + 1;
    assert t[1..][..m] == t[1..n];
    assert forall i | 0 <= i < m :: t[1..n][i] == t[..n][i + 1];
    if SomeHolds(t[1..n]) {
      var j :| 0 <= j < m && t[1..][j].holds && pass == t[1..][j].flags && !SomeHolds(t[1..][j + 1..m]);
      assert t[1..][j + 1..m] == t[j + 2..n];
      assert t[j + 1].holds && !SomeHolds(t[j + 1 + 1..n]);
    } else if t[0].holds {
      assert t[..n][0].holds;
      assert !SomeHolds(t[0 + 1..n]);
    } else {
      forall i | 0 <= i < n ensures !t[..n][i].holds {
        if i > 0 { assert t[..n][i] == t[1..n][i - 1]; }
      }
    }
  }

  lemma {:induction false} SettleAppend(t: seq<Attempt>, u: seq<Attempt>, pass: Flags, fr: RulePtr)
    ensures Settle(t + u, pass, fr)
         == var s := Settle(t, pass, fr); if s.stopped then s else Settle(u, s.pass, s.fr)
  {
    if t == [] {
      assert t + u == u;
    } else {
      assert (t + u)[1..] == t[1..] + u;
      if !t[0].holds {
        SettleAppend(t[1..], u, pass, t[0].report);
      } else if !t[0].flags.quick {
        SettleAppend(t[1..], u, t[0].flags, t[0].report);
      }
    }
  }

  // What the caller of a nested scan relies on.
  lemma {:induction false} SettleFacts(t: seq<Attempt>, pass: Flags, fr: RulePtr, pass': Flags, fr': RulePtr)
    ensures var s := Settle(t, pass, fr);
      && (SomeHolds(t) ==> s.pass == Settle(t, pass', fr').pass && s.stopped == s.pass.quick)
      && (!SomeHolds(t) ==> s.pass == pass && !s.stopped)
      && s.stopped == Settle(t, pass', fr').stopped
      && (t != [] ==> s.fr == Settle(t, pass', fr').fr)
      && (t != [] && !SomeHolds(t) ==> s.fr == t[|t| - 1].report)
      && (t != [] ==> exists a :: a in t && s.fr == a.report)
  {
    if t != [] {
      assert t[0] in t;
      var a := if t[0].holds then t[0].flags else pass;
      var a' := if t[0].holds then t[0].flags else pass';
      if !(t[0].holds && t[0].flags.quick) {
        SettleFacts(t[1..], a, t[0].report, a', t[0].report);
        assert SomeHolds(t[1..]) ==> SomeHolds(t) by {
          if SomeHolds(t[1..]) {
            var i :| 0 <= i < |t[1..]| && t[1..][i].holds;
            assert t[i + 1].holds;
          }
        }
        assert !t[0].holds && SomeHolds(t) ==> SomeHolds(t[1..]) by {
          if !t[0].holds && SomeHolds(t) {
            var i :| 0 <= i < |t| && t[i].holds;
            assert t[1..][i - 1].holds;
          }
        }
      }
    }
  }

  // ---------- the scan follows the meaning ----------

  ghost predicate Agrees(fin: Fin, res: (Fin, Flags), s: Settled) {
    && res.0.fr == s.fr
    && res.1 == s.pass
    && res.0.state == (fin.state || (s.stopped && s.pass.keep && !IsAuth(s.pass)))
  }

  lemma {:induction false} ReportsNotNull(env: Env, state: bool, l: ListId, k: nat, d: nat)
    ensures forall a | a in Attempts(env, state, l, k, d) :: a.report != Null
    decreases d, |Rules(env.store, l)| - k
  {
    if d > 0 && k < |Rules(env.store, l)| {
      ReportsNotNull(env, state, l, k + 1, d);
      var r := Rules(env.store, l)[k];
      if r.head.Some? {
        ReportsNotNull(env, state, r.head.value, 0, d - 1);
      }
      var inner := Inner(env, state, r, d);
      assert inner != [] ==> inner[|inner| - 1] in inner;
    }
  }

  lemma {:induction false} ScanFromMeaning(env: Env, fin: Fin, l: ListId, k: nat, pass: Flags, quick: bool)
    requires 1 <= fin.depth <= MAXDEPTH && Scannable(env.store, Rules(env.store, l), MAXDEPTH + 1 - fin.depth, quick)
    requires pass.quick ==> quick
    ensures Agrees(fin, ScanFrom(env, fin, l, k, pass),
                   Settle(Attempts(env, fin.state, l, k, MAXDEPTH + 1 - fin.depth), pass, fin.fr))
    decreases Fuel(fin.depth), 1, |Rules(env.store, l)| - k
  {
    var d := MAXDEPTH + 1 - fin.depth;
    if k < |Rules(env.store, l)| {
      var r := Rules(env.store, l)[k];
      var rest := Attempts(env, fin.state, l, k + 1, d);
      var own := RuleAttempts(env, fin.state, l, k, d);
      SettleAppend(own, rest, pass, fin.fr);
      if !Matches(r, env.packet) {
        ScanFromMeaning(env, fin, l, k + 1, pass, quick);
      } else {
        var (fin', pass') := Visit(env, fin, At(l, k), r, pass);
        VisitMeaning(env, fin, l, k, pass, quick);
        if !pass'.quick {
          ScanFromMeaning(env, fin', l, k + 1, pass', quick);
        } else if WantsState(pass', fin'.state) && !env.stateOk(At(l, k)) {
          ScanFromMeaning(env, fin'.(fr := At(l, k)), l, k + 1, pass, quick);
        }
      }
    }
  }

  lemma {:induction false} VisitMeaning(env: Env, fin: Fin, l: ListId, k: nat, pass: Flags, quick: bool)
    requires 1 <= fin.depth <= MAXDEPTH && Scannable(env.store, Rules(env.store, l), MAXDEPTH + 1 - fin.depth, quick)
    requires pass.quick ==> quick
    requires k < |Rules(env.store, l)| && Matches(Rules(env.store, l)[k], env.packet)
    ensures
      var (fin', pass') := Visit(env, fin, At(l, k), Rules(env.store, l)[k], pass);
      var s := Settle(RuleAttempts(env, fin.state, l, k, MAXDEPTH + 1 - fin.depth), pass, fin.fr);
      if WantsState(pass', fin'.state) then
        && fin'.state == fin.state
        && s.fr == At(l, k)
        && s.stopped == env.stateOk(At(l, k))
        && s.pass == if s.stopped then pass' else pass
      else
        && fin'.fr == s.fr
        && pass' == s.pass
        && fin'.state == (fin.state || (s.stopped && s.pass.keep && !IsAuth(s.pass)))
        && s.stopped == pass'.quick
    decreases Fuel(fin.depth), 0, 2
  {
    var d := MAXDEPTH + 1 - fin.depth;
    var r := Rules(env.store, l)[k];
    var me := At(l, k);
    var inner := Inner(env, fin.state, r, d);
    assert r in Rules(env.store, l);
    GroupMeaning(env, fin, me, r, pass, quick);
    SettleFacts(inner, pass, fin.fr, Handed(r, pass), Null);
    if !SomeHolds(inner) {
      var own := Own(env, fin.state, me, r, inner, d);
      var s := Settle(inner, pass, fin.fr);
      SettleAppend(inner, [own], pass, fin.fr);
      SettleOne(own, s.pass, s.fr);
    } else {
      assert inner != [];
    }
  }

  // A rule's descent into its group.
  lemma {:induction false} GroupMeaning(env: Env, fin: Fin, me: RulePtr, r: Rule, pass: Flags, quick: bool)
    requires 1 <= fin.depth <= MAXDEPTH && Scannable(env.store, [r], MAXDEPTH + 1 - fin.depth, quick) && me != Null
    requires pass.quick ==> quick
    ensures
      var (fin', pass') := Visit(env, fin, me, r, pass);
      var d := MAXDEPTH + 1 - fin.depth;
      var inner := Inner(env, fin.state, r, d);
      if SomeHolds(inner) then Agrees(fin, (fin', pass'), Settle(inner, Handed(r, pass), Null))
      else fin'.fr == LeftAt(env, me, r, inner, d) && pass' == Handed(r, pass) && fin'.state == fin.state
    decreases Fuel(fin.depth), 0, 1
  {
    var d := MAXDEPTH + 1 - fin.depth;
    assert r in [r];
    if r.head.Some? {
      var g := r.head.value;
      var f0 := fin.(fr := Start(env.store, g), hits := fin.hits + [me]);
      var handed := Handed(r, pass);
      ScanMeaning(env, f0, handed, !Undecided(r.flags) && r.flags.quick);
      var inner := Attempts(env, fin.state, g, 0, d - 1);
      ReportsNotNull(env, fin.state, g, 0, d - 1);
      SettleFacts(inner, handed, Null, handed, Null);
      if f0.fr != Null && fin.depth < MAXDEPTH && inner != [] {
        assert inner[|inner| - 1] in inner;
        assert Settle(inner, handed, Null).fr != Null;
      }
    }
  }

  lemma SettleOne(a: Attempt, pass: Flags, fr: RulePtr)
    ensures Settle([a], pass, fr)
         == if a.holds then Settled(a.flags, a.report, a.flags.quick) else Settled(pass, a.report, false)
  {
    assert [a][1..] == [];
  }

  // Scan from the start of a list.
  lemma {:induction false} ScanMeaning(env: Env, fin: Fin, pass: Flags, quick: bool)
    requires fin.fr != Null ==> fin.fr == Start(env.store, fin.fr.list)
    requires fin.fr != Null && fin.depth < MAXDEPTH ==> Scannable(env.store, Rules(env.store, fin.fr.list), MAXDEPTH - fin.depth, quick)
    requires pass.quick ==> quick
    ensures Scan(env, fin, pass).0.depth == fin.depth
    ensures fin.fr == Null || fin.depth >= MAXDEPTH ==>
              Scan(env, fin, pass).0.fr == fin.fr && Scan(env, fin, pass).1 == pass && Scan(env, fin, pass).0.state == fin.state
    ensures fin.fr != Null && fin.depth < MAXDEPTH ==>
              Agrees(fin, Scan(env, fin, pass),
                     Settle(Attempts(env, fin.state, fin.fr.list, 0, MAXDEPTH - fin.depth), pass, Null))
    decreases Fuel(fin.depth), 0, 0
  {
    if fin.fr != Null && fin.depth < MAXDEPTH {
      ScanFromMeaning(env, fin.(depth := fin.depth + 1, fr := Null), fin.fr.list, 0, pass, quick);
    }
  }

  // ---------- main results ----------

  function Begin(store: Store, l: ListId): Fin { Fin(Start(store, l), 0, false, []) }

  // On every graph of groups, cyclic or not: the verdict and fin_fr are those chosen among the
  // packet's decisions, and fin_depth is back at 0.
  lemma ScanVerdict(env: Env, l: ListId, pass: Flags) returns (n: nat)
    requires Scannable(env.store, Rules(env.store, l), 16, pass.quick)
    ensures var (fin, verdict) := Scan(env, Begin(env.store, l), pass);
      && fin.depth == 0
      && IsVerdict(Attempts(env, false, l, 0, 16), n, pass, Null, verdict, fin.fr)
  {
    ScanMeaning(env, Begin(env.store, l), pass, pass.quick);
    n := SettleIsVerdict(Attempts(env, false, l, 0, MAXDEPTH), pass, Null);
  }

  // fin_fr is NULL exactly when no rule of the list matched.  So a rule whose state could
  // not be kept does not count as "no match" for fin_fr, although it does for the flags.
  lemma MatchedRuleReported(env: Env, l: ListId, pass: Flags)
    requires Scannable(env.store, Rules(env.store, l), MAXDEPTH, pass.quick)
    ensures var (fin, verdict) := Scan(env, Begin(env.store, l), pass);
      && (fin.fr == Null <==> forall r | r in Rules(env.store, l) :: !Matches(r, env.packet))
      && (!SomeHolds(Attempts(env, false, l, 0, MAXDEPTH)) ==> verdict == pass)
  {
    var t := Attempts(env, false, l, 0, MAXDEPTH);
    ScanMeaning(env, Begin(env.store, l), pass, pass.quick);
    SettleFacts(t, pass, Null, pass, Null);
    ReportsNotNull(env, false, l, 0, MAXDEPTH);
    AttemptsEmpty(env, false, l, 0, MAXDEPTH);
    assert forall r | r in Rules(env.store, l) :: exists i :: 0 <= i < |Rules(env.store, l)| && Rules(env.store, l)[i] == r;
  }

  lemma {:induction false} AttemptsEmpty(env: Env, state: bool, l: ListId, k: nat, d: nat)
    requires d > 0
    ensures Attempts(env, state, l, k, d) == []
       <==> forall i | k <= i < |Rules(env.store, l)| :: !Matches(Rules(env.store, l)[i], env.packet)
    decreases |Rules(env.store, l)| - k
  {
    if k < |Rules(env.store, l)| {
      AttemptsEmpty(env, state, l, k + 1, d);
      assert RuleAttempts(env, state, l, k, d) == [] <==> !Matches(Rules(env.store, l)[k], env.packet);
    }
  }

  ghost predicate MatchAt(env: Env, l: ListId, i: int) {
    0 <= i < |Rules(env.store, l)| && forall c | c in Rules(env.store, l)[i].conds :: env.packet(c)
  }

  // A matching rule decides: it does not only log, nor decapsulate.
  ghost predicate DecidesAt(env: Env, l: ListId, i: int) {
    MatchAt(env, l, i) &&
    var f := Rules(env.store, l)[i].flags;
    !(f.log && f.cmd == 0) && !(!f.log && f.cmd == 8)
  }

  // It is quick and asks for state, being no "auth" rule, which cannot be kept.
  ghost predicate LosesState(env: Env, state: bool, l: ListId, i: int)
    requires MatchAt(env, l, i)
  {
    var f := Rules(env.store, l)[i].flags;
    f.quick && f.keep && f.cmd != 3 && !state && !env.stateOk(At(l, i))
  }

  ghost predicate CountsAt(env: Env, state: bool, l: ListId, i: int) {
    DecidesAt(env, l, i) && !LosesState(env, state, l, i)
  }

  ghost predicate StopsAt(env: Env, state: bool, l: ListId, i: int) {
    CountsAt(env, state, l, i) && Rules(env.store, l)[i].flags.quick
  }

  // The matching rules from k up to n, in order.
  ghost function MatchedIn(env: Env, l: ListId, k: nat, n: nat): seq<RulePtr>
    decreases n - k
  {
    if k >= n then [] else (if MatchAt(env, l, k) then [At(l, k)] else []) + MatchedIn(env, l, k + 1, n)
  }

  // The scan of a flat list goes from k up to n: it stops behind the first rule that counts
  // and is quick, and nowhere else.
  ghost predicate ScanEnds(env: Env, state: bool, l: ListId, k: nat, n: nat) {
    && (k <= n <= |Rules(env.store, l)| || (k == n && n > |Rules(env.store, l)|))
    && (forall j | k <= j < n - 1 :: !StopsAt(env, state, l, j))
    && (n < |Rules(env.store, l)| ==> k < n && StopsAt(env, state, l, n - 1))
  }

  // The outcome of such a scan: the flags are those of the last rule up to there that counts,
  // rule i, or the default; fin_fr is the last match, and exactly the matches have been counted
  // as hits, in order.
  ghost predicate FlatResult(env: Env, fin: Fin, l: ListId, k: nat, pass: Flags, i: int, n: nat, f: Fin, verdict: Flags) {
    && ScanEnds(env, fin.state, l, k, n)
    && (if i < 0 then verdict == pass
        else k <= i < n && CountsAt(env, fin.state, l, i) && verdict == Rules(env.store, l)[i].flags)
    && (forall j | k <= j < n && j > i :: !CountsAt(env, fin.state, l, j))
    && var m := MatchedIn(env, l, k, n);
    && f.hits == fin.hits + m && f.fr == if m == [] then fin.fr else m[|m| - 1]
  }

  // On a flat list and a default that is not quick: the first quick rule that counts decides,
  // else the last one that counts, else the default.
  lemma {:induction false} FlatVerdict(env: Env, fin: Fin, l: ListId, k: nat, pass: Flags)
    returns (i: int, n: nat)
    requires 1 <= fin.depth <= MAXDEPTH && !pass.quick
    requires forall r | r in Rules(env.store, l) :: r.head.None?
    ensures var (f, verdict) := ScanFrom(env, fin, l, k, pass); FlatResult(env, fin, l, k, pass, i, n, f, verdict)
    decreases |Rules(env.store, l)| - k
  {
    var rules := Rules(env.store, l);
    var (f, verdict) := ScanFrom(env, fin, l, k, pass);
    i, n := -1, k;
    if k < |rules| {
      assert rules[k] in rules;
      if !MatchAt(env, l, k) {
        i, n := FlatVerdict(env, fin, l, k + 1, pass);
        FlatSkip(env, fin, l, k, pass, i, n, f, verdict);
      } else {
        FlatStep(env, fin, l, k, pass);
        if StopsAt(env, fin.state, l, k) {
          i, n := k, k + 1;
          assert MatchedIn(env, l, k, k + 1) == [At(l, k)] + MatchedIn(env, l, k + 1, k + 1);
        } else {
          var here := fin.(fr := At(l, k), hits := fin.hits + [At(l, k)]);
          var counts := CountsAt(env, fin.state, l, k);
          var pass' := if counts then rules[k].flags else pass;
          i, n := FlatVerdict(env, here, l, k + 1, pass');
          FlatOn(env, fin, l, k, pass, i, n, f, verdict);
          if i < 0 && counts { i := k; }
        }
      }
    }
  }

  lemma FlatSkip(env: Env, fin: Fin, l: ListId, k: nat, pass: Flags, i: int, n: nat, f: Fin, verdict: Flags)
    requires k < |Rules(env.store, l)| && !MatchAt(env, l, k) && FlatResult(env, fin, l, k + 1, pass, i, n, f, verdict)
    ensures FlatResult(env, fin, l, k, pass, i, n, f, verdict)
  {
    assert MatchedIn(env, l, k, n) == [] + MatchedIn(env, l, k + 1, n);
  }

  lemma FlatOn(env: Env, fin: Fin, l: ListId, k: nat, pass: Flags, i: int, n: nat, f: Fin, verdict: Flags)
    requires MatchAt(env, l, k) && !StopsAt(env, fin.state, l, k)
    requires var counts := CountsAt(env, fin.state, l, k);
      FlatResult(env, fin.(fr := At(l, k), hits := fin.hits + [At(l, k)]), l, k + 1,
                 if counts then Rules(env.store, l)[k].flags else pass, i, n, f, verdict)
    ensures FlatResult(env, fin, l, k, pass, if i < 0 && CountsAt(env, fin.state, l, k) then k else i, n, f, verdict)
  {
    HitsOn(env, l, k, n, fin.hits);
  }

  // One matching rule of a flat list.
  lemma FlatStep(env: Env, fin: Fin, l: ListId, k: nat, pass: Flags)
    requires 1 <= fin.depth <= MAXDEPTH && !pass.quick && MatchAt(env, l, k) && Rules(env.store, l)[k].head.None?
    ensures var here := fin.(fr := At(l, k), hits := fin.hits + [At(l, k)]);
      var f := Rules(env.store, l)[k].flags;
      var (fin', verdict) := ScanFrom(env, fin, l, k, pass);
      if StopsAt(env, fin.state, l, k) then verdict == f && fin'.fr == here.fr && fin'.hits == here.hits
      else (fin', verdict) == ScanFrom(env, here, l, k + 1, if CountsAt(env, fin.state, l, k) then f else pass)
  {
  }

  lemma HitsOn(env: Env, l: ListId, k: nat, n: nat, hits: seq<RulePtr>)
    requires MatchAt(env, l, k) && k < n
    ensures var m := MatchedIn(env, l, k + 1, n);
      MatchedIn(env, l, k, n) == [At(l, k)] + m && hits + MatchedIn(env, l, k, n) == (hits + [At(l, k)]) + m
  {
  }

  // Quick flags on entry are different: the first match that only logs ends the list.
  lemma LogEndsQuickList(env: Env, fin: Fin, l: ListId, k: nat, pass: Flags)
    requires 1 <= fin.depth <= MAXDEPTH && k < |Rules(env.store, l)|
    requires var r := Rules(env.store, l)[k]; Matches(r, env.packet) && r.head.None? && r.flags.log && r.flags.cmd == 0
    requires pass.quick && !pass.keep
    ensures ScanFrom(env, fin, l, k, pass).1 == pass && ScanFrom(env, fin, l, k, pass).0.fr == At(l, k)
  {
  }

  // ---------- the rule fin_fr is left at ----------

  // Nothing is nested deeper than h levels of lists.
  ghost predicate Nested(store: Store, rules: seq<Rule>, h: nat)
    decreases h
  {
    && (h == 0 ==> rules == [])
    && forall r | r in rules && r.head.Some? :: h > 0 && Nested(store, Rules(store, r.head.value), h - 1)
  }

  ghost predicate IsRule(store: Store, p: RulePtr) { p.At? && p.idx < |Rules(store, p.list)| }

  function RuleAt(store: Store, p: RulePtr): Rule
    requires IsRule(store, p)
  {
    Rules(store, p.list)[p.idx]
  }

  // The rule asks for state that cannot be kept.
  ghost predicate Failed(env: Env, p: RulePtr)
    requires IsRule(env.store, p)
  {
    WantsState(RuleAt(env.store, p).flags, false) && !env.stateOk(p)
  }

  // It decided nothing after all.
  ghost predicate Withdrawn(env: Env, p: RulePtr)
    requires IsRule(env.store, p)
  {
    Undecided(RuleAt(env.store, p).flags) || Failed(env, p)
  }

  // Flags no withdrawn rule has.
  predicate Settles(f: Flags) { !Undecided(f) && !WantsState(f, false) }

  // A decision reports a rule that matched: its own if it holds and that rule was not
  // withdrawn, a withdrawn one if it does not hold, and otherwise it asks for no state.
  ghost predicate Faithful(env: Env, a: Attempt) {
    && IsRule(env.store, a.report) && Matches(RuleAt(env.store, a.report), env.packet)
    && (a.holds ==> !Undecided(a.flags))
    && (if !a.holds then Withdrawn(env, a.report)
        else if Withdrawn(env, a.report) then Settles(a.flags)
        else a.flags == RuleAt(env.store, a.report).flags)
  }

  lemma {:induction false} AttemptsFaithful(env: Env, l: ListId, k: nat, d: nat)
    requires Nested(env.store, Rules(env.store, l), d)
    ensures forall a | a in Attempts(env, false, l, k, d) :: Faithful(env, a)
    decreases d, |Rules(env.store, l)| - k
  {
    if d > 0 && k < |Rules(env.store, l)| {
      AttemptsFaithful(env, l, k + 1, d);
      var r := Rules(env.store, l)[k];
      assert r in Rules(env.store, l);
      if r.head.Some? {
        AttemptsFaithful(env, r.head.value, 0, d - 1);
      }
      if Matches(r, env.packet) {
        OwnFaithful(env, l, k, d);
      }
    }
  }

  lemma OwnFaithful(env: Env, l: ListId, k: nat, d: nat)
    requires d > 0 && k < |Rules(env.store, l)| && Matches(Rules(env.store, l)[k], env.packet)
    requires Nested(env.store, [Rules(env.store, l)[k]], d)
    requires forall a | a in Inner(env, false, Rules(env.store, l)[k], d) :: Faithful(env, a)
    ensures var r := Rules(env.store, l)[k];
      var inner := Inner(env, false, r, d);
      !SomeHolds(inner) ==> Faithful(env, Own(env, false, At(l, k), r, inner, d))
  {
    var me, r := At(l, k), Rules(env.store, l)[k];
    assert r in [r] && RuleAt(env.store, me) == r;
    var inner := Inner(env, false, r, d);
    if inner != [] {
      var last := inner[|inner| - 1];
      assert last in inner && Faithful(env, last);
    }
  }

  // Within the depth limit fin_fr is left at a rule that matched. The flags returned are that
  // rule's exactly when it decided: it does not only log, and did not fail to keep state it
  // asked for. Without a rule they are the default, which itself decides and asks for no
  // state.
  lemma ReportedRule(env: Env, l: ListId, pass: Flags)
    requires Scannable(env.store, Rules(env.store, l), 16, pass.quick) && Nested(env.store, Rules(env.store, l), 16)
    ensures var (fin, verdict) := Scan(env, Begin(env.store, l), pass);
      if fin.fr == Null then verdict == pass
      else
        && IsRule(env.store, fin.fr) && Matches(RuleAt(env.store, fin.fr), env.packet)
        && (!Withdrawn(env, fin.fr) ==> verdict == RuleAt(env.store, fin.fr).flags)
        && (Settles(pass) ==> (verdict == RuleAt(env.store, fin.fr).flags <==> !Withdrawn(env, fin.fr)))
  {
    var t := Attempts(env, false, l, 0, MAXDEPTH);
    ScanMeaning(env, Begin(env.store, l), pass, pass.quick);
    AttemptsFaithful(env, l, 0, MAXDEPTH);
    SettledFaithful(env, t, pass, Null);
  }

  lemma {:induction false} SettledFaithful(env: Env, t: seq<Attempt>, pass: Flags, fr: RulePtr)
    requires forall a | a in t :: Faithful(env, a)
    ensures var s := Settle(t, pass, fr);
      if t == [] then s.fr == fr && s.pass == pass
      else && IsRule(env.store, s.fr) && Matches(RuleAt(env.store, s.fr), env.packet)
           && (if !Withdrawn(env, s.fr) then s.pass == RuleAt(env.store, s.fr).flags
               else Settles(pass) ==> Settles(s.pass))
  {
    if t != [] {
      assert t[0] in t && Faithful(env, t[0]);
      if !(t[0].holds && t[0].flags.quick) {
        SettledFaithful(env, t[1..], if t[0].holds then t[0].flags else pass, t[0].report);
      }
    }
  }

  // Where state could not be kept: fin_fr stays at the rule, the flags are the default.
  lemma StateNotKept() returns (env: Env, l: ListId, pass: Flags)
    ensures Scannable(env.store, Rules(env.store, l), MAXDEPTH, pass.quick) && Nested(env.store, Rules(env.store, l), MAXDEPTH)
    ensures var (fin, verdict) := Scan(env, Begin(env.store, l), pass);
      IsRule(env.store, fin.fr) && verdict == pass != RuleAt(env.store, fin.fr).flags
  {
    l := Main(false, false, false);
    pass := Flags(1, false, false, false, true, false, 0);
    var r := Rule({}, Flags(2, false, true, true, true, false, 0), None);
    env := Env(map[l := [r]], c => true, p => false);
    var fin := Begin(env.store, l).(depth := 1, fr := Null);
    var seen := fin.(fr := At(l, 0), hits := fin.hits + [At(l, 0)]);
    assert ScanFrom(env, seen, l, 1, pass) == (seen.(depth := 0), pass);
    assert Visit(env, fin, At(l, 0), r, pass) == (seen, r.flags);
  }

  // A chain of 17 lists, each but the last with one rule heading the next.
  function ChainList(i: nat, f: Flags, last: Rule): seq<Rule> {
    [if i < MAXDEPTH then Rule({}, f, Some(GroupList(i + 1))) else last]
  }

  ghost function ChainStore(f: Flags, last: Rule): Store {
    var ids := set i: nat | i <= MAXDEPTH :: GroupList(i);
    map l | l in ids :: ChainList(l.gid, f, last)
  }

  lemma ChainRules(f: Flags, last: Rule, i: nat)
    requires i <= MAXDEPTH
    ensures Rules(ChainStore(f, last), GroupList(i)) == ChainList(i, f, last)
    ensures Start(ChainStore(f, last), GroupList(i)) == At(GroupList(i), 0)
  {
  }

  lemma {:induction false} ChainScan(env: Env, fin: Fin, f: Flags, last: Rule, pass: Flags)
    requires env.store == ChainStore(f, last) && !f.quick && !Undecided(f)
    requires fin.depth <= MAXDEPTH && fin.fr == At(GroupList(fin.depth), 0)
    ensures var (fin', verdict) := Scan(env, fin, pass);
      fin'.fr == At(GroupList(MAXDEPTH), 0) && verdict == if fin.depth < MAXDEPTH then f else pass
    decreases MAXDEPTH - fin.depth
  {
    if fin.depth < MAXDEPTH {
      var l, g := GroupList(fin.depth), GroupList(fin.depth + 1);
      ChainRules(f, last, fin.depth);
      ChainRules(f, last, fin.depth + 1);
      var r := Rule({}, f, Some(g));
      var here := fin.(depth := fin.depth + 1, fr := Null);
      ChainScan(env, here.(fr := At(g, 0), hits := fin.hits + [At(l, 0)]), f, last, f);
      var (fin', pass') := Visit(env, here, At(l, 0), r, pass);
      assert ScanFrom(env, fin', l, 1, pass') == (fin'.(depth := fin.depth), pass');
    }
  }

  lemma {:induction false} ChainNested(f: Flags, last: Rule, i: nat)
    requires i <= MAXDEPTH && last.head == None
    ensures Nested(ChainStore(f, last), Rules(ChainStore(f, last), GroupList(i)), MAXDEPTH + 1 - i)
    decreases MAXDEPTH - i
  {
    ChainRules(f, last, i);
    if i < MAXDEPTH { ChainNested(f, last, i + 1); }
  }

  lemma {:induction false} ChainPlain(f: Flags, last: Rule, i: nat, d: nat, quick: bool)
    requires i <= MAXDEPTH && last.head == None && !Undecided(f) && f.cmd != FR_DECAPSULATE && !Undecided(last.flags)
    ensures Scannable(ChainStore(f, last), Rules(ChainStore(f, last), GroupList(i)), d, quick)
    decreases d
  {
    ChainRules(f, last, i);
    if d > 0 && i < MAXDEPTH { ChainPlain(f, last, i + 1, d - 1, f.quick); }
  }

  lemma ChainDecides(env: Env, f: Flags, last: Rule, p: RulePtr)
    requires env.store == ChainStore(f, last) && !Undecided(f) && !Undecided(last.flags) && !f.quick
    requires IsRule(env.store, p) && forall q :: env.stateOk(q)
    ensures !Withdrawn(env, p)
  {
    assert RuleAt(env.store, p) in ChainList(p.list.gid, f, last);
  }

  // With 17 levels fin_fr is left at a rule that was not looked at, and need not match.
  lemma TooDeep(f: Flags, last: Rule, packet: Packet, pass: Flags) returns (env: Env, l: ListId)
    requires !f.quick && !Undecided(f) && f.cmd != FR_DECAPSULATE && !Undecided(last.flags) && last.head == None
    ensures Scannable(env.store, Rules(env.store, l), 16, pass.quick) && Nested(env.store, Rules(env.store, l), 17)
    ensures forall p | IsRule(env.store, p) :: !Withdrawn(env, p)
    ensures env.packet == packet
    ensures var (fin, verdict) := Scan(env, Begin(env.store, l), pass);
      IsRule(env.store, fin.fr) && RuleAt(env.store, fin.fr) == last && verdict == f
  {
    l := GroupList(0);
    env := Env(ChainStore(f, last), packet, p => true);
    ChainRules(f, last, 0);
    ChainRules(f, last, MAXDEPTH);
    ChainPlain(f, last, 0, MAXDEPTH, pass.quick);
    ChainNested(f, last, 0);
    forall p | IsRule(env.store, p) ensures !Withdrawn(env, p) { ChainDecides(env, f, last, p); }
    ChainScan(env, Begin(env.store, l), f, last, pass);
  }
}
