// Rule evaluation: ipf_scanlist (ipfilter/fil.c) and what its verdict means.
//
// A rule pointer is a position in a rule list, so following fr_next is adding one to the
// index.  Lists are looked up in a store, which may describe a cyclic graph of groups.

module RuleBase {
  import opened Basics

  // The rule lists: ipf_rules / ipf_acct by direction and set, and fg_start of a group.
  datatype ListId = Main(acct: bool, out: bool, ruleset: bool) | GroupList(gid: nat)

  // fr_flags by bit field: the command (FR_CMDMASK), FR_LOG, FR_QUICK, FR_KEEPSTATE,
  // FR_INQUE, FR_OUTQUE, and the bits no function here looks at.
  datatype Flags = Flags(cmd: nat, log: bool, quick: bool, keep: bool, inque: bool, outque: bool, rest: nat)

  const FR_AUTH: nat := 3
  const FR_ACCOUNT: nat := 5
  const FR_DECAPSULATE: nat := 8

  predicate IsAuth(f: Flags) { f.cmd == FR_AUTH }

  // Rules that decide nothing themselves, by FR_LOGMASK: "log" alone, and decapsulation.
  predicate Undecided(f: Flags) {
    (f.log && f.cmd == 0) || (!f.log && f.cmd == FR_DECAPSULATE)
  }

  // Everything ipf_check_ipf and its siblings test is an atomic condition on the packet;
  // a rule matches when all of its conditions do.
  datatype Rule = Rule(conds: set<nat>, flags: Flags, head: Option<ListId>)
  type Packet = nat -> bool
  type Store = map<ListId, seq<Rule>>

  predicate Matches(r: Rule, p: Packet) {
    forall c | c in r.conds :: p(c)
  }

  function Rules(store: Store, l: ListId): seq<Rule> {
    if l in store then store[l] else []
  }

  datatype RulePtr = Null | At(list: ListId, idx: nat)

  function Start(store: Store, l: ListId): RulePtr {
    if Rules(store, l) == [] then Null else At(l, 0)
  }
}

module RuleScan {
  import opened Basics
  import opened RuleBase

  const MAXDEPTH: nat := 16

  // One packet against one store.  stateOk says whether ipf_state_add succeeds for a rule.
  datatype Env = Env(store: Store, packet: Packet, stateOk: RulePtr -> bool)

  // The fields of fr_info_t that a scan changes: fin_fr, fin_depth, the FI_STATE bit of
  // fin_flx; hits records every fr_hits increment in order.
  datatype Fin = Fin(fr: RulePtr, depth: nat, state: bool, hits: seq<RulePtr>)

  predicate WantsState(f: Flags, state: bool) {
    f.quick && f.keep && !IsAuth(f) && !state
  }

  function Fuel(depth: nat): nat { if depth <= MAXDEPTH then MAXDEPTH - depth else 0 }

  // ---------- the scan as a function of its starting state ----------

  function Scan(env: Env, fin: Fin, pass: Flags): (res: (Fin, Flags))
    ensures res.0.depth == fin.depth
    decreases Fuel(fin.depth), 0, 0
  {
    if fin.depth >= MAXDEPTH || fin.fr == Null then (fin, pass)
    else ScanFrom(env, fin.(depth := fin.depth + 1, fr := Null), fin.fr.list, fin.fr.idx, pass)
  }

  function ScanFrom(env: Env, fin: Fin, l: ListId, k: nat, pass: Flags): (res: (Fin, Flags))
    requires 1 <= fin.depth <= MAXDEPTH
    ensures res.0.depth == fin.depth - 1
    decreases Fuel(fin.depth), 1, |Rules(env.store, l)| - k
  {
    if k >= |Rules(env.store, l)| then (fin.(depth := fin.depth - 1), pass) else
    var r := Rules(env.store, l)[k];
    if !Matches(r, env.packet) then ScanFrom(env, fin, l, k + 1, pass) else
    var (fin', pass') := Visit(env, fin, At(l, k), r, pass);
    if !pass'.quick then ScanFrom(env, fin', l, k + 1, pass')
    else if !WantsState(pass', fin'.state) then (fin'.(depth := fin.depth - 1), pass')
    else if env.stateOk(At(l, k)) then
      (fin'.(depth := fin.depth - 1, fr := At(l, k), state := true), pass')
    else ScanFrom(env, fin'.(fr := At(l, k)), l, k + 1, pass)
  }

  // A matching rule up to the test of FR_QUICK: count it, take its flags, descend.
  function Visit(env: Env, fin: Fin, me: RulePtr, r: Rule, pass: Flags): (res: (Fin, Flags))
    requires 1 <= fin.depth <= MAXDEPTH
    ensures res.0.depth == fin.depth
    decreases Fuel(fin.depth), 0, 1
  {
    var pass' := if Undecided(r.flags) then pass else r.flags;
    var fin' := fin.(fr := me, hits := fin.hits + [me]);
    if r.head.None? then (fin', pass') else
    var (f, p) := Scan(env, fin'.(fr := Start(env.store, r.head.value)), pass');
    if f.fr == Null then (f.(fr := me), pass') else (f, p)
  }

  // ---------- the scan as the loop and recursion of the source ----------

  class PacketInfo {
    const env: Env
    var fr: RulePtr
    var depth: nat
    var state: bool
    var hits: seq<RulePtr>

    function Snapshot(): Fin
      reads this
    {
      Fin(fr, depth, state, hits)
    }

    constructor (env: Env, fr: RulePtr)
      ensures this.env == env && Snapshot() == Fin(fr, 0, false, [])
    {
      this.env := env;
      this.fr, depth, state, hits := fr, 0, false, [];
    }

    // Terminates on every graph of groups, also a cyclic one, and restores fin_depth.
    method ScanList(initial: Flags) returns (pass: Flags)
      modifies this
      ensures (Snapshot(), pass) == Scan(env, old(Snapshot()), initial)
      ensures depth == old(depth)
      decreases Fuel(depth), 0
    {
      pass := initial;
      if depth >= MAXDEPTH { return; }
      var cur := fr;
      if cur == Null { return; }
      depth := depth + 1;
      fr := Null;
      ghost var goal := Scan(env, old(Snapshot()), initial);
      var rules := Rules(env.store, cur.list);
      while cur.idx < |rules|
        invariant cur.At? && rules == Rules(env.store, cur.list) && depth == old(depth) + 1
        invariant ScanFrom(env, Snapshot(), cur.list, cur.idx, pass) == goal
        decreases |rules| - cur.idx
      {
        var next := At(cur.list, cur.idx + 1);
        if Matches(rules[cur.idx], env.packet) {
          var passo := pass;
          pass := VisitRule(cur, rules[cur.idx], pass);
          if pass.quick {
            if !WantsState(pass, state) {
              break;
            }
            fr := cur;
            if env.stateOk(cur) {
              state := true;
              break;
            }
            pass := passo;
          }
        }
        cur := next;
      }
      depth := depth - 1;
    }

    method VisitRule(me: RulePtr, r: Rule, initial: Flags) returns (pass: Flags)
      requires 1 <= depth <= MAXDEPTH
      modifies this
      ensures (Snapshot(), pass) == Visit(env, old(Snapshot()), me, r, initial)
      ensures depth == old(depth)
      decreases Fuel(depth), 1
    {
      pass := initial;
      fr := me;
      hits := hits + [me];
      if !Undecided(r.flags) {
        pass := r.flags;
      }
      if r.head.Some? {
        fr := Start(env.store, r.head.value);
        var passt := ScanList(pass);
        if fr == Null {
          fr := me;
          passt := pass;
        }
        pass := passt;
      }
    }
  }
}
