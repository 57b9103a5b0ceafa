// The ring of packets waiting for user authentication (ipfilter/ip_auth.c).

module AuthRing {
  import opened Basics

  // frauth_t: fra_index is the slot's own number while its packet waits, -2 once a reply
  // has been given, -1 when the slot is done with.
  datatype Slot = Slot(index: int, age: int, pass: nat, id: nat, info: nat)

  const UNUSED := Slot(0, 0, 0, 0, 0)

  const DONE := -1
  const REPLIED := -2
  const FR_BLOCK := 1
  const FR_AUTH := 3
  const FR_CMDMASK := 0xf

  datatype Status = Ok | Esrch

  // ---------- the live region ----------

  predicate InRegion(start: nat, end: nat, i: int) {
    if start <= end then start <= i < end else i >= start || i < end
  }

  function RegionLen(start: nat, end: nat, size: nat): nat
    requires start < size && end < size
  {
    if start <= end then end - start else end + size - start
  }

  ghost function UsedIn(s: seq<Slot>, start: nat, end: nat): set<int> {
    set i | 0 <= i < |s| && InRegion(start, end, i) && s[i].index != DONE
  }

  ghost function RepliedIn(s: seq<Slot>, start: nat, end: nat): set<int> {
    set i | 0 <= i < |s| && InRegion(start, end, i) && s[i].index == REPLIED
  }

  ghost function HeldIn(p: seq<Option<nat>>): set<int> {
    set i | 0 <= i < |p| && p[i].Some?
  }

  // A live slot holds its packet exactly while it waits; a slot outside is empty and either
  // done or never used.
  predicate SlotOk(i: int, live: bool, slot: Slot, pkt: Option<nat>) {
    if live then
      && (slot.index == DONE || slot.index == REPLIED || slot.index == i)
      && (pkt.Some? <==> slot.index >= 0)
    else pkt.None? && (slot.index == DONE || slot.age <= 0)
  }

  // The counters are counts over the live region.
  ghost predicate RingOk(s: seq<Slot>, p: seq<Option<nat>>, start: nat, end: nat, used: int, replies: int) {
    && |s| == |p|
    && (forall i {:trigger s[i]} {:trigger p[i]} | 0 <= i < |s| :: SlotOk(i, InRegion(start, end, i), s[i], p[i]))
    && used == |UsedIn(s, start, end)|
    && replies == |RepliedIn(s, start, end)|
  }

  // fra_pass as ipf_auth_check hands it on: no verdict, or "auth" again, becomes a block.
  function Verdict(pass: nat): nat {
    if pass == 0 || pass % (FR_CMDMASK + 1) == FR_AUTH then FR_BLOCK else pass
  }

  // A verdict is handed on as it was given, unless it was none or "auth" again.
  ghost predicate HandedOn(given: nat, pass: nat) {
    if given != 0 && given % 16 != 3 then pass == given else pass == 1
  }

  class Ring {
    const size: nat
    const defaultAge: int
    const slots: array<Slot>
    const pkts: array<Option<nat>>
    var start: nat
    var end: nat
    var next: nat
    var used: int
    var replies: int
    var locked: bool

    ghost predicate Shape()
      reads this
    {
      && size > 0 && slots.Length == size && pkts.Length == size
      && start < size && end < size && next < size
    }

    ghost predicate Valid()
      reads this, slots, pkts
    {
      Shape() && RingOk(slots[..], pkts[..], start, end, used, replies)
    }

    ghost function Length(): nat
      requires Shape()
      reads this
    {
      RegionLen(start, end, size)
    }

    // The oldest live slot is done with, yet the ring still starts there.
    ghost predicate Wedged()
      requires Shape()
      reads this, slots
    {
      start != end && slots[start].index == DONE
    }

    // ipf_auth_soft_create and ipf_auth_soft_init: all slots zero.
    constructor (size: nat, defaultAge: int)
      requires size > 0
      ensures Valid() && used == 0 && replies == 0 && !Wedged() && !locked
      ensures this.size == size && this.defaultAge == defaultAge && fresh(slots) && fresh(pkts)
      ensures start == end == next == 0 && slots[..] == Unused(size) && pkts[..] == NoPackets(size)
    {
      this.size, this.defaultAge := size, defaultAge;
      slots := new Slot[size](_ => UNUSED);
      pkts := new Option<nat>[size](_ => None);
      start, end, next, used, replies, locked := 0, 0, 0, 0, 0, false;
      new;
      assert UsedIn(slots[..], 0, 0) == {} && RepliedIn(slots[..], 0, 0) == {};
    }

    method Full() returns (full: bool)
      requires Shape()
      ensures full <==> Succ(end, size) == start
      ensures full <==> Length() == size - 1
    {
      full := (end + 1) % size == start;
    }

    // ipf_auth_new: a packet goes into the slot at the end, which is never a live one.
    method New(pass: nat, id: nat, info: nat, m: nat) returns (ok: bool)
      requires Valid()
      modifies this, slots, pkts
      ensures Valid() && locked == old(locked) && next == old(next) && start == old(start)
      ensures ok <==> !locked && old(Length()) < size - 1
      ensures !ok ==> unchanged(this, slots, pkts)
      ensures ok ==>
                && !InRegion(old(start), old(end), old(end))
                && slots[..] == old(slots[..])[old(end) := Slot(old(end), defaultAge, pass, id, info)]
                && pkts[..] == old(pkts[..])[old(end) := Some(m)]
                && used == old(used) + 1 && replies == old(replies)
                && Length() == old(Length()) + 1
      ensures Wedged() == old(Wedged())
    {
      if locked {
        return false;
      }
      var full := Full();
      if full {
        return false;
      }
      ghost var s0, p0 := slots[..], pkts[..];
      used := used + 1;
      var i := end;
      end := end + 1;
      if end == size {
        end := 0;
      }
      slots[i] := Slot(i, defaultAge, pass, id, info);
      pkts[i] := Some(m);
      ok := true;
      NewOk(s0, p0, start, i, used - 1, replies, slots[i], m);
    }

    // ipf_auth_reply, with the packet put back into the stream.  A reply to a slot that
    // holds no packet is still counted, and that is exactly what breaks the counters.
    method Reply(i: int, id: nat, pass: nat) returns (status: Status, m: Option<nat>)
      requires Valid()
      modifies this`replies, slots, pkts
      ensures status == Ok <==> 0 <= i < size && old(slots[i].id) == id
      ensures status == Esrch ==> m == None && unchanged(this, slots, pkts)
      ensures status == Ok ==>
                && m == old(pkts[i])
                && slots[..] == old(slots[..])[i := old(slots[i]).(index := REPLIED, pass := pass)]
                && pkts[..] == old(pkts[..])[i := None]
                && replies == old(replies) + 1
                && (Valid() <==> m.Some?)
      ensures Valid() ==> Wedged() == old(Wedged())
    {
      if i < 0 || i >= size {
        return Esrch, None;
      }
      if slots[i].id != id {
        return Esrch, None;
      }
      ReplyOk(slots[..], pkts[..], start, end, used, replies, i, pass);
      ghost var s0, p0 := slots[..], pkts[..];
      m := pkts[i];
      slots[i] := slots[i].(index := REPLIED, pass := pass);
      pkts[i] := None;
      replies := replies + 1;
      status := Ok;
      assert slots[..] == s0[i := s0[i].(index := REPLIED, pass := pass)];
      assert pkts[..] == p0[i := None];
    }

    ghost predicate Hit(i: int, id: nat, info: nat)
      requires slots.Length == size
      reads this, slots
    {
      && 0 <= i < size && InRegion(start, end, i)
      && slots[i].index == REPLIED && slots[i].id == id && slots[i].info == info
    }

    // ipf_auth_check: take the first reply for this packet out of the ring.
    method Check(id: nat, info: nat) returns (pass: Option<nat>)
      requires Valid()
      modifies this, slots
      ensures Valid() && locked == old(locked)
      ensures pass.Some? <==> !locked && exists i :: old(Hit(i, id, info))
      ensures pass == None ==> unchanged(this, slots)
      ensures pass.Some? ==>
                && used == old(used) - 1 && replies == old(replies) - 1
                && exists i: nat | old(Hit(i, id, info)) ::
                     && (forall j | InRegion(old(start), i, j) :: !old(Hit(j, id, info)))
                     && HandedOn(old(slots[i].pass), pass.value)
                     && slots[..] == old(slots[..])[i := old(slots[i]).(index := DONE)]
      ensures pass.Some? ==> Restarted(old(end), old(next))
      ensures old(Wedged()) ==> start == old(start)
      ensures Wedged() == old(Wedged())
    {
      if locked || used == 0 {
        if used == 0 { NoneUsed(slots[..], start, end); }
        return None;
      }
      var i: nat := start;
      while i != end
        invariant i < size && RegionLen(start, i, size) <= Length()
        invariant forall j | InRegion(start, i, j) :: !Hit(j, id, info)
        decreases Length() - RegionLen(start, i, size)
      {
        var fra := slots[i];
        if fra.index == REPLIED && id == fra.id && info == fra.info {
          assert Hit(i, id, info);
          pass := Some(Verdict(fra.pass));
          TakeReply(i);
          return;
        }
        i := Succ(i, size);
      }
      pass := None;
      assert forall j :: !Hit(j, id, info);
    }

    // The update ipf_auth_check makes when it has found its slot.
    method TakeReply(i: nat)
      requires Valid() && i < size && InRegion(start, end, i) && slots[i].index == REPLIED
      modifies this`used, this`replies, this`start, this`end, this`next, slots
      ensures Valid() && used == old(used) - 1 && replies == old(replies) - 1
      ensures slots[..] == old(slots[..])[i := old(slots[i]).(index := DONE)]
      ensures i != old(start) ==> start == old(start) && end == old(end) && next == old(next)
      ensures Restarted(old(end), old(next))
      ensures Wedged() == old(Wedged())
    {
      TakeOk(slots[..], pkts[..], start, end, used, replies, i);
      ghost var s0 := slots[..];
      slots[i] := slots[i].(index := DONE);
      assert slots[..] == s0[i := s0[i].(index := DONE)];
      used := used - 1;
      replies := replies - 1;
      if i == start {
        SkipDone();
      }
    }

    // An emptied ring begins again at slot 0; otherwise only the start has moved.
    ghost predicate Restarted(end0: nat, next0: nat)
      reads this`start, this`end, this`next
    {
      if start == end then start == 0 && next == 0 else end == end0 && next == next0
    }

    // Move the start past slots that are done with; an empty ring goes back to slot 0.
    method SkipDone()
      requires Valid() && start != end && slots[start].index == DONE
      modifies this`start, this`end, this`next
      ensures Valid() && !Wedged() && Restarted(old(end), old(next))
    {
      var i := start;
      while slots[i].index == DONE
        invariant Valid() && i == start && end == old(end) && start != end && next == old(next)
        decreases Length()
      {
        SkipOk(slots[..], pkts[..], start, end, used, replies);
        i := Succ(i, size);
        start := i;
        if i == end {
          break;
        }
      }
      if start == end {
        EmptyOk(slots[..], pkts[..], start, end, used, replies);
        next := 0;
        start := 0;
        end := 0;
      }
    }

    // ipf_auth_expire: every slot ages by one, and those reaching 0 are dropped.  The start
    // of the ring never moves, so the oldest slot expiring is what wedges it.
    method Expire()
      requires Valid()
      modifies this`used, this`replies, slots, pkts
      ensures Valid()
      ensures locked ==> unchanged(this, slots, pkts)
      ensures !locked ==> forall i | 0 <= i < size ::
                && slots[i] == Aged(old(slots[i]))
                && pkts[i] == if Expires(old(slots[i])) then None else old(pkts[i])
      ensures Wedged() <==> old(Wedged()) || (!locked && start != end && old(slots[start].age) == 1)
    {
      if locked {
        return;
      }
      for i := 0 to size
        invariant Valid()
        invariant forall j | 0 <= j < i ::
                    && slots[j] == Aged(old(slots[j]))
                    && pkts[j] == if Expires(old(slots[j])) then None else old(pkts[j])
        invariant forall j | i <= j < size :: slots[j] == old(slots[j]) && pkts[j] == old(pkts[j])
      {
        AgeOne(i);
      }
    }

    method AgeOne(i: nat)
      requires Valid() && i < size
      modifies this`used, this`replies, slots, pkts
      ensures Valid()
      ensures slots[..] == old(slots[..])[i := Aged(old(slots[i]))]
      ensures pkts[..] == old(pkts[..])[i := if Expires(old(slots[i])) then None else old(pkts[i])]
    {
      AgeOk(slots[..], pkts[..], start, end, used, replies, i);
      ghost var s0, p0 := slots[..], pkts[..];
      slots[i] := slots[i].(age := slots[i].age - 1);
      if slots[i].age == 0 && slots[i].index != DONE {
        if pkts[i].Some? {
          pkts[i] := None;
        } else if slots[i].index == REPLIED {
          replies := replies - 1;
        }
        slots[i] := slots[i].(index := DONE);
        used := used - 1;
      }
      assert slots[..] == s0[i := Aged(s0[i])];
      assert pkts[..] == p0[i := if Expires(s0[i]) then None else p0[i]];
    }

    // ipf_auth_wait: the next slot holding a packet.  Some slot holds one exactly when there
    // are more used slots than replies, so this is what keeps the scan from going round
    // forever.
    method Wait() returns (slot: Option<nat>)
      requires Valid() && (used > 0 ==> used > replies)
      modifies this`next
      ensures Valid()
      ensures slot.Some? <==> used > 0
      ensures slot.Some? ==>
                && slot.value < size && InRegion(start, end, slot.value)
                && slots[slot.value].index == slot.value && pkts[slot.value].Some?
                && next == Succ(slot.value, size)
                && forall j | 0 <= j < size && InRegion(old(next), slot.value, j) :: pkts[j].None?
    {
      if used <= 0 {
        return None;
      }
      HeldCount(slots[..], pkts[..], start, end, used, replies);
      ghost var t: int :| t in HeldIn(pkts[..]);
      ghost var from := next;
      while pkts[next].None?
        invariant next < size && RegionLen(from, next, size) <= RegionLen(from, t, size)
        invariant forall j | 0 <= j < size && InRegion(from, next, j) :: pkts[j].None?
        decreases RegionLen(from, t, size) - RegionLen(from, next, size)
      {
        next := next + 1;
        if next == size {
          next := 0;
        }
      }
      slot := Some(next);
      next := Succ(next, size);
    }

    // ipf_auth_flush: everything goes, and the ring is usable again from slot 0.
    method Flush() returns (flushed: int)
      requires Valid()
      modifies this, slots, pkts
      ensures Valid() && locked == old(locked)
      ensures locked ==> flushed == -1 && unchanged(this, slots, pkts)
      ensures !locked ==> used == 0 && replies == 0 && start == end == next == 0 && !Wedged()
      ensures !locked ==> flushed >= old(used)
      ensures !locked ==>
                (flushed == old(used) <==> NoneStale(old(slots[..]), old(start), old(end)))
      ensures !locked ==> flushed == CountOpen(old(slots[..]))
    {
      if locked {
        return -1;
      }
      FlushCount(slots[..], pkts[..], start, end, used, replies);
      flushed := Empty();
      AllDoneOk(slots[..], pkts[..]);
      start, end, next, used, replies := 0, 0, 0, 0, 0;
    }

    // Its loop over all slots, live or not.
    method Empty() returns (flushed: int)
      requires Valid()
      modifies slots, pkts
      ensures flushed == CountOpen(old(slots[..]))
      ensures forall i | 0 <= i < size :: slots[i].index == DONE && pkts[i].None?
    {
      flushed := 0;
      ghost var s0, p0 := slots[..], pkts[..];
      for i := 0 to size
        invariant flushed == CountOpen(s0[..i])
        invariant forall j | 0 <= j < i :: slots[j].index == DONE && pkts[j].None?
        invariant forall j | i <= j < size :: slots[j] == s0[j] && pkts[j] == p0[j]
      {
        assert SlotOk(i, InRegion(start, end, i), s0[i], p0[i]);
        assert s0[..i + 1][..i] == s0[..i];
        if slots[i].index != DONE {
          pkts[i] := None;
          slots[i] := slots[i].(index := DONE);
          flushed := flushed + 1;
        }
      }
      assert s0[..size] == s0;
    }
  }

  function CountOpen(s: seq<Slot>): nat {
    if s == [] then 0 else CountOpen(s[..|s| - 1]) + if s[|s| - 1].index != DONE then 1 else 0
  }

  predicate Expires(slot: Slot) { slot.age == 1 && slot.index != DONE }

  function Aged(slot: Slot): Slot {
    if Expires(slot) then slot.(age := 0, index := DONE) else slot.(age := slot.age - 1)
  }

  lemma RegionGrows(start: nat, end: nat, size: nat)
    requires start < size && end < size && Succ(end, size) != start
    ensures !InRegion(start, end, end)
    ensures forall i | 0 <= i < size :: InRegion(start, Succ(end, size), i) <==> InRegion(start, end, i) || i == end
  {
  }

  lemma NewOk(s: seq<Slot>, p: seq<Option<nat>>, start: nat, end: nat, used: int, replies: int, slot: Slot, m: nat)
    requires RingOk(s, p, start, end, used, replies)
    requires start < |s| && end < |s| && Succ(end, |s|) != start && slot.index == end
    ensures RingOk(s[end := slot], p[end := Some(m)], start, Succ(end, |s|), used + 1, replies)
  {
    RegionGrows(start, end, |s|);
    var s', end' := s[end := slot], Succ(end, |s|);
    assert UsedIn(s', start, end') == UsedIn(s, start, end) + {end as int};
    assert RepliedIn(s', start, end') == RepliedIn(s, start, end);
  }

  lemma ReplyOk(s: seq<Slot>, p: seq<Option<nat>>, start: nat, end: nat, used: int, replies: int, i: nat, pass: nat)
    requires RingOk(s, p, start, end, used, replies) && i < |s|
    ensures RingOk(s[i := s[i].(index := REPLIED, pass := pass)], p[i := None], start, end, used, replies + 1)
       <==> p[i].Some?
  {
    if p[i].Some? {
      ReplyCounted(s, p, start, end, used, replies, i, pass);
    } else {
      ReplyMiscounted(s, p, start, end, used, replies, i, pass);
    }
  }

  lemma ReplyCounted(s: seq<Slot>, p: seq<Option<nat>>, start: nat, end: nat, used: int, replies: int, i: nat, pass: nat)
    requires RingOk(s, p, start, end, used, replies) && i < |s| && p[i].Some?
    ensures RingOk(s[i := s[i].(index := REPLIED, pass := pass)], p[i := None], start, end, used, replies + 1)
  {
    var s' := s[i := s[i].(index := REPLIED, pass := pass)];
    assert SlotOk(i, InRegion(start, end, i), s[i], p[i]);
    assert UsedIn(s', start, end) == UsedIn(s, start, end);
    assert RepliedIn(s', start, end) == RepliedIn(s, start, end) + {i as int};
  }

  lemma ReplyMiscounted(s: seq<Slot>, p: seq<Option<nat>>, start: nat, end: nat, used: int, replies: int, i: nat, pass: nat)
    requires RingOk(s, p, start, end, used, replies) && i < |s| && p[i].None?
    ensures var s' := s[i := s[i].(index := REPLIED, pass := pass)];
      used != |UsedIn(s', start, end)| || replies + 1 != |RepliedIn(s', start, end)|
  {
    var s' := s[i := s[i].(index := REPLIED, pass := pass)];
    assert SlotOk(i, InRegion(start, end, i), s[i], p[i]);
    if InRegion(start, end, i) && s[i].index == DONE {
      assert UsedIn(s', start, end) == UsedIn(s, start, end) + {i as int};
    } else {
      assert RepliedIn(s', start, end) == RepliedIn(s, start, end);
    }
  }

  lemma TakeOk(s: seq<Slot>, p: seq<Option<nat>>, start: nat, end: nat, used: int, replies: int, i: nat)
    requires RingOk(s, p, start, end, used, replies)
    requires i < |s| && InRegion(start, end, i) && s[i].index == REPLIED
    ensures RingOk(s[i := s[i].(index := DONE)], p, start, end, used - 1, replies - 1)
  {
    var s' := s[i := s[i].(index := DONE)];
    assert UsedIn(s', start, end) == UsedIn(s, start, end) - {i as int};
    assert RepliedIn(s', start, end) == RepliedIn(s, start, end) - {i as int};
  }

  lemma SkipOk(s: seq<Slot>, p: seq<Option<nat>>, start: nat, end: nat, used: int, replies: int)
    requires RingOk(s, p, start, end, used, replies)
    requires start < |s| && end < |s| && start != end && s[start].index == DONE
    ensures RingOk(s, p, Succ(start, |s|), end, used, replies)
  {
    var start' := Succ(start, |s|);
    assert forall i | 0 <= i < |s| :: InRegion(start', end, i) <==> InRegion(start, end, i) && i != start;
    assert UsedIn(s, start', end) == UsedIn(s, start, end);
    assert RepliedIn(s, start', end) == RepliedIn(s, start, end);
  }

  lemma EmptyOk(s: seq<Slot>, p: seq<Option<nat>>, start: nat, end: nat, used: int, replies: int)
    requires RingOk(s, p, start, end, used, replies) && start == end
    ensures RingOk(s, p, 0, 0, used, replies)
  {
    assert UsedIn(s, 0, 0) == UsedIn(s, start, end);
    assert RepliedIn(s, 0, 0) == RepliedIn(s, start, end);
  }

  lemma AgeOk(s: seq<Slot>, p: seq<Option<nat>>, start: nat, end: nat, used: int, replies: int, i: nat)
    requires RingOk(s, p, start, end, used, replies) && i < |s|
    ensures var gone := Expires(s[i]);
      RingOk(s[i := Aged(s[i])], p[i := if gone then None else p[i]], start, end,
             if gone then used - 1 else used,
             if gone && p[i].None? && s[i].index == REPLIED then replies - 1 else replies)
  {
    var s' := s[i := Aged(s[i])];
    assert SlotOk(i, InRegion(start, end, i), s[i], p[i]);
    if Expires(s[i]) {
      assert UsedIn(s', start, end) == UsedIn(s, start, end) - {i as int};
      assert RepliedIn(s', start, end) == RepliedIn(s, start, end) - {i as int};
    } else {
      assert UsedIn(s', start, end) == UsedIn(s, start, end);
      assert RepliedIn(s', start, end) == RepliedIn(s, start, end);
    }
  }

  lemma AllDoneOk(s: seq<Slot>, p: seq<Option<nat>>)
    requires |s| == |p| && forall i | 0 <= i < |s| :: s[i].index == DONE && p[i].None?
    ensures RingOk(s, p, 0, 0, 0, 0)
  {
    assert UsedIn(s, 0, 0) == {} && RepliedIn(s, 0, 0) == {};
  }

  // The packets held are the used slots without a reply.
  lemma HeldCount(s: seq<Slot>, p: seq<Option<nat>>, start: nat, end: nat, used: int, replies: int)
    requires RingOk(s, p, start, end, used, replies)
    ensures |HeldIn(p)| == used - replies
  {
    var u, r := UsedIn(s, start, end), RepliedIn(s, start, end);
    assert forall i | 0 <= i < |s| :: SlotOk(i, InRegion(start, end, i), s[i], p[i]);
    assert HeldIn(p) == u - r && r <= u;
    assert |u - r| == |u| - |r| by { assert u == r + (u - r) && r !! (u - r); }
  }

  lemma NoneUsed(s: seq<Slot>, start: nat, end: nat)
    requires |UsedIn(s, start, end)| == 0
    ensures forall i | 0 <= i < |s| && InRegion(start, end, i) :: s[i].index == DONE
  {
    assert UsedIn(s, start, end) == {};
    assert forall i | 0 <= i < |s| && InRegion(start, end, i) :: i !in UsedIn(s, start, end);
  }

  ghost function OpenIn(s: seq<Slot>): set<int> {
    set i | 0 <= i < |s| && s[i].index != DONE
  }

  lemma {:induction false} OpenCount(s: seq<Slot>)
    ensures CountOpen(s) == |OpenIn(s)|
  {
    if s != [] {
      var n := |s| - 1;
      OpenCount(s[..n]);
      var before := OpenIn(s[..n]);
      assert OpenIn(s) == if s[n].index != DONE then before + {n} else before;
    }
  }

  // Every slot outside the live region is done with.
  ghost predicate NoneStale(s: seq<Slot>, start: nat, end: nat) {
    forall i | 0 <= i < |s| && !InRegion(start, end, i) :: s[i].index == DONE
  }

  // A flush counts the slots in use, and besides them those outside the live region that are
  // not done with: slots never used.
  lemma FlushCount(s: seq<Slot>, p: seq<Option<nat>>, start: nat, end: nat, used: int, replies: int)
    requires RingOk(s, p, start, end, used, replies)
    ensures CountOpen(s) >= used
    ensures CountOpen(s) == used <==> NoneStale(s, start, end)
  {
    OpenCount(s);
    var open, live := OpenIn(s), UsedIn(s, start, end);
    var stale := set i | 0 <= i < |s| && !InRegion(start, end, i) && s[i].index != DONE;
    assert open == live + stale && live !! stale;
    assert stale == {} <==> NoneStale(s, start, end) by {
      assert forall i | 0 <= i < |s| && !InRegion(start, end, i) && s[i].index != DONE :: i in stale;
    }
  }

  // The slots and packets of a ring nothing ever went into.
  function Unused(size: nat): seq<Slot> { seq(size, _ => UNUSED) }
  function NoPackets(size: nat): seq<Option<nat>> { seq(size, _ => None) }

  // None of them is in use, and a flush would count them all.
  lemma FlushOfNothing(size: nat)
    ensures RingOk(Unused(size), NoPackets(size), 0, 0, 0, 0) && CountOpen(Unused(size)) == size
  {
    AllOpen(Unused(size));
    assert UsedIn(Unused(size), 0, 0) == {} && RepliedIn(Unused(size), 0, 0) == {};
  }

  lemma {:induction false} AllOpen(s: seq<Slot>)
    requires forall i | 0 <= i < |s| :: s[i].index != DONE
    ensures CountOpen(s) == |s|
  {
    if s != [] { AllOpen(s[..|s| - 1]); }
  }

  // The scan of ipf_auth_wait, going round from any slot, comes to a packet if and only if
  // more slots are in use than replied to.
  lemma WaitEnds(s: seq<Slot>, p: seq<Option<nat>>, start: nat, end: nat, used: int, replies: int, next: nat)
    requires RingOk(s, p, start, end, used, replies) && next < |p|
    ensures (exists k: nat :: p[Round(next, k, |p|)].Some?) <==> used > replies
  {
    HeldCount(s, p, start, end, used, replies);
    if k: nat :| p[Round(next, k, |p|)].Some? {
      assert Round(next, k, |p|) in HeldIn(p);
    }
    if used > replies {
      var t: int :| t in HeldIn(p);
      var k := RegionLen(next, t, |p|);
      Reach(next, t, |p|);
      assert p[Round(next, k, |p|)].Some?;
    }
  }

  // k slots on from i.
  function Round(i: nat, k: nat, size: nat): (r: nat)
    requires i < size
    ensures r < size
    decreases k
  {
    if k == 0 then i else Succ(Round(i, k - 1, size), size)
  }

  lemma {:induction false} Reach(i: nat, t: nat, size: nat)
    requires i < size && t < size
    ensures Round(i, RegionLen(i, t, size), size) == t
    decreases RegionLen(i, t, size)
  {
    if i != t {
      Reach(i, if t == 0 then size - 1 else t - 1, size);
    }
  }

  // It need not end: one packet in, and replied to.
  method AllReplied(pass: nat) returns (ring: Ring)
    ensures fresh(ring) && ring.Valid() && ring.used == ring.replies == 1
  {
    ring := new Ring(2, 1);
    assert ring.Length() == 0;
    var ok := ring.New(0, 7, 0, 0);
    assert ring.slots[..][0] == Slot(0, 1, 0, 7, 0) && ring.pkts[..][0] == Some(0);
    var status, m := ring.Reply(0, 7, pass);
  }

  // A packet that expires in an empty ring of two wedges it: nothing is in use any more, and
  // yet there is no room.
  method ExpiredWedges(ring: Ring, pass: nat, id: nat, info: nat, m: nat) returns (again: bool)
    requires ring.Valid() && ring.size == 2 && ring.defaultAge == 1 && !ring.locked && ring.used == 0 && ring.Length() == 0
    modifies ring, ring.slots, ring.pkts
    ensures ring.Valid() && ring.Wedged() && ring.used == 0 && !again
  {
    var i := ring.end;
    var ok := ring.New(pass, id, info, m);
    assert ring.slots[..][i].age == 1 && ring.start == i;
    ring.Expire();
    NoneLeft(ring.slots[..], ring.start, ring.end);
    again := ring.New(pass, id, info, m);
  }

  lemma NoneLeft(s: seq<Slot>, start: nat, end: nat)
    requires |s| == 2 && start < 2 && end < 2 && start != end && s[start].index == DONE
    ensures UsedIn(s, start, end) == {}
  {
  }

  // A packet that waits, is replied to and comes by again gets the verdict of the reply, if
  // that says pass or block, and a block otherwise.
  method Authorised(ring: Ring, flags: nat, id: nat, info: nat, m: nat, v: nat) returns (pass: Option<nat>)
    requires ring.Valid() && !ring.locked && ring.Length() < ring.size - 1
    requires forall i | 0 <= i < ring.size && InRegion(ring.start, ring.end, i) && ring.slots[i].index == -2 ::
               ring.slots[i].id != id || ring.slots[i].info != info
    modifies ring, ring.slots, ring.pkts
    ensures ring.Valid() && ring.used == old(ring.used) && ring.replies == old(ring.replies)
    ensures pass == Some(if v != 0 && v % 16 != 3 then v else 1)
  {
    var i := ring.end;
    ghost var s0 := ring.slots[..];
    var ok := ring.New(flags, id, info, m);
    ghost var s1 := ring.slots[..];
    assert s1[i] == Slot(i, ring.defaultAge, flags, id, info) && ring.pkts[..][i] == Some(m);
    var status, p := ring.Reply(i, id, v);
    ghost var s2 := ring.slots[..];
    assert s2[i] == Slot(-2, ring.defaultAge, v, id, info);
    RegionGrows(ring.start, i, ring.size);
    assert ring.Hit(i, id, info);
    assert forall j | 0 <= j < ring.size && j != i :: s2[j] == s1[j] == s0[j];
    assert forall j: int :: ring.Hit(j, id, info) ==> j == i;
    pass := ring.Check(id, info);
  }

  // n turns of the clock: what had at most n to go is done with, the rest is n nearer to it.
  method ExpireTimes(ring: Ring, n: nat)
    requires ring.Valid() && !ring.locked
    modifies ring`used, ring`replies, ring.slots, ring.pkts
    ensures ring.Valid()
    ensures forall i | 0 <= i < ring.size :: TimesUp(old(ring.slots[i]), ring.slots[i], n)
  {
    for k := 0 to n
      invariant ring.Valid() && !ring.locked
      invariant forall i | 0 <= i < ring.size :: TimesUp(old(ring.slots[i]), ring.slots[i], k)
    {
      ring.Expire();
    }
  }

  ghost predicate TimesUp(was: Slot, now: Slot, n: nat) {
    && now.age == was.age - n && now.pass == was.pass && now.id == was.id && now.info == was.info
    && now.index == if 0 < was.age <= n then -1 else was.index
  }
}
