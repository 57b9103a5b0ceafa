// Where frrequest puts a rule: lists are ordered by fr_collect, and a rule goes by the block
// of those with its own collection number (ipfilter/fil.c). Both the linked list and the
// rule sets are stated in these terms.

module RuleOrder {
  import opened Basics

  ghost predicate Ascending(cs: seq<nat>) {
    forall i, j | 0 <= i < j < |cs| :: cs[i] <= cs[j]
  }

  // The block of collection number c is [lo, hi).
  ghost predicate IsBlock(cs: seq<nat>, c: nat, lo: nat, hi: nat) {
    && lo <= hi <= |cs|
    && (forall i | 0 <= i < lo :: cs[i] < c)
    && (forall i | lo <= i < hi :: cs[i] == c)
    && (forall i | hi <= i < |cs| :: cs[i] > c)
  }

  // An added rule goes behind its whole block, an inserted one hits rules into it.
  ghost predicate Placed(cs: seq<nat>, c: nat, req: Request, hits: nat, at: nat) {
    exists lo: nat, hi: nat ::
      && IsBlock(cs, c, lo, hi)
      && at == if req == Add then hi else lo + Min(hits, hi - lo)
  }

  lemma SameBlock(cs: seq<nat>, c: nat, lo: nat, hi: nat, lo': nat, hi': nat)
    requires IsBlock(cs, c, lo, hi) && IsBlock(cs, c, lo', hi')
    ensures lo == lo' && hi == hi'
  {
    var l, h := Min(lo, lo'), Min(hi, hi');
    assert l < |cs| ==> (cs[l] < c <==> l < lo) && (cs[l] < c <==> l < lo');
    assert h < |cs| ==> (cs[h] > c <==> hi <= h) && (cs[h] > c <==> hi' <= h);
  }

  // There is one such place, and the list stays in order around it.
  lemma PlacedUnique(cs: seq<nat>, c: nat, req: Request, hits: nat, at: nat, at': nat)
    requires Placed(cs, c, req, hits, at) && Placed(cs, c, req, hits, at')
    ensures at == at' <= |cs|
    ensures forall i | 0 <= i < at :: cs[i] <= c
    ensures forall i | at <= i < |cs| :: cs[i] >= c
  {
    var lo: nat, hi: nat :| IsBlock(cs, c, lo, hi) && at == if req == Add then hi else lo + Min(hits, hi - lo);
    var lo': nat, hi': nat :| IsBlock(cs, c, lo', hi') && at' == if req == Add then hi' else lo' + Min(hits, hi' - lo');
    SameBlock(cs, c, lo, hi, lo', hi');
  }

  // The same place found by walking the list once.
  function PlaceIn(cs: seq<nat>, c: nat, req: Request, hits: nat): (at: nat)
    ensures at <= |cs|
  {
    if cs == [] || cs[0] > c then 0
    else if req == Add || cs[0] < c then 1 + PlaceIn(cs[1..], c, req, hits)
    else if hits == 0 then 0
    else 1 + PlaceIn(cs[1..], c, req, hits - 1)
  }

  lemma {:induction false} BlockOf(cs: seq<nat>, c: nat) returns (lo: nat, hi: nat)
    requires Ascending(cs)
    ensures IsBlock(cs, c, lo, hi)
  {
    if cs == [] {
      lo, hi := 0, 0;
    } else {
      var n := |cs| - 1;
      lo, hi := BlockOf(cs[..n], c);
      if cs[n] < c {
        lo, hi := n + 1, n + 1;
      } else if cs[n] == c {
        hi := n + 1;
      }
    }
  }

  lemma {:induction false} PlaceInBlock(cs: seq<nat>, c: nat, req: Request, hits: nat, lo: nat, hi: nat)
    requires IsBlock(cs, c, lo, hi)
    ensures PlaceIn(cs, c, req, hits) == if req == Add then hi else lo + Min(hits, hi - lo)
  {
    if lo > 0 {
      PlaceInBlock(cs[1..], c, req, hits, lo - 1, hi - 1);
    } else if hi > 0 && (req == Add || hits > 0) {
      PlaceInBlock(cs[1..], c, req, if req == Add then hits else hits - 1, 0, hi - 1);
    }
  }

  lemma PlaceInPlaced(cs: seq<nat>, c: nat, req: Request, hits: nat)
    requires Ascending(cs)
    ensures Placed(cs, c, req, hits, PlaceIn(cs, c, req, hits))
  {
    var lo, hi := BlockOf(cs, c);
    PlaceInBlock(cs, c, req, hits, lo, hi);
  }
}
