// The table of netmasks in use: ipf_inet_mask_add and ipf_inet_mask_del (ipfilter/fil.c).
// Masks are in host order; the source keeps them in network order and converts to compare.

module MaskTable {
  function Pow2(n: nat): (p: nat)
    ensures p > 0
  {
    if n == 0 then 1 else 2 * Pow2(n - 1)
  }

  // The number with the top bits of 32 set: 0xffffffff << (32 - bits).
  function Mask(bits: nat): nat
    requires bits <= 32
  {
    if bits == 0 then 0 else Mask(bits - 1) + Pow2(32 - bits)
  }

  lemma {:induction false} MaskIsShift(bits: nat)
    requires bits <= 32
    ensures Mask(bits) == Pow2(32) - Pow2(32 - bits)
  {
    if bits > 0 {
      MaskIsShift(bits - 1);
      var n := 32 - bits;
      assert Pow2(n + 1) == 2 * Pow2(n);
    }
  }

  // As numbers: 255.0.0.0, 255.255.0.0, 255.255.255.0 and all ones.
  lemma MaskValues()
    ensures Mask(0) == 0 && Mask(8) == 0xff00_0000 && Mask(16) == 0xffff_0000
    ensures Mask(24) == 0xffff_ff00 && Mask(32) == 0xffff_ffff
  {
    assert Pow2(0) == 1 && Pow2(8) == 256;
    assert Pow2(16) == 65536 && Pow2(24) == 0x100_0000 && Pow2(32) == 0x1_0000_0000;
    MaskIsShift(8);
    MaskIsShift(16);
    MaskIsShift(24);
    MaskIsShift(32);
  }

  lemma {:induction false} MaskMono(a: nat, b: nat)
    requires a < b <= 32
    ensures Mask(a) < Mask(b)
    decreases b
  {
    if a < b - 1 { MaskMono(a, b - 1); }
  }

  // ---------- ranks ----------

  // How many masks with more than b bits are in use.
  function Rank(counts: seq<nat>, b: int): (r: nat)
    requires |counts| == 33 && -1 <= b <= 32
    ensures r <= 32 - b
    decreases 32 - b
  {
    if b == 32 then 0 else Rank(counts, b + 1) + if counts[b + 1] > 0 then 1 else 0
  }

  // How many masks are in use at all; the position is -1, written so that it is not a literal
  // the verifier unfolds.
  function Total(counts: seq<nat>): nat
    requires |counts| == 33
  {
    Rank(counts, Bottom(counts))
  }

  function Bottom(counts: seq<nat>): (b: int)
    ensures |counts| == 33 ==> b == -1
  {
    |counts| - 34
  }

  lemma {:induction false} RankBelow(counts: seq<nat>, a: int, b: int)
    requires |counts| == 33 && -1 <= a < b <= 32
    ensures Rank(counts, a) >= Rank(counts, b) + if counts[b] > 0 then 1 else 0
    decreases b - a
  {
    if a + 1 < b { RankBelow(counts, a + 1, b); }
  }

  // Every rank below the total belongs to a mask in use.
  lemma {:induction false} RankInverse(counts: seq<nat>, a: int, i: nat) returns (b: nat)
    requires |counts| == 33 && -1 <= a <= 32 && i < Rank(counts, a)
    ensures a < b <= 32 && counts[b] > 0 && Rank(counts, b) == i
    decreases 32 - a
  {
    if i == Rank(counts, a + 1) {
      b := a + 1;
    } else {
      b := RankInverse(counts, a + 1, i);
    }
  }

  lemma {:induction false} RankUpdate(counts: seq<nat>, bits: nat, n: nat, b: int)
    requires |counts| == 33 && bits <= 32 && -1 <= b <= 32 && (counts[bits] == 0) != (n == 0)
    ensures Rank(counts[bits := n], b)
         == if b >= bits then Rank(counts, b) else if n > 0 then Rank(counts, b) + 1 else Rank(counts, b) - 1
    decreases 32 - b
  {
    if b < 32 { RankUpdate(counts, bits, n, b + 1); }
  }

  lemma {:induction false} RankSame(a: seq<nat>, c: seq<nat>, b: int)
    requires |a| == |c| == 33 && -1 <= b <= 32 && forall i | 0 <= i < 33 :: (a[i] > 0 <==> c[i] > 0)
    ensures Rank(a, b) == Rank(c, b)
    decreases 32 - b
  {
    if b < 32 { RankSame(a, c, b + 1); }
  }

  // ---------- the table ----------

  ghost predicate AtRank(counts: seq<nat>, active: seq<nat>, b: nat) {
    |counts| == |active| == 33 && b <= 32 && counts[b] > 0 ==> active[Rank(counts, b)] == Mask(b)
  }

  // imt4_active and imt4_max as the use counts determine them.
  ghost predicate TableOk(counts: seq<nat>, active: seq<nat>, max: int) {
    && |counts| == |active| == 33
    && max == Total(counts)
    && (forall b: nat {:trigger AtRank(counts, active, b)} :: AtRank(counts, active, b))
    && (forall i | max <= i < 33 :: active[i] == 0)
  }

  // The active part is the strictly descending list of exactly the masks in use.
  lemma ActiveList(counts: seq<nat>, active: seq<nat>, max: int)
    requires TableOk(counts, active, max)
    ensures 0 <= max <= 33
    ensures forall i, j | 0 <= i < j < max :: active[i] > active[j]
    ensures forall i | 0 <= i < max :: exists b: nat :: b <= 32 && counts[b] > 0 && active[i] == Mask(b)
    ensures forall b: nat | b <= 32 && counts[b] > 0 :: Mask(b) in active[..max]
  {
    forall i, j | 0 <= i < j < max ensures active[i] > active[j] {
      var b := RankInverse(counts, Bottom(counts), i);
      var c := RankInverse(counts, Bottom(counts), j);
      assert AtRank(counts, active, b) && AtRank(counts, active, c);
      if b < c { RankBelow(counts, b, c); }
      MaskMono(c, b);
    }
    forall i | 0 <= i < max ensures exists b: nat :: b <= 32 && counts[b] > 0 && active[i] == Mask(b) {
      var b := RankInverse(counts, Bottom(counts), i);
      assert AtRank(counts, active, b);
    }
    forall b: nat | b <= 32 && counts[b] > 0 ensures Mask(b) in active[..max] {
      assert AtRank(counts, active, b);
      RankBelow(counts, Bottom(counts), b);
      assert active[..max][Rank(counts, b)] == Mask(b);
    }
  }

  // The counts determine the table.
  lemma TableUnique(counts: seq<nat>, a: seq<nat>, m: int, a': seq<nat>, m': int)
    requires TableOk(counts, a, m) && TableOk(counts, a', m')
    ensures a == a' && m == m'
  {
    forall i | 0 <= i < 33 ensures a[i] == a'[i] {
      if i < m {
        var b := RankInverse(counts, Bottom(counts), i);
        assert AtRank(counts, a, b) && AtRank(counts, a', b);
      }
    }
  }

  // Where a mask belongs: larger ones before its rank, smaller ones from there on.
  lemma Around(counts: seq<nat>, active: seq<nat>, max: int, bits: nat)
    requires TableOk(counts, active, max) && 1 <= bits <= 32
    ensures Rank(counts, bits) <= max && Rank(counts, bits) < 32
    ensures forall i | 0 <= i < Rank(counts, bits) :: active[i] > Mask(bits)
    ensures forall i | Rank(counts, bits) + (if counts[bits] > 0 then 1 else 0) <= i < 33 :: active[i] < Mask(bits)
  {
    var k := Rank(counts, bits);
    RankBelow(counts, Bottom(counts), bits);
    MaskMono(0, bits);
    forall i | 0 <= i < k ensures active[i] > Mask(bits) {
      var b := RankInverse(counts, bits, i);
      assert AtRank(counts, active, b);
      MaskMono(bits, b);
    }
    forall i | k + (if counts[bits] > 0 then 1 else 0) <= i < 33 ensures active[i] < Mask(bits) {
      if i < max {
        var b := RankInverse(counts, Bottom(counts), i);
        assert AtRank(counts, active, b);
        if b > bits { RankBelow(counts, bits, b); }
        MaskMono(b, bits);
      }
    }
  }

  lemma LastIsZero(counts: seq<nat>, active: seq<nat>, max: int)
    requires TableOk(counts, active, max)
    ensures active[32] == 0
  {
    if max == 33 {
      var zero := Bottom(counts) + 1;
      assert Rank(counts, Bottom(counts)) == Rank(counts, zero) + if counts[zero] > 0 then 1 else 0;
      assert AtRank(counts, active, 0);
    }
  }

  // What moving the entries does to one mask in use.
  lemma RaisedAt(counts: seq<nat>, active: seq<nat>, bits: nat, n: nat, after: seq<nat>, b: nat)
    requires |counts| == |active| == |after| == 33 && bits <= 32 && b <= 32 && counts[bits] == 0 && n > 0
    requires AtRank(counts, active, b)
    requires var k := Rank(counts, bits);
      && (forall i {:trigger after[i]} | 0 <= i < k :: after[i] == active[i])
      && after[k] == Mask(bits)
      && (forall i {:trigger after[i]} | k < i < 33 :: after[i] == active[i - 1])
    ensures AtRank(counts[bits := n], after, b)
  {
    var k, j := Rank(counts, bits), Rank(counts, b);
    RankUpdate(counts, bits, n, b);
    if b < bits {
      RankBelow(counts, b, bits);
      assert counts[b] > 0 ==> k <= j < 32 ==> after[j + 1] == active[j];
    } else if b > bits {
      RankBelow(counts, bits, b);
      assert counts[b] > 0 ==> j < k && after[j] == active[j];
    }
  }

  // A count going from 0 to n: the mask moves in and the smaller ones one place on.
  lemma Raised(counts: seq<nat>, active: seq<nat>, max: int, bits: nat, n: nat, after: seq<nat>)
    requires TableOk(counts, active, max) && bits <= 32 && counts[bits] == 0 && n > 0 && |after| == 33
    requires var k := Rank(counts, bits);
      && (forall i {:trigger after[i]} | 0 <= i < k :: after[i] == active[i])
      && after[k] == Mask(bits)
      && (forall i {:trigger after[i]} | k < i < 33 :: after[i] == active[i - 1])
    ensures TableOk(counts[bits := n], after, max + 1)
  {
    var counts' := counts[bits := n];
    RankUpdate(counts, bits, n, Bottom(counts));
    RankBelow(counts, Bottom(counts), bits);
    forall b: nat ensures AtRank(counts', after, b) {
      assert AtRank(counts, active, b);
      if b <= 32 { RaisedAt(counts, active, bits, n, after, b); }
    }
  }

  lemma LoweredAt(counts: seq<nat>, active: seq<nat>, bits: nat, after: seq<nat>, b: nat)
    requires |counts| == |active| == |after| == 33 && bits <= 32 && b <= 32 && counts[bits] > 0
    requires AtRank(counts, active, b)
    requires var k := Rank(counts, bits);
      && (forall i {:trigger after[i]} | 0 <= i < k :: after[i] == active[i])
      && (forall i {:trigger after[i]} | k <= i < 32 :: after[i] == active[i + 1])
    ensures AtRank(counts[bits := 0], after, b)
  {
    var k, j := Rank(counts, bits), Rank(counts, b);
    RankUpdate(counts, bits, 0, b);
    if b < bits {
      RankBelow(counts, b, bits);
      assert counts[b] > 0 ==> k <= j - 1 < 32 && after[j - 1] == active[j];
    } else if b > bits {
      RankBelow(counts, bits, b);
      assert counts[b] > 0 ==> j < k && after[j] == active[j];
    }
  }

  // A count going to 0: the mask moves out and the smaller ones one place back.
  lemma Lowered(counts: seq<nat>, active: seq<nat>, max: int, bits: nat, after: seq<nat>, counts': seq<nat>)
    requires TableOk(counts, active, max) && bits <= 32 && counts[bits] > 0 && |after| == 33
    requires counts' == counts[bits := 0]
    requires var k := Rank(counts, bits);
      && (forall i {:trigger after[i]} | 0 <= i < k :: after[i] == active[i])
      && (forall i {:trigger after[i]} | k <= i < 32 :: after[i] == active[i + 1])
      && after[32] == active[32] == 0
    ensures TableOk(counts', after, max - 1) && max > 0
  {
    forall b: nat ensures AtRank(counts', after, b) {
      assert AtRank(counts, active, b);
      if b <= 32 { LoweredAt(counts, active, bits, after, b); }
    }
    LoweredTail(counts, active, max, bits, after);
  }

  lemma LoweredTail(counts: seq<nat>, active: seq<nat>, max: int, bits: nat, after: seq<nat>)
    requires |counts| == |active| == |after| == 33 && max == Total(counts) && bits <= 32 && counts[bits] > 0
    requires forall i | max <= i < 33 :: active[i] == 0
    requires forall i {:trigger after[i]} | Rank(counts, bits) <= i < 32 :: after[i] == active[i + 1]
    requires after[32] == 0
    ensures Total(counts[bits := 0]) == max - 1
    ensures forall i | max - 1 <= i < 33 :: after[i] == 0
  {
    RankUpdate(counts, bits, 0, Bottom(counts));
    RankBelow(counts, Bottom(counts), bits);
  }

  // A count changing without reaching or leaving 0.
  lemma Unmoved(counts: seq<nat>, counts': seq<nat>, active: seq<nat>, max: int)
    requires TableOk(counts, active, max) && |counts'| == 33
    requires forall i | 0 <= i < 33 :: (counts[i] > 0 <==> counts'[i] > 0)
    ensures TableOk(counts', active, max)
  {
    RankSame(counts, counts', Bottom(counts));
    forall b: nat ensures AtRank(counts', active, b) {
      assert AtRank(counts, active, b);
      if b <= 32 { RankSame(counts, counts', b); }
    }
  }

  class MaskTab {
    const active: array<nat>
    const masks: array<nat>
    var max: int

    ghost predicate Valid()
      reads this, active, masks
    {
      active.Length == 33 && masks.Length == 33 && active != masks && TableOk(masks[..], active[..], max)
    }

    constructor ()
      ensures Valid() && max == 0 && forall b | 0 <= b < 33 :: masks[b] == 0
      ensures fresh(active) && fresh(masks)
    {
      active := new nat[33](_ => 0);
      masks := new nat[33](_ => 0);
      max := 0;
      new;
      NoneInUse(masks[..], Bottom(masks[..]));
    }

    method Add(bits: nat)
      requires Valid() && bits <= 32
      modifies this`max, active, masks
      ensures Valid() && masks[..] == old(masks[..])[bits := old(masks[bits]) + 1]
    {
      ghost var counts, was := masks[..], active[..];
      masks[bits] := masks[bits] + 1;
      assert masks[..] == counts[bits := counts[bits] + 1];
      if masks[bits] > 1 {
        Unmoved(counts, masks[..], was, max);
        return;
      }
      Enter(bits, counts);
      Raised(counts, was, max, bits, 1, active[..]);
      max := max + 1;
    }

    // The loop that finds the place and shifts the rest.
    method Enter(bits: nat, ghost counts: seq<nat>)
      requires bits <= 32 && active.Length == 33 && TableOk(counts, active[..], max) && counts[bits] == 0
      modifies active
      ensures var k := Rank(counts, bits);
        && (forall i | 0 <= i < k :: active[i] == old(active[i]))
        && active[k] == Mask(bits)
        && (forall i | k < i < 33 :: active[i] == old(active[i - 1]))
    {
      ghost var k := Rank(counts, bits);
      if bits > 0 {
        Around(counts, active[..], max, bits);
      } else {
        RankBelow(counts, Bottom(counts), 0);
      }
      for i := 0 to 33
        invariant bits > 0 ==> i <= k
        invariant active[..] == old(active[..])
      {
        if active[i] < Mask(bits) {
          var j := 32;
          while j > i
            invariant i <= j <= 32
            invariant forall n | 0 <= n <= j :: active[n] == old(active[n])
            invariant forall n | j < n < 33 :: active[n] == old(active[n - 1])
          {
            active[j] := active[j - 1];
            j := j - 1;
          }
          active[i] := Mask(bits);
          return;
        }
      }
    }

    method Del(bits: nat)
      requires Valid() && 1 <= bits <= 32 && masks[bits] > 0
      modifies this`max, active, masks
      ensures Valid() && max >= 0 && masks[..] == old(masks[..])[bits := old(masks[bits]) - 1]
    {
      ghost var counts, was := masks[..], active[..];
      masks[bits] := masks[bits] - 1;
      assert masks[..] == counts[bits := counts[bits] - 1];
      if masks[bits] > 0 {
        Unmoved(counts, masks[..], was, max);
        return;
      }
      LastIsZero(counts, was, max);
      Leave(bits, counts);
      Lowered(counts, was, max, bits, active[..], masks[..]);
      max := max - 1;
    }

    method Leave(bits: nat, ghost counts: seq<nat>)
      requires 1 <= bits <= 32 && active.Length == 33 && TableOk(counts, active[..], max) && counts[bits] > 0
      modifies active
      ensures var k := Rank(counts, bits);
        && (forall i | 0 <= i < k :: active[i] == old(active[i]))
        && (forall i | k <= i < 32 :: active[i] == old(active[i + 1]))
        && active[32] == old(active[32])
    {
      ghost var k := Rank(counts, bits);
      Around(counts, active[..], max, bits);
      assert AtRank(counts, active[..], bits);
      for i := 0 to 33
        invariant i <= k
        invariant active[..] == old(active[..])
      {
        if active[i] == Mask(bits) {
          for j := i + 1 to 33
            invariant forall n | 0 <= n < i :: active[n] == old(active[n])
            invariant forall n | i <= n < j - 1 :: active[n] == old(active[n + 1])
            invariant forall n | j - 1 <= n < 33 :: active[n] == old(active[n])
          {
            active[j - 1] := active[j];
          }
          return;
        }
      }
    }

    // A delete takes back the add before it.
    method AddDel(bits: nat)
      requires Valid() && 1 <= bits <= 32
      modifies this`max, active, masks
      ensures Valid() && max == old(max) && active[..] == old(active[..]) && masks[..] == old(masks[..])
    {
      ghost var counts, was, m := masks[..], active[..], max;
      Add(bits);
      Del(bits);
      assert masks[..] == counts;
      TableUnique(counts, was, m, active[..], max);
    }
  }

  lemma {:induction false} NoneInUse(counts: seq<nat>, b: int)
    requires |counts| == 33 && -1 <= b <= 32 && forall i | 0 <= i < 33 :: counts[i] == 0
    ensures Rank(counts, b) == 0
    decreases 32 - b
  {
    if b < 32 { NoneInUse(counts, b + 1); }
  }
}
