// The Internet checksum: ipf_cksum and ipf_updateipid (ipfilter/fil.c), ipf_pcksum
// (ipfilter/ip_fil.c) and CALC_SUMD (ipfilter/ip_nat.h); RFC 1071 and RFC 1624.

module Checksum {
  import opened Basics

  type u8 = x: int | 0 <= x < 0x100
  type u16 = x: int | 0 <= x < 0x1_0000
  type u32 = x: int | 0 <= x < 0x1_0000_0000

  const TWO32 := 0x1_0000_0000

  // The data as 16-bit words in memory order, with the last byte of an odd length apart.
  function Sum(words: seq<u16>): nat {
    if words == [] then 0 else Sum(words[..|words| - 1]) + words[|words| - 1]
  }


  // The one's complement sum as a 16-bit number: the residue modulo 65535, with 65535 for
  // a multiple that is not zero itself.
  function Fold(x: nat): u16 {
    if x == 0 then 0 else 1 + (x - 1) % 65535
  }

  function Complement(x: u16): u16 { 65535 - x }

  lemma FoldQuotient(x: nat) returns (q: nat)
    ensures x == Fold(x) + 65535 * q
    ensures Fold(x) == 0 <==> x == 0
  {
    q := if x == 0 then 0 else (x - 1) / 65535;
  }

  lemma FoldIs(x: nat, y: nat, q: int)
    requires x == y + 65535 * q && y <= 65535 && (y == 0 <==> x == 0)
    ensures Fold(x) == y
  {
    if x > 0 {
      assert x - 1 == (y - 1) + 65535 * q && 0 <= y - 1 < 65535;
    }
  }

  // One folding step keeps the sum: 65536 is 1 modulo 65535.
  lemma FoldStep(x: nat)
    ensures Fold(x / 0x1_0000 + x % 0x1_0000) == Fold(x)
  {
    var a, b := x / 0x1_0000, x % 0x1_0000;
    var q := FoldQuotient(a + b);
    FoldIs(x, Fold(a + b), q + a);
  }

  // ---------- the two checksum routines ----------

  method AddWords(words: seq<u16>, start: u32) returns (sum: u32)
    ensures sum == (start + Sum(words)) % TWO32
  {
    sum := start;
    for i := 0 to |words|
      invariant sum == (start + Sum(words[..i])) % TWO32
    {
      assert words[..i + 1][..i] == words[..i];
      sum := (sum + words[i]) % TWO32;
    }
    assert words[..|words|] == words;
  }

  // ipf_cksum: two folding steps. An odd last byte counts as one more word of that value.
  method IpfCksum(words: seq<u16>, odd: Option<u8>) returns (c: u16)
    ensures odd == None ==> c == Complement(Fold(Sum(words) % TWO32))
    ensures odd.Some? ==> c == Complement(Fold(Sum(words + [odd.value]) % TWO32))
    ensures odd == None && |words| <= 65537 ==> (c == 0 <==> Verifies(words))
    ensures odd.Some? && |words| < 65537 ==> (c == 0 <==> Verifies(words + [odd.value]))
  {
    var sum := AddWords(words, 0);
    ghost var all := words;
    if odd.Some? {
      SumLast(words, odd.value);
      all := words + [odd.value];
      sum := AddByte(sum, Sum(words), odd.value);
    }
    c := FoldTwice(sum);
    if |all| <= 65537 { NoOverflow(all); }
  }

  lemma SumLast(words: seq<u16>, w: u16)
    ensures Sum(words + [w]) == Sum(words) + w
  {
    assert (words + [w])[..|words|] == words;
  }

  method AddByte(sum: u32, ghost total: nat, b: nat) returns (r: u32)
    requires sum == total % TWO32
    ensures r == (total + b) % TWO32
  {
    r := (sum + b) % TWO32;
  }

  method FoldTwice(total: u32) returns (c: u16)
    ensures c == Complement(Fold(total))
  {
    var sum := total / 0x1_0000 + total % 0x1_0000;
    FoldStep(total);
    TwoSteps(sum);
    sum := sum + sum / 0x1_0000;
    c := 65535 - sum % 0x1_0000;
  }

  lemma TwoSteps(x: nat)
    requires x <= 0x1fffe
    ensures (x + x / 0x1_0000) % 0x1_0000 == Fold(x)
  {
    if x < 0x1_0000 {
      FoldIs(x, x, 0);
    } else {
      FoldIs(x, x - 65535, 1);
    }
  }

  // ipf_pcksum: folding in a loop. An odd last byte stays in the half of the word it has in
  // memory.
  method IpfPcksum(words: seq<u16>, odd: Option<u8>, start: u32, bigEndian: bool) returns (c: u16)
    ensures odd == None ==> c == Complement(Fold((start + Sum(words)) % TWO32))
    ensures odd.Some? && !bigEndian ==> c == Complement(Fold((start + Sum(words + [odd.value])) % TWO32))
    ensures odd.Some? && bigEndian ==> c == Complement(Fold((start + Sum(words + [256 * odd.value])) % TWO32))
    ensures odd.Some? && start == 0 && |words| < 65537 ==>
              (c == 0 <==> Verifies(words + [if bigEndian then 256 * odd.value else odd.value]))
  {
    var sum := AddWords(words, start);
    if odd.Some? {
      var w: u16 := if bigEndian then odd.value * 256 else odd.value;
      SumLast(words, w);
      sum := AddByte(sum, start + Sum(words), w);
      if |words| < 65537 { NoOverflow(words + [w]); }
    }
    c := FoldLoop(sum);
  }

  method FoldLoop(total: u32) returns (c: u16)
    ensures c == Complement(Fold(total))
  {
    var sum: nat := total;
    while sum > 0xffff
      invariant Fold(sum) == Fold(total)
    {
      FoldStep(sum);
      sum := sum % 0x1_0000 + sum / 0x1_0000;
    }
    FoldIs(sum, sum, 0);
    c := 65535 - sum;
  }

  // ---------- what the checksum is for ----------

  lemma {:induction false} SumBound(words: seq<u16>)
    ensures Sum(words) <= 65535 * |words|
  {
    if words != [] { SumBound(words[..|words| - 1]); }
  }

  // Up to 65537 words the 32-bit sum cannot overflow; one more and it can.
  lemma NoOverflow(words: seq<u16>)
    requires |words| <= 65537
    ensures Sum(words) % TWO32 == Sum(words)
  {
    SumBound(words);
  }

  lemma {:induction false} SumOfOnes(n: nat)
    ensures Sum(seq(n, _ => 65535 as u16)) == 65535 * n
  {
    if n > 0 {
      SumOfOnes(n - 1);
      assert seq(n, _ => 65535 as u16)[..n - 1] == seq(n - 1, _ => 65535 as u16);
    }
  }

  lemma OverflowLosesOne()
    ensures var words := seq(65538, _ => 65535 as u16);
      Fold(Sum(words) % TWO32) != Fold(Sum(words))
  {
    SumOfOnes(65538);
  }

  // Losing the carry out of 32 bits changes the folded sum, each time by one.
  lemma LostCarry(x: nat)
    requires x < TWO32 * 65535
    ensures Fold(x % TWO32) == Fold(x) <==> x < TWO32
  {
    var carries, low := x / TWO32, x % TWO32;
    var p := FoldQuotient(x);
    var q := FoldQuotient(low);
    assert x == carries + 65535 * (65537 * carries) + low;
    if Fold(low) == Fold(x) {
      assert carries == 65535 * (p - q - 65537 * carries);
    }
  }

  // For every length an int can give, the 32-bit sum is right exactly when it does not
  // overflow.
  lemma OverflowExact(words: seq<u16>)
    requires |words| <= 0x4000_0000
    ensures Fold(Sum(words) % TWO32) == Fold(Sum(words)) <==> Sum(words) < TWO32
  {
    SumBound(words);
    LostCarry(Sum(words));
  }

  // On an odd length the two routines agree exactly on little-endian hosts, and on a zero last
  // byte; on an even one always.
  lemma RoutinesAgree(words: seq<u16>, b: u8, bigEndian: bool)
    requires |words| <= 65536
    ensures Fold(Sum(words + [b]) % TWO32) == Fold(Sum(words + [if bigEndian then 256 * b else b]) % TWO32)
       <==> !bigEndian || b == 0
  {
    if bigEndian {
      var low, high := words + [b], words + [256 * b];
      NoOverflow(low);
      NoOverflow(high);
      SumLast(words, b);
      SumLast(words, 256 * b);
      Halves(Sum(words), b, Sum(low), Sum(high));
    }
  }

  lemma Halves(s: nat, b: u8, x: nat, y: nat)
    requires x == s + b && y == s + 256 * b
    ensures Fold(x) == Fold(y) <==> b == 0
  {
    ShiftedDiffers(s, b);
  }

  lemma ShiftedDiffers(s: nat, b: u8)
    ensures Fold(s + b) == Fold(s + 256 * b) <==> b == 0
  {
    var x, y := s + b, s + 256 * b;
    var p := FoldQuotient(x);
    var q := FoldQuotient(y);
    if Fold(x) == Fold(y) {
      assert 255 * b == 65535 * (q - p);
    }
  }

  ghost predicate Verifies(words: seq<u16>) {
    Complement(Fold(Sum(words))) == 0
  }

  lemma VerifiesQuotient(words: seq<u16>) returns (q: nat)
    ensures Verifies(words) ==> q > 0 && Sum(words) == 65535 * q
  {
    var p := FoldQuotient(Sum(words));
    q := p + 1;
  }

  lemma QuotientVerifies(words: seq<u16>, q: int)
    requires Sum(words) == 65535 * q && q > 0
    ensures Verifies(words)
  {
    FoldIs(Sum(words), 65535, q - 1);
  }

  lemma {:induction false} SumUpdate(words: seq<u16>, k: nat, w: u16)
    requires k < |words|
    ensures Sum(words[k := w]) == Sum(words) - words[k] + w
  {
    var n := |words| - 1;
    if k < n {
      SumUpdate(words[..n], k, w);
      assert words[k := w][..n] == words[..n][k := w];
    } else {
      assert words[k := w][..n] == words[..n];
    }
  }

  // Storing the checksum in its zeroed word makes the data verify.
  lemma StoredChecksumVerifies(words: seq<u16>, k: nat)
    requires k < |words| && words[k] == 0
    ensures Verifies(words[k := Complement(Fold(Sum(words)))])
  {
    var q := FoldQuotient(Sum(words));
    var c := Complement(Fold(Sum(words)));
    SumUpdate(words, k, c);
    QuotientVerifies(words[k := c], q + 1);
  }

  // And only that value does, 0xffff standing for 0.
  lemma OnlyChecksumVerifies(words: seq<u16>, k: nat, w: u16)
    requires k < |words| && words[k] == 0 && Verifies(words[k := w])
    ensures w == Complement(Fold(Sum(words))) || (w == 65535 && Complement(Fold(Sum(words))) == 0)
  {
    var q := FoldQuotient(Sum(words));
    SumUpdate(words, k, w);
    var m := VerifiesQuotient(words[k := w]);
    TwoResidues(Fold(Sum(words)), w, m - q);
  }

  lemma TwoResidues(f: u16, w: u16, n: int)
    requires f + w == 65535 * n && !(f == 0 && w == 0)
    ensures w == 65535 - f || (w == 65535 && f == 65535)
  {
  }

  // ---------- byte order ----------

  function Swapped(w: u16): u16 { w % 256 * 256 + w / 256 }

  function SwapAll(words: seq<u16>): (r: seq<u16>)
    ensures |r| == |words| && forall i | 0 <= i < |r| :: r[i] == Swapped(words[i])
  {
    if words == [] then [] else SwapAll(words[..|words| - 1]) + [Swapped(words[|words| - 1])]
  }

  lemma SwapOne(w: u16)
    ensures var n: int := w; 256 * n == Swapped(w) + 65535 * (w / 256)
    ensures w == 0 <==> Swapped(w) == 0
  {
  }

  lemma {:induction false} SwapSum(words: seq<u16>) returns (q: nat)
    ensures 256 * Sum(words) == Sum(SwapAll(words)) + 65535 * q
    ensures Sum(words) == 0 <==> Sum(SwapAll(words)) == 0
  {
    if words == [] {
      q := 0;
    } else {
      var n := |words| - 1;
      var p := SwapSum(words[..n]);
      var w := words[n];
      assert SwapAll(words)[..n] == SwapAll(words[..n]);
      SwapOne(w);
      q := p + w / 256;
    }
  }

  // Whether data verifies does not depend on the byte order it is summed in.
  lemma ByteOrderIndependent(words: seq<u16>)
    ensures Verifies(SwapAll(words)) <==> Verifies(words)
  {
    var q := SwapSum(words);
    var s: int, t: int := Sum(words), Sum(SwapAll(words));
    if Verifies(words) {
      var m := VerifiesQuotient(words);
      QuotientVerifies(SwapAll(words), 256 * m - q);
    }
    if Verifies(SwapAll(words)) {
      var m := VerifiesQuotient(SwapAll(words));
      assert 256 * s == 65535 * (m + q);
      assert s == 65535 * (256 * (m + q) - s);
      QuotientVerifies(words, 256 * (m + q) - s);
    }
  }

  // ---------- incremental update ----------

  // CALC_SUMD on two 16-bit values, in the unsigned arithmetic of its operands.
  function CalcSumd(s1: u16, s2: u16): u32 {
    var s2' := if s1 > s2 then (if s2 == 0 then 65535 else s2 - 1) else s2;
    var sd := if s2' >= s1 then s2' - s1 else s2' - s1 + TWO32;
    sd % 0x1_0000 + sd / 0x1_0000
  }

  lemma SumdIsDifference(s1: u16, s2: u16)
    ensures CalcSumd(s1, s2) < 0x2_0000
    ensures CalcSumd(s1, s2) == s2 - s1 + 65535 * SumdCarry(s1, s2)
  {
    if s1 > s2 && s2 > 0 {
      var sd := s2 - 1 - s1 + TWO32;
      assert sd / 0x1_0000 == 65535 && sd % 0x1_0000 == 65536 + s2 - 1 - s1;
    }
  }

  function SumdCarry(s1: u16, s2: u16): nat {
    if s1 <= s2 then 0 else if s2 == 0 then 1 else 2
  }

  // ipf_updateipid on the header words in network order: ip_id is word 2, ip_sum word 5.
  method UpdateIpId(header: seq<u16>, id: u16) returns (out: seq<u16>)
    requires |header| >= 10
    ensures |out| == |header| && out[2] == id
    ensures forall i | 0 <= i < |header| && i != 2 && i != 5 :: out[i] == header[i]
    ensures header[0] > 0 ==> (Verifies(out) <==> Verifies(header))
  {
    var ido := header[2];
    if id == ido {
      return header;
    }
    out := header[2 := id];
    var sumd := CalcSumd(ido, id);
    SumdIsDifference(ido, id);
    var sum: nat := 65535 - header[5];
    sum := sum + sumd;
    ghost var total := sum;
    sum := sum / 0x1_0000 + sum % 0x1_0000;
    sum := sum / 0x1_0000 + sum % 0x1_0000;
    var sums: u16 := 65535 - sum % 0x1_0000;
    out := out[5 := sums];
    UpdatedVerifies(header, id, sumd, total, sums, SumdCarry(ido, id));
  }

  // RFC 1624: adding the change to the complement of the old checksum.
  lemma UpdatedVerifies(header: seq<u16>, id: u16, sumd: nat, total: nat, sums: u16, c: nat)
    requires |header| >= 10 && sumd < 0x2_0000 && sumd == id - header[2] + 65535 * c
    requires total == 65535 - header[5] + sumd
    requires var x := total / 0x1_0000 + total % 0x1_0000;
      var y := x / 0x1_0000 + x % 0x1_0000; sums == 65535 - y % 0x1_0000
    ensures header[0] > 0 ==> (Verifies(header[2 := id][5 := sums]) <==> Verifies(header))
  {
    var out := header[2 := id][5 := sums];
    var p := TwoFolds(total);
    SumUpdate(header, 2, id);
    SumUpdate(header[2 := id], 5, sums);
    assert sums == 65535 - total + 65535 * p;
    SumAtLeast(header, 0);
    SumAtLeast(out, 0);
    if header[0] > 0 { SameResidue(header, out, p - c); }
  }

  lemma SameResidue(a: seq<u16>, b: seq<u16>, k: int)
    requires Sum(b) == Sum(a) + 65535 * k && Sum(a) > 0 && Sum(b) > 0
    ensures Verifies(b) <==> Verifies(a)
  {
    var p := VerifiesQuotient(a);
    var q := VerifiesQuotient(b);
    if Verifies(a) { QuotientVerifies(b, p + k); }
    if Verifies(b) { QuotientVerifies(a, q - k); }
  }

  lemma TwoFolds(total: nat) returns (p: nat)
    requires total < 0x3_0000
    ensures var x := total / 0x1_0000 + total % 0x1_0000;
      var y := x / 0x1_0000 + x % 0x1_0000; y < 0x1_0000 && total == y + 65535 * p
  {
    var x := total / 0x1_0000 + total % 0x1_0000;
    p := total / 0x1_0000 + x / 0x1_0000;
  }

  lemma {:induction false} SumAtLeast(words: seq<u16>, k: nat)
    requires k < |words|
    ensures Sum(words) >= words[k]
  {
    if k < |words| - 1 { SumAtLeast(words[..|words| - 1], k); }
  }
}
