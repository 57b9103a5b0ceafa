// Matching the questions of a DNS reply against the stored query: check_answers
// (dns-proxy/main.c).

module DnsAnswers {
  datatype QType = Question | Answer | NameServer | Additional | Matched
  datatype Rec = Rec(name: string, qtype: QType)
  datatype Action = Allow | NoMatch | Block | Reject

  // The names still to be matched, with repetition.
  function Questions(recs: seq<Rec>): multiset<string> {
    if recs == [] then multiset{}
    else Questions(recs[..|recs| - 1]) + OfOne(recs[|recs| - 1])
  }

  function OfOne(r: Rec): multiset<string> {
    if r.qtype == Question then multiset{r.name} else multiset{}
  }

  lemma Beside<T>(a: multiset<T>, b: multiset<T>, c: multiset<T>, d: multiset<T>, e: multiset<T>)
    requires a + b == c + d
    ensures (a + e) + b == (c + e) + d
  {
    assert (a + e) + b == (a + b) + e && (c + e) + d == (c + d) + e;
  }

  lemma QuestionsLast(recs: seq<Rec>, r: Rec)
    ensures Questions(recs + [r]) == Questions(recs) + OfOne(r)
  {
    assert (recs + [r])[..|recs|] == recs;
  }

  lemma {:induction false} QuestionsUpdate(recs: seq<Rec>, k: nat, r: Rec)
    requires k < |recs|
    ensures Questions(recs[k := r]) + OfOne(recs[k]) == Questions(recs) + OfOne(r)
  {
    var n := |recs| - 1;
    var front, last := recs[..n], recs[n];
    assert recs == front + [last];
    if k < n {
      assert recs[k := r] == front[k := r] + [last] && recs[k] == front[k];
      QuestionsUpdate(front, k, r);
      UpdateFront(front, front[k := r], last, front[k], r);
    } else {
      assert recs[k := r] == front + [r];
      UpdateLast(front, last, r);
    }
  }

  lemma UpdateFront(front: seq<Rec>, front': seq<Rec>, last: Rec, was: Rec, now: Rec)
    requires Questions(front') + OfOne(was) == Questions(front) + OfOne(now)
    ensures Questions(front' + [last]) + OfOne(was) == Questions(front + [last]) + OfOne(now)
  {
    QuestionsLast(front, last);
    QuestionsLast(front', last);
    Beside(Questions(front'), OfOne(was), Questions(front), OfOne(now), OfOne(last));
  }

  lemma UpdateLast(front: seq<Rec>, last: Rec, r: Rec)
    ensures Questions(front + [r]) + OfOne(last) == Questions(front + [last]) + OfOne(r)
  {
    QuestionsLast(front, last);
    QuestionsLast(front, r);
    Swapped(Questions(front), OfOne(r), OfOne(last));
  }

  lemma Swapped<T>(a: multiset<T>, b: multiset<T>, c: multiset<T>)
    ensures (a + b) + c == (a + c) + b
  {
  }

  lemma {:induction false} QuestionsMembers(recs: seq<Rec>, name: string)
    ensures name in Questions(recs) <==> exists i :: 0 <= i < |recs| && recs[i] == Rec(name, Question)
  {
    if recs != [] {
      var n := |recs| - 1;
      QuestionsMembers(recs[..n], name);
      if i :| 0 <= i < |recs| && recs[i] == Rec(name, Question) {
        if i < n { assert recs[..n][i] == recs[i]; }
      }
      if i :| 0 <= i < n && recs[..n][i] == Rec(name, Question) {
        assert recs[i] == Rec(name, Question);
      }
    }
  }

  lemma NoQuestions(recs: seq<Rec>)
    ensures Questions(recs) == multiset{} <==> forall i | 0 <= i < |recs| :: recs[i].qtype != Question
  {
    if i :| 0 <= i < |recs| && recs[i].qtype == Question {
      QuestionsMembers(recs, recs[i].name);
      assert recs[i] == Rec(recs[i].name, Question);
    } else {
      assert forall name :: name !in Questions(recs) by {
        forall name ensures name !in Questions(recs) {
          QuestionsMembers(recs, name);
        }
      }
    }
  }

  function Marked(r: Rec): Rec { r.(qtype := Matched) }

  lemma MarkUpdate(recs: seq<Rec>, k: nat)
    requires k < |recs| && recs[k].qtype == Question
    ensures Questions(recs[k := Marked(recs[k])]) + multiset{recs[k].name} == Questions(recs)
  {
    QuestionsUpdate(recs, k, Marked(recs[k]));
    assert OfOne(Marked(recs[k])) == multiset{} && Questions(recs) + multiset{} == Questions(recs);
  }

  // Only questions have been marked.
  ghost predicate MarkedFrom(before: seq<Rec>, after: seq<Rec>) {
    && |before| == |after|
    && forall i | 0 <= i < |after| :: after[i] == before[i] || (before[i].qtype == Question && after[i] == Marked(before[i]))
  }

  // The inner loop: the first unmatched question of this name.
  method FindQuestion(recs: array<Rec>, name: string) returns (j: int)
    ensures -1 <= j < recs.Length
    ensures j >= 0 ==> recs[j] == Rec(name, Question)
    ensures j == -1 ==> name !in Questions(recs[..])
  {
    for i := 0 to recs.Length
      invariant forall n | 0 <= n < i :: recs[n] != Rec(name, Question)
    {
      if recs[i].qtype == Question && recs[i].name == name {
        return i;
      }
    }
    QuestionsMembers(recs[..], name);
    return -1;
  }

  // Questions seen so far have been paired off one to one.
  ghost predicate Balanced(q0: seq<Rec>, r0: seq<Rec>, q: seq<Rec>, r: seq<Rec>) {
    && MarkedFrom(q0, q) && MarkedFrom(r0, r)
    && Questions(r0) + Questions(q) == Questions(q0) + Questions(r)
  }

  lemma MarkOne(before: seq<Rec>, after: seq<Rec>, k: nat)
    requires MarkedFrom(before, after) && k < |after| && after[k].qtype == Question
    ensures MarkedFrom(before, after[k := Marked(after[k])])
  {
    var next := after[k := Marked(after[k])];
    forall i | 0 <= i < |next|
      ensures next[i] == before[i] || (before[i].qtype == Question && next[i] == Marked(before[i]))
    {
      assert after[i] == before[i] || (before[i].qtype == Question && after[i] == Marked(before[i]));
    }
  }

  lemma PairNames(q: seq<Rec>, r: seq<Rec>, j: nat, i: nat, a: multiset<string>, b: multiset<string>)
    requires j < |q| && i < |r| && q[j].qtype == Question && r[i] == q[j]
    requires a + Questions(q) == b + Questions(r)
    ensures a + Questions(q[j := Marked(q[j])]) == b + Questions(r[i := Marked(r[i])])
  {
    MarkUpdate(q, j);
    MarkUpdate(r, i);
    TakeOne(a, b, Questions(q), Questions(r),
            Questions(q[j := Marked(q[j])]), Questions(r[i := Marked(r[i])]), multiset{q[j].name});
  }

  lemma PairOff(q0: seq<Rec>, r0: seq<Rec>, q: seq<Rec>, r: seq<Rec>, j: nat, i: nat)
    requires Balanced(q0, r0, q, r) && j < |q| && i < |r|
    requires q[j].qtype == Question && r[i] == q[j]
    ensures Balanced(q0, r0, q[j := Marked(q[j])], r[i := Marked(r[i])])
  {
    MarkOne(q0, q, j);
    MarkOne(r0, r, i);
    PairNames(q, r, j, i, Questions(r0), Questions(q0));
  }

  lemma TakeOne<T>(a: multiset<T>, b: multiset<T>, q: multiset<T>, r: multiset<T>,
                   q': multiset<T>, r': multiset<T>, one: multiset<T>)
    requires a + q == b + r && q' + one == q && r' + one == r
    ensures a + q' == b + r'
  {
    forall x ensures (a + q')[x] == (b + r')[x] {
      assert (a + q)[x] == (b + r)[x] && (q' + one)[x] == q[x] && (r' + one)[x] == r[x];
    }
  }

  lemma Rest<T>(a: multiset<T>, b: multiset<T>, q: multiset<T>, r: multiset<T>)
    requires a + q == b + r
    ensures a == b <==> q == r
  {
    assert forall x :: a[x] + q[x] == (a + q)[x] && b[x] + r[x] == (b + r)[x];
    if a == b {
      forall x ensures q[x] == r[x] { assert (a + q)[x] == (b + r)[x]; }
    }
    if q == r {
      forall x ensures a[x] == b[x] { assert (a + q)[x] == (b + r)[x]; }
    }
  }

  // What is left over on either side shows whether the multisets were the same.
  lemma LeftOver(q0: seq<Rec>, r0: seq<Rec>, q: seq<Rec>, r: seq<Rec>)
    requires Balanced(q0, r0, q, r)
    ensures Questions(r0) == Questions(q0) <==> Questions(q) == Questions(r)
  {
    Rest(Questions(r0), Questions(q0), Questions(q), Questions(r));
  }

  // Blocks exactly when the questions of the reply are not those of the query, each as
  // often; otherwise every question on both sides is marked.
  method CheckAnswers(query: array<Rec>, reply: array<Rec>) returns (rc: Action)
    requires query != reply
    modifies query, reply
    ensures rc == NoMatch || rc == Block
    ensures rc == Block <==> Questions(old(reply[..])) != Questions(old(query[..]))
    ensures MarkedFrom(old(query[..]), query[..]) && MarkedFrom(old(reply[..]), reply[..])
    ensures rc == NoMatch ==> Questions(query[..]) == Questions(reply[..]) == multiset{}
  {
    ghost var q0, r0 := query[..], reply[..];
    var all := MatchReply(query, reply, q0, r0);
    LeftOver(q0, r0, query[..], reply[..]);
    if !all {
      return Block;
    }
    NoQuestions(query[..]);
    rc := NoMatch;
    for j := 0 to query.Length
      invariant rc == NoMatch && forall n | 0 <= n < j :: query[n].qtype != Question
    {
      if query[j].qtype == Question {
        rc := Block;
        break;
      }
    }
  }

  // The two nested loops: pair off the reply's questions, until one has no partner.
  method MatchReply(query: array<Rec>, reply: array<Rec>, ghost q0: seq<Rec>, ghost r0: seq<Rec>) returns (all: bool)
    requires query != reply && q0 == query[..] && r0 == reply[..]
    modifies query, reply
    ensures Balanced(q0, r0, query[..], reply[..])
    ensures all ==> Questions(reply[..]) == multiset{}
    ensures !all ==> Questions(reply[..]) != Questions(query[..])
  {
    for i := 0 to reply.Length
      invariant Balanced(q0, r0, query[..], reply[..])
      invariant forall n | 0 <= n < i :: reply[n].qtype != Question
    {
      all := MatchOne(query, reply, i, q0, r0);
      if !all {
        return;
      }
    }
    NoQuestions(reply[..]);
    return true;
  }

  // One record of the reply: if it is a question, it needs a partner.
  method MatchOne(query: array<Rec>, reply: array<Rec>, i: nat, ghost q0: seq<Rec>, ghost r0: seq<Rec>) returns (found: bool)
    requires query != reply && i < reply.Length && Balanced(q0, r0, query[..], reply[..])
    modifies query, reply
    ensures Balanced(q0, r0, query[..], reply[..])
    ensures found ==> reply[i].qtype != Question && forall n | 0 <= n < reply.Length && n != i :: reply[n] == old(reply[n])
    ensures !found ==> Questions(reply[..]) != Questions(query[..])
  {
    if reply[i].qtype != Question {
      return true;
    }
    ghost var q, r := query[..], reply[..];
    var j := FindQuestion(query, reply[i].name);
    if j == -1 {
      Unpaired(q, r, i);
      return false;
    }
    PairOff(q0, r0, q, r, j, i);
    MarkBoth(query, j, reply, i);
    return true;
  }

  lemma Unpaired(q: seq<Rec>, r: seq<Rec>, i: nat)
    requires i < |r| && r[i].qtype == Question && r[i].name !in Questions(q)
    ensures Questions(r) != Questions(q)
  {
    QuestionsMembers(r, r[i].name);
    assert r[i] == Rec(r[i].name, Question);
  }

  method MarkBoth(query: array<Rec>, j: nat, reply: array<Rec>, i: nat)
    requires query != reply && j < query.Length && i < reply.Length
    modifies query, reply
    ensures query[..] == old(query[..])[j := Marked(old(query[j]))]
    ensures reply[..] == old(reply[..])[i := Marked(old(reply[i]))]
  {
    query[j] := Marked(query[j]);
    reply[i] := Marked(reply[i]);
  }
}
