// Reading a domain name out of a packet: get_name (dns-proxy/main.c), with compression
// pointers (section 4.1.4 of RFC 1035). Memory is total: the length byte of a label is
// read before any bound is looked at, exactly as in the program.

module DnsName {
  type Byte = b: int | 0 <= b < 256
  type Label = seq<Byte>

  const DOT: Byte := 46
  const COMPRESSED: int := 192   // both top bits of the length byte set

  // Memory, the packet's first byte and the end of the bytes a name may use.
  datatype Packet = Packet(mem: int -> Byte, base: int, end: int) {
    function At(i: int): Byte { mem(i) }
    function Bytes(s: int, n: nat): (r: seq<Byte>)
      ensures |r| == n
    {
      seq<Byte>(n, i => At(s + i))
    }
    // Where the pointer at s leads.
    function Target(s: int): int { base + At(s) % 64 * 256 + At(s + 1) }
  }

  // The value returned, and the bytes left at the front of the buffer.
  datatype Outcome = Outcome(ret: int, out: seq<Byte>)

  // The loop's variables: the place in the packet, what the length allows, the room left
  // in the buffer, and what has been written.
  datatype Cursor = Cursor(s: int, slen: int, blen: nat, out: seq<Byte>)

  function Decode(p: Packet, start: int, buflen: int): Outcome
    decreases buflen, 0
  {
    if buflen <= 0 then Outcome(0, [])
    else if buflen == 1 then Outcome(0, [0])
    else if p.At(start) == 0 then Outcome(1, [DOT, 0])
    else Labels(p, start, First(p, start, buflen - 1))
  }

  function First(p: Packet, start: int, room: nat): Cursor { Cursor(start, p.end - start, room, []) }

  predicate Started(p: Packet, c: Cursor) { p.At(c.s) == 0 ==> c.out != [] }

  // The loop from a cursor on.
  function Labels(p: Packet, start: int, c: Cursor): Outcome
    requires Started(p, c)
    decreases c.blen, 1
  {
    var n := p.At(c.s);
    if n == 0 then Outcome(c.s + 1 - start, c.out[..|c.out| - 1] + [0])
    else if n >= COMPRESSED then
      if c.slen < 2 || p.Target(c.s) > p.end then Outcome(0, c.out)
      else Outcome(2, c.out + Decode(p, p.Target(c.s), c.blen).out)
    else if n > c.slen || n + 1 > c.blen then Outcome(0, c.out)
    else Labels(p, start, Past(c, p.Bytes(c.s + 1, n)))
  }

  // The cursor behind one label.
  function Past(c: Cursor, l: Label): Cursor
    requires |l| + 1 <= c.blen
  {
    Cursor(c.s + 1 + |l|, c.slen - |l|, c.blen - (|l| + 1), c.out + (l + [DOT]))
  }

  // Nothing is written past the buffer, whatever the packet holds, and the chain of
  // pointers is followed only as long as there is room: buflen bounds the recursion.
  lemma {:induction false} DecodeFits(p: Packet, start: int, buflen: int)
    ensures |Decode(p, start, buflen).out| <= if buflen < 0 then 0 else buflen
    decreases buflen, 0
  {
    if buflen > 1 && p.At(start) != 0 {
      LabelsFit(p, start, First(p, start, buflen - 1));
    }
  }

  lemma {:induction false} LabelsFit(p: Packet, start: int, c: Cursor)
    requires Started(p, c)
    ensures |Labels(p, start, c).out| <= |c.out| + c.blen
    decreases c.blen, 1
  {
    var n := p.At(c.s);
    if n >= COMPRESSED {
      DecodeFits(p, p.Target(c.s), c.blen);
    } else if 0 < n <= c.slen && n + 1 <= c.blen {
      LabelsFit(p, start, Past(c, p.Bytes(c.s + 1, n)));
    }
  }

  // now is was with out written at off.
  ghost predicate Wrote(was: seq<Byte>, now: seq<Byte>, off: nat, out: seq<Byte>) {
    && off + |out| <= |was|
    && now == was[..off] + out + was[off + |out|..]
  }

  lemma WroteMore(a: seq<Byte>, b: seq<Byte>, c: seq<Byte>, off: nat, x: seq<Byte>, y: seq<Byte>)
    requires Wrote(a, b, off, x) && Wrote(b, c, off + |x|, y)
    ensures Wrote(a, c, off, x + y)
  {
    assert b[..off + |x|] == a[..off] + x;
    assert b[off + |x| + |y|..] == a[off + |x| + |y|..];
    assert c == a[..off] + (x + y) + a[off + |x + y|..];
  }

  lemma WroteOver(a: seq<Byte>, b: seq<Byte>, off: nat, x: seq<Byte>)
    requires Wrote(a, b, off, x) && x != []
    ensures |b| == |a| && Wrote(a, b[off + |x| - 1 := 0], off, x[..|x| - 1] + [0])
  {
    var x' := x[..|x| - 1] + [0];
    assert b[off + |x| - 1 := 0] == a[..off] + x' + a[off + |x'|..];
  }

  // The copy of one label, and the dot behind it.
  method CopyLabel(p: Packet, from: int, n: nat, buffer: array<Byte>, t: nat)
    requires t + n + 1 <= buffer.Length
    modifies buffer
    ensures Wrote(old(buffer[..]), buffer[..], t, p.Bytes(from, n) + [DOT])
  {
    for i := 0 to n
      invariant forall k | t <= k < t + i :: buffer[k] == p.At(from + (k - t))
      invariant forall k | 0 <= k < buffer.Length && (k < t || t + i <= k) :: buffer[k] == old(buffer[k])
    {
      buffer[t + i] := p.At(from + i);
    }
    buffer[t + n] := DOT;
    ghost var out := p.Bytes(from, n) + [DOT];
    assert buffer[..] == old(buffer[..])[..t] + out + old(buffer[..])[t + |out|..];
  }

  // The loop's work on one label.
  method TakeLabel(p: Packet, start: int, ghost c: Cursor, s: int, n: nat, buffer: array<Byte>, off: nat, t: nat,
                   ghost was: seq<Byte>)
    returns (ghost c': Cursor)
    requires s == c.s && 0 < n == p.At(s) < COMPRESSED && n <= c.slen && n + 1 <= c.blen && t == off + |c.out|
    requires t + n + 1 <= buffer.Length && Wrote(was, buffer[..], off, c.out)
    modifies buffer
    ensures c' == Past(c, p.Bytes(s + 1, n)) && c'.out != []
    ensures Labels(p, start, c) == Labels(p, start, c') && Wrote(was, buffer[..], off, c'.out)
  {
    ghost var now := buffer[..];
    CopyLabel(p, s + 1, n, buffer, t);
    WroteMore(was, now, buffer[..], off, c.out, p.Bytes(s + 1, n) + [DOT]);
    c' := Past(c, p.Bytes(s + 1, n));
  }

  // get_name on buflen bytes of the buffer from off on.
  method GetName(p: Packet, start: int, buffer: array<Byte>, off: nat, buflen: int) returns (ret: int)
    requires off <= buffer.Length && off + buflen <= buffer.Length
    modifies buffer
    ensures ret == Decode(p, start, buflen).ret
    ensures Wrote(old(buffer[..]), buffer[..], off, Decode(p, start, buflen).out)
    decreases buflen, 0
  {
    if buflen <= 0 {
      return 0;
    }
    if buflen == 1 {
      buffer[off] := 0;
      return 0;
    }
    if p.At(start) == 0 {
      buffer[off], buffer[off + 1] := DOT, 0;
      return 1;
    }
    ret := ReadFrom(p, start, buffer, off, buflen - 1);
  }

  // Its loop, entered with room for that many bytes and the terminator.
  method ReadFrom(p: Packet, start: int, buffer: array<Byte>, off: nat, room: nat) returns (ret: int)
    requires p.At(start) != 0 && off + room + 1 <= buffer.Length
    modifies buffer
    ensures ret == Labels(p, start, First(p, start, room)).ret
    ensures Wrote(old(buffer[..]), buffer[..], off, Labels(p, start, First(p, start, room)).out)
    decreases room, 2
  {
    ghost var was := buffer[..];
    ghost var c, all := First(p, start, room), Labels(p, start, First(p, start, room));
    var s, slen, blen, t := start, p.end - start, room, off;
    while p.At(s) != 0
      invariant 0 <= blen <= room && c.s == s && c.slen == slen && c.blen == blen
      invariant t == off + |c.out| && |c.out| + blen == room
      invariant Wrote(was, buffer[..], off, c.out)
      invariant Started(p, c) && Labels(p, start, c) == all
      decreases blen
    {
      var n := p.At(s);
      if n >= COMPRESSED {
        ret := Follow(p, start, s, slen, blen, buffer, off, t, c, was);
        return;
      }
      if n > slen || n + 1 > blen {
        return 0;
      }
      c := TakeLabel(p, start, c, s, n, buffer, off, t, was);
      s, slen, blen, t := s + 1 + n, slen - n, blen - (n + 1), t + n + 1;
    }
    ret := Finish(p, start, s, buffer, off, t, c, was);
  }

  // The zero byte: the last dot becomes the terminator.
  method Finish(p: Packet, start: int, s: int, buffer: array<Byte>, off: nat, t: nat, ghost c: Cursor, ghost was: seq<Byte>)
    returns (ret: int)
    requires p.At(s) == 0 && c.s == s && c.out != [] && t == off + |c.out|
    requires t <= buffer.Length && Wrote(was, buffer[..], off, c.out)
    modifies buffer
    ensures ret == Labels(p, start, c).ret && Wrote(was, buffer[..], off, Labels(p, start, c).out)
  {
    WroteOver(was, buffer[..], off, c.out);
    ghost var now := buffer[..];
    buffer[t - 1] := 0;
    assert buffer[..] == now[t - 1 := 0];
    return s + 1 - start;
  }

  // The rest of the loop's work at a pointer.
  method Follow(p: Packet, start: int, s: int, slen: int, blen: nat, buffer: array<Byte>, off: nat, t: nat,
                ghost c: Cursor, ghost was: seq<Byte>)
    returns (ret: int)
    requires p.At(s) >= COMPRESSED && c.s == s && c.slen == slen && c.blen == blen && t == off + |c.out|
    requires t + blen <= buffer.Length && Wrote(was, buffer[..], off, c.out)
    modifies buffer
    ensures ret == Labels(p, start, c).ret && Wrote(was, buffer[..], off, Labels(p, start, c).out)
    decreases blen, 1
  {
    if slen < 2 || p.Target(s) > p.end {
      return 0;
    }
    ghost var now := buffer[..];
    var _ := GetName(p, p.Target(s), buffer, t, blen);
    WroteMore(was, now, buffer[..], off, c.out, Decode(p, p.Target(s), blen).out);
    return 2;
  }

  // ----- What the bytes of a packet say -----

  // The labels lie at s, each behind its length byte.
  ghost predicate LabelsAt(p: Packet, s: int, labels: seq<Label>)
    decreases |labels|
  {
    labels == [] || (LabelAt(p, s, labels[0]) && LabelsAt(p, s + 1 + |labels[0]|, labels[1..]))
  }

  ghost predicate LabelAt(p: Packet, s: int, l: Label) {
    1 <= |l| < 192 && p.At(s) == |l| && p.Bytes(s + 1, |l|) == l
  }

  // The labels with a dot behind each.
  function Dotted(labels: seq<Label>): seq<Byte> {
    if labels == [] then [] else (labels[0] + [DOT]) + Dotted(labels[1..])
  }

  function Letters(labels: seq<Label>): nat {
    if labels == [] then 0 else |labels[0]| + Letters(labels[1..])
  }

  lemma {:induction false} DottedLength(labels: seq<Label>)
    ensures |Dotted(labels)| == Letters(labels) + |labels|
  {
    if labels != [] { DottedLength(labels[1..]); }
  }

  // A name as a packet lays it out: its labels, then the zero byte or a pointer onwards.
  datatype Chain = Ends(labels: seq<Label>) | Follows(labels: seq<Label>, rest: Chain)

  ghost predicate Laid(p: Packet, s: int, name: Chain)
    decreases name
  {
    var e := s + |Dotted(name.labels)|;
    && LabelsAt(p, s, name.labels)
    && match name
       case Ends(_) => p.At(e) == 0
       case Follows(_, rest) => p.At(e) >= COMPRESSED && Laid(p, p.Target(e), rest)
  }

  // The text of a name: its labels joined by dots, and a lone dot for the root.
  function Text(name: Chain): seq<Byte> {
    match name
    case Ends(labels) => if labels == [] then [DOT] else Joined(labels)
    case Follows(labels, rest) => Dotted(labels) + Text(rest)
  }

  function Joined(labels: seq<Label>): seq<Byte>
    requires labels != []
  {
    if |labels| == 1 then labels[0] else labels[0] + [DOT] + Joined(labels[1..])
  }

  lemma {:induction false} DottedJoined(labels: seq<Label>)
    requires labels != []
    ensures Dotted(labels) == Joined(labels) + [DOT]
  {
    if |labels| > 1 {
      DottedJoined(labels[1..]);
    } else {
      assert Dotted(labels[1..]) == [];
    }
  }

  // The tests one piece has to pass: its letters, not counting length bytes, are no more than
  // the bytes of the packet, and the text leaves room for the terminator.
  predicate PieceFits(labels: seq<Label>, length: int, buflen: int) {
    buflen >= 2 && (labels == [] || Letters(labels) <= length) && |Dotted(labels)| < buflen
  }

  // With the two bytes of the pointer they are no more either, and it points inside.
  predicate PointerFits(p: Packet, s: int, labels: seq<Label>) {
    Letters(labels) + 2 <= p.end - s && p.Target(s + |Dotted(labels)|) <= p.end
  }

  // Every piece of a name is within reach.
  predicate Fits(p: Packet, s: int, buflen: int, name: Chain)
    decreases name
  {
    && PieceFits(name.labels, p.end - s, buflen)
    && (name.Follows? ==>
         && PointerFits(p, s, name.labels)
         && Fits(p, p.Target(s + |Dotted(name.labels)|), buflen - 1 - |Dotted(name.labels)|, name.rest))
  }

  // The cursor behind several labels.
  function PastAll(c: Cursor, labels: seq<Label>): Cursor
    requires |Dotted(labels)| <= c.blen
  {
    Cursor(c.s + |Dotted(labels)|, c.slen - Letters(labels), c.blen - |Dotted(labels)|, c.out + Dotted(labels))
  }

  lemma PastAllStep(c: Cursor, labels: seq<Label>)
    requires labels != [] && |Dotted(labels)| <= c.blen
    ensures |labels[0]| + 1 <= c.blen && |Dotted(labels[1..])| <= Past(c, labels[0]).blen
    ensures PastAll(c, labels) == PastAll(Past(c, labels[0]), labels[1..])
  {
    var one, rest := labels[0] + [DOT], Dotted(labels[1..]);
    assert c.out + (one + rest) == (c.out + one) + rest;
  }

  lemma PassLabel(p: Packet, start: int, c: Cursor, l: Label)
    requires LabelAt(p, c.s, l) && |l| <= c.slen && |l| + 1 <= c.blen
    ensures Labels(p, start, c) == Labels(p, start, Past(c, l))
  {
  }

  // The loop over labels that lie in the packet: it passes them all, or stops with 0.
  lemma {:induction false} PassLabels(p: Packet, start: int, c: Cursor, labels: seq<Label>)
    requires LabelsAt(p, c.s, labels) && Letters(labels) <= c.slen && |Dotted(labels)| <= c.blen
    requires Started(p, c)
    ensures Started(p, PastAll(c, labels))
    ensures Labels(p, start, c) == Labels(p, start, PastAll(c, labels))
    decreases |labels|
  {
    if labels == [] {
      assert PastAll(c, labels) == c;
    } else {
      PastAllStep(c, labels);
      PassLabel(p, start, c, labels[0]);
      PassLabels(p, start, Past(c, labels[0]), labels[1..]);
    }
  }

  lemma {:induction false} StopLabels(p: Packet, start: int, c: Cursor, labels: seq<Label>)
    requires LabelsAt(p, c.s, labels) && labels != []
    requires Letters(labels) > c.slen || |Dotted(labels)| > c.blen
    ensures Labels(p, start, c).ret == 0
    decreases |labels|
  {
    var l := labels[0];
    if |l| <= c.slen && |l| + 1 <= c.blen {
      assert labels[1..] != [];
      PassLabel(p, start, c, l);
      StopLabels(p, start, Past(c, l), labels[1..]);
    }
  }

  // A call that gets past its own labels ends with what is behind them.
  lemma PieceRead(p: Packet, start: int, buflen: int, labels: seq<Label>)
    requires LabelsAt(p, start, labels) && p.At(start) != 0 && (labels != [] || buflen >= 2)
    ensures PieceFits(labels, p.end - start, buflen) ==>
      var c := PastAll(First(p, start, buflen - 1), labels);
      c.out == Dotted(labels) && Started(p, c) && Decode(p, start, buflen) == Labels(p, start, c)
    ensures !PieceFits(labels, p.end - start, buflen) ==> Decode(p, start, buflen).ret == 0
  {
    DottedLength(labels);
    if PieceFits(labels, p.end - start, buflen) {
      var c := First(p, start, buflen - 1);
      assert c.out + Dotted(labels) == Dotted(labels);
      if labels == [] {
        assert PastAll(c, labels) == c;
      } else {
        PassLabels(p, start, c, labels);
      }
    } else if buflen > 1 {
      StopLabels(p, start, First(p, start, buflen - 1), labels);
    }
  }

  // An uncompressed name is read back whole exactly when it fits, and then the value
  // returned is its full length in the packet, zero byte included.
  lemma PlainName(p: Packet, start: int, buflen: int, labels: seq<Label>)
    requires labels != [] && Laid(p, start, Ends(labels))
    ensures PieceFits(labels, p.end - start, buflen) ==>
      Decode(p, start, buflen) == Outcome(|Dotted(labels)| + 1, Joined(labels) + [0])
    ensures !PieceFits(labels, p.end - start, buflen) ==> Decode(p, start, buflen).ret == 0
  {
    PieceRead(p, start, buflen, labels);
    DottedJoined(labels);
  }

  // Where a pointer leads: its two bytes, without the two top bits, are the offset from the
  // start of the packet, for every offset below 16384.
  lemma PointsTo(p: Packet, s: int, offset: nat)
    requires offset < 16384 && p.At(s) == 192 + offset / 256 && p.At(s + 1) == offset % 256
    ensures p.At(s) >= COMPRESSED && p.Target(s) == p.base + offset
  {
    assert (192 + offset / 256) % 64 == offset / 256;
  }

  // One pointer: 2 is returned when the piece before it fits and the pointer is inside
  // the packet, whatever becomes of the name it leads to.
  lemma PointerStep(p: Packet, start: int, buflen: int, labels: seq<Label>)
    requires LabelsAt(p, start, labels) && p.At(start + |Dotted(labels)|) >= COMPRESSED
    ensures var n := |Dotted(labels)|;
      if PieceFits(labels, p.end - start, buflen) && PointerFits(p, start, labels)
      then Decode(p, start, buflen) == Outcome(2, Dotted(labels) + Decode(p, p.Target(start + n), buflen - 1 - n).out)
      else Decode(p, start, buflen).ret == 0
  {
    if labels != [] || buflen >= 2 {
      PieceRead(p, start, buflen, labels);
    }
  }

  // A compressed name is read as the text of the whole chain when every piece fits.
  lemma {:induction false} ChainText(p: Packet, start: int, buflen: int, name: Chain)
    requires Laid(p, start, name) && Fits(p, start, buflen, name)
    ensures Decode(p, start, buflen).out == Text(name) + [0]
    decreases name
  {
    match name
    case Ends(labels) =>
      if labels != [] { PlainName(p, start, buflen, labels); }
    case Follows(labels, rest) =>
      var n := |Dotted(labels)|;
      PointerStep(p, start, buflen, labels);
      ChainText(p, p.Target(start + n), buflen - 1 - n, rest);
      assert Dotted(labels) + (Text(rest) + [0]) == Text(name) + [0];
  }

  // The bytes a name takes up where it stands.
  function WireLength(name: Chain): nat {
    |Dotted(name.labels)| + if name.Ends? then 1 else 2
  }

  // The value returned is that length, except for labels followed by a pointer.
  lemma ReturnsWireLength(p: Packet, start: int, buflen: int, name: Chain)
    requires Laid(p, start, name) && Fits(p, start, buflen, name)
    ensures Decode(p, start, buflen).ret == WireLength(name) <==> name.Ends? || name.labels == []
  {
    DottedLength(name.labels);
    match name
    case Ends(labels) =>
      if labels != [] { PlainName(p, start, buflen, labels); }
    case Follows(labels, _) =>
      PointerStep(p, start, buflen, labels);
  }

  // Reading succeeds only on a name: a value other than 0 and 2 comes with the labels
  // that lie there, and they are what was written.
  lemma OnlyNames(p: Packet, start: int, buflen: int) returns (labels: seq<Label>)
    requires Decode(p, start, buflen).ret !in {0, 2}
    ensures Laid(p, start, Ends(labels)) && PieceFits(labels, p.end - start, buflen)
    ensures Decode(p, start, buflen) == Outcome(|Dotted(labels)| + 1, Text(Ends(labels)) + [0])
  {
    labels := [];
    if p.At(start) != 0 {
      labels := ReadLabels(p, start, First(p, start, buflen - 1));
      assert Laid(p, start, Ends(labels)) && PieceFits(labels, p.end - start, buflen);
      PlainName(p, start, buflen, labels);
    }
  }

  lemma {:induction false} ReadLabels(p: Packet, start: int, c: Cursor) returns (labels: seq<Label>)
    requires Started(p, c)
    requires p.At(c.s) == 0 || Labels(p, start, c).ret !in {0, 2}
    ensures LabelsAt(p, c.s, labels) && p.At(c.s + |Dotted(labels)|) == 0
    ensures (labels == [] || Letters(labels) <= c.slen) && |Dotted(labels)| <= c.blen
    ensures labels == [] ==> p.At(c.s) == 0
    decreases c.blen
  {
    labels := [];
    if p.At(c.s) != 0 {
      var l := p.Bytes(c.s + 1, p.At(c.s));
      PassLabel(p, start, c, l);
      var rest := ReadLabels(p, start, Past(c, l));
      labels := [l] + rest;
      assert labels[1..] == rest;
    }
  }

  // The value returned stays within the bytes the call was given exactly when length bytes
  // and the zero byte are within them too, which is not what is tested.
  lemma StaysWithin(p: Packet, start: int, buflen: int) returns (labels: seq<Label>)
    requires Decode(p, start, buflen).ret !in {0, 2}
    ensures Laid(p, start, Ends(labels))
    ensures Decode(p, start, buflen).ret <= p.end - start <==> Letters(labels) + |labels| + 1 <= p.end - start
    ensures labels != [] ==> Decode(p, start, buflen).ret <= p.end - start + |labels| + 1
  {
    labels := OnlyNames(p, start, buflen);
    DottedLength(labels);
  }

  function Holding(bs: seq<Byte>, end: int): Packet {
    Packet(i => if 0 <= i < |bs| then bs[i] else 0, 0, end)
  }

  // One byte given, three read.
  lemma ReadsPast() returns (p: Packet)
    ensures p.end == 1 && Decode(p, 0, 10).ret == 3
  {
    p := Holding([1, 97, 0], 1);
    OneLabel(p, 0, [97], []);
    PlainName(p, 0, 10, [[97]] + []);
  }

  // "a" and then a pointer to "b": four bytes in the packet, and 2 is returned.
  lemma LabelThenPointer() returns (p: Packet, name: Chain)
    ensures Laid(p, 0, name) && WireLength(name) == 4 && Decode(p, 0, 10).ret == 2
  {
    p := Holding([1, 97, COMPRESSED, 4, 1, 98, 0], 10);
    var a, b := [97], [98];
    OneLabel(p, 4, b, []);
    OneLabel(p, 0, a, []);
    PointerChain(p, [a] + [], [b] + [], 4);
    name := Follows([a] + [], Ends([b] + []));
    PointerStep(p, 0, 10, [a] + []);
  }

  lemma PointerChain(p: Packet, labels: seq<Label>, rest: seq<Label>, at: int)
    requires LabelsAt(p, 0, labels) && p.At(|Dotted(labels)|) >= COMPRESSED && p.Target(|Dotted(labels)|) == at
    requires LabelsAt(p, at, rest) && p.At(at + |Dotted(rest)|) == 0
    ensures Laid(p, 0, Follows(labels, Ends(rest)))
  {
    assert Laid(p, at, Ends(rest));
  }

  // ----- Reading the text back -----

  // The text cut at its dots.
  function Split(text: seq<Byte>): (labels: seq<Label>)
    ensures labels != []
  {
    if text == [] then [[]]
    else
      var rest := Split(text[1..]);
      if text[0] == DOT then [[]] + rest else [[text[0]] + rest[0]] + rest[1..]
  }

  predicate DotFree(labels: seq<Label>) { forall i | 0 <= i < |labels| :: DOT !in labels[i] }

  lemma {:induction false} SplitPiece(l: Label, text: seq<Byte>)
    requires DOT !in l
    ensures Split(l + [DOT] + text) == [l] + Split(text)
  {
    if l == [] {
      assert (l + [DOT] + text)[1..] == text;
    } else {
      SplitPiece(l[1..], text);
      assert (l + [DOT] + text)[1..] == l[1..] + [DOT] + text;
      assert [l[0]] + l[1..] == l;
      assert ([l[1..]] + Split(text))[1..] == Split(text);
    }
  }

  lemma {:induction false} SplitLast(l: Label)
    requires DOT !in l
    ensures Split(l) == [l]
  {
    if l != [] {
      SplitLast(l[1..]);
      assert [l[0]] + l[1..] == l;
    }
  }

  lemma {:induction false} SplitDotFree(text: seq<Byte>)
    ensures DotFree(Split(text))
  {
    if text != [] { SplitDotFree(text[1..]); }
  }

  // The labels can be told from the text exactly when none of them holds a dot.
  lemma SplitJoined(labels: seq<Label>)
    requires labels != []
    ensures Split(Joined(labels)) == labels <==> DotFree(labels)
  {
    SplitDotFree(Joined(labels));
    if DotFree(labels) { SplitBack(labels); }
  }

  lemma {:induction false} SplitBack(labels: seq<Label>)
    requires labels != [] && DotFree(labels)
    ensures Split(Joined(labels)) == labels
  {
    if |labels| == 1 {
      SplitLast(labels[0]);
    } else {
      SplitPiece(labels[0], Joined(labels[1..]));
      SplitBack(labels[1..]);
    }
  }

  // Names read from two packets give the same text only if they are the same name.
  lemma SameTextSameName(p: Packet, p': Packet, s: int, s': int, buflen: int, labels: seq<Label>, labels': seq<Label>)
    requires labels != [] && labels' != [] && DotFree(labels) && DotFree(labels')
    requires Laid(p, s, Ends(labels)) && Laid(p', s', Ends(labels'))
    requires PieceFits(labels, p.end - s, buflen) && PieceFits(labels', p'.end - s', buflen)
    ensures Decode(p, s, buflen).out == Decode(p', s', buflen).out <==> labels == labels'
  {
    PlainName(p, s, buflen, labels);
    PlainName(p', s', buflen, labels');
    var j, j' := Joined(labels), Joined(labels');
    assert (j + [0])[..|j|] == j && (j' + [0])[..|j'|] == j';
    SplitJoined(labels);
    SplitJoined(labels');
  }

  // A dot inside a label is lost: "x.y" as one label reads like "x" and "y" as two, and
  // takes up as many bytes.
  lemma DotLost(p: Packet, p': Packet, s: int, s': int, buflen: int, x: Label, y: Label)
    requires Laid(p, s, Ends([x + [DOT] + y])) && Laid(p', s', Ends([x, y]))
    requires PieceFits([x + [DOT] + y], p.end - s, buflen) && PieceFits([x, y], p'.end - s', buflen)
    ensures Decode(p, s, buflen) == Decode(p', s', buflen)
  {
    PlainName(p, s, buflen, [x + [DOT] + y]);
    PlainName(p', s', buflen, [x, y]);
    assert [x, y][1..] == [y] && [y][1..] == [] && [x + [DOT] + y][1..] == [];
    assert Dotted([y]) == y + [DOT] + [] && Dotted([x + [DOT] + y]) == x + [DOT] + y + [DOT] + [];
  }

  lemma DottedLabelConfused() returns (p: Packet, p': Packet, labels: seq<Label>, labels': seq<Label>)
    ensures Laid(p, 0, Ends(labels)) && Laid(p', 0, Ends(labels')) && labels != labels'
    ensures Decode(p, 0, 10) == Decode(p', 0, 10) && Decode(p, 0, 10).ret != 0
  {
    p := Holding([3, 97, DOT, 98, 0], 10);
    p' := Holding([1, 97, 1, 98, 0], 10);
    labels, labels' := [[97] + [DOT] + [98]], [[97], [98]];
    LaidDotted(p);
    LaidTwo(p');
    DotLost(p, p', 0, 0, 10, [97], [98]);
    PlainName(p, 0, 10, labels);
  }

  lemma LaidDotted(p: Packet)
    requires p == Holding([3, 97, DOT, 98, 0], 10)
    ensures Laid(p, 0, Ends([[97] + [DOT] + [98]])) && PieceFits([[97] + [DOT] + [98]], 10, 10)
  {
    var l := [97] + [DOT] + [98];
    OneLabel(p, 0, l, []);
    assert [l] + [] == [l];
  }

  lemma LaidTwo(p: Packet)
    requires p == Holding([1, 97, 1, 98, 0], 10)
    ensures Laid(p, 0, Ends([[97], [98]])) && PieceFits([[97], [98]], 10, 10)
  {
    OneLabel(p, 2, [98], []);
    assert [[98]] + [] == [[98]];
    OneLabel(p, 0, [97], [[98]]);
    assert [[97]] + [[98]] == [[97], [98]];
  }

  lemma OneLabel(p: Packet, s: int, l: Label, rest: seq<Label>)
    requires 1 <= |l| < COMPRESSED && p.At(s) == |l| && (forall i | 0 <= i < |l| :: p.At(s + 1 + i) == l[i])
    requires LabelsAt(p, s + 1 + |l|, rest)
    ensures LabelsAt(p, s, [l] + rest)
    ensures |Dotted([l] + rest)| == |l| + 1 + |Dotted(rest)| && Letters([l] + rest) == |l| + Letters(rest)
  {
    assert ([l] + rest)[1..] == rest && p.Bytes(s + 1, |l|) == l;
  }
}
