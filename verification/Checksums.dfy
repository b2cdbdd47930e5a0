/** Internet checksum repair of a captured Ethernet frame (section 1 of RFC 1071), in place. */
module Checksums {
  import opened Words

  /** The largest frame the impairment tool retransmits. */
  const MAX_FRAME := 2048
  const ETH := 14
  const UDP := 17
  const TCP := 6

  // ---------------------------------------------------------------- one's complement sums

  /** A big-endian 16-bit word. */
  function Word(hi: int, lo: int): int {
    256 * hi + lo
  }

  /** Sum of big-endian 16-bit words; an odd last byte is padded with zero. */
  function WordSum(s: seq<byte>): nat {
    if s == [] then 0
    else if |s| == 1 then Word(s[0], 0)
    else Word(s[0], s[1]) + WordSum(s[2..])
  }

  /** Carries wrapped around until the value fits 16 bits. */
  function Fold(x: nat): (r: nat)
    ensures r <= 0xFFFF && (r == 0 <==> x == 0)
  {
    if x <= 0xFFFF then x else Fold(x % 0x1_0000 + x / 0x1_0000)
  }

  /** Folding preserves the value modulo 65535. */
  lemma {:induction false} FoldKeepsResidue(x: nat)
    ensures Fold(x) % 0xFFFF == x % 0xFFFF
    decreases x
  {
    if x > 0xFFFF {
      var q, r := x / 0x1_0000, x % 0x1_0000;
      FoldKeepsResidue(r + q);
      assert x == (r + q) + 0xFFFF * q;
      ResidueShift(r + q, q);
    }
  }

  lemma ResidueShift(x: int, q: int)
    ensures (x + 0xFFFF * q) % 0xFFFF == x % 0xFFFF
  {}

  /** The checksum over `s` on top of a partial sum. */
  function Checksum(s: seq<byte>, start: nat): uint16 {
    0xFFFF - Fold(start + WordSum(s))
  }

  /** A receiver finds no fault exactly if the sum, checksum included, is a positive multiple of 65535. */
  lemma VerifiesExactly(s: seq<byte>, start: nat)
    ensures Checksum(s, start) == 0 <==> start + WordSum(s) > 0 && (start + WordSum(s)) % 0xFFFF == 0
  {
    FoldKeepsResidue(start + WordSum(s));
  }

  lemma {:induction false} WordSumBound(s: seq<byte>)
    ensures WordSum(s) <= 0xFFFF * ((|s| + 1) / 2)
  {
    if |s| >= 2 {
      WordSumBound(s[2..]);
    }
  }

  lemma {:induction false} WordSumSplit(a: seq<byte>, b: seq<byte>)
    requires |a| % 2 == 0
    ensures WordSum(a + b) == WordSum(a) + WordSum(b)
  {
    if a == [] {
      assert a + b == b;
    } else {
      WordSumSplit(a[2..], b);
      assert (a + b)[2..] == a[2..] + b;
    }
  }

  /** The bytes as one big-endian number. */
  function Number(s: seq<byte>): nat {
    if s == [] then 0 else 256 * Number(s[..|s| - 1]) + s[|s| - 1]
  }

  /** The word sum is, modulo 65535, the big-endian number the bytes make, padded to whole words. */
  lemma {:induction false} WordSumIsNumber(s: seq<byte>)
    ensures |s| % 2 == 0 ==> WordSum(s) % 0xFFFF == Number(s) % 0xFFFF
    ensures |s| % 2 == 1 ==> WordSum(s) == WordSum(s + [0])
  {
    hide WordSum, Number;
    if |s| % 2 == 1 {
      OddSum(s[..|s| - 1], s[|s| - 1]);
      assert s == s[..|s| - 1] + [s[|s| - 1]] && s + [0] == s[..|s| - 1] + [s[|s| - 1], 0];
    } else if s == [] {
      NoBytes();
    } else {
      var n := |s|;
      var a, x, y := s[..n - 2], s[n - 2], s[n - 1];
      WordSumIsNumber(a);
      assert s == a + [x, y];
      NextWord(a, x, y);
      NumberStep(WordSum(a), Number(a), Word(x, y));
    }
  }

  lemma NoBytes()
    ensures WordSum([]) == 0 && Number([]) == 0
  {}

  lemma OddSum(a: seq<byte>, x: byte)
    requires |a| % 2 == 0
    ensures WordSum(a + [x]) == WordSum(a + [x, 0])
  {
    WordSumSplit(a, [x]);
    WordSumSplit(a, [x, 0]);
  }

  lemma NextWord(a: seq<byte>, x: byte, y: byte)
    requires |a| % 2 == 0
    ensures WordSum(a + [x, y]) == WordSum(a) + Word(x, y)
    ensures Number(a + [x, y]) == 0x1_0000 * Number(a) + Word(x, y)
  {
    WordSumSplit(a, [x, y]);
    var s := a + [x, y];
    assert s[..|s| - 1] == a + [x] && (a + [x])[..|a|] == a;
  }

  lemma NumberStep(w: nat, m: nat, v: int)
    requires w % 0xFFFF == m % 0xFFFF
    ensures (w + v) % 0xFFFF == (0x1_0000 * m + v) % 0xFFFF
  {
    var k := w / 0xFFFF - m / 0xFFFF;
    assert w == m + 0xFFFF * k;
    ResidueShift(m + v, k);
    ResidueShift(m + v, m);
  }

  /** So data, checksum included, verifies exactly if its big-endian number is a positive multiple of 65535. */
  lemma VerifiesByNumber(s: seq<byte>)
    requires |s| % 2 == 0
    ensures Checksum(s, 0) == 0 <==> Number(s) > 0 && Number(s) % 0xFFFF == 0
  {
    VerifiesExactly(s, 0);
    WordSumIsNumber(s);
    ZeroNumber(s);
  }

  lemma ZeroNumber(s: seq<byte>)
    ensures Number(s) == 0 <==> WordSum(s) == 0
  {
    NumberIsZero(s);
    WordSumIsZero(s);
  }

  lemma {:induction false} NumberIsZero(s: seq<byte>)
    ensures Number(s) == 0 <==> forall i :: 0 <= i < |s| ==> s[i] == 0
  {
    if s != [] {
      NumberIsZero(s[..|s| - 1]);
    }
  }

  lemma {:induction false} WordSumIsZero(s: seq<byte>)
    ensures WordSum(s) == 0 <==> forall i :: 0 <= i < |s| ==> s[i] == 0
  {
    if |s| >= 2 {
      WordSumIsZero(s[2..]);
      assert forall i :: 2 <= i < |s| ==> s[i] == s[2..][i - 2];
    }
  }

  /** ones_complement: the accumulator stays within 32 bits. */
  method OnesComplement(p: seq<byte>, start: uint32) returns (ck: uint16)
    requires |p| <= 0xFFFF && start <= 0xFFFF
    ensures ck == Checksum(p, start)
  {
    WordSumBound(p);
    var sum: uint32 := start;
    var i := 0;
    while i + 1 < |p|
      invariant 0 <= i <= |p| && sum + WordSum(p[i..]) == start + WordSum(p)
    {
      assert p[i..][2..] == p[i + 2..];
      sum := sum + Word(p[i], p[i + 1]);
      i := i + 2;
    }
    if i < |p| {
      sum := sum + Word(p[i], 0);
    }
    var folded := FoldCarries(sum);
    return 0xFFFF - folded;
  }

  /** The folding loop. */
  method FoldCarries(x: uint32) returns (r: uint16)
    ensures r == Fold(x)
  {
    var sum := x;
    while sum / 0x1_0000 > 0
      invariant Fold(sum) == Fold(x)
      decreases sum
    {
      sum := sum % 0x1_0000 + sum / 0x1_0000;
    }
    return sum;
  }

  // ---------------------------------------------------------------- repairing one field

  /** `s` with the word `v` at offset `o`. */
  function WithWord(s: seq<byte>, o: nat, v: uint16): (r: seq<byte>)
    requires o + 1 < |s|
    ensures |r| == |s|
  {
    s[o := v / 256][o + 1 := v % 256]
  }

  lemma {:induction false} WordSumWith(s: seq<byte>, o: nat, v: uint16)
    requires o + 1 < |s| && o % 2 == 0
    ensures WordSum(WithWord(s, o, v)) == WordSum(s) - Word(s[o], s[o + 1]) + v
  {
    if o == 0 {
      assert WithWord(s, o, v)[2..] == s[2..];
    } else {
      WordSumWith(s[2..], o - 2, v);
      assert WithWord(s, o, v)[2..] == WithWord(s[2..], o - 2, v);
    }
  }

  /** What is written into a zeroed checksum field: UDP avoids the value that means "none". */
  function FieldValue(s: seq<byte>, start: nat, avoidZero: bool): uint16 {
    if avoidZero && Checksum(s, start) == 0 then 0xFFFF else Checksum(s, start)
  }

  /** Writing the checksum into its zeroed field makes the whole verify. */
  lemma RepairVerifies(s: seq<byte>, o: nat, start: nat, avoidZero: bool)
    requires o + 1 < |s| && o % 2 == 0 && s[o] == 0 && s[o + 1] == 0
    ensures Checksum(WithWord(s, o, FieldValue(s, start, avoidZero)), start) == 0
  {
    var v, x := FieldValue(s, start, avoidZero), start + WordSum(s);
    WordSumWith(s, o, v);
    FoldKeepsResidue(x);
    VerifiesExactly(WithWord(s, o, v), start);
    SumIsMultiple(x, Fold(x));
  }

  lemma SumIsMultiple(x: nat, r: nat)
    requires r % 0xFFFF == x % 0xFFFF && r <= 0xFFFF
    ensures (x + (0xFFFF - r)) % 0xFFFF == 0
    ensures r == 0xFFFF ==> (x + 0xFFFF) % 0xFFFF == 0
  {}

  // ---------------------------------------------------------------- the frame

  /** Header length in bytes, from the low nibble of the first byte. */
  function Ihl(f: seq<byte>): nat
    requires |f| > ETH
  {
    4 * (f[ETH] % 16)
  }

  /** An IPv4 datagram whose header fits the frame. */
  predicate Ipv4(f: seq<byte>) {
    && |f| >= ETH + 20
    && Word(f[12], f[13]) == 0x0800
    && f[ETH] / 16 == 4
    && 20 <= Ihl(f) <= |f| - ETH
  }

  /** The datagram's own length, unless the frame is too short to hold it. */
  function IpLen(f: seq<byte>): nat
    requires Ipv4(f)
  {
    var claimed, avail := Word(f[ETH + 2], f[ETH + 3]), |f| - ETH;
    if Ihl(f) <= claimed <= avail then claimed else avail
  }

  function Header(f: seq<byte>): seq<byte>
    requires Ipv4(f)
  {
    f[ETH..ETH + Ihl(f)]
  }

  /** Offset of the transport segment, and the segment itself. */
  function Base(f: seq<byte>): nat
    requires Ipv4(f)
  {
    ETH + Ihl(f)
  }

  function Segment(f: seq<byte>): seq<byte>
    requires Ipv4(f)
  {
    f[Base(f)..ETH + IpLen(f)]
  }

  function Protocol(f: seq<byte>): int
    requires Ipv4(f)
  {
    f[ETH + 9]
  }

  /** Where the transport checksum sits in the segment, if there is one to repair. */
  function FieldAt(f: seq<byte>): int
    requires Ipv4(f)
  {
    if Protocol(f) == UDP && |Segment(f)| >= 8 then 6
    else if Protocol(f) == TCP && |Segment(f)| >= 20 then 16
    else -1
  }

  /** Source and destination addresses, protocol and segment length. */
  function Pseudo(f: seq<byte>): nat
    requires Ipv4(f)
  {
    WordSum(f[ETH + 12..ETH + 20]) + Protocol(f) + |Segment(f)|
  }

  /** The bytes a repair may change. */
  predicate Repairable(f: seq<byte>, p: int)
    requires Ipv4(f)
  {
    || p == ETH + 2 || p == ETH + 3 || p == ETH + 10 || p == ETH + 11
    || (FieldAt(f) >= 0 && (p == Base(f) + FieldAt(f) || p == Base(f) + FieldAt(f) + 1))
    || (FieldAt(f) == 6 && (p == Base(f) + 4 || p == Base(f) + 5))
  }

  method SetWord(f: array<byte>, at: nat, v: uint16)
    requires at + 1 < f.Length
    modifies f
    ensures f[..] == WithWord(old(f[..]), at, v)
  {
    f[at] := v / 256;
    f[at + 1] := v % 256;
  }

  /** Changing words of `f` outside `[lo, hi)` leaves that slice alone; inside, it changes the slice. */
  lemma SliceWithWord(f: seq<byte>, at: nat, v: uint16, lo: nat, hi: nat)
    requires at + 1 < |f| && lo <= hi <= |f|
    ensures hi <= at || at + 1 < lo ==> WithWord(f, at, v)[lo..hi] == f[lo..hi]
    ensures lo <= at && at + 1 < hi ==> WithWord(f, at, v)[lo..hi] == WithWord(f[lo..hi], at - lo, v)
  {}

  /** The IP half: total length and header checksum. */
  method FixHeader(f: array<byte>)
    requires Ipv4(f[..]) && f.Length <= MAX_FRAME
    modifies f
    ensures Ipv4(f[..]) && Ihl(f[..]) == old(Ihl(f[..])) && IpLen(f[..]) == old(IpLen(f[..]))
    ensures Word(f[ETH + 2], f[ETH + 3]) == IpLen(f[..])
    ensures Checksum(Header(f[..]), 0) == 0
    ensures forall p :: 0 <= p < f.Length && p !in {ETH + 2, ETH + 3, ETH + 10, ETH + 11} ==> f[p] == old(f[p])
  {
    var ihl, ipLen := Ihl(f[..]), IpLen(f[..]);
    SetWord(f, ETH + 2, ipLen);
    SetWord(f, ETH + 10, 0);
    ghost var zeroed := f[..];
    var h := f[ETH..ETH + ihl];
    var ck := OnesComplement(h, 0);
    SetWord(f, ETH + 10, ck);
    SliceWithWord(zeroed, ETH + 10, ck, ETH, ETH + ihl);
    RepairVerifies(h, 10, 0, false);
  }

  /** The pseudo-header sum. */
  method PseudoSum(f: array<byte>) returns (pseudo: uint16)
    requires Ipv4(f[..]) && f.Length <= MAX_FRAME
    ensures pseudo == Fold(Pseudo(f[..]))
  {
    hide Fold;
    var sum: uint32 := 0;
    var i := 12;
    WordSumBound(f[ETH + 12..ETH + 20]);
    while i < 20
      invariant 12 <= i <= 20 && i % 2 == 0
      invariant sum + WordSum(f[ETH + i..ETH + 20]) == WordSum(f[ETH + 12..ETH + 20])
    {
      assert f[ETH + i..ETH + 20][2..] == f[ETH + i + 2..ETH + 20];
      sum := sum + Word(f[ETH + i], f[ETH + i + 1]);
      i := i + 2;
    }
    sum := sum + f[ETH + 9];
    sum := sum + (IpLen(f[..]) - Ihl(f[..]));
    pseudo := FoldCarries(sum);
  }

  /** Everything about a frame but its segment's bytes is read off the bytes before the segment. */
  lemma SameHeader(f: seq<byte>, g: seq<byte>)
    requires Ipv4(f) && |g| == |f| && g[..Base(f)] == f[..Base(f)]
    ensures Ipv4(g) && Ihl(g) == Ihl(f) && IpLen(g) == IpLen(f) && Protocol(g) == Protocol(f)
    ensures Header(g) == Header(f) && Pseudo(g) == Pseudo(f) && FieldAt(g) == FieldAt(f)
  {
    assert forall p :: 0 <= p < Base(f) ==> g[p] == g[..Base(f)][p] == f[p];
    assert g[ETH + 12..ETH + 20] == f[ETH + 12..ETH + 20];
  }

  /** What the repaired segment promises, given the checksum written into the zeroed field. */
  ghost predicate SegmentRepaired(f: seq<byte>, g: seq<byte>)
    requires Ipv4(f)
  {
    && |g| == |f| && g[..Base(f)] == f[..Base(f)]
    && (forall p :: 0 <= p < |f| && !Repairable(f, p) ==> g[p] == f[p])
    && Ipv4(g) && IpLen(g) == IpLen(f) && FieldAt(g) == FieldAt(f) && Header(g) == Header(f)
    && Checksum(Segment(g), Fold(Pseudo(g))) == 0
    && (FieldAt(g) == 6 ==>
          var b := Base(g); Word(g[b + 4], g[b + 5]) == |Segment(g)| && Word(g[b + 6], g[b + 7]) != 0)
  }

  /** `z` is a repairable frame `f` with its checksum field zeroed and its length set. */
  ghost predicate ReadyForChecksum(f: seq<byte>, z: seq<byte>)
    requires Ipv4(f)
  {
    var b, at := Base(f), FieldAt(f);
    && at >= 0 && |f| <= MAX_FRAME && |z| == |f| && z[..b] == f[..b]
    && (forall p :: 0 <= p < |f| && !Repairable(f, p) ==> z[p] == f[p])
    && z[b + at] == 0 && z[b + at + 1] == 0
    && (at == 6 ==> Word(z[b + 4], z[b + 5]) == |Segment(f)|)
  }

  lemma FieldInside(f: seq<byte>, z: seq<byte>)
    requires Ipv4(f) && ReadyForChecksum(f, z)
    ensures |z| == |f| && Base(f) + FieldAt(f) + 1 < ETH + IpLen(f) <= |f| && FieldAt(f) >= 0
    ensures |Segment(f)| == ETH + IpLen(f) - Base(f)
  {}

  lemma FieldNotZero(s: seq<byte>, start: nat)
    ensures FieldValue(s, start, true) != 0
  {}

  lemma FieldKeeps(f: seq<byte>, z: seq<byte>, v: uint16)
    requires Ipv4(f) && ReadyForChecksum(f, z)
    ensures var b, at, g := Base(f), FieldAt(f), WithWord(z, Base(f) + FieldAt(f), v);
            && g[..b] == f[..b] && Word(g[b + at], g[b + at + 1]) == v
            && (forall p :: 0 <= p < |f| && !Repairable(f, p) ==> g[p] == f[p])
            && (at == 6 ==> Word(g[b + 4], g[b + 5]) == |Segment(f)|)
  {}

  lemma FieldVerifies(f: seq<byte>, z: seq<byte>, v: uint16)
    requires Ipv4(f) && ReadyForChecksum(f, z)
    requires v == FieldValue(z[Base(f)..ETH + IpLen(f)], Fold(Pseudo(f)), FieldAt(f) == 6)
    ensures var g := WithWord(z, Base(f) + FieldAt(f), v);
            Checksum(g[Base(f)..ETH + IpLen(f)], Fold(Pseudo(f))) == 0
  {
    hide Pseudo, WordSum, Fold, Checksum;
    var at, lo, hi := FieldAt(f), Base(f), ETH + IpLen(f);
    SliceWithWord(z, lo + at, v, lo, hi);
    RepairVerifies(z[lo..hi], at, Fold(Pseudo(f)), at == 6);
  }

  lemma FieldWritten(f: seq<byte>, z: seq<byte>, v: uint16)
    requires Ipv4(f) && ReadyForChecksum(f, z)
    requires v == FieldValue(z[Base(f)..ETH + IpLen(f)], Fold(Pseudo(f)), FieldAt(f) == 6)
    ensures SegmentRepaired(f, WithWord(z, Base(f) + FieldAt(f), v))
  {
    hide Pseudo, WordSum, Fold, Checksum, WithWord, Repairable, Ipv4, Ihl, IpLen, Header, FieldAt, FieldValue, Word;
    hide ReadyForChecksum;
    FieldInside(f, z);
    FieldNotZero(z[Base(f)..ETH + IpLen(f)], Fold(Pseudo(f)));
    FieldKeeps(f, z, v);
    FieldVerifies(f, z, v);
    SameHeader(f, WithWord(z, Base(f) + FieldAt(f), v));
  }

  /** The twelve bytes of the pseudo-header, section 3.1 of RFC 9293 and RFC 768. */
  function PseudoHeader(f: seq<byte>, n: nat): seq<byte>
    requires |f| >= 34 && n < 0x1_0000
  {
    f[26..34] + [0, f[23], n / 256, n % 256]
  }

  /** The pseudo-header sum is the word sum of those bytes. */
  lemma PseudoIsHeader(f: seq<byte>)
    requires Ipv4(f) && |f| <= MAX_FRAME
    ensures WordSum(PseudoHeader(f, |Segment(f)|)) == Pseudo(f) && |PseudoHeader(f, |Segment(f)|)| == 12
  {
    var n := |Segment(f)|;
    var tail: seq<byte> := [0, f[23], n / 256, n % 256];
    WordSumSplit(f[26..34], tail);
    assert tail[2..] == [n / 256, n % 256] && tail[2..][2..] == [];
    assert WordSum(tail[2..]) == n;
    assert WordSum(tail) == f[23] + n;
  }

  /** A segment that verifies with the folded pseudo-header sum verifies with the pseudo-header in front. */
  lemma VerifiesWithHeader(f: seq<byte>)
    requires Ipv4(f) && |f| <= MAX_FRAME && Checksum(Segment(f), Fold(Pseudo(f))) == 0
    ensures Checksum(PseudoHeader(f, |Segment(f)|) + Segment(f), 0) == 0
  {
    var ph, seg := PseudoHeader(f, |Segment(f)|), Segment(f);
    PseudoIsHeader(f);
    WordSumSplit(ph, seg);
    VerifiesExactly(seg, Fold(Pseudo(f)));
    VerifiesExactly(ph + seg, 0);
    FoldKeepsResidue(Pseudo(f));
    hide WordSum, Fold, Checksum, Pseudo, PseudoHeader, Segment;
    SameResidue(Fold(Pseudo(f)), Pseudo(f), WordSum(seg));
  }

  lemma SameResidue(a: nat, b: nat, x: nat)
    requires a % 0xFFFF == b % 0xFFFF
    ensures (a + x) % 0xFFFF == (b + x) % 0xFFFF
  {
    var k := a / 0xFFFF - b / 0xFFFF;
    assert a == b + 0xFFFF * k;
    ResidueShift(b + x, k);
  }

  /** Sets a UDP length and zeroes the checksum field. */
  method ZeroField(f: array<byte>)
    requires Ipv4(f[..]) && f.Length <= MAX_FRAME && FieldAt(f[..]) >= 0
    modifies f
    ensures ReadyForChecksum(old(f[..]), f[..])
  {
    var base, n, at := Base(f[..]), |Segment(f[..])|, FieldAt(f[..]);
    if at == 6 {
      SetWord(f, base + 4, n);
    }
    SetWord(f, base + at, 0);
  }

  /** The transport half of a segment with a checksum field: UDP length, then the checksum. */
  method FixSegment(f: array<byte>)
    requires Ipv4(f[..]) && f.Length <= MAX_FRAME && FieldAt(f[..]) >= 0
    modifies f
    ensures SegmentRepaired(old(f[..]), f[..])
  {
    hide Pseudo, WordSum, Fold, SegmentRepaired, Checksum, Repairable, Word;
    ghost var was := f[..];
    var base, end, at := Base(f[..]), ETH + IpLen(f[..]), FieldAt(f[..]);
    ZeroField(f);
    SameHeader(was, f[..]);
    var pseudo := PseudoSum(f);
    ghost var z := f[..];
    var segment := f[base..end];
    var ck := OnesComplement(segment, pseudo);
    if at == 6 && ck == 0 {
      ck := 0xFFFF;
    }
    assert segment == z[base..end];
    FieldWritten(was, z, ck);
    SetWord(f, base + at, ck);
  }

  /**
   fix_checksums: frames that are not IPv4 are left alone; of the others the header verifies, a
   UDP or TCP segment verifies with its pseudo-header, and nothing but the length and checksum
   fields has changed.
   */
  method FixChecksums(f: array<byte>)
    requires f.Length <= MAX_FRAME
    modifies f
    ensures !Ipv4(old(f[..])) ==> f[..] == old(f[..])
    ensures Ipv4(old(f[..])) ==> Repaired(old(f[..]), f[..])
    ensures IsDatagram(old(f[..])) ==> InOrder(old(f[..]), f[..])
    ensures !IsDatagram(old(f[..])) ==> f[..] == old(f[..])
  {
    hide *;
    ghost var was := f[..];
    DatagramIsIpv4(was);
    if !Ipv4(f[..]) {
      return;
    }
    RepairDatagram(f);
    RepairInOrder(was, f[..]);
  }

  /** The frame `g` an IPv4 frame `f` is repaired to. */
  ghost predicate Repaired(f: seq<byte>, g: seq<byte>)
    requires Ipv4(f)
  {
    && |g| == |f| && Ipv4(g) && Checksum(Header(g), 0) == 0
    && Word(g[ETH + 2], g[ETH + 3]) == IpLen(f)
    && FieldAt(g) == FieldAt(f)
    && (FieldAt(g) >= 0 ==> Checksum(Segment(g), Fold(Pseudo(g))) == 0)
    && (FieldAt(g) == 6 ==>
          var b := Base(g);
          Word(g[b + 4], g[b + 5]) == |Segment(g)| && Word(g[b + 6], g[b + 7]) != 0)
    && forall p :: 0 <= p < |f| && !Repairable(f, p) ==> g[p] == f[p]
  }

  method RepairDatagram(f: array<byte>)
    requires f.Length <= MAX_FRAME && Ipv4(f[..])
    modifies f
    ensures Repaired(old(f[..]), f[..])
  {
    hide Fold, WordSum, Pseudo, Checksum;
    FixHeader(f);
    if FieldAt(f[..]) >= 0 {
      FixSegment(f);
    }
  }

  /** An Ethernet frame that carries an IPv4 datagram with a whole header, byte by byte. */
  predicate IsDatagram(f: seq<byte>) {
    |f| >= 34 && f[12] == 8 && f[13] == 0 && f[14] / 16 == 4 && 20 <= 4 * (f[14] as int % 16) <= |f| - 14
  }

  lemma DatagramIsIpv4(f: seq<byte>)
    ensures IsDatagram(f) <==> Ipv4(f)
  {
    if |f| >= 34 {
      assert Word(f[12], f[13]) == 0x0800 <==> f[12] == 8 && f[13] == 0;
    }
  }

  /**
   The repaired frame `g` of a datagram `f`, byte by byte: the length the header claimed if the frame
   holds it and else what the frame holds, a header and a UDP or TCP segment, with its pseudo-header in
   front, that sum to zero, and nothing else changed.
   */
  ghost predicate InOrder(f: seq<byte>, g: seq<byte>)
    requires IsDatagram(f)
  {
    var ihl, claimed := 4 * (f[14] as int % 16), 256 * (f[16] as int) + f[17];
    var len := if ihl <= claimed <= |f| - 14 then claimed else |f| - 14;
    var b, n := 14 + ihl, len - ihl;
    var udp, tcp := f[23] == 17 && n >= 8, f[23] == 6 && n >= 20;
    && |g| == |f| && 256 * (g[16] as int) + g[17] == len
    && Checksum(g[14..14 + ihl], 0) == 0
    && (udp || tcp ==> n < 0x1_0000 && Checksum(PseudoHeader(g, n) + g[b..b + n], 0) == 0)
    && (udp ==> 256 * (g[b + 4] as int) + g[b + 5] == n && !(g[b + 6] == 0 && g[b + 7] == 0))
    && forall p :: 0 <= p < |f| && p !in {16, 17, 24, 25} ==>
                     g[p] == f[p] || (udp && b + 4 <= p < b + 8) || (tcp && b + 16 <= p < b + 18)
  }

  lemma RepairInOrder(f: seq<byte>, g: seq<byte>)
    requires IsDatagram(f) && Ipv4(f) && |f| <= MAX_FRAME && Repaired(f, g)
    ensures InOrder(f, g)
  {
    hide Checksum, Fold, Pseudo, PseudoHeader;
    assert !Repairable(f, ETH) && !Repairable(f, 23);
    assert Ihl(g) == Ihl(f) && IpLen(g) == IpLen(f);
    if FieldAt(g) >= 0 {
      VerifiesWithHeader(g);
    }
  }
}
