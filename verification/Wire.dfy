/**
 * serialize_defn.h, the serialised form of a SegmentedTransfer. The archive's own
 * conventions are assumed: little-endian integers of the C++ width, and a 64-bit
 * length in front of every string and vector.
 */
module Wire {
  import opened Basics

  /** A DataTransfer as it is saved: the address goes out on the wire. */
  datatype Segment = Segment(flags: bv32, address: u64, size: u64)

  /** A DataTransfer as it is loaded: `(size_t)data_` is a temporary, so no address comes back. */
  datatype Desc = Desc(flags: bv32, size: u64)

  datatype Message = Message(retNode: u32, md: seq<byte>, segments: seq<Segment>)

  datatype Loaded = Loaded(retNode: u32, md: seq<byte>, descs: seq<Desc>)

  ghost predicate Sendable(m: Message) { |m.md| < TWO_TO_64 && |m.segments| < TWO_TO_64 }

  function DescOf(s: Segment): Desc { Desc(s.flags, s.size) }

  function DescsOf(ss: seq<Segment>): (ds: seq<Desc>)
    ensures |ds| == |ss| && forall i | 0 <= i < |ss| :: ds[i] == DescOf(ss[i])
  {
    if ss == [] then [] else [DescOf(ss[0])] + DescsOf(ss[1..])
  }

  function Strip(m: Message): Loaded { Loaded(m.retNode, m.md, DescsOf(m.segments)) }

  function Pow256(w: nat): (p: nat)
    ensures p >= 1
  {
    if w == 0 then 1 else 256 * Pow256(w - 1)
  }

  function EncodeInt(v: nat, w: nat): (bs: seq<byte>)
    ensures |bs| == w
  {
    if w == 0 then [] else [(v % 256) as byte] + EncodeInt(v / 256, w - 1)
  }

  function DecodeInt(bs: seq<byte>): (v: nat)
    ensures v < Pow256(|bs|)
  {
    if bs == [] then 0 else bs[0] as nat + 256 * DecodeInt(bs[1..])
  }

  lemma {:induction false} IntRoundTrip(v: nat, w: nat)
    requires v < Pow256(w)
    ensures DecodeInt(EncodeInt(v, w)) == v
  {
    if w == 0 {
    } else {
      IntRoundTrip(v / 256, w - 1);
      assert EncodeInt(v, w)[1..] == EncodeInt(v / 256, w - 1);
    }
  }

  lemma Widths()
    ensures Pow256(4) == TWO_TO_32 && Pow256(8) == TWO_TO_64
  {
    assert Pow256(2) == 65536;
    assert Pow256(4) == 256 * (256 * Pow256(2));
    assert Pow256(6) == 256 * (256 * Pow256(4));
    assert Pow256(8) == 256 * (256 * Pow256(6));
  }

  /** One fixed-width field, or None when the input is too short. */
  function TakeInt(bs: seq<byte>, w: nat): Option<(nat, seq<byte>)> {
    if |bs| < w then None else Some((DecodeInt(bs[..w]), bs[w..]))
  }

  function EncodeSegment(s: Segment): seq<byte> {
    EncodeInt(s.flags as int, 4) + EncodeInt(s.address, 8) + EncodeInt(s.size, 8)
  }

  function DecodeDesc(bs: seq<byte>): Option<(Desc, seq<byte>)> {
    if |bs| < 20 then None else
      Widths();
      Some((Desc(DecodeInt(bs[..4]) as bv32, DecodeInt(bs[12..20])), bs[20..]))
  }

  function EncodeSegments(ss: seq<Segment>): seq<byte> {
    if ss == [] then [] else EncodeSegment(ss[0]) + EncodeSegments(ss[1..])
  }

  function DecodeDescs(n: nat, bs: seq<byte>): Option<(seq<Desc>, seq<byte>)> {
    if n == 0 then Some(([], bs)) else
      match DecodeDesc(bs)
      case None => None
      case Some((d, rest)) =>
        match DecodeDescs(n - 1, rest)
        case None => None
        case Some((ds, rest')) => Some(([d] + ds, rest'))
  }

  /** std::string on a saving archive. */
  function EncodeString(s: seq<byte>): seq<byte> { EncodeInt(|s|, 8) + s }

  /** std::string on a loading archive; also returns the unread bytes. */
  function TakeString(bs: seq<byte>): Option<(seq<byte>, seq<byte>)> {
    match TakeInt(bs, 8)
    case None => None
    case Some((len, rest)) => if |rest| < len then None else Some((rest[..len], rest[len..]))
  }

  /** SegmentedTransfer::serialize on a saving archive. */
  function Encode(m: Message): seq<byte> {
    var bulk := EncodeInt(|m.segments|, 8) + EncodeSegments(m.segments);
    EncodeInt(m.retNode, 4) + (EncodeString(m.md) + bulk)
  }

  /** SegmentedTransfer::serialize on a loading archive; also returns the unread bytes. */
  function Decode(bs: seq<byte>): Option<(Loaded, seq<byte>)> {
    match TakeInt(bs, 4)
    case None => None
    case Some((node, b1)) =>
      match TakeString(b1)
      case None => None
      case Some((md, b2)) =>
        match TakeInt(b2, 8)
        case None => None
        case Some((count, b3)) =>
          match DecodeDescs(count, b3)
          case None => None
          case Some((ds, rest)) => Widths(); Some((Loaded(node, md, ds), rest))
  }

  lemma TakeIntRoundTrip(v: nat, w: nat, rest: seq<byte>)
    requires v < Pow256(w)
    ensures TakeInt(EncodeInt(v, w) + rest, w) == Some((v, rest))
  {
    IntRoundTrip(v, w);
    var bs := EncodeInt(v, w) + rest;
    assert bs[..w] == EncodeInt(v, w) && bs[w..] == rest;
  }

  lemma DescRoundTrip(s: Segment, rest: seq<byte>)
    ensures DecodeDesc(EncodeSegment(s) + rest) == Some((DescOf(s), rest))
  {
    Widths();
    IntRoundTrip(s.flags as int, 4);
    IntRoundTrip(s.size, 8);
    var bs := EncodeSegment(s) + rest;
    assert bs[..4] == EncodeInt(s.flags as int, 4);
    assert bs[12..20] == EncodeInt(s.size, 8);
    assert bs[20..] == rest;
  }

  lemma {:induction false} DescsRoundTrip(ss: seq<Segment>, rest: seq<byte>)
    ensures DecodeDescs(|ss|, EncodeSegments(ss) + rest) == Some((DescsOf(ss), rest))
  {
    if ss == [] {
      assert EncodeSegments(ss) + rest == rest;
    } else {
      var tail := EncodeSegments(ss[1..]) + rest;
      assert EncodeSegments(ss) + rest == EncodeSegment(ss[0]) + tail;
      DescRoundTrip(ss[0], tail);
      DescsRoundTrip(ss[1..], rest);
    }
  }

  lemma StringRoundTrip(s: seq<byte>, rest: seq<byte>)
    requires |s| < TWO_TO_64
    ensures TakeString(EncodeString(s) + rest) == Some((s, rest))
  {
    Widths();
    TakeIntRoundTrip(|s|, 8, s + rest);
    assert EncodeString(s) + rest == EncodeInt(|s|, 8) + (s + rest);
    assert (s + rest)[..|s|] == s && (s + rest)[|s|..] == rest;
  }

  /** Loading what was saved gives everything back except the addresses, and leaves what follows. */
  lemma RoundTrip(m: Message, suffix: seq<byte>)
    requires Sendable(m)
    ensures Decode(Encode(m) + suffix) == Some((Strip(m), suffix))
    ensures var l := Decode(Encode(m) + suffix).value.0;
            && l.retNode == m.retNode && l.md == m.md && |l.descs| == |m.segments|
            && forall i | 0 <= i < |m.segments| ::
                 l.descs[i].flags == m.segments[i].flags && l.descs[i].size == m.segments[i].size
  {
    hide EncodeInt, DecodeInt, EncodeString, TakeString, EncodeSegments;
    Widths();
    var b3 := EncodeSegments(m.segments) + suffix;
    var b2 := EncodeInt(|m.segments|, 8) + b3;
    var b1 := EncodeString(m.md) + b2;
    assert Encode(m) + suffix == EncodeInt(m.retNode, 4) + b1;
    TakeIntRoundTrip(m.retNode, 4, b1);
    StringRoundTrip(m.md, b2);
    TakeIntRoundTrip(|m.segments|, 8, b3);
    DescsRoundTrip(m.segments, suffix);
  }

  lemma {:induction false} DescsExtend(n: nat, bs: seq<byte>, more: seq<byte>)
    requires DecodeDescs(n, bs).Some?
    ensures DecodeDescs(n, bs + more) == Some((DecodeDescs(n, bs).value.0, DecodeDescs(n, bs).value.1 + more))
  {
    hide DecodeInt, EncodeInt, Pow256;
    if n == 0 {
    } else {
      assert (bs + more)[..4] == bs[..4] && (bs + more)[12..20] == bs[12..20];
      assert (bs + more)[20..] == bs[20..] + more;
      DescsExtend(n - 1, bs[20..], more);
    }
  }

  lemma TakeIntExtend(bs: seq<byte>, w: nat, more: seq<byte>)
    requires TakeInt(bs, w).Some?
    ensures TakeInt(bs + more, w) == Some((TakeInt(bs, w).value.0, TakeInt(bs, w).value.1 + more))
  {
    assert (bs + more)[..w] == bs[..w] && (bs + more)[w..] == bs[w..] + more;
  }

  lemma TakeStringExtend(bs: seq<byte>, more: seq<byte>)
    requires TakeString(bs).Some?
    ensures TakeString(bs + more) == Some((TakeString(bs).value.0, TakeString(bs).value.1 + more))
  {
    TakeIntExtend(bs, 8, more);
    var (len, rest) := TakeInt(bs, 8).value;
    assert (rest + more)[..len] == rest[..len] && (rest + more)[len..] == rest[len..] + more;
  }

  /** Bytes after a complete message do not change how it is read. */
  lemma DecodeExtend(bs: seq<byte>, more: seq<byte>)
    requires Decode(bs).Some?
    ensures Decode(bs + more) == Some((Decode(bs).value.0, Decode(bs).value.1 + more))
  {
    hide TakeInt, TakeString;
    var (node, b1) := TakeInt(bs, 4).value;
    var (md, b2) := TakeString(b1).value;
    var (count, b3) := TakeInt(b2, 8).value;
    TakeIntExtend(bs, 4, more);
    TakeStringExtend(b1, more);
    TakeIntExtend(b2, 8, more);
    DescsExtend(count, b3, more);
  }

  /** A message cut short anywhere is rejected: no strict prefix of an encoding loads. */
  lemma NoStrictPrefixLoads(m: Message, k: nat)
    requires Sendable(m) && k < |Encode(m)|
    ensures Decode(Encode(m)[..k]).None?
  {
    hide Encode, Decode;
    var bs := Encode(m);
    RoundTrip(m, []);
    assert bs[..k] + bs[k..] == bs && bs + [] == bs && |bs[k..]| > 0;
    if Decode(bs[..k]).Some? {
      DecodeExtend(bs[..k], bs[k..]);
    }
  }

  /** Messages that encode alike agree on everything but the addresses, whatever follows them. */
  lemma EncodingDetermines(m: Message, n: Message, x: seq<byte>, y: seq<byte>)
    requires Sendable(m) && Sendable(n) && Encode(m) + x == Encode(n) + y
    ensures Strip(m) == Strip(n) && x == y
  {
    RoundTrip(m, x);
    RoundTrip(n, y);
  }

  // ---- Where each byte is ----

  /** Little-endian: byte k is the k-th digit to the base 256. */
  lemma {:induction false} IntByte(v: nat, w: nat, k: nat)
    requires k < w
    ensures EncodeInt(v, w)[k] as nat == v / Pow256(k) % 256
  {
    if k == 0 {
    } else {
      IntByte(v / 256, w - 1, k - 1);
      DivTwice(v, 256, Pow256(k - 1));
    }
  }

  lemma DivTwice(v: nat, a: nat, b: nat)
    requires a > 0 && b > 0
    ensures a * b > 0 && v / a / b == v / (a * b)
  {
    Divided(v, a, v / a, v % a, b, v / a / b, v / a % b);
  }

  lemma Divided(v: nat, a: nat, q: nat, r: nat, b: nat, q': nat, r': nat)
    requires v == q * a + r && r < a && q == q' * b + r' && r' < b
    ensures a * b > 0 && v / (a * b) == q'
  {
    Times(r' + 1, b, a);
    Recombine(a, b, q', r', r);
    QuotientIs(v, a * b, q', r' * a + r);
  }

  lemma Recombine(a: int, b: int, q: int, x: int, r: int)
    ensures (q * b + x) * a + r == q * (a * b) + (x * a + r)
    ensures (x + 1) * a == x * a + a && b * a == a * b
  {
    assert (q * b) * a == q * (a * b);
  }

  lemma Times(x: int, y: int, z: nat)
    requires x <= y
    ensures x * z <= y * z
  {
    assert y * z == x * z + (y - x) * z;
  }

  lemma QuotientIs(v: nat, d: nat, q: nat, r: nat)
    requires d > 0 && v == q * d + r && r < d
    ensures v / d == q
  {
    var e := v / d;
    assert v == e * d + v % d;
    assert (e + 1) * d == e * d + d && (q + 1) * d == q * d + d;
    if q > e {
      Times(e + 1, q, d);
    } else if q < e {
      Times(q + 1, e, d);
    }
  }

  /** A field of w bytes at a position, least significant byte first. */
  ghost predicate FieldAt(bs: seq<byte>, at: nat, w: nat, v: nat) {
    at + w <= |bs| && forall k | 0 <= k < w :: bs[at + k] as nat == v / Pow256(k) % 256
  }

  lemma IntIsField(bs: seq<byte>, at: nat, w: nat, v: nat)
    requires at + w <= |bs| && bs[at..at + w] == EncodeInt(v, w)
    ensures FieldAt(bs, at, w, v)
  {
    forall k | 0 <= k < w
      ensures bs[at + k] as nat == v / Pow256(k) % 256
    {
      IntByte(v, w, k);
      assert bs[at..at + w][k] == bs[at + k];
    }
  }

  lemma {:induction false} SegmentBytes(ss: seq<Segment>, i: nat)
    requires i < |ss|
    ensures |EncodeSegments(ss)| == 20 * |ss|
    ensures EncodeSegments(ss)[20 * i..20 * i + 20] == EncodeSegment(ss[i])
  {
    hide EncodeSegment, EncodeInt;
    SegmentsLength(ss);
    var first, rest := EncodeSegment(ss[0]), EncodeSegments(ss[1..]);
    SegmentLength(ss[0]);
    SegmentsLength(ss[1..]);
    if i == 0 {
      assert (first + rest)[..20] == first;
    } else {
      SegmentBytes(ss[1..], i - 1);
      assert (first + rest)[20 * i..20 * i + 20] == rest[20 * (i - 1)..20 * (i - 1) + 20];
    }
  }

  lemma SegmentLength(s: Segment)
    ensures |EncodeSegment(s)| == 20
  {}

  lemma {:induction false} SegmentsLength(ss: seq<Segment>)
    ensures |EncodeSegments(ss)| == 20 * |ss|
  {
    if ss == [] {
    } else {
      SegmentLength(ss[0]);
      SegmentsLength(ss[1..]);
    }
  }

  /** The node, the string's length and text, the number of segments, then 20 bytes for each. */
  lemma WireLayout(m: Message)
    ensures var bs, n := Encode(m), |m.md|;
            && |bs| == 20 + n + 20 * |m.segments|
            && FieldAt(bs, 0, 4, m.retNode) && FieldAt(bs, 4, 8, n) && bs[12..12 + n] == m.md
            && FieldAt(bs, 12 + n, 8, |m.segments|)
            && forall i | 0 <= i < |m.segments| ::
                 && FieldAt(bs, 20 + n + 20 * i, 4, m.segments[i].flags as nat)
                 && FieldAt(bs, 24 + n + 20 * i, 8, m.segments[i].address)
                 && FieldAt(bs, 32 + n + 20 * i, 8, m.segments[i].size)
  {
    hide EncodeSegments, EncodeInt, FieldAt;
    var bs, n, tail := Encode(m), |m.md|, EncodeSegments(m.segments);
    SegmentsLength(m.segments);
    IntIsField(bs, 0, 4, m.retNode);
    IntIsField(bs, 4, 8, n);
    IntIsField(bs, 12 + n, 8, |m.segments|);
    assert bs[20 + n..] == tail;
    forall i | 0 <= i < |m.segments|
      ensures FieldAt(bs, 20 + n + 20 * i, 4, m.segments[i].flags as nat)
      ensures FieldAt(bs, 24 + n + 20 * i, 8, m.segments[i].address)
      ensures FieldAt(bs, 32 + n + 20 * i, 8, m.segments[i].size)
    {
      SegmentBytes(m.segments, i);
      SegmentFields(bs, 20 + n + 20 * i, m.segments[i]);
    }
  }

  lemma SliceOfSlice(bs: seq<byte>, from: nat, to: nat, i: nat, j: nat)
    requires from <= to <= |bs| && i <= j <= to - from
    ensures bs[from..to][i..j] == bs[from + i..from + j]
  {
    var inner, outer := bs[from..to][i..j], bs[from + i..from + j];
    assert |inner| == |outer| && forall k | 0 <= k < |inner| :: inner[k] == outer[k];
  }

  lemma SegmentFields(bs: seq<byte>, at: nat, s: Segment)
    requires at + 20 <= |bs| && bs[at..at + 20] == EncodeSegment(s)
    ensures FieldAt(bs, at, 4, s.flags as nat) && FieldAt(bs, at + 4, 8, s.address) && FieldAt(bs, at + 12, 8, s.size)
  {
    hide EncodeInt, FieldAt;
    var one := EncodeSegment(s);
    assert one[..4] == EncodeInt(s.flags as int, 4);
    assert one[4..12] == EncodeInt(s.address, 8);
    assert one[12..20] == EncodeInt(s.size, 8);
    SliceOfSlice(bs, at, at + 20, 0, 4);
    SliceOfSlice(bs, at, at + 20, 4, 12);
    SliceOfSlice(bs, at, at + 20, 12, 20);
    IntIsField(bs, at, 4, s.flags as nat);
    IntIsField(bs, at + 4, 8, s.address);
    IntIsField(bs, at + 12, 8, s.size);
  }
}
