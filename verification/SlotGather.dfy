/**
 * chi_net_find.cc: every rank looks its address up and puts it in a 16-byte slot, and
 * rank 0 writes the gathered slots out.
 */
module SlotGather {
  import opened Basics
  import Decimal

  const MAX_IP_LEN: nat := 16
  const NUL: char := 0 as char

  /** The string that c_str() and a NUL scan see. */
  function CString(s: string): (r: string)
    ensures NUL !in r && |r| <= |s| && r == s[..|r|] && (|r| < |s| ==> s[|r|] == NUL)
  {
    if s == [] || s[0] == NUL then [] else [s[0]] + CString(s[1..])
  }

  /** What survives in a slot: the string up to its first NUL, cut at 15 bytes. */
  function Stored(s: string): string {
    var c := CString(s);
    if |c| < MAX_IP_LEN then c else c[..MAX_IP_LEN - 1]
  }

  predicate Storable(s: string) { |s| < MAX_IP_LEN && NUL !in s }

  lemma StoredExactly(s: string)
    ensures |Stored(s)| <= |s| && |Stored(s)| < MAX_IP_LEN && NUL !in Stored(s)
    ensures Storable(s) <==> Stored(s) == s
    ensures Storable(s) <==> |Stored(s)| == |s|
    ensures Storable(s) <==> |s| <= 15 && (0 as char) !in s
    ensures var n := |Stored(s)|;
            n <= 15 && Stored(s) == s[..n] && (0 as char) !in Stored(s) && (n < 15 && n < |s| ==> s[n] == 0 as char)
  {
    var c := CString(s);
    if |c| < |s| {
      assert s[|c|] == NUL;
    }
  }

  ghost predicate HoldsString(slot: string, text: string) {
    && |text| < |slot|
    && NUL !in text
    && (forall k | 0 <= k < |text| :: slot[k] == text[k])
    && slot[|text|] == NUL
  }

  /** strncpy of the address into the slot, and the terminator in its last byte. */
  method FillSlot(slot: array<char>, ip: string)
    requires slot.Length == MAX_IP_LEN
    modifies slot
    ensures HoldsString(slot[..], Stored(ip))
    ensures forall k | |Stored(ip)| <= k < MAX_IP_LEN :: slot[k] == NUL
    ensures slot.Length == 16 && forall k | 0 <= k < 16 ::
              slot[k] == if k < 15 && k < |ip| && (forall j | 0 <= j <= k :: ip[j] != 0 as char) then ip[k]
                         else 0 as char
  {
    var text := CString(ip);
    StoredExactly(ip);
    var k := 0;
    while k < MAX_IP_LEN - 1
      invariant k <= MAX_IP_LEN - 1
      invariant forall i | 0 <= i < k :: slot[i] == if i < |text| then text[i] else NUL
    {
      slot[k] := if k < |text| then text[k] else NUL;
      k := k + 1;
    }
    slot[MAX_IP_LEN - 1] := NUL;
  }

  /** std::string(p): scan from `at` to the first NUL. */
  method ScanString(all: array<char>, at: nat, ghost text: string) returns (s: string, stop: nat)
    requires at + MAX_IP_LEN <= all.Length && HoldsString(all[at..at + MAX_IP_LEN], text)
    ensures s == text && at <= stop < at + MAX_IP_LEN && all[stop] == NUL
  {
    ghost var slot := all[at..at + MAX_IP_LEN];
    s, stop := [], at;
    while all[stop] != NUL
      invariant at <= stop < at + MAX_IP_LEN && stop - at <= |text| && s == text[..stop - at]
      decreases at + MAX_IP_LEN - stop
    {
      assert slot[stop - at] == all[stop];
      s := s + [all[stop]];
      stop := stop + 1;
    }
    assert slot[stop - at] == all[stop];
  }

  /** The nonempty strings, in order. */
  function NonEmpty(ss: seq<string>): seq<string> {
    if ss == [] then [] else NonEmpty(ss[..|ss| - 1]) + if ss[|ss| - 1] == [] then [] else [ss[|ss| - 1]]
  }

  function StoredAll(ips: seq<string>): (ss: seq<string>)
    ensures |ss| == |ips| && forall r | 0 <= r < |ips| :: ss[r] == Stored(ips[r])
  {
    seq(|ips|, r requires 0 <= r < |ips| => Stored(ips[r]))
  }

  function SlotStart(rank: nat): nat { rank * 16 }

  /** The slot of a rank in the gathered buffer. */
  ghost function SlotOf(all: string, rank: nat): string
    requires SlotStart(rank) + MAX_IP_LEN <= |all|
  {
    all[SlotStart(rank)..SlotStart(rank) + MAX_IP_LEN]
  }

  /** The first slots hold the first strings. */
  ghost predicate SlotsHold(all: string, stored: seq<string>, n: nat) {
    && n <= |stored|
    && SlotStart(|stored|) == |all|
    && forall r | 0 <= r < n :: HoldsString(SlotOf(all, r), stored[r])
  }

  /** MPI_Gather's part: one rank's slot lands at its place and the others stay. */
  method PlaceSlot(all: array<char>, local: array<char>, rank: nat)
    requires all != local && local.Length == MAX_IP_LEN && SlotStart(rank) + MAX_IP_LEN <= all.Length
    modifies all
    ensures SlotOf(all[..], rank) == local[..]
    ensures forall r: nat | r != rank && SlotStart(r) + MAX_IP_LEN <= all.Length ::
              SlotOf(all[..], r) == old(SlotOf(all[..], r))
  {
    var start := SlotStart(rank);
    forall k | 0 <= k < MAX_IP_LEN {
      all[start + k] := local[k];
    }
    assert forall r: nat | r != rank :: SlotStart(r) + MAX_IP_LEN <= start || start + MAX_IP_LEN <= SlotStart(r);
  }

  /** Each rank fills its slot and MPI_Gather lays the slots end to end by rank. */
  method GatherSlots(ips: seq<string>) returns (all: array<char>)
    ensures fresh(all) && SlotsHold(all[..], StoredAll(ips), |ips|)
    ensures all.Length == 16 * |ips|
  {
    all := new char[SlotStart(|ips|)];
    var local := new char[MAX_IP_LEN];
    ghost var stored := StoredAll(ips);
    var rank := 0;
    while rank < |ips|
      invariant rank <= |ips| && SlotsHold(all[..], stored, rank)
    {
      FillSlot(local, ips[rank]);
      PlaceSlot(all, local, rank);
      rank := rank + 1;
    }
  }

  /** Rank 0's loop over the slots; the result is the lines of the file. */
  method WriteHosts(all: array<char>, ghost stored: seq<string>, size: nat) returns (lines: seq<string>)
    requires size == |stored| && SlotsHold(all[..], stored, size)
    ensures lines == NonEmpty(stored)
  {
    lines := [];
    var i := 0;
    while i < size
      invariant i <= size && lines == NonEmpty(stored[..i])
    {
      var start := SlotStart(i);
      assert all[start..start + MAX_IP_LEN] == SlotOf(all[..], i);
      var currIp, _ := ScanString(all, start, stored[i]);
      assert stored[..i + 1][..i] == stored[..i];
      if currIp != [] {
        lines := lines + [currIp];
      }
      i := i + 1;
    }
    assert stored[..size] == stored;
  }

  method GatherHosts(ips: seq<string>) returns (lines: seq<string>)
    ensures lines == NonEmpty(StoredAll(ips))
    ensures lines == NonEmpty(ips) <==> forall r | 0 <= r < |ips| :: |ips[r]| <= 15 && (0 as char) !in ips[r]
  {
    var all := GatherSlots(ips);
    lines := WriteHosts(all, StoredAll(ips), |ips|);
    RoundTripIffStorable(ips);
  }

  lemma {:induction false} LettersOfNonEmpty(ss: seq<string>)
    ensures Letters(NonEmpty(ss)) == Letters(ss)
  {
    if ss == [] {
    } else {
      var init := NonEmpty(ss[..|ss| - 1]);
      LettersOfNonEmpty(ss[..|ss| - 1]);
      assert (init + [ss[|ss| - 1]])[..|init|] == init && init + [] == init;
    }
  }

  lemma {:induction false} LettersOfStored(ips: seq<string>)
    ensures Letters(StoredAll(ips)) <= Letters(ips)
    ensures Letters(StoredAll(ips)) == Letters(ips) ==> AllStorable(ips)
  {
    if ips == [] {
    } else {
      var init, last := ips[..|ips| - 1], ips[|ips| - 1];
      assert Letters(ips) == Letters(init) + |last|;
      hide CString, Stored, Storable, StoredAll, Letters, AllStorable;
      LettersOfStored(init);
      StoredExactly(last);
      StoredLast(ips);
      StorableLast(ips);
    }
  }

  ghost predicate AllStorable(ips: seq<string>) { forall r | 0 <= r < |ips| :: Storable(ips[r]) }

  lemma StorableLast(ips: seq<string>)
    requires ips != []
    ensures AllStorable(ips) <==> AllStorable(ips[..|ips| - 1]) && Storable(ips[|ips| - 1])
  {
    hide Storable;
    var init := ips[..|ips| - 1];
    assert forall r | 0 <= r < |init| :: init[r] == ips[r];
  }

  lemma StoredLast(ips: seq<string>)
    requires ips != []
    ensures StoredAll(ips)[..|ips| - 1] == StoredAll(ips[..|ips| - 1])
    ensures Letters(StoredAll(ips)) == Letters(StoredAll(ips[..|ips| - 1])) + |Stored(ips[|ips| - 1])|
  {
    hide CString, Stored;
  }

  lemma StorableMeans(ips: seq<string>)
    ensures (forall r | 0 <= r < |ips| :: Storable(ips[r]))
       <==> forall r | 0 <= r < |ips| :: |ips[r]| <= 15 && (0 as char) !in ips[r]
  {}

  /** The places that are kept, in order. */
  function Kept(keep: seq<bool>): (ranks: seq<nat>)
    ensures forall n | 0 <= n < |ranks| :: ranks[n] < |keep| && keep[ranks[n]]
  {
    if keep == [] then [] else Kept(keep[..|keep| - 1]) + if keep[|keep| - 1] then [|keep| - 1] else []
  }

  lemma {:induction false} KeptInOrder(keep: seq<bool>)
    ensures forall a, b | 0 <= a < b < |Kept(keep)| :: Kept(keep)[a] < Kept(keep)[b]
    ensures forall r: nat | r < |keep| :: keep[r] <==> r in Kept(keep)
  {
    if keep == [] {
    } else {
      var k := |keep| - 1;
      var init := keep[..k];
      KeptInOrder(init);
      assert forall r: nat | r < k :: keep[r] == init[r];
    }
  }

  function Nonempties(ss: seq<string>): (keep: seq<bool>)
    ensures |keep| == |ss| && forall r | 0 <= r < |ss| :: keep[r] == (ss[r] != "")
  {
    seq(|ss|, r requires 0 <= r < |ss| => ss[r] != "")
  }

  lemma {:induction false} NonEmptyKept(ss: seq<string>)
    ensures |NonEmpty(ss)| == |Kept(Nonempties(ss))|
    ensures forall n | 0 <= n < |NonEmpty(ss)| :: NonEmpty(ss)[n] == ss[Kept(Nonempties(ss))[n]]
  {
    if ss == [] {
    } else {
      var init := ss[..|ss| - 1];
      NonEmptyKept(init);
      assert Nonempties(ss)[..|ss| - 1] == Nonempties(init);
      assert forall n | 0 <= n < |NonEmpty(init)| :: init[Kept(Nonempties(init))[n]] == ss[Kept(Nonempties(init))[n]];
    }
  }

  /** The nonempty strings keep their order, and none is left out or put in. */
  lemma NonEmptyInOrder(ss: seq<string>) returns (ranks: seq<nat>)
    ensures |ranks| == |NonEmpty(ss)|
    ensures forall a, b | 0 <= a < b < |ranks| :: ranks[a] < ranks[b]
    ensures forall n | 0 <= n < |ranks| :: ranks[n] < |ss| && NonEmpty(ss)[n] == ss[ranks[n]]
    ensures forall r: nat | r < |ss| :: ss[r] != "" <==> r in ranks
  {
    hide Kept, NonEmpty;
    ranks := Kept(Nonempties(ss));
    KeptInOrder(Nonempties(ss));
    NonEmptyKept(ss);
  }

  /** The file lists exactly the addresses found, in rank order, if and only if every one fits its slot. */
  lemma RoundTripIffStorable(ips: seq<string>)
    ensures NonEmpty(StoredAll(ips)) == NonEmpty(ips)
       <==> forall r | 0 <= r < |ips| :: |ips[r]| <= 15 && (0 as char) !in ips[r]
  {
    StorableMeans(ips);
    if forall r | 0 <= r < |ips| :: Storable(ips[r]) {
      forall r | 0 <= r < |ips|
        ensures StoredAll(ips)[r] == ips[r]
      {
        StoredExactly(ips[r]);
      }
      assert StoredAll(ips) == ips;
    }
    if NonEmpty(StoredAll(ips)) == NonEmpty(ips) {
      LettersOfNonEmpty(ips);
      LettersOfNonEmpty(StoredAll(ips));
      LettersOfStored(ips);
    }
  }

  // ---- What a rank can find ----

  /** The four bytes that inet_ntop formats. */
  datatype Ipv4 = Ipv4(a: byte, b: byte, c: byte, d: byte)

  /** One fi_info: its fabric's name and its source address, either of which may be missing. */
  datatype FabricInfo = FabricInfo(fabric: Option<string>, source: Option<Ipv4>)

  function Octet(n: byte): string { Decimal.OfNat(n as nat) }

  function Dotted(ip: Ipv4): string {
    Octet(ip.a) + ['.'] + (Octet(ip.b) + ['.'] + (Octet(ip.c) + ['.'] + Octet(ip.d)))
  }

  predicate Matches(info: FabricInfo, fabric: string) {
    info.source.Some? && info.fabric == Some(fabric)
  }

  /** The address of the first match; None as the list stands for a failed fi_getinfo. */
  function Found(infos: Option<seq<FabricInfo>>, fabric: string): Option<Ipv4>
    decreases if infos.Some? then |infos.value| else 0
  {
    if infos.None? || infos.value == [] then None
    else if Matches(infos.value[0], fabric) then infos.value[0].source
    else Found(Some(infos.value[1..]), fabric)
  }

  /** What is found is the source of the first entry that has the fabric's name and a source. */
  lemma {:induction false} FoundByIndex(infos: Option<seq<FabricInfo>>, fabric: string)
    ensures Found(infos, fabric).Some? ==>
              infos.Some? && exists i ::
                && 0 <= i < |infos.value| && infos.value[i].fabric == Some(fabric)
                && infos.value[i].source == Found(infos, fabric)
                && forall j | 0 <= j < i :: infos.value[j].fabric != Some(fabric) || infos.value[j].source.None?
    ensures Found(infos, fabric).None? ==> infos.None? || forall j | 0 <= j < |infos.value| ::
              infos.value[j].fabric != Some(fabric) || infos.value[j].source.None?
    decreases if infos.Some? then |infos.value| else 0
  {
    if infos.None? || infos.value == [] {
    } else if infos.value[0].fabric == Some(fabric) && infos.value[0].source.Some? {
      assert infos.value[0].source == Found(infos, fabric);
    } else {
      var rest := infos.value[1..];
      FoundByIndex(Some(rest), fabric);
      assert forall j | 0 < j < |infos.value| :: infos.value[j] == rest[j - 1];
      if Found(infos, fabric).Some? {
        var i :| && 0 <= i < |rest| && rest[i].fabric == Some(fabric) && rest[i].source == Found(Some(rest), fabric)
                 && forall j | 0 <= j < i :: rest[j].fabric != Some(fabric) || rest[j].source.None?;
        assert infos.value[i + 1] == rest[i];
      }
    }
  }

  function Text(ip: Option<Ipv4>): string { if ip.Some? then Dotted(ip.value) else "" }

  method FindIpFromFabric(infos: Option<seq<FabricInfo>>, fabric: string) returns (ip: string)
    ensures ip == Text(Found(infos, fabric))
    ensures ip != "" ==>
              infos.Some? && exists i ::
                && 0 <= i < |infos.value| && infos.value[i].fabric == Some(fabric) && infos.value[i].source.Some?
                && ip == Dotted(infos.value[i].source.value)
                && forall j | 0 <= j < i :: infos.value[j].fabric != Some(fabric) || infos.value[j].source.None?
    ensures ip == "" ==> infos.None? || forall j | 0 <= j < |infos.value| ::
              infos.value[j].fabric != Some(fabric) || infos.value[j].source.None?
  {
    FoundByIndex(infos, fabric);
    if infos.None? {
      return "";
    }
    var i := 0;
    while i < |infos.value|
      invariant i <= |infos.value| && Found(infos, fabric) == Found(Some(infos.value[i..]), fabric)
    {
      var info := infos.value[i];
      if info.source.Some? && info.fabric.Some? {
        if info.fabric.value == fabric {
          return Dotted(info.source.value);
        }
      }
      i := i + 1;
    }
    return "";
  }

  lemma OctetShort(n: byte)
    ensures 1 <= |Octet(n)| <= 3 && NUL !in Octet(n) && '.' !in Octet(n)
  {
    var m := n as nat;
    assert m < 10 || Decimal.OfNat(m) == Decimal.OfNat(m / 10) + [Decimal.Digit(m % 10)];
    assert m < 100 || Decimal.OfNat(m / 10) == Decimal.OfNat(m / 10 / 10) + [Decimal.Digit(m / 10 % 10)];
    assert |Decimal.OfNat(m / 10 / 10)| == 1;
    assert m < 100 ==> |Decimal.OfNat(m / 10)| == 1;
  }

  /** A dotted address is never longer than its slot, and never empty. */
  lemma DottedFits(ip: Ipv4)
    ensures Storable(Dotted(ip)) && 7 <= |Dotted(ip)| <= 15
  {
    hide Octet;
    OctetShort(ip.a);
    OctetShort(ip.b);
    OctetShort(ip.c);
    OctetShort(ip.d);
  }

  /** The text before the first dot is a numeral of value v, and `rest` is what follows that dot. */
  ghost predicate FieldReads(s: string, dot: nat, v: int, rest: string) {
    dot < |s| && s[dot] == '.' && '.' !in s[..dot] && Decimal.Value(s[..dot]) == v && s[dot + 1..] == rest
  }

  lemma FieldThenDot(field: string, rest: string)
    requires '.' !in field
    ensures FieldReads(field + ['.'] + rest, |field|, Decimal.Value(field), rest)
  {
    assert (field + ['.'] + rest)[..|field|] == field && (field + ['.'] + rest)[|field| + 1..] == rest;
  }

  /** Read back dot by dot, a dotted address gives its four bytes in order, and nothing is left. */
  lemma DottedReads(ip: Ipv4) returns (p: nat, bcd: string, q: nat, cd: string, r: nat, d: string)
    ensures FieldReads(Dotted(ip), p, ip.a as int, bcd) && FieldReads(bcd, q, ip.b as int, cd)
    ensures FieldReads(cd, r, ip.c as int, d) && '.' !in d && Decimal.Value(d) == ip.d as int
  {
    hide Octet, FieldReads, Decimal.Value;
    var a, b, c := Octet(ip.a), Octet(ip.b), Octet(ip.c);
    d := Octet(ip.d);
    cd := c + ['.'] + d;
    bcd := b + ['.'] + cd;
    p, q, r := |a|, |b|, |c|;
    OctetReads(ip.a);
    OctetReads(ip.b);
    OctetReads(ip.c);
    OctetReads(ip.d);
    FieldThenDot(a, bcd);
    FieldThenDot(b, cd);
    FieldThenDot(c, d);
  }

  lemma OctetReads(n: byte)
    ensures Decimal.Value(Octet(n)) == n as int && '.' !in Octet(n)
  {
    Decimal.ValueOfNat(n as nat);
  }

  /** A dotted address tells its four bytes. */
  lemma DottedInjective(ip: Ipv4, other: Ipv4)
    requires Dotted(ip) == Dotted(other)
    ensures ip == other
  {
    hide Octet;
    OctetShort(ip.a);
    OctetShort(ip.b);
    OctetShort(ip.c);
    OctetShort(other.a);
    OctetShort(other.b);
    OctetShort(other.c);
    var cd, cd' := Octet(ip.c) + ['.'] + Octet(ip.d), Octet(other.c) + ['.'] + Octet(other.d);
    SplitUnique(Octet(ip.a), Octet(other.a), Octet(ip.b) + ['.'] + cd, Octet(other.b) + ['.'] + cd', '.');
    SplitUnique(Octet(ip.b), Octet(other.b), cd, cd', '.');
    SplitUnique(Octet(ip.c), Octet(other.c), Octet(ip.d), Octet(other.d), '.');
    OctetInjective(ip.a, other.a);
    OctetInjective(ip.b, other.b);
    OctetInjective(ip.c, other.c);
    OctetInjective(ip.d, other.d);
  }

  lemma OctetInjective(m: byte, n: byte)
    requires Octet(m) == Octet(n)
    ensures m == n
  {
    Decimal.OfNatInjective(m as nat, n as nat);
  }

  function Texts(found: seq<Option<Ipv4>>): (ips: seq<string>)
    ensures |ips| == |found| && forall r | 0 <= r < |found| :: ips[r] == Text(found[r])
  {
    seq(|found|, r requires 0 <= r < |found| => Text(found[r]))
  }

  /** The addresses that were found, in rank order. */
  function Present(found: seq<Option<Ipv4>>): seq<Ipv4> {
    if found == [] then []
    else Present(found[..|found| - 1]) + if found[|found| - 1].Some? then [found[|found| - 1].value] else []
  }

  function DottedAll(ips: seq<Ipv4>): (lines: seq<string>)
    ensures |lines| == |ips| && forall i | 0 <= i < |ips| :: lines[i] == Dotted(ips[i])
  {
    seq(|ips|, i requires 0 <= i < |ips| => Dotted(ips[i]))
  }

  /** Every address found gets a line, as itself, and a rank without one gets none. */
  lemma {:induction false} LinesOfFound(found: seq<Option<Ipv4>>)
    ensures NonEmpty(StoredAll(Texts(found))) == DottedAll(Present(found))
  {
    hide Dotted, CString, Stored;
    if found == [] {
    } else {
      var k := |found| - 1;
      LinesOfFound(found[..k]);
      assert StoredAll(Texts(found))[..k] == StoredAll(Texts(found[..k]));
      StoredExactly(Text(found[k]));
      if found[k].Some? {
        DottedFits(found[k].value);
      }
    }
  }

  /** The file determines which addresses were found, and in which order. */
  lemma LinesDetermineFound(found: seq<Option<Ipv4>>, other: seq<Option<Ipv4>>)
    ensures NonEmpty(StoredAll(Texts(found))) == NonEmpty(StoredAll(Texts(other))) <==>
            Present(found) == Present(other)
  {
    hide Dotted, Present;
    LinesOfFound(found);
    LinesOfFound(other);
    var a, b := Present(found), Present(other);
    if DottedAll(a) == DottedAll(b) {
      assert |a| == |DottedAll(a)| == |b|;
      forall i | 0 <= i < |a|
        ensures a[i] == b[i]
      {
        assert DottedAll(a)[i] == DottedAll(b)[i];
        DottedInjective(a[i], b[i]);
      }
    }
  }

  function FoundAll(lookups: seq<Option<seq<FabricInfo>>>, fabric: string): (found: seq<Option<Ipv4>>)
    ensures |found| == |lookups| && forall r | 0 <= r < |lookups| :: found[r] == Found(lookups[r], fabric)
  {
    seq(|lookups|, r requires 0 <= r < |lookups| => Found(lookups[r], fabric))
  }

  function Answers(found: seq<Option<Ipv4>>): (keep: seq<bool>)
    ensures |keep| == |found| && forall r | 0 <= r < |found| :: keep[r] == found[r].Some?
  {
    seq(|found|, r requires 0 <= r < |found| => found[r].Some?)
  }

  lemma {:induction false} PresentKept(found: seq<Option<Ipv4>>)
    ensures |Present(found)| == |Kept(Answers(found))|
    ensures forall n | 0 <= n < |Present(found)| :: Some(Present(found)[n]) == found[Kept(Answers(found))[n]]
  {
    if found == [] {
    } else {
      var init, last := found[..|found| - 1], found[|found| - 1];
      PresentKept(init);
      assert Answers(found)[..|found| - 1] == Answers(init);
      var present, kept := Present(init), Kept(Answers(init));
      assert Present(found) == present + if last.Some? then [last.value] else [];
      assert Kept(Answers(found)) == kept + if last.Some? then [|init|] else [];
      hide Present, Kept;
      assert forall n | 0 <= n < |present| :: init[kept[n]] == found[kept[n]];
    }
  }

  /** What line n says of its rank, and a rank without a line of itself. */
  lemma LinesByRank(lookups: seq<Option<seq<FabricInfo>>>, fabric: string) returns (ranks: seq<nat>)
    ensures var present := Present(FoundAll(lookups, fabric));
            && |ranks| == |present| && (forall a, b | 0 <= a < b < |ranks| :: ranks[a] < ranks[b])
            && (forall n | 0 <= n < |ranks| ::
                  ranks[n] < |lookups| && Found(lookups[ranks[n]], fabric) == Some(present[n]))
            && forall r: nat | r < |lookups| && r !in ranks :: Found(lookups[r], fabric).None?
  {
    hide Kept, Present, Found;
    var found := FoundAll(lookups, fabric);
    ranks := Kept(Answers(found));
    KeptInOrder(Answers(found));
    PresentKept(found);
  }

  /** Every rank looks its address up; then all gather. */
  method LookUpAndGather(lookups: seq<Option<seq<FabricInfo>>>, fabric: string) returns (lines: seq<string>)
    ensures lines == DottedAll(Present(FoundAll(lookups, fabric)))
  {
    var ips: seq<string> := [];
    ghost var found := FoundAll(lookups, fabric);
    var rank := 0;
    while rank < |lookups|
      invariant rank <= |lookups| && ips == Texts(found)[..rank]
    {
      var ip := FindIpFromFabric(lookups[rank], fabric);
      ips := ips + [ip];
      rank := rank + 1;
    }
    assert ips == Texts(found);
    lines := GatherHosts(ips);
    LinesOfFound(found);
  }

  /**
   * The whole program, over the lookups that the ranks do. Line n is the address that rank
   * ranks[n] found first under the fabric's name; a rank that found one has a line.
   */
  method FindHosts(lookups: seq<Option<seq<FabricInfo>>>, fabric: string)
    returns (lines: seq<string>, ghost ranks: seq<nat>)
    ensures lines == DottedAll(Present(FoundAll(lookups, fabric)))
    ensures |lines| == |ranks| && forall a, b | 0 <= a < b < |ranks| :: ranks[a] < ranks[b]
    ensures forall n | 0 <= n < |lines| ::
              && ranks[n] < |lookups| && lookups[ranks[n]].Some?
              && exists i ::
                   && 0 <= i < |lookups[ranks[n]].value| && lookups[ranks[n]].value[i].fabric == Some(fabric)
                   && lookups[ranks[n]].value[i].source.Some?
                   && lines[n] == Dotted(lookups[ranks[n]].value[i].source.value)
                   && forall j | 0 <= j < i ::
                        lookups[ranks[n]].value[j].fabric != Some(fabric) || lookups[ranks[n]].value[j].source.None?
    ensures forall r: nat | r < |lookups| && r !in ranks && lookups[r].Some? ::
              forall j | 0 <= j < |lookups[r].value| ::
                lookups[r].value[j].fabric != Some(fabric) || lookups[r].value[j].source.None?
  {
    hide Present, Dotted, Found;
    lines := LookUpAndGather(lookups, fabric);
    ranks := LinesByRank(lookups, fabric);
    forall r: nat | r < |lookups| {
      FoundByIndex(lookups[r], fabric);
    }
  }
}
