/** DomainQuery of chimaera_types.h: its factories, its iteration flags and its printed form. */
module DomainQueries {
  import opened Basics
  import Decimal

  const K_LOCAL: bv32 := 1 << 1
  const K_DIRECT: bv32 := 1 << 2
  const K_GLOBAL: bv32 := 1 << 3
  const K_ID: bv32 := 1 << 4
  const K_HASH: bv32 := 1 << 5
  const K_RANGE: bv32 := 1 << 6
  const K_BROADCAST: bv32 := 1 << 15
  const K_FORWARD_TO_LEADER: bv32 := 1 << 17
  const K_REP_UNTIL_SUCCESS: bv32 := 1 << 18
  const K_CHOOSE_ONE: bv32 := 1 << 19
  const GLOBAL_CONTAINERS: u32 := 1

  /** The union: hash_, id_ and range_.off_ share the low word, range_.count_ is the high one. */
  datatype Selection = Selection(low: u32, high: u32)

  datatype DomainQuery = DomainQuery(flags: bv32, subId: u32, sel: Selection)

  /** A factory call; what it leaves unset in the union is whatever was there, `junk`. */
  datatype Factory =
    | LocalId(subId: u32, id: u32)
    | Global(subId: u32, iter: bv32)
    | Range(subId: u32, off: u32, count: u32, iter: bv32)
    | GlobalBcast
    | DirectId(subId: u32, id: u32, iter: bv32)
    | DirectHash(subId: u32, hash: u32, iter: bv32)

  /** The five ways in which the factories set scope and selection. */
  datatype Family = LocalById | Globally | ByRange | DirectById | DirectByHash

  /** The bits a factory sets: those of its family, and the iteration flags it is given. */
  function FlagsOf(family: Family, iter: bv32): bv32 {
    match family
    case LocalById => K_LOCAL | K_ID | iter
    case Globally => K_GLOBAL | iter
    case ByRange => K_GLOBAL | K_RANGE | iter
    case DirectById => K_DIRECT | K_ID | iter
    case DirectByHash => K_DIRECT | K_HASH | iter
  }

  function Make(f: Factory, junk: Selection): DomainQuery {
    match f
    case LocalId(subId, id) => DomainQuery(FlagsOf(LocalById, 0), subId, junk.(low := id))
    case Global(subId, iter) => DomainQuery(FlagsOf(Globally, iter), subId, junk)
    case Range(subId, off, count, iter) => DomainQuery(FlagsOf(ByRange, iter), subId, Selection(off, count))
    case GlobalBcast => DomainQuery(FlagsOf(Globally, K_BROADCAST), GLOBAL_CONTAINERS, junk)
    case DirectId(subId, id, iter) => DomainQuery(FlagsOf(DirectById, iter), subId, junk.(low := id))
    case DirectHash(subId, hash, iter) => DomainQuery(FlagsOf(DirectByHash, iter), subId, junk.(low := hash))
  }

  function FamilyOf(f: Factory): Family {
    match f
    case LocalId(_, _) => LocalById
    case Global(_, _) => Globally
    case Range(_, _, _, _) => ByRange
    case GlobalBcast => Globally
    case DirectId(_, _, _) => DirectById
    case DirectHash(_, _, _) => DirectByHash
  }

  /** The iteration flags a factory call supplies. */
  function IterOf(f: Factory): bv32 {
    match f
    case LocalId(_, _) => 0
    case GlobalBcast => K_BROADCAST
    case _ => f.iter
  }

  /** At most one valid iteration flag, and nothing else. */
  predicate OneIter(iter: bv32) {
    || iter == 0 || iter == K_BROADCAST || iter == K_REP_UNTIL_SUCCESS || iter == K_CHOOSE_ONE
    || iter == K_FORWARD_TO_LEADER
  }

  const ITER_MASK: bv32 := K_BROADCAST | K_REP_UNTIL_SUCCESS | K_CHOOSE_ONE | K_FORWARD_TO_LEADER

  function GetIterFlags(q: DomainQuery): bv32 {
    q.flags & ITER_MASK
  }

  /** GetIterFlags gives back what a factory call supplied exactly when that held iteration flags only. */
  lemma IterFlagsRecovered(f: Factory, junk: Selection)
    ensures GetIterFlags(Make(f, junk)) == IterOf(f) <==> IterOf(f) & 0xE8000 == IterOf(f)
    ensures OneIter(IterOf(f)) ==> GetIterFlags(Make(f, junk)) == IterOf(f)
  {
    match f
    case LocalId(_, _) =>
    case GlobalBcast =>
    case _ =>
  }

  // ---- Printing ----

  function Scope(flags: bv32): string {
    if Any(flags, K_LOCAL) then "local"
    else if Any(flags, K_GLOBAL) then "global"
    else if Any(flags, K_DIRECT) then "direct"
    else ""
  }

  function Iter(flags: bv32): string {
    if Any(flags, K_BROADCAST) then "broadcast"
    else if Any(flags, K_REP_UNTIL_SUCCESS) then "rep_until_success"
    else if Any(flags, K_CHOOSE_ONE) then "choose_one"
    else if Any(flags, K_FORWARD_TO_LEADER) then "forward_to_leader"
    else ""
  }

  function Sel(flags: bv32): string {
    if Any(flags, K_ID) then "id"
    else if Any(flags, K_HASH) then "hash"
    else if Any(flags, K_RANGE) then "range"
    else ""
  }

  function RangeText(q: DomainQuery): string {
    if Any(q.flags, K_RANGE) then Decimal.OfNat(q.sel.low) + [':'] + Decimal.OfNat(q.sel.high)
    else if Any(q.flags, K_ID) || Any(q.flags, K_HASH) then Decimal.OfNat(q.sel.low)
    else ""
  }

  /** hshm::Formatter::format puts its arguments in place of the braces, in order. */
  function Print(q: DomainQuery): string {
    "DomainQuery(iter_algo=" + Iter(q.flags) + ", scope=" + Scope(q.flags) + ", sel=" + Sel(q.flags)
    + ", range=" + RangeText(q) + ", subdom=" + Decimal.OfNat(q.subId) + ")"
  }

  // ---- The print, bit by bit ----

  /** Which bit of the flag word each flag is. */
  lemma FlagBits(f: bv32)
    ensures Any(f, K_LOCAL) <==> f / 0x2 % 2 == 1
    ensures Any(f, K_DIRECT) <==> f / 0x4 % 2 == 1
    ensures Any(f, K_GLOBAL) <==> f / 0x8 % 2 == 1
    ensures Any(f, K_ID) <==> f / 0x10 % 2 == 1
    ensures Any(f, K_HASH) <==> f / 0x20 % 2 == 1
    ensures Any(f, K_RANGE) <==> f / 0x40 % 2 == 1
    ensures Any(f, K_BROADCAST) <==> f / 0x8000 % 2 == 1
    ensures Any(f, K_FORWARD_TO_LEADER) <==> f / 0x20000 % 2 == 1
    ensures Any(f, K_REP_UNTIL_SUCCESS) <==> f / 0x40000 % 2 == 1
    ensures Any(f, K_CHOOSE_ONE) <==> f / 0x80000 % 2 == 1
  {}

  /** The text of a query from the bits of its flag word, 15, 18, 19, 17, then 1, 3, 2, then 4, 5, 6. */
  lemma PrintOfBits(q: DomainQuery)
    ensures var f := q.flags;
            Print(q) ==
            "DomainQuery(iter_algo="
            + (if f / 0x8000 % 2 == 1 then "broadcast" else if f / 0x40000 % 2 == 1 then "rep_until_success"
               else if f / 0x80000 % 2 == 1 then "choose_one" else if f / 0x20000 % 2 == 1 then "forward_to_leader"
               else "")
            + ", scope="
            + (if f / 0x2 % 2 == 1 then "local" else if f / 0x8 % 2 == 1 then "global"
               else if f / 0x4 % 2 == 1 then "direct" else "")
            + ", sel="
            + (if f / 0x10 % 2 == 1 then "id" else if f / 0x20 % 2 == 1 then "hash"
               else if f / 0x40 % 2 == 1 then "range" else "")
            + ", range="
            + (if f / 0x40 % 2 == 1 then Decimal.OfNat(q.sel.low) + ":" + Decimal.OfNat(q.sel.high)
               else if f / 0x10 % 2 == 1 || f / 0x20 % 2 == 1 then Decimal.OfNat(q.sel.low) else "")
            + ", subdom=" + Decimal.OfNat(q.subId) + ")"
  {
    hide Any, Decimal.OfNat;
    FlagBits(q.flags);
  }

  /** hshm::bitfield::SetBits. */
  function SetBits(bits: bv32, more: bv32): bv32 { bits | more }

  /** The fields that each factory sets, in numbers; `junk` is whatever the union held. */
  lemma MadeFields(f: Factory, junk: Selection)
    ensures var q := Make(f, junk);
            match f
            case LocalId(subId, id) => q == DomainQuery(18, subId, Selection(id, junk.high))
            case Global(subId, iter) => q == DomainQuery(SetBits(8, iter), subId, junk)
            case Range(subId, off, count, iter) => q == DomainQuery(SetBits(72, iter), subId, Selection(off, count))
            case GlobalBcast => q == DomainQuery(0x8008, 1, junk)
            case DirectId(subId, id, iter) => q == DomainQuery(SetBits(20, iter), subId, Selection(id, junk.high))
            case DirectHash(subId, hash, iter) => q == DomainQuery(SetBits(36, iter), subId, Selection(hash, junk.high))
  {
    LocalWord();
    BroadcastWord();
    hide FlagsOf, SetBits;
    match f
    case LocalId(_, _) =>
    case Global(_, iter) => GlobalWord(iter);
    case Range(_, _, _, iter) => RangeWord(iter);
    case GlobalBcast =>
    case DirectId(_, _, iter) => DirectIdWord(iter);
    case DirectHash(_, _, iter) => DirectHashWord(iter);
  }

  lemma LocalWord()
    ensures FlagsOf(LocalById, 0) == 18
  {}

  lemma BroadcastWord()
    ensures FlagsOf(Globally, K_BROADCAST) == 0x8008
  {}

  lemma GlobalWord(iter: bv32)
    ensures FlagsOf(Globally, iter) == SetBits(8, iter)
  {}

  lemma RangeWord(iter: bv32)
    ensures FlagsOf(ByRange, iter) == SetBits(72, iter)
  {}

  lemma DirectIdWord(iter: bv32)
    ensures FlagsOf(DirectById, iter) == SetBits(20, iter)
  {}

  lemma DirectHashWord(iter: bv32)
    ensures FlagsOf(DirectByHash, iter) == SetBits(36, iter)
  {}

  /** Everything a print shows. */
  ghost predicate ShowsSame(q: DomainQuery, r: DomainQuery) {
    && Iter(q.flags) == Iter(r.flags) && Scope(q.flags) == Scope(r.flags) && Sel(q.flags) == Sel(r.flags)
    && RangeText(q) == RangeText(r) && q.subId == r.subId
  }

  /** The text of a field, and what follows it, when the separator starts with a character the text lacks. */
  lemma FieldUnique(a: string, b: string, sep: string, x: string, y: string)
    requires sep != "" && sep[0] !in a && sep[0] !in b
    requires a + sep + x == b + sep + y
    ensures a == b && x == y
  {
    assert a + sep + x == a + [sep[0]] + (sep[1..] + x);
    assert b + sep + y == b + [sep[0]] + (sep[1..] + y);
    SplitUnique(a, b, sep[1..] + x, sep[1..] + y, sep[0]);
    assert (sep[1..] + x)[|sep| - 1..] == x && (sep[1..] + y)[|sep| - 1..] == y;
  }

  const HEAD: string := "DomainQuery(iter_algo="

  function AfterRange(q: DomainQuery): string { Decimal.OfNat(q.subId) + ")" }

  function AfterSel(q: DomainQuery): string { RangeText(q) + ", subdom=" + AfterRange(q) }

  function AfterScope(q: DomainQuery): string { Sel(q.flags) + ", range=" + AfterSel(q) }

  function AfterIter(q: DomainQuery): string { Scope(q.flags) + ", sel=" + AfterScope(q) }

  lemma PrintParts(q: DomainQuery)
    ensures Print(q) == HEAD + (Iter(q.flags) + ", scope=" + AfterIter(q))
  {
    hide Iter, Scope, Sel, RangeText, Decimal.OfNat;
  }

  lemma NamesHaveNoComma(q: DomainQuery)
    ensures ',' !in Iter(q.flags) && ',' !in Scope(q.flags) && ',' !in Sel(q.flags) && ',' !in RangeText(q)
  {
    var l, h := Decimal.OfNat(q.sel.low), Decimal.OfNat(q.sel.high);
    assert forall c | c in l + [':'] + h :: c in l || c == ':' || c in h;
  }

  lemma PrintedFields(q: DomainQuery, r: DomainQuery)
    requires Iter(q.flags) + ", scope=" + AfterIter(q) == Iter(r.flags) + ", scope=" + AfterIter(r)
    ensures ShowsSame(q, r)
  {
    hide Iter, Scope, Sel, RangeText, Decimal.OfNat, AfterIter, AfterScope, AfterSel, AfterRange;
    NamesHaveNoComma(q);
    NamesHaveNoComma(r);
    FieldUnique(Iter(q.flags), Iter(r.flags), ", scope=", AfterIter(q), AfterIter(r));
    PrintedScope(q, r);
  }

  lemma PrintedScope(q: DomainQuery, r: DomainQuery)
    requires AfterIter(q) == AfterIter(r)
    ensures Scope(q.flags) == Scope(r.flags) && Sel(q.flags) == Sel(r.flags)
    ensures RangeText(q) == RangeText(r) && q.subId == r.subId
  {
    hide Iter, Scope, Sel, RangeText, Decimal.OfNat, AfterScope, AfterSel, AfterRange;
    NamesHaveNoComma(q);
    NamesHaveNoComma(r);
    FieldUnique(Scope(q.flags), Scope(r.flags), ", sel=", AfterScope(q), AfterScope(r));
    PrintedSel(q, r);
  }

  lemma PrintedSel(q: DomainQuery, r: DomainQuery)
    requires AfterScope(q) == AfterScope(r)
    ensures Sel(q.flags) == Sel(r.flags) && RangeText(q) == RangeText(r) && q.subId == r.subId
  {
    hide Iter, Scope, Sel, RangeText, Decimal.OfNat, AfterRange;
    NamesHaveNoComma(q);
    NamesHaveNoComma(r);
    FieldUnique(Sel(q.flags), Sel(r.flags), ", range=", AfterSel(q), AfterSel(r));
    FieldUnique(RangeText(q), RangeText(r), ", subdom=", AfterRange(q), AfterRange(r));
    PrintedSub(q, r);
  }

  lemma PrintedSub(q: DomainQuery, r: DomainQuery)
    requires AfterRange(q) == AfterRange(r)
    ensures q.subId == r.subId
  {
    hide Decimal.OfNat;
    var a, b := Decimal.OfNat(q.subId), Decimal.OfNat(r.subId);
    assert a == AfterRange(q)[..|AfterRange(q)| - 1] && b == AfterRange(r)[..|AfterRange(r)| - 1];
    Decimal.OfNatInjective(q.subId, r.subId);
  }

  /** Two queries print alike exactly when they show the same five fields. */
  lemma PrintSameIff(q: DomainQuery, r: DomainQuery)
    ensures Print(q) == Print(r) <==> ShowsSame(q, r)
  {
    if Print(q) == Print(r) {
      hide Iter, Scope, Sel, RangeText, Decimal.OfNat, AfterIter, Print;
      PrintParts(q);
      PrintParts(r);
      assert Print(q)[|HEAD|..] == Iter(q.flags) + ", scope=" + AfterIter(q);
      assert Print(r)[|HEAD|..] == Iter(r.flags) + ", scope=" + AfterIter(r);
      PrintedFields(q, r);
    }
  }

  // ---- Injectivity on what the factories build ----

  predicate Flagged(f: Factory) { OneIter(IterOf(f)) }

  /** The part of the union that the flags select. */
  ghost predicate SameActive(q: DomainQuery, r: DomainQuery) {
    if Any(q.flags, K_RANGE) then q.sel == r.sel
    else Any(q.flags, K_ID) || Any(q.flags, K_HASH) ==> q.sel.low == r.sel.low
  }

  const SCOPE_AND_SEL: bv32 := K_LOCAL | K_DIRECT | K_GLOBAL | K_ID | K_HASH | K_RANGE

  lemma MadeFlags(f: Factory, junk: Selection)
    ensures Make(f, junk).flags == FlagsOf(FamilyOf(f), IterOf(f))
  {
    hide FlagsOf;
  }

  /** The three names determine the flags. */
  lemma NamesDetermineFlags(k: Family, iter: bv32, k': Family, iter': bv32)
    requires OneIter(iter) && OneIter(iter')
    requires Iter(FlagsOf(k, iter)) == Iter(FlagsOf(k', iter'))
    requires Scope(FlagsOf(k, iter)) == Scope(FlagsOf(k', iter')) && Sel(FlagsOf(k, iter)) == Sel(FlagsOf(k', iter'))
    ensures k == k' && iter == iter'
  {
    hide Iter, Scope, Sel, FlagsOf;
    IterNames(k, iter);
    IterNames(k', iter');
    IterNamesDiffer(IterBit(iter), IterBit(iter'));
    FamilyNames(k, iter);
    FamilyNames(k', iter');
    assert "global"[0] != "direct"[0];
  }

  const ITER_NAMES := ["", "broadcast", "rep_until_success", "choose_one", "forward_to_leader"]

  function IterBit(iter: bv32): nat {
    if iter == K_BROADCAST then 1 else if iter == K_REP_UNTIL_SUCCESS then 2 else if iter == K_CHOOSE_ONE then 3
    else if iter == K_FORWARD_TO_LEADER then 4 else 0
  }

  lemma IterNamesDiffer(i: nat, j: nat)
    requires i < 5 && j < 5 && ITER_NAMES[i] == ITER_NAMES[j]
    ensures i == j
  {
    assert ITER_NAMES[2][0] != ITER_NAMES[4][0];
  }

  lemma IterNames(k: Family, iter: bv32)
    requires OneIter(iter)
    ensures Iter(FlagsOf(k, iter)) == ITER_NAMES[IterBit(iter)]
  {}

  function ScopeName(k: Family): string {
    if k.LocalById? then "local" else if k.Globally? || k.ByRange? then "global" else "direct"
  }

  function SelName(k: Family): string {
    match k
    case Globally => ""
    case ByRange => "range"
    case DirectByHash => "hash"
    case _ => "id"
  }

  /** The supplied flags change neither the names nor which part of the union is in use. */
  lemma FamilyNames(k: Family, iter: bv32)
    requires OneIter(iter)
    ensures Scope(FlagsOf(k, iter)) == ScopeName(k) && Sel(FlagsOf(k, iter)) == SelName(k)
    ensures Any(FlagsOf(k, iter), K_RANGE) <==> k.ByRange?
    ensures Any(FlagsOf(k, iter), K_ID) <==> k.LocalById? || k.DirectById?
    ensures Any(FlagsOf(k, iter), K_HASH) <==> k.DirectByHash?
  {}

  lemma RangeTextDetermines(q: DomainQuery, r: DomainQuery)
    requires Any(q.flags, K_RANGE) <==> Any(r.flags, K_RANGE)
    requires Any(q.flags, K_ID) || Any(q.flags, K_HASH) <==> Any(r.flags, K_ID) || Any(r.flags, K_HASH)
    requires RangeText(q) == RangeText(r)
    ensures SameActive(q, r)
  {
    var a, b := Decimal.OfNat(q.sel.low), Decimal.OfNat(q.sel.high);
    var c, d := Decimal.OfNat(r.sel.low), Decimal.OfNat(r.sel.high);
    if Any(q.flags, K_RANGE) {
      SplitUnique(a, c, b, d, ':');
      Decimal.OfNatInjective(q.sel.high, r.sel.high);
      Decimal.OfNatInjective(q.sel.low, r.sel.low);
    } else if Any(q.flags, K_ID) || Any(q.flags, K_HASH) {
      Decimal.OfNatInjective(q.sel.low, r.sel.low);
    }
  }

  /**
   * Two factory-built queries with at most one iteration flag each print the same string
   * exactly when flags, subdomain and the active part of the selection agree, whatever
   * was left unset in the union.
   */
  lemma PrintInjective(f: Factory, junk: Selection, g: Factory, junk': Selection)
    requires Flagged(f) && Flagged(g)
    ensures var q, r := Make(f, junk), Make(g, junk');
            Print(q) == Print(r) <==> q.flags == r.flags && q.subId == r.subId && SameActive(q, r)
  {
    hide Iter, Scope, Sel, Print, Make, IterOf, FamilyOf, FlagsOf, OneIter, Any, Decimal.OfNat;
    var q, r := Make(f, junk), Make(g, junk');
    PrintSameIff(q, r);
    MadeFlags(f, junk);
    MadeFlags(g, junk');
    if Print(q) == Print(r) {
      NamesDetermineFlags(FamilyOf(f), IterOf(f), FamilyOf(g), IterOf(g));
      RangeTextDetermines(q, r);
    }
  }

  /** The printed form written from a factory call itself: its own scope, selection and numbers, junk nowhere. */
  function Text(f: Factory): string {
    var (scope, sel, range, subId) :=
      match f
      case LocalId(subId, id) => ("local", "id", Decimal.OfNat(id), subId)
      case Global(subId, _) => ("global", "", "", subId)
      case Range(subId, off, count, _) => ("global", "range", Decimal.OfNat(off) + [':'] + Decimal.OfNat(count), subId)
      case GlobalBcast => ("global", "", "", 1)
      case DirectId(subId, id, _) => ("direct", "id", Decimal.OfNat(id), subId)
      case DirectHash(subId, hash, _) => ("direct", "hash", Decimal.OfNat(hash), subId);
    HEAD + ITER_NAMES[IterBit(IterOf(f))] + ", scope=" + scope + ", sel=" + sel + ", range=" + range
    + ", subdom=" + Decimal.OfNat(subId) + ")"
  }

  /** Each printed part of a factory-built query, from the call. */
  lemma MadeNames(f: Factory, junk: Selection)
    requires Flagged(f)
    ensures var q := Make(f, junk);
            match f
            case LocalId(_, id) =>
              Scope(q.flags) == "local" && Sel(q.flags) == "id" && RangeText(q) == Decimal.OfNat(id)
            case Global(_, _) => Scope(q.flags) == "global" && Sel(q.flags) == RangeText(q) == ""
            case Range(_, off, count, _) =>
              Scope(q.flags) == "global" && Sel(q.flags) == "range"
              && RangeText(q) == Decimal.OfNat(off) + [':'] + Decimal.OfNat(count)
            case GlobalBcast => Scope(q.flags) == "global" && Sel(q.flags) == RangeText(q) == ""
            case DirectId(_, id, _) =>
              Scope(q.flags) == "direct" && Sel(q.flags) == "id" && RangeText(q) == Decimal.OfNat(id)
            case DirectHash(_, hash, _) =>
              Scope(q.flags) == "direct" && Sel(q.flags) == "hash" && RangeText(q) == Decimal.OfNat(hash)
  {
    hide Decimal.OfNat, Scope, Sel, Any, OneIter, FlagsOf;
    MadeFlags(f, junk);
    FamilyNames(FamilyOf(f), IterOf(f));
  }

  lemma FactoryPrints(f: Factory, junk: Selection)
    requires Flagged(f)
    ensures Print(Make(f, junk)) == Text(f)
  {
    hide Iter, Scope, Sel, RangeText, Decimal.OfNat, Any, OneIter, IterBit, FlagsOf;
    MadeFlags(f, junk);
    IterNames(FamilyOf(f), IterOf(f));
    MadeNames(f, junk);
  }

  /** GetGlobalBcast is one particular GetGlobal. */
  function Canonical(f: Factory): Factory { if f.GlobalBcast? then Global(GLOBAL_CONTAINERS, K_BROADCAST) else f }

  /** The print gives the factory call away: which one it was, and every argument. */
  lemma PrintRecoversCall(f: Factory, junk: Selection, g: Factory, junk': Selection)
    requires Flagged(f) && Flagged(g)
    ensures Print(Make(f, junk)) == Print(Make(g, junk')) <==> Canonical(f) == Canonical(g)
  {
    hide Print, Decimal.OfNat;
    FactoryPrints(f, junk);
    FactoryPrints(g, junk');
    FactoryPrints(Canonical(f), junk);
    FactoryPrints(Canonical(g), junk');
    PrintInjective(f, junk, g, junk');
    if Print(Make(f, junk)) == Print(Make(g, junk')) {
      FlagsTellCall(f, junk, g, junk');
    }
  }

  lemma FlagsTellCall(f: Factory, junk: Selection, g: Factory, junk': Selection)
    requires Flagged(f) && Flagged(g)
    requires var q, r := Make(f, junk), Make(g, junk'); q.flags == r.flags && q.subId == r.subId && SameActive(q, r)
    ensures Canonical(f) == Canonical(g)
  {
    hide Any, OneIter, FlagsOf;
    MadeFlags(f, junk);
    MadeFlags(g, junk');
    FamilyNames(FamilyOf(f), IterOf(f));
    FamilyNames(FamilyOf(g), IterOf(g));
    PartsTell(FamilyOf(f), IterOf(f), FamilyOf(g), IterOf(g));
  }

  lemma PartsTell(k: Family, iter: bv32, k': Family, iter': bv32)
    requires OneIter(iter) && OneIter(iter') && FlagsOf(k, iter) == FlagsOf(k', iter')
    ensures k == k' && iter == iter'
  {
    NamesDetermineFlags(k, iter, k', iter');
  }

  // ---- What the print shows of any flags ----

  function FirstIter(flags: bv32): bv32 {
    if Any(flags, K_BROADCAST) then K_BROADCAST
    else if Any(flags, K_REP_UNTIL_SUCCESS) then K_REP_UNTIL_SUCCESS
    else if Any(flags, K_CHOOSE_ONE) then K_CHOOSE_ONE
    else flags & K_FORWARD_TO_LEADER
  }

  function FirstScope(flags: bv32): bv32 {
    if Any(flags, K_LOCAL) then K_LOCAL else if Any(flags, K_GLOBAL) then K_GLOBAL else flags & K_DIRECT
  }

  function FirstSel(flags: bv32): bv32 {
    if Any(flags, K_ID) then K_ID else if Any(flags, K_HASH) then K_HASH else flags & K_RANGE
  }

  /** The flags that a print depends on: the first set one of each kind, and K_RANGE. */
  function Shown(flags: bv32): bv32 {
    FirstIter(flags) | FirstScope(flags) | FirstSel(flags) | (flags & K_RANGE)
  }

  lemma IterCases(a: bv32)
    ensures OneIter(FirstIter(a)) && Iter(a) == ITER_NAMES[IterBit(FirstIter(a))]
  {}

  lemma ScopeCases(a: bv32)
    ensures || (FirstScope(a) == K_LOCAL && Scope(a) == "local") || (FirstScope(a) == K_GLOBAL && Scope(a) == "global")
            || (FirstScope(a) == K_DIRECT && Scope(a) == "direct") || (FirstScope(a) == 0 && Scope(a) == "")
  {}

  lemma SelCases(a: bv32)
    ensures || (FirstSel(a) == K_ID && Sel(a) == "id") || (FirstSel(a) == K_HASH && Sel(a) == "hash")
            || (FirstSel(a) == K_RANGE && Sel(a) == "range") || (FirstSel(a) == 0 && Sel(a) == "")
  {}

  lemma NamesTellFirst(a: bv32, b: bv32)
    ensures Iter(a) == Iter(b) <==> FirstIter(a) == FirstIter(b)
    ensures Scope(a) == Scope(b) <==> FirstScope(a) == FirstScope(b)
    ensures Sel(a) == Sel(b) <==> FirstSel(a) == FirstSel(b)
  {
    hide Iter, Scope, Sel, FirstIter, FirstScope, FirstSel, Any;
    IterCases(a);
    IterCases(b);
    ScopeCases(a);
    ScopeCases(b);
    SelCases(a);
    SelCases(b);
    if Iter(a) == Iter(b) {
      IterNamesDiffer(IterBit(FirstIter(a)), IterBit(FirstIter(b)));
    }
    assert "global"[0] != "direct"[0];
  }

  lemma ShownParts(a: bv32, b: bv32)
    ensures Shown(a) == Shown(b) <==>
            && FirstIter(a) == FirstIter(b) && FirstScope(a) == FirstScope(b) && FirstSel(a) == FirstSel(b)
            && (Any(a, K_RANGE) <==> Any(b, K_RANGE))
  {
    FirstBits(a);
    FirstBits(b);
  }

  /** Each part of the shown flags can be read back from them. */
  lemma FirstBits(a: bv32)
    ensures Shown(a) & ITER_MASK == FirstIter(a)
    ensures Shown(a) & (K_LOCAL | K_GLOBAL | K_DIRECT) == FirstScope(a)
    ensures FirstSel(a) == if Any(Shown(a), K_ID | K_HASH) then Shown(a) & (K_ID | K_HASH) else Shown(a) & K_RANGE
    ensures Any(Shown(a), K_RANGE) <==> Any(a, K_RANGE)
  {}

  /** A range text has a colon exactly when it shows a range, and determines the active selection. */
  lemma RangeTextTells(q: DomainQuery, r: DomainQuery)
    requires FirstSel(q.flags) == FirstSel(r.flags)
    ensures RangeText(q) == RangeText(r) <==>
            (Any(q.flags, K_RANGE) <==> Any(r.flags, K_RANGE)) && SameActive(q, r)
  {
    hide Decimal.OfNat;
    if RangeText(q) == RangeText(r) {
      assert Any(q.flags, K_RANGE) <==> ':' in RangeText(q);
      assert Any(r.flags, K_RANGE) <==> ':' in RangeText(r);
      RangeTextDetermines(q, r);
    }
  }

  /** Queries with any flags print alike exactly when the shown flags, the subdomain and the active selection agree. */
  lemma PrintSameShown(q: DomainQuery, r: DomainQuery)
    ensures Print(q) == Print(r) <==> Shown(q.flags) == Shown(r.flags) && q.subId == r.subId && SameActive(q, r)
  {
    hide Print, Iter, Scope, Sel, FirstIter, FirstScope, FirstSel, Shown, RangeText, Any, SameActive;
    PrintSameIff(q, r);
    NamesTellFirst(q.flags, r.flags);
    ShownParts(q.flags, r.flags);
    if FirstSel(q.flags) == FirstSel(r.flags) {
      RangeTextTells(q, r);
    }
  }

  // ---- Any iteration flags in a factory call ----

  /** The call with only the first iteration flag it supplies. */
  function Top(f: Factory): Factory {
    match f
    case LocalId(_, _) => f
    case GlobalBcast => f
    case Global(subId, iter) => Global(subId, FirstIter(iter))
    case Range(subId, off, count, iter) => Range(subId, off, count, FirstIter(iter))
    case DirectId(subId, id, iter) => DirectId(subId, id, FirstIter(iter))
    case DirectHash(subId, hash, iter) => DirectHash(subId, hash, FirstIter(iter))
  }

  lemma ShownOfMasked(k: Family, iter: bv32)
    requires iter & SCOPE_AND_SEL == 0
    ensures Shown(FlagsOf(k, iter)) == Shown(FlagsOf(k, FirstIter(iter)))
    ensures FlagsOf(k, iter) & SCOPE_AND_SEL == FlagsOf(k, FirstIter(iter)) & SCOPE_AND_SEL
  {}

  lemma MadeTop(f: Factory, junk: Selection)
    ensures Make(f, junk).flags == FlagsOf(FamilyOf(f), IterOf(f))
    ensures Make(Top(f), junk) == Make(f, junk).(flags := FlagsOf(FamilyOf(f), FirstIter(IterOf(f))))
    ensures Flagged(Top(f))
  {
    hide FlagsOf, FirstIter, OneIter, IterOf, FamilyOf, Make, Top;
    MadeFlags(f, junk);
    MadeFlags(Top(f), junk);
    TopKeeps(f, junk);
    TopIter(f);
  }

  lemma TopKeeps(f: Factory, junk: Selection)
    ensures FamilyOf(Top(f)) == FamilyOf(f)
    ensures Make(Top(f), junk).subId == Make(f, junk).subId && Make(Top(f), junk).sel == Make(f, junk).sel
  {
    hide FlagsOf, FirstIter;
  }

  lemma TopIter(f: Factory)
    ensures IterOf(Top(f)) == FirstIter(IterOf(f)) && OneIter(FirstIter(IterOf(f)))
  {
    hide FirstIter, OneIter;
    IterCases(IterOf(f));
    FirstOfBcast();
  }

  lemma FirstOfBcast()
    ensures FirstIter(K_BROADCAST) == K_BROADCAST && FirstIter(0) == 0
  {}

  /** Only the first iteration flag of a call shows. */
  lemma TopPrints(f: Factory, junk: Selection)
    requires IterOf(f) & SCOPE_AND_SEL == 0
    ensures Print(Make(f, junk)) == Print(Make(Top(f), junk))
  {
    hide Print, Shown, FirstIter, Make, Top, IterOf, FlagsOf;
    MadeTop(f, junk);
    PrintSameShown(Make(f, junk), Make(Top(f), junk));
    ShownOfMasked(FamilyOf(f), IterOf(f));
    SameScopeSameActive(Make(f, junk), Make(Top(f), junk));
  }

  lemma SameScopeSameActive(q: DomainQuery, r: DomainQuery)
    requires q.flags & SCOPE_AND_SEL == r.flags & SCOPE_AND_SEL && q.sel == r.sel
    ensures SameActive(q, r)
  {}

  /**
   * For calls whose iteration argument holds no scope or selection flag, any number of
   * iteration flags included: two queries print alike exactly when the calls agree once
   * each keeps only its first iteration flag.
   */
  lemma PrintRecoversTop(f: Factory, junk: Selection, g: Factory, junk': Selection)
    requires IterOf(f) & SCOPE_AND_SEL == 0 && IterOf(g) & SCOPE_AND_SEL == 0
    ensures Print(Make(f, junk)) == Print(Make(g, junk')) <==> Canonical(Top(f)) == Canonical(Top(g))
  {
    hide *;
    TopPrints(f, junk);
    TopPrints(g, junk');
    MadeTop(f, junk);
    MadeTop(g, junk');
    PrintRecoversCall(Top(f), junk, Top(g), junk');
  }

  /**
   * So the print loses something of each call that supplies more than one iteration flag: the
   * call with its first flag alone builds another query that prints the same. GetGlobal with
   * broadcast and choose_one is one such call.
   */
  lemma TwoFlagsCollide(f: Factory, junk: Selection)
    requires IterOf(f) & SCOPE_AND_SEL == 0 && !Flagged(f)
    ensures Print(Make(f, junk)) == Print(Make(Top(f), junk))
    ensures Make(f, junk).flags != Make(Top(f), junk).flags
  {
    hide Print, FirstIter, Make, Top, IterOf, FlagsOf;
    TopPrints(f, junk);
    MadeTop(f, junk);
    MaskedDiffers(FamilyOf(f), IterOf(f));
  }

  lemma MaskedDiffers(k: Family, iter: bv32)
    requires iter & SCOPE_AND_SEL == 0 && !OneIter(iter)
    ensures FlagsOf(k, iter) != FlagsOf(k, FirstIter(iter))
  {}
}
