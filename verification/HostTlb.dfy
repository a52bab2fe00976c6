/** The host terminal's copy of the translation buffer and its memory. */
module HostTlb {
  import opened Words
  import opened Tlb

  /** One entry: a pair of pages with a frame and a valid flag for each. */
  datatype Entry = Entry(pair: PairNumber, frame0: PageNumber, frame1: PageNumber, valid0: bool, valid1: bool)

  const BLANK := Entry(0, 0, 0, false, false)

  type Table = t: seq<Entry> | |t| == 8 witness seq(8, _ => BLANK)

  predicate Used(e: Entry) { e.valid0 || e.valid1 }

  function SetHalf(e: Entry, page: PageNumber, frame: PageNumber): Entry
  {
    if page % 2 == 0 then e.(valid0 := true, frame0 := frame) else e.(valid1 := true, frame1 := frame)
  }

  function GetHalf(e: Entry, page: PageNumber): Option<PageNumber>
  {
    if page % 2 == 0 then if e.valid0 then Some(e.frame0) else None
    else if e.valid1 then Some(e.frame1) else None
  }

  /** The first entry from `i` on that holds the pair, used or not; 8 when there is none. */
  function FirstMatch(t: Table, pair: PairNumber, i: nat): (k: nat)
    requires i <= 8
    ensures i <= k <= 8 && (k < 8 ==> t[k].pair == pair)
    ensures forall j | i <= j < k :: t[j].pair != pair
    decreases 8 - i
  {
    if i == 8 || t[i].pair == pair then i else FirstMatch(t, pair, i + 1)
  }

  function FirstFree(t: Table, i: nat): (k: nat)
    requires i <= 8
    ensures i <= k <= 8 && (k < 8 ==> !Used(t[k]))
    ensures forall j | i <= j < k :: Used(t[j])
    decreases 8 - i
  {
    if i == 8 || !Used(t[i]) then i else FirstFree(t, i + 1)
  }

  /** The lookup stops at the first entry with the pair, valid or not. */
  function Found(t: Table, page: PageNumber): Option<PageNumber>
  {
    var k := FirstMatch(t, page / 2, 0);
    if k < 8 then GetHalf(t[k], page) else None
  }

  /** The table after a page was added. */
  function Added(t: Table, page: PageNumber, frame: PageNumber): Table
  {
    if InKseg(page) then t
    else
      var k := FirstMatch(t, page / 2, 0);
      var f := FirstFree(t, 0);
      if k < 8 then t[k := SetHalf(t[k], page, frame)]
      else if f < 8 then t[f := SetHalf(t[f].(pair := page / 2), page, frame)]
      else t
  }

  // ----- the table as a partial map

  /** The first `n` entries are in use for distinct pairs, the others are blank. */
  predicate Tidy(t: Table, n: nat)
  {
    && n <= 8
    && (forall i | 0 <= i < n :: Used(t[i]))
    && (forall i, j | 0 <= i < j < n :: t[i].pair != t[j].pair)
    && (forall i | n <= i < 8 :: t[i] == BLANK)
  }

  predicate HoldsPair(t: Table, n: nat, pair: PairNumber)
  {
    exists i | 0 <= i < n <= 8 :: t[i].pair == pair
  }

  /** The entry an addition writes: the one with the pair, else the first blank one. */
  lemma WhereAdded(t: Table, n: nat, page: PageNumber, frame: PageNumber) returns (e: nat)
    requires Tidy(t, n) && !InKseg(page) && (HoldsPair(t, n, page / 2) || n < 8)
    ensures e < 8 && if HoldsPair(t, n, page / 2) then e < n && t[e].pair == page / 2 else e == n
    ensures Added(t, page, frame) == t[e := SetHalf(t[e].(pair := page / 2), page, frame)]
    ensures FirstMatch(t, page / 2, 0) == e || FirstMatch(t, page / 2, 0) == 8
  {
    var k := FirstMatch(t, page / 2, 0);
    if HoldsPair(t, n, page / 2) {
      e := k;
      assert t[e].(pair := page / 2) == t[e];
    } else {
      e := n;
      assert FirstFree(t, 0) == n;
      if k < 8 {
        assert k == n && t[n].(pair := page / 2) == t[n];
      }
    }
  }

  lemma WriteTidy(t: Table, n: nat, e: nat, x: Entry)
    requires Tidy(t, n) && e < 8 && e <= n && Used(x)
    requires if e < n then x.pair == t[e].pair else !HoldsPair(t, n, x.pair)
    ensures Tidy(t[e := x], if e < n then n else n + 1)
  {
  }

  /** Adding keeps the used entries a prefix with distinct pairs; it takes a new entry exactly when
      the pair is new and one is free. */
  lemma AddedTidy(t: Table, n: nat, page: PageNumber, frame: PageNumber) returns (m: nat)
    requires Tidy(t, n)
    ensures m == if InKseg(page) || HoldsPair(t, n, page / 2) || n == 8 then n else n + 1
    ensures Tidy(Added(t, page, frame), m)
  {
    if InKseg(page) {
      m := n;
    } else if HoldsPair(t, n, page / 2) || n < 8 {
      hide FirstMatch, FirstFree, Tidy, InKseg, Added;
      var e := WhereAdded(t, n, page, frame);
      WriteTidy(t, n, e, SetHalf(t[e].(pair := page / 2), page, frame));
      m := if HoldsPair(t, n, page / 2) then n else n + 1;
    } else {
      m := n;
      FullUnchanged(t, page, frame);
    }
  }

  lemma FullUnchanged(t: Table, page: PageNumber, frame: PageNumber)
    requires Tidy(t, 8) && !HoldsPair(t, 8, page / 2)
    ensures Added(t, page, frame) == t
  {
  }

  /** An add gives its own page the new frame and changes no other page; when the table is full and
      the pair is new it changes nothing at all. */
  lemma AddedIsUpdate(t: Table, n: nat, page: PageNumber, frame: PageNumber, q: PageNumber)
    requires Tidy(t, n) && !InKseg(page)
    ensures Found(Added(t, page, frame), q)
            == if q == page && (HoldsPair(t, n, page / 2) || n < 8) then Some(frame) else Found(t, q)
    ensures !HoldsPair(t, n, page / 2) && n == 8 ==> Added(t, page, frame) == t
  {
    hide FirstMatch, FirstFree, Added, InKseg, Found;
    var after := Added(t, page, frame);
    if HoldsPair(t, n, page / 2) || n < 8 {
      var e := WhereAdded(t, n, page, frame);
      if q / 2 == page / 2 {
        SamePair(t, n, e, page, frame, q);
      } else {
        OtherPair(t, after, n, e, q / 2);
      }
    } else {
      FullUnchanged(t, page, frame);
    }
  }

  /** The two pages of the written pair. */
  lemma SamePair(t: Table, n: nat, e: nat, page: PageNumber, frame: PageNumber, q: PageNumber)
    requires Tidy(t, n) && e < 8 && q / 2 == page / 2
    requires if HoldsPair(t, n, page / 2) then e < n && t[e].pair == page / 2 else e == n
    ensures Found(t[e := SetHalf(t[e].(pair := page / 2), page, frame)], q)
            == if q == page then Some(frame) else Found(t, q)
  {
    hide FirstMatch;
    var pair := page / 2;
    var after := t[e := SetHalf(t[e].(pair := pair), page, frame)];
    HalvesApart(page, q);
    assert after[e].pair == pair;
    assert FirstMatch(after, pair, 0) == e;
    var k := FirstMatch(t, pair, 0);
    if HoldsPair(t, n, pair) {
      assert k == e;
    } else if k < 8 {
      assert t[k] == BLANK;
    }
  }

  /** Two pages of one pair are the same page when they have the same parity. */
  lemma HalvesApart(page: PageNumber, q: PageNumber)
    requires page / 2 == q / 2
    ensures page % 2 == q % 2 <==> page == q
  {
  }

  /** A pair other than the one written is found where it was, or in a blank entry as before. */
  lemma OtherPair(t: Table, after: Table, n: nat, e: nat, other: PairNumber)
    requires Tidy(t, n) && e < 8 && e <= n && after[e].pair != other
    requires forall i | 0 <= i < 8 && i != e :: after[i] == t[i]
    requires t[e].pair == other ==> e == n
    ensures forall q: PageNumber | q / 2 == other :: Found(after, q) == Found(t, q)
  {
    var k, l := FirstMatch(t, other, 0), FirstMatch(after, other, 0);
    if k < n {
      assert l == k;
    } else if l < 8 {
      assert after[l] == t[l] == BLANK;
    }
  }

  // ----- runs of additions

  datatype Addition = Addition(page: PageNumber, frame: PageNumber)

  function Table0(): Table { seq(8, _ => BLANK) }

  function AfterAll(adds: seq<Addition>): Table
  {
    if adds == [] then Table0()
    else Added(AfterAll(adds[..|adds| - 1]), adds[|adds| - 1].page, adds[|adds| - 1].frame)
  }

  /** Eight pairs of pages fit; a page of a ninth pair is refused. */
  function Mapped(m: map<PageNumber, PageNumber>, a: Addition): map<PageNumber, PageNumber>
  {
    if InKseg(a.page) then m
    else if a.page / 2 in Pairs(m) || |Pairs(m)| < 8 then m[a.page := a.frame]
    else m
  }

  function PairOf(page: PageNumber): PairNumber { page / 2 }

  function Pairs(m: map<PageNumber, PageNumber>): set<PairNumber>
  {
    set p: PageNumber | p in m :: PairOf(p)
  }

  function MappedAll(adds: seq<Addition>): map<PageNumber, PageNumber>
  {
    if adds == [] then map[] else Mapped(MappedAll(adds[..|adds| - 1]), adds[|adds| - 1])
  }

  /** The pairs of the used entries. */
  function PairSet(t: Table, n: nat): set<PairNumber>
    requires n <= 8
  {
    set i | 0 <= i < n :: t[i].pair
  }

  lemma {:induction false} PairCount(t: Table, n: nat)
    requires n <= 8 && forall i, j | 0 <= i < j < n :: t[i].pair != t[j].pair
    ensures |PairSet(t, n)| == n
  {
    if n > 0 {
      PairCount(t, n - 1);
      assert PairSet(t, n) == PairSet(t, n - 1) + {t[n - 1].pair};
    }
  }

  /** On every run of additions from the cleared table the lookup is a finite map: the last frame
      added for the page, where a page of a ninth pair is refused. */
  lemma {:induction false} TableIsMap(adds: seq<Addition>) returns (n: nat)
    ensures Tidy(AfterAll(adds), n)
    ensures PairSet(AfterAll(adds), n) == Pairs(MappedAll(adds)) && |Pairs(MappedAll(adds))| == n
    ensures forall q: PageNumber :: Found(AfterAll(adds), q)
              == if q in MappedAll(adds) then Some(MappedAll(adds)[q]) else None
  {
    hide Found, Added, InKseg;
    if adds == [] {
      n := 0;
      BlankFindsNothing();
    } else {
      var before, a := adds[..|adds| - 1], adds[|adds| - 1];
      var t, m := AfterAll(before), MappedAll(before);
      var k := TableIsMap(before);
      n := AddedTidy(t, k, a.page, a.frame);
      PairCount(AfterAll(adds), n);
      HoldsIffIn(t, k, a.page / 2);
      if InKseg(a.page) {
        KsegUnchanged(t, a);
      } else {
        forall q: PageNumber
          ensures Found(AfterAll(adds), q) == if q in MappedAll(adds) then Some(MappedAll(adds)[q]) else None
        {
          AddedIsUpdate(t, k, a.page, a.frame, q);
        }
        AddedPairs(t, k, n, a, m);
      }
    }
  }

  lemma BlankFindsNothing()
    ensures forall q: PageNumber :: Found(Table0(), q) == None
  {
  }

  lemma KsegUnchanged(t: Table, a: Addition)
    requires InKseg(a.page)
    ensures Added(t, a.page, a.frame) == t
  {
  }

  lemma HoldsIffIn(t: Table, n: nat, pair: PairNumber)
    requires n <= 8
    ensures HoldsPair(t, n, pair) <==> pair in PairSet(t, n)
  {
  }

  lemma AddedPairs(t: Table, k: nat, n: nat, a: Addition, m: map<PageNumber, PageNumber>)
    requires Tidy(t, k) && !InKseg(a.page) && PairSet(t, k) == Pairs(m) && |Pairs(m)| == k
    requires n == if HoldsPair(t, k, a.page / 2) || k == 8 then k else k + 1
    requires Tidy(Added(t, a.page, a.frame), n)
    ensures PairSet(Added(t, a.page, a.frame), n) == Pairs(Mapped(m, a))
  {
    hide FirstMatch, FirstFree, Added, InKseg, SetHalf, PairSet, Pairs, HoldsPair;
    var pair := a.page / 2;
    var after := Added(t, a.page, a.frame);
    HoldsIffIn(t, k, pair);
    UpdatedPairs(m, a);
    if HoldsPair(t, k, pair) || k < 8 {
      var e := WhereAdded(t, k, a.page, a.frame);
      KeepsPair(t[e].(pair := pair), a.page, a.frame);
      assert after[e].pair == pair && forall i | 0 <= i < 8 && i != e :: after[i] == t[i];
      WrittenPairs(t, after, k, e);
    } else {
      FullUnchanged(t, a.page, a.frame);
    }
  }

  lemma KeepsPair(x: Entry, page: PageNumber, frame: PageNumber)
    ensures SetHalf(x, page, frame).pair == x.pair
  {
  }

  lemma WrittenPairs(t: Table, after: Table, k: nat, e: nat)
    requires k <= 8 && e < 8 && e <= k && forall i | 0 <= i < 8 && i != e :: after[i] == t[i]
    ensures e < k && after[e].pair == t[e].pair ==> PairSet(after, k) == PairSet(t, k)
    ensures e == k ==> PairSet(after, k + 1) == PairSet(t, k) + {after[e].pair}
  {
    if e < k && after[e].pair == t[e].pair {
      assert forall i | 0 <= i < k :: after[i].pair == t[i].pair;
      assert PairSet(after, k) == PairSet(t, k);
    }
    if e == k {
      assert PairSet(after, k + 1) == PairSet(t, k) + {after[e].pair};
    }
  }

  lemma UpdatedPairs(m: map<PageNumber, PageNumber>, a: Addition)
    ensures Pairs(m[a.page := a.frame]) == Pairs(m) + {PairOf(a.page)}
  {
    var after := m[a.page := a.frame];
    forall p | p in Pairs(m) + {PairOf(a.page)}
      ensures p in Pairs(after)
    {
      if p == PairOf(a.page) {
        assert a.page in after;
      } else {
        var x: PageNumber :| x in m && PairOf(x) == p;
        assert x in after;
      }
    }
  }

  /** The hardware buffer, loaded with the same entries, answers the same outside the kernel
      segments. */
  lemma HardwareAgrees(t: Table, n: nat, slots: Slots, page: PageNumber)
    requires Tidy(t, n) && !InKseg(page)
    requires forall i | 0 <= i < 8 :: slots[i].pair == t[i].pair
               && slots[i].even.valid == t[i].valid0 && slots[i].even.frame == t[i].frame0
               && slots[i].odd.valid == t[i].valid1 && slots[i].odd.frame == t[i].frame1
    ensures Lookup(slots, page) == Found(t, page)
  {
    var k := FirstMatch(t, page / 2, 0);
    SearchFinds(slots, page, 0);
    if Search(slots, page, 0).Some? {
      var j := FindsSlot(slots, page, 0);
      assert j < n && t[j].pair == page / 2;
      assert k == j;
    } else if k < 8 {
      assert !Serves(slots[k], page);
    }
  }

  // ----- the terminal's memory

  const MEM_SIZE := 0x10_0000

  /** kseg0 and kseg1. */
  predicate Direct(addr: Word) { addr / 0x2000_0000 == 4 || addr / 0x2000_0000 == 5 }

  /** The address after translation, if there is one. */
  function Resolved(t: Table, addr: Word): Option<Word>
  {
    if Direct(addr) then Some(addr % 0x2000_0000)
    else match Found(t, Page(addr))
      case None => None
      case Some(frame) => Some(Translate(frame, addr))
  }

  /** The address translates to a word the terminal has, aligned or not. */
  predicate InMemory(t: Table, addr: Word)
  {
    match Resolved(t, addr)
    case None => false
    case Some(phys) => phys / 4 < MEM_SIZE
  }

  /** The address translates to an aligned word the terminal has. */
  predicate CanVisit(t: Table, addr: Word)
  {
    match Resolved(t, addr)
    case None => false
    case Some(phys) => phys / 4 < MEM_SIZE && phys % 4 == 0
  }

  lemma DirectIsKseg(addr: Word)
    ensures Direct(addr) <==> InKseg(Page(addr))
  {
    var q := addr / 0x2000_0000;
    assert addr / 0x1000 / 0x4_0000 == addr / 0x4000_0000;
    assert addr / 0x4000_0000 == q / 2;
  }

  /** Which addresses reach which words of the terminal. From 0x8000_0000 up to 0xC000_0000 the low 29 bits
      count; elsewhere the frame of the last addition for the page, if it was taken, replaces the upper 20. */
  lemma VisitedWords(adds: seq<Addition>, addr: Word)
    ensures var m, page := MappedAll(adds), addr / 0x1000;
            var phys :=
              if 0x8000_0000 <= addr < 0xC000_0000 then addr as int % 0x2000_0000
              else if page in m then m[page] as int * 0x1000 + addr as int % 0x1000
              else -1;
            && (Resolved(AfterAll(adds), addr) == if phys >= 0 then Some(phys) else None)
            && (CanVisit(AfterAll(adds), addr) <==> phys % 4 == 0 && 0 <= phys < 0x40_0000)
  {
    hide MappedAll, AfterAll, Found;
    var n := TableIsMap(adds);
  }

  class HostMemory {
    const tlb: array<Entry>
    const cell: array<Word>

    ghost predicate Valid()
      reads this
    {
      tlb.Length == 8 && cell.Length == MEM_SIZE
    }

    ghost function View(): Table
      requires Valid()
      reads this, tlb
    {
      tlb[..]
    }

    /** `init`: no translations, every word all ones. */
    constructor ()
      ensures Valid() && View() == Table0() && fresh(tlb) && fresh(cell)
      ensures forall k | 0 <= k < MEM_SIZE :: cell[k] == WORD_LIMIT - 1
    {
      tlb := new Entry[8](_ => BLANK);
      cell := new Word[MEM_SIZE](_ => WORD_LIMIT - 1);
      new;
      assert tlb[..] == Table0();
    }

    /** `searchInTLB`: stops at the first entry with the pair. */
    method SearchInTlb(vpn: Word) returns (ok: bool, pfn: Word)
      requires Valid()
      ensures ok == Found(View(), Page(vpn)).Some?
      ensures ok ==> pfn == Translate(Found(View(), Page(vpn)).value, vpn)
    {
      hide Translate;
      var pair := Page(vpn) / 2;
      ok, pfn := false, 0;
      for i := 0 to 8
        invariant FirstMatch(View(), pair, 0) == FirstMatch(View(), pair, i)
        invariant !ok
      {
        if tlb[i].pair == pair {
          if Page(vpn) % 2 == 0 && tlb[i].valid0 {
            return true, Translate(tlb[i].frame0, vpn);
          }
          if Page(vpn) % 2 == 1 && tlb[i].valid1 {
            return true, Translate(tlb[i].frame1, vpn);
          }
          return false, 0;
        }
      }
    }

    /** `addTLBEntry`, for the pages of two addresses; `full` stands for the message it prints when
        the table has no room. */
    method AddTlbEntry(vpn: Word, pfn: Word) returns (full: bool)
      requires Valid()
      modifies tlb
      ensures View() == Added(old(View()), Page(vpn), Page(pfn))
      ensures full <==> !Direct(vpn) && FirstMatch(old(View()), Page(vpn) / 2, 0) == FirstFree(old(View()), 0) == 8
      ensures full ==> View() == old(View())
    {
      full := false;
      DirectIsKseg(vpn);
      if Direct(vpn) {
        return;
      }
      var page, frame := Page(vpn), Page(pfn);
      var pair := page / 2;
      var i := 0;
      while i < 8
        invariant 0 <= i <= 8 && View() == old(View())
        invariant FirstMatch(View(), pair, 0) == FirstMatch(View(), pair, i)
      {
        if tlb[i].pair == pair {
          tlb[i] := SetHalf(tlb[i], page, frame);
          return;
        }
        i := i + 1;
      }
      i := 0;
      while i < 8
        invariant 0 <= i <= 8 && View() == old(View())
        invariant FirstFree(View(), 0) == FirstFree(View(), i)
      {
        if !tlb[i].valid0 && !tlb[i].valid1 {
          tlb[i] := SetHalf(tlb[i].(pair := pair), page, frame);
          return;
        }
        i := i + 1;
      }
      full := true;
    }

    /** `visitable`. */
    method Visitable(addr: Word) returns (b: bool)
      requires Valid()
      ensures b == CanVisit(View(), addr)
    {
      if Direct(addr) {
        var phys := addr % 0x2000_0000;
        return !(phys / 4 >= MEM_SIZE || phys % 4 != 0);
      }
      var ok, phys := SearchInTlb(addr);
      return ok && phys / 4 < MEM_SIZE && phys % 4 == 0;
    }

    /** `vpn2pfn`. Without a translation the source returns an uninitialised variable. */
    method Resolve(addr: Word) returns (phys: Word)
      requires Valid() && Resolved(View(), addr).Some?
      ensures Resolved(View(), addr) == Some(phys)
    {
      if Direct(addr) {
        phys := addr % 0x2000_0000;
      } else {
        var ok;
        ok, phys := SearchInTlb(addr);
      }
    }

    /** `writeWord` changes the addressed word and no other. The source does not check its address;
        outside the memory its effect is undefined. */
    method WriteWord(addr: Word, data: Word)
      requires Valid() && InMemory(View(), addr)
      modifies cell
      ensures cell[..] == old(cell[..])[Resolved(View(), addr).value / 4 := data]
    {
      var phys := Resolve(addr);
      cell[phys / 4] := data;
    }

    method ReadWord(addr: Word) returns (data: Word)
      requires Valid() && InMemory(View(), addr)
      ensures data == cell[Resolved(View(), addr).value / 4]
    {
      var phys := Resolve(addr);
      data := cell[phys / 4];
    }
  }
}
