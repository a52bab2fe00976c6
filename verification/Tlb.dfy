/** The hardware translation buffer: eight slots, each for a pair of pages. */
module Tlb {
  import opened Words

  type PairNumber = n: nat | n < 0x8_0000

  /** One half of a slot: frame, dirty and valid flags. */
  datatype Half = Half(frame: PageNumber, dirty: bool, valid: bool)

  datatype Slot = Slot(pair: PairNumber, even: Half, odd: Half)

  type Slots = s: seq<Slot> | |s| == 8 witness seq(8, _ => Slot(0, Half(0, false, false), Half(0, false, false)))

  const EMPTY_SLOT := Slot(0, Half(0, false, false), Half(0, false, false))

  /** The slot built from the EntryHi, EntryLo0 and EntryLo1 registers. */
  function SlotOf(hi: Word, lo0: Word, lo1: Word): Slot
  {
    Slot(hi / 0x2000, HalfOf(lo0), HalfOf(lo1))
  }

  function HalfOf(lo: Word): Half
  {
    Half((lo / 0x40) % 0x10_0000, Bit2(lo), Bit1(lo))
  }

  predicate InKseg(page: PageNumber) { page / 0x4_0000 == 2 }

  /** The half of a slot that would serve a page. */
  function HalfFor(s: Slot, page: PageNumber): Half
  {
    if page % 2 == 0 then s.even else s.odd
  }

  predicate Serves(s: Slot, page: PageNumber)
  {
    s.pair == page / 2 && HalfFor(s, page).valid
  }

  /** The slots from `i` on, searched in order. */
  function Search(slots: Slots, page: PageNumber, i: nat): Option<PageNumber>
    requires i <= 8
    decreases 8 - i
  {
    if i == 8 then None
    else if Serves(slots[i], page) then Some(HalfFor(slots[i], page).frame)
    else Search(slots, page, i + 1)
  }

  /** Either lookup port: the kernel segments bypass the slots. */
  function Lookup(slots: Slots, page: PageNumber): Option<PageNumber>
  {
    if InKseg(page) then Some(page % 0x4_0000) else Search(slots, page, 0)
  }

  // ----- the buffer as a partial map

  predicate Live(s: Slot) { s.even.valid || s.odd.valid }

  /** No two slots with a valid half hold the same pair of pages. */
  predicate Distinct(slots: Slots)
  {
    forall i, j | 0 <= i < j < 8 && Live(slots[i]) && Live(slots[j]) :: slots[i].pair != slots[j].pair
  }

  /** The mappings the slots hold: page `page` goes to frame `f`. */
  predicate Maps(slots: Slots, page: PageNumber, f: PageNumber)
  {
    exists s | s in slots :: Serves(s, page) && HalfFor(s, page).frame == f
  }

  /** Both lookups are the partial map given by the slots: a page is found with frame `f` exactly
      when some slot holds that mapping, and is reported bad exactly when no slot does. */
  lemma LookupIsMap(slots: Slots, page: PageNumber)
    requires Distinct(slots) && !InKseg(page)
    ensures forall f: PageNumber :: Lookup(slots, page) == Some(f) <==> Maps(slots, page, f)
    ensures Lookup(slots, page) == None <==> forall f: PageNumber :: !Maps(slots, page, f)
  {
    SearchFinds(slots, page, 0);
    if Lookup(slots, page).Some? {
      var k := FindsSlot(slots, page, 0);
      forall f: PageNumber | Maps(slots, page, f)
        ensures Lookup(slots, page) == Some(f)
      {
        var s :| s in slots && Serves(s, page) && HalfFor(s, page).frame == f;
        var j :| 0 <= j < 8 && slots[j] == s;
        assert Live(slots[j]) && Live(slots[k]);
      }
    }
  }

  /** The search finds nothing exactly when no slot serves the page. */
  lemma {:induction false} SearchFinds(slots: Slots, page: PageNumber, i: nat)
    requires i <= 8
    ensures Search(slots, page, i) == None <==> forall j | i <= j < 8 :: !Serves(slots[j], page)
    decreases 8 - i
  {
    if i < 8 {
      SearchFinds(slots, page, i + 1);
    }
  }

  lemma {:induction false} FindsSlot(slots: Slots, page: PageNumber, i: nat) returns (k: nat)
    requires i <= 8 && Search(slots, page, i).Some?
    ensures i <= k < 8 && Serves(slots[k], page)
    ensures Search(slots, page, i) == Some(HalfFor(slots[k], page).frame)
    decreases 8 - i
  {
    if Serves(slots[i], page) {
      k := i;
    } else {
      k := FindsSlot(slots, page, i + 1);
    }
  }

  /** The order of the slots does not matter. */
  lemma OrderIrrelevant(slots: Slots, other: Slots, page: PageNumber)
    requires Distinct(slots) && Distinct(other)
    requires forall s | Live(s) :: s in slots <==> s in other
    ensures Lookup(slots, page) == Lookup(other, page)
  {
    if !InKseg(page) {
      LookupIsMap(slots, page);
      LookupIsMap(other, page);
      if Lookup(slots, page).Some? {
        SameMaps(slots, other, page, Lookup(slots, page).value);
      } else if Lookup(other, page).Some? {
        SameMaps(other, slots, page, Lookup(other, page).value);
      }
    }
  }

  lemma SameMaps(slots: Slots, other: Slots, page: PageNumber, f: PageNumber)
    requires forall s | Live(s) :: s in slots <==> s in other
    requires Maps(slots, page, f)
    ensures Maps(other, page, f)
  {
    var s :| s in slots && Serves(s, page) && HalfFor(s, page).frame == f;
    assert Live(s) && s in other;
  }

  /** Writing a slot gives its two pages the written frames and leaves pages of other pairs alone,
      as long as the pairs stay distinct. */
  lemma WriteRemaps(slots: Slots, index: nat, s: Slot, page: PageNumber)
    requires index < 8 && Distinct(slots) && Distinct(slots[index := s]) && !InKseg(page)
    ensures Live(s) && page / 2 == s.pair ==>
              Lookup(slots[index := s], page)
              == if HalfFor(s, page).valid then Some(HalfFor(s, page).frame) else None
    ensures page / 2 != s.pair && page / 2 != slots[index].pair ==>
              Lookup(slots[index := s], page) == Lookup(slots, page)
  {
    var after := slots[index := s];
    if Live(s) && page / 2 == s.pair {
      SearchFinds(after, page, 0);
      if Search(after, page, 0).Some? {
        var k := FindsSlot(after, page, 0);
        assert Live(after[k]) && Live(after[index]) && k == index;
      }
    }
    if page / 2 != s.pair && page / 2 != slots[index].pair {
      OtherSlots(slots, index, s, page, 0);
    }
  }

  lemma {:induction false} OtherSlots(slots: Slots, index: nat, s: Slot, page: PageNumber, i: nat)
    requires index < 8 && i <= 8
    requires page / 2 != s.pair && page / 2 != slots[index].pair
    ensures Search(slots[index := s], page, i) == Search(slots, page, i)
    decreases 8 - i
  {
    if i < 8 {
      OtherSlots(slots, index, s, page, i + 1);
    }
  }

  // ----- runs of writes

  /** A slot write: the index and the EntryHi, EntryLo0 and EntryLo1 registers at the time. */
  datatype SlotWrite = SlotWrite(index: nat, hi: Word, lo0: Word, lo1: Word)

  function NoSlots(): Slots { seq(8, _ => EMPTY_SLOT) }

  /** One write; only the three low bits of the index register count. */
  function Written(slots: Slots, w: SlotWrite): Slots
  {
    slots[w.index % 8 := SlotOf(w.hi, w.lo0, w.lo1)]
  }

  /** The slots after a run of writes from reset. */
  function AfterWrites(ws: seq<SlotWrite>): Slots
  {
    if ws == [] then NoSlots() else Written(AfterWrites(ws[..|ws| - 1]), ws[|ws| - 1])
  }

  /** Write number `k` is the last one to slot `i`. */
  predicate LastWrite(ws: seq<SlotWrite>, i: nat, k: nat)
  {
    k < |ws| && ws[k].index % 8 == i && forall j | k < j < |ws| :: ws[j].index % 8 != i
  }

  predicate NeverWritten(ws: seq<SlotWrite>, i: nat) { forall j | 0 <= j < |ws| :: ws[j].index % 8 != i }

  /** Each slot holds what was last written to it. */
  lemma {:induction false} HoldsLastWrite(ws: seq<SlotWrite>, i: nat, k: nat)
    requires i < 8 && LastWrite(ws, i, k)
    ensures AfterWrites(ws)[i] == SlotOf(ws[k].hi, ws[k].lo0, ws[k].lo1)
  {
    hide SlotOf;
    var n := |ws| - 1;
    if k < n {
      HoldsLastWrite(ws[..n], i, k);
    }
  }

  /** A slot never written is empty. */
  lemma {:induction false} EmptyUntilWritten(ws: seq<SlotWrite>, i: nat)
    requires i < 8 && NeverWritten(ws, i)
    ensures AfterWrites(ws)[i] == EMPTY_SLOT
  {
    hide SlotOf;
    if ws != [] {
      EmptyUntilWritten(ws[..|ws| - 1], i);
    }
  }

  lemma {:induction false} HasLastWrite(ws: seq<SlotWrite>, i: nat) returns (k: nat)
    requires !NeverWritten(ws, i)
    ensures LastWrite(ws, i, k)
  {
    var n := |ws| - 1;
    if ws[n].index % 8 == i {
      k := n;
    } else {
      k := HasLastWrite(ws[..n], i);
    }
  }

  /** The EntryLo register that belongs to a page. */
  function LoFor(w: SlotWrite, page: PageNumber): Word { if page % 2 == 0 then w.lo0 else w.lo1 }

  /** What a write says of a page: its pair number is in bits 31 to 13 of EntryHi, the page's EntryLo
      has its valid flag, bit 1, set, and the frame in bits 25 to 6. */
  predicate Declares(w: SlotWrite, page: PageNumber, f: PageNumber)
  {
    w.hi / 0x2000 == page / 2 && (LoFor(w, page) / 2) % 2 == 1 && f == (LoFor(w, page) / 0x40) % 0x10_0000
  }

  /** Some write that no later one to the same slot has replaced declares frame `f` for the page. */
  predicate Declared(ws: seq<SlotWrite>, page: PageNumber, f: PageNumber)
  {
    exists i: nat, k: nat | i < 8 && k < |ws| :: LastWrite(ws, i, k) && Declares(ws[k], page, f)
  }

  lemma SlotServes(w: SlotWrite, page: PageNumber, f: PageNumber)
    ensures var s := SlotOf(w.hi, w.lo0, w.lo1);
            Declares(w, page, f) <==> Serves(s, page) && HalfFor(s, page).frame == f
  {
  }

  lemma MapsIsDeclared(ws: seq<SlotWrite>, page: PageNumber, f: PageNumber)
    ensures Maps(AfterWrites(ws), page, f) <==> Declared(ws, page, f)
  {
    hide SlotOf, Serves, HalfFor, Declares, AfterWrites, LastWrite, NeverWritten;
    var slots := AfterWrites(ws);
    if Maps(slots, page, f) {
      var s :| s in slots && Serves(s, page) && HalfFor(s, page).frame == f;
      var i :| 0 <= i < 8 && slots[i] == s;
      EmptyServesNothing(page);
      if NeverWritten(ws, i) {
        EmptyUntilWritten(ws, i);
      } else {
        var k := HasLastWrite(ws, i);
        HoldsLastWrite(ws, i, k);
        SlotServes(ws[k], page, f);
      }
    }
    if Declared(ws, page, f) {
      var i: nat, k: nat :| i < 8 && k < |ws| && LastWrite(ws, i, k) && Declares(ws[k], page, f);
      HoldsLastWrite(ws, i, k);
      SlotServes(ws[k], page, f);
      assert slots[i] in slots;
    }
  }

  lemma EmptyServesNothing(page: PageNumber)
    ensures !Serves(EMPTY_SLOT, page)
  {
  }

  /** After every run of slot writes from reset that leaves the live pairs distinct, either lookup of
      a page outside the kernel segments is the partial map declared by the values last written to
      each slot, and reports the page bad exactly when no such value declares it. */
  lemma RunIsMap(ws: seq<SlotWrite>, page: PageNumber)
    requires Distinct(AfterWrites(ws)) && !InKseg(page)
    ensures forall f: PageNumber :: Lookup(AfterWrites(ws), page) == Some(f) <==> Declared(ws, page, f)
    ensures Lookup(AfterWrites(ws), page) == None <==> forall f: PageNumber :: !Declared(ws, page, f)
  {
    hide Maps, Declared, AfterWrites, Lookup, Distinct;
    LookupIsMap(AfterWrites(ws), page);
    forall f: PageNumber
      ensures Maps(AfterWrites(ws), page, f) <==> Declared(ws, page, f)
    {
      MapsIsDeclared(ws, page, f);
    }
  }

  class Tlb {
    var slots: Slots

    constructor ()
      ensures slots == NoSlots()
    {
      slots := NoSlots();
    }

    method Write(index: nat, s: Slot)
      requires index < 8
      modifies this
      ensures slots == old(slots)[index := s]
    {
      slots := slots[index := s];
    }
  }
}
