/** How long decode can stall, and the one instruction pair that stalls it for ever. */
module Liveness {
  import opened Words
  import opened Isa
  import opened Machine
  import opened Pipeline
  import opened Refinement

  /** A linking branch reads the register named by the newer scoreboard entry. While it is held
      that entry is not cleared. */
  predicate Stuck(p: Pipe)
  {
    LinkingBranch(Decoded(p)) && Clash(p.last, Decoded(p))
  }

  /** The macro-cycles for which the instruction in decode will still be held. */
  function StallsLeft(p: Pipe): nat
  {
    var i := Decoded(p);
    (if Freezes(p.mem, p.rewrite) then 1 else 0) +
    if Clash(p.last, i) then 2
    else if Clash(p.lastLast, i) then if p.ex.StoreAt? && p.ex.byteOnly then 2 else 1
    else 0
  }

  lemma StallsBounded(p: Pipe, code: Code)
    requires Consistent(p, code)
    ensures StallsLeft(p) <= 3
    ensures StallsLeft(p) == 0 <==> !Held(p)
  {
    hide Decode, Fetch, DeviceFree, InCode;
  }

  lemma HeldKeepsDecoded(p: Pipe, code: Code)
    requires Consistent(p, code)
    requires WellBehaved(View(p), code)
    requires Held(p)
    ensures Decoded(Step(p)) == Decoded(p)
    ensures View(Step(p)) == View(p)
    ensures Consistent(Step(p), code)
  {
    hide Orderly, SteadyPage, WellBehaved, Current, Held, Step, Decoded, InText, BufferSlots;
    TextBehaves(View(p), code);
    StepRefines(p, code);
    StepConsistent(p, code);
    FetchesCurrent(p, code);
    FetchesCurrent(Step(p), code);
  }

  /** Only a `tlbwi` moves the page of the access before it. */
  lemma UnsteadyIsTlbwi(p: Pipe, code: Code)
    requires Orderly(p, code) && InText(code, p.slots, p.pc) && !SteadyPage(p)
    ensures Decoded(p).Tlbwi?
  {
    hide Orderly, Current, View, InText, Decoded;
    FetchesCurrent(p, code);
  }

  /** A held instruction stays in decode, even a `tlbwi` that moves a page in use. */
  lemma HeldStays(p: Pipe, code: Code)
    requires Orderly(p, code) && WellBehaved(View(p), code) && Held(p)
    ensures Decoded(Step(p)) == Decoded(p) && BufferSlots(Step(p)) == BufferSlots(p)
  {
    hide Orderly, SteadyPage, WellBehaved, View, Decoded, InText, SlotsAfter;
    TextBehaves(View(p), code);
    ViewPc(p);
    if SteadyPage(p) {
      HeldKeepsDecoded(p, code);
    } else {
      UnsteadyIsTlbwi(p, code);
      FrozenStays(p);
    }
  }

  lemma FrozenStays(p: Pipe)
    requires Freezes(p.mem, p.rewrite)
    ensures Decoded(Step(p)) == Decoded(p)
  {
    hide Decode, Fetch, Stored, Issue, NextFetch, Hazard;
  }

  /** Every stalled macro-cycle brings the issue one cycle nearer, unless decode is stuck. */
  lemma StallDecreases(p: Pipe, code: Code)
    requires Consistent(p, code)
    requires WellBehaved(View(p), code)
    requires Held(p) && !Stuck(p)
    ensures StallsLeft(Step(p)) == StallsLeft(p) - 1
    ensures !Stuck(Step(p))
  {
    hide Decoded, Issue, View, WellBehaved, DeviceFree, InCode, WriteBackStage, NextFetch, LinkingBranch;
    HeldKeepsDecoded(p, code);
  }

  /** Stall bound: an instruction that is not stuck is held for at most three macro-cycles. */
  lemma {:induction false} StallsEnd(p: Pipe, code: Code) returns (n: nat)
    requires Consistent(p, code)
    requires WellBehaved(View(p), code)
    requires !Stuck(p)
    ensures n == StallsLeft(p) <= 3
    ensures !Held(Run(p, n)) && Issued(p, n) == 0
    ensures View(Run(p, n)) == View(p) && Consistent(Run(p, n), code)
    decreases StallsLeft(p)
  {
    hide *;
    StallsBounded(p, code);
    RunZero(p);
    if !Held(p) {
      n := 0;
    } else {
      StallDecreases(p, code);
      HeldKeepsDecoded(p, code);
      var m := StallsEnd(Step(p), code);
      n := m + 1;
      RunFromStep(p, m);
    }
  }

  lemma RunZero(p: Pipe)
    ensures Run(p, 0) == p && Issued(p, 0) == 0
  {
  }

  lemma RunNext(p: Pipe, n: nat)
    ensures Run(p, n + 1) == Step(Run(p, n))
    ensures Issued(p, n + 1) == Issued(p, n) + if Held(Run(p, n)) then 0 else 1
  {
    hide Step, Held;
  }

  lemma {:induction false} RunFromStep(p: Pipe, n: nat)
    ensures Run(p, n + 1) == Run(Step(p), n)
    ensures Issued(p, n + 1) == Issued(Step(p), n) + if Held(p) then 0 else 1
  {
    hide Step, Held;
    if n == 0 {
      assert Run(p, 1) == Step(Run(p, 0));
      assert Issued(p, 1) == Issued(p, 0) + if Held(Run(p, 0)) then 0 else 1;
    } else {
      RunFromStep(p, n - 1);
    }
  }

  lemma {:induction false} RunComposes(p: Pipe, m: nat, n: nat)
    ensures Run(p, m + n) == Run(Run(p, m), n)
    ensures Issued(p, m + n) == Issued(p, m) + Issued(Run(p, m), n)
  {
    hide Step, Held;
    if n > 0 {
      RunComposes(p, m, n - 1);
      assert m + n - 1 == m + (n - 1);
    }
  }

  // ----- progress of whole programs

  /** The instruction at `s` writes a register that the next instruction, a linking branch,
      compares. */
  predicate HangsAfter(s: Arch)
  {
    var next := Current(ArchStep(s));
    LinkingBranch(next) && Clash(Dest(Perform(s).uop), next)
  }

  /** A hanging pair: `ori $4, $0, 1` and then `bgezal $4` to the next instruction. */
  lemma LoadThenLinkHangs(s: Arch)
    requires Fetch(s.ram, s.slots, s.pc) == 0x3404_0001 && Fetch(s.ram, s.slots, s.npc) == 0x0491_0001
    ensures HangsAfter(s)
  {
    hide Fetch, Alu, Get, Set;
    assert Decode(0x3404_0001) == AluImm(5, 0, 1, 4);
    assert Decode(0x0491_0001) == Branch(Gez, true, 4, 17, 0x0491_0001);
  }

  /** Right after an issue, decode is stuck exactly when the issued pair is a hanging one. */
  lemma IssueSticks(p: Pipe, code: Code)
    requires Consistent(p, code)
    requires WellBehaved(View(p), code)
    requires InText(code, ArchStep(View(p)).slots, ArchStep(View(p)).pc)
    requires !Held(p)
    ensures Stuck(Step(p)) <==> HangsAfter(View(p))
    ensures View(Step(p)) == ArchStep(View(p))
    ensures Consistent(Step(p), code)
  {
    hide Orderly, SteadyPage, WellBehaved, Current, Issue, Decoded, Perform, View, LinkingBranch, Clash, ArchStep;
    TextBehaves(View(p), code);
    ViewPc(p);
    ViewPc(Step(p));
    StepRefines(p, code);
    StepConsistent(p, code);
    IssuesAsViewed(p, code);
    FetchesCurrent(Step(p), code);
    LastAfterIssue(p);
  }

  lemma LastAfterIssue(p: Pipe)
    requires !Held(p)
    ensures Step(p).last == Dest(Issue(p).uop)
  {
    hide Issue, Hazard, Decoded, NextFetch, MemoryStage;
  }

  /** Progress: without a hanging pair, `k` instructions are issued within 4k macro-cycles. */
  lemma {:induction false} Progress(p: Pipe, k: nat, code: Code) returns (n: nat)
    requires Consistent(p, code) && !Stuck(p)
    requires WellBehavedRun(View(p), k, code)
    requires forall j: nat | j < k :: !HangsAfter(ArchRun(View(p), j))
    ensures n <= 4 * k && Issued(p, n) == k
    ensures Consistent(Run(p, n), code) && !Stuck(Run(p, n))
  {
    hide Orderly, SteadyPage, WellBehaved, View, Held, Stuck, StallsLeft, Step, HangsAfter, InText, Run, Issued,
         ArchStep, ArchRun;
    if k == 0 {
      n := 0;
      RunZero(p);
    } else {
      var m := Progress(p, k - 1, code);
      RunRefines(p, m, code);
      var q := Run(p, m);
      assert WellBehaved(View(q), code);
      var t := StallsEnd(q, code);
      var r := Run(q, t);
      assert View(r) == ArchRun(View(p), k - 1);
      ArchRunNext(View(p), k);
      assert WellBehaved(ArchRun(View(p), k), code);
      TextBehaves(ArchRun(View(p), k), code);
      IssueSticks(r, code);
      RunComposes(p, m, t);
      RunNext(p, m + t);
      n := m + t + 1;
    }
  }

  lemma ArchRunNext(s: Arch, k: nat)
    requires k > 0
    ensures ArchRun(s, k) == ArchStep(ArchRun(s, k - 1))
  {
    hide ArchStep;
  }

  lemma {:induction false} IssuedGrows(p: Pipe, m: nat, n: nat)
    requires m <= n
    ensures Issued(p, m) <= Issued(p, n)
    decreases n
  {
    hide Held, Run;
    if m < n {
      IssuedGrows(p, m, n - 1);
    }
  }

  /** Throughput: without a hanging pair at least one instruction in four macro-cycles is issued. */
  lemma Throughput(p: Pipe, n: nat, code: Code)
    requires Consistent(p, code) && !Stuck(p)
    requires WellBehavedRun(View(p), n, code)
    requires forall j: nat | j < n :: !HangsAfter(ArchRun(View(p), j))
    ensures n / 4 <= Issued(p, n) <= n
  {
    hide *;
    assert WellBehavedRun(View(p), n / 4, code) by {
      ShorterRun(View(p), n, n / 4, code);
    }
    var m := Progress(p, n / 4, code);
    IssuedGrows(p, m, n);
    IssuedBounded(p, n);
  }

  lemma ShorterRun(s: Arch, n: nat, k: nat, code: Code)
    requires WellBehavedRun(s, n, code) && k <= n
    ensures WellBehavedRun(s, k, code)
  {
    hide WellBehaved, ArchRun;
  }

  lemma {:induction false} IssuedBounded(p: Pipe, n: nat)
    ensures Issued(p, n) <= n
  {
    hide Held, Run;
    if n > 0 {
      IssuedBounded(p, n - 1);
    }
  }

  lemma StuckStays(p: Pipe, code: Code)
    requires Consistent(p, code)
    requires WellBehaved(View(p), code)
    requires Stuck(p)
    ensures Held(p) && Stuck(Step(p))
  {
    hide Decoded, Issue, View, WellBehaved, DeviceFree, InCode, WriteBackStage, NextFetch, MemoryStage, Orderly,
         SteadyPage, LinkingBranch;
    HeldKeepsDecoded(p, code);
  }

  /** A hanging pair stops the machine: the linking branch is never issued. */
  lemma {:induction false} HangsForever(p: Pipe, k: nat, n: nat, code: Code)
    requires Consistent(p, code)
    requires WellBehavedRun(View(p), k + 1, code)
    requires HangsAfter(ArchRun(View(p), k))
    ensures Issued(p, n) <= k + 1
    ensures Issued(p, n) == k + 1 ==> Stuck(Run(p, n))
  {
    hide Orderly, SteadyPage, WellBehaved, View, Held, Stuck, Step, HangsAfter, InText, ArchStep;
    if n > 0 {
      HangsForever(p, k, n - 1, code);
      RunRefines(p, n - 1, code);
      var q := Run(p, n - 1);
      assert WellBehaved(View(q), code);
      if Issued(p, n - 1) == k + 1 {
        StuckStays(q, code);
      } else if Issued(p, n - 1) == k && !Held(q) {
        assert ArchStep(View(q)) == ArchRun(View(p), k + 1);
        assert WellBehaved(ArchRun(View(p), k + 1), code);
        TextBehaves(ArchRun(View(p), k + 1), code);
        IssueSticks(q, code);
      }
    }
  }

  /** Main result on progress: instruction number `k` of the sequential run is eventually issued
      if and only if no earlier instruction forms a hanging pair with its successor. */
  lemma IssuedIffNoHang(p: Pipe, k: nat, code: Code)
    requires Consistent(p, code) && !Stuck(p)
    requires WellBehavedRun(View(p), k + 1, code)
    ensures (exists n: nat :: Issued(p, n) > k) <==> forall j: nat | j < k :: !HangsAfter(ArchRun(View(p), j))
  {
    hide Orderly, SteadyPage, WellBehaved, View, Held, Stuck, Step, HangsAfter, ArchRun, StallsLeft, Run, Issued;
    if forall j: nat | j < k :: !HangsAfter(ArchRun(View(p), j)) {
      var m := Progress(p, k, code);
      RunRefines(p, m, code);
      var q := Run(p, m);
      assert WellBehaved(View(q), code);
      var t := StallsEnd(q, code);
      RunComposes(p, m, t);
      RunNext(p, m + t);
      assert Issued(p, m + t + 1) > k;
    } else {
      var j: nat :| j < k && HangsAfter(ArchRun(View(p), j));
      forall n: nat
        ensures !(Issued(p, n) > k)
      {
        HangsForever(p, j, n, code);
      }
      assert !(exists n: nat :: Issued(p, n) > k);
    }
  }
}
