/**
 The device side of the driver: acquiring and releasing what one device needs, with
 staged unwinding after any failed kernel call, and its interrupt handler.

 `PciDev` holds the kernel's books about one PCI device; its methods are the kernel
 calls, reduced to success or failure and what is held afterwards.
 */
module XgpuDevice {
  import opened UserInterrupts

  const BAR_NUM := 6
  const INT_MAX := 0x7fff_ffff
  const CHANNEL_W1C := 0x2018
  const USER_W1C := 0x200c
  const CHANNEL_VECTORS := 0x20a0
  const EINVAL := 22

  datatype MsiMode = NoMsi | Msi | Msix

  /** The `dev_id` an interrupt is requested with: the device, or one of its slots. */
  datatype Cookie = Device | Slot(line: nat)

  datatype Irq = Irq(vector: int, cookie: Cookie)

  /** The kernel's answers to the calls of one open. */
  datatype Outcomes = Outcomes(
    enableOk: bool, region2Ok: bool, region5Ok: bool,
    barLen: seq<nat>, iomapOk: seq<bool>, dma64Ok: bool, dma32Ok: bool,
    msixCapable: bool, msixOk: bool, vectors: seq<int>, slotIrqOk: seq<bool>,
    msiCapable: bool, msiOk: bool, pin: nat, irq: nat, lineIrqOk: bool)

  predicate Lengths(lens: seq<nat>) {
    |lens| == BAR_NUM && forall i :: 0 <= i < BAR_NUM ==> lens[i] < 0x1_0000_0000_0000_0000
  }

  /** Shapes and C integer ranges. */
  predicate Fits(o: Outcomes) {
    && Lengths(o.barLen) && |o.iomapOk| == BAR_NUM
    && |o.vectors| == |o.slotIrqOk| == 16
    && o.pin < 256 && o.irq <= INT_MAX
  }

  /** All interrupt sources have been switched off by the last writes to the two
      write-one-to-clear registers. */
  predicate Silenced(registers: map<nat, bv32>) {
    && CHANNEL_W1C in registers && registers[CHANNEL_W1C] == 0xffff_ffff
    && USER_W1C in registers && registers[USER_W1C] == 0xffff_ffff
  }

  class PciDev {
    const barLen: seq<nat>             // pci_resource_len
    var enables: int
    var regions: set<nat>
    var mapped: set<nat>
    var irqs: set<Irq>
    var msi: MsiMode
    var vectors: seq<int>              // pci_irq_vector
    var vectorRegs: seq<bv32>          // user_msi_vector[8]
    var registers: map<nat, bv32>      // the other registers written
    ghost var opens: seq<Attempt>      // the opens so far

    /** The regions held are those granted by the opens so far, closed or not. */
    ghost predicate Recorded()
      reads this
    {
      regions == HeldAfter(opens) && SameBars(opens, barLen)
    }

    /** The same is held, in the same mode, except perhaps for more regions. */
    twostate predicate SameHoldings()
      reads this
    {
      && unchanged(this`enables, this`mapped, this`irqs, this`msi, this`vectors, this`vectorRegs, this`registers)
      && old(regions) <= regions
    }

    /** Nothing is held but, possibly, regions. */
    ghost predicate Idle()
      reads this
    {
      enables == 0 && mapped == {} && irqs == {} && msi == NoMsi && |vectorRegs| == 8
    }

    method EnableDevice(ok: bool) returns (rv: int)
      modifies this`enables
      ensures if ok then rv == 0 && enables == old(enables) + 1 else rv < 0 && enables == old(enables)
    {
      if ok {
        enables := enables + 1;
        return 0;
      }
      return -EINVAL;
    }

    method DisableDevice()
      modifies this`enables
      ensures enables == old(enables) - 1
    {
      enables := enables - 1;
    }

    method RequestRegion(r: nat, ok: bool) returns (rv: int)
      modifies this`regions
      ensures if ok then rv == 0 else rv < 0
      ensures regions == if ok && Exists(barLen, r) then old(regions) + {r} else old(regions)
    {
      if ok {
        if Exists(barLen, r) {
          regions := regions + {r};
        }
        return 0;
      }
      return -EINVAL;
    }

    method AllocIrqVectors(n: nat, ok: bool, vs: seq<int>) returns (rv: int)
      modifies this`msi, this`vectors
      ensures if ok then rv == n && msi == Msix && vectors == vs else rv < 0 && msi == old(msi)
    {
      if ok {
        msi, vectors := Msix, vs;
        return n;
      }
      return -EINVAL;
    }

    method EnableMsi(ok: bool) returns (rv: int)
      modifies this`msi
      ensures if ok then rv == 0 && msi == Msi else rv < 0 && msi == old(msi)
    {
      if ok {
        msi := Msi;
        return 0;
      }
      return -EINVAL;
    }

    /** `pci_disable_msix` and `pci_disable_msi` leave the other mode alone. */
    method Disable(mode: MsiMode)
      modifies this`msi
      ensures msi == if old(msi) == mode then NoMsi else old(msi)
    {
      if msi == mode {
        msi := NoMsi;
      }
    }

    method RequestIrq(irq: Irq, ok: bool) returns (rv: int)
      modifies this`irqs
      ensures if ok then rv == 0 && irqs == old(irqs) + {irq} else rv < 0 && irqs == old(irqs)
    {
      if ok {
        irqs := irqs + {irq};
        return 0;
      }
      return -EINVAL;
    }

    method FreeIrq(irq: Irq)
      modifies this`irqs
      ensures irqs == old(irqs) - {irq}
    {
      irqs := irqs - {irq};
    }
  }

  // ----- BARs -----

  /** The C conversion of an unsigned 64-bit value to `int`. */
  function ToInt32(n: nat): int { (n + 0x8000_0000) % 0x1_0000_0000 - 0x8000_0000 }

  /** The BARs among the first `n` that have a length, ascending. */
  function Present(lens: seq<nat>, n: nat): (r: seq<nat>)
    requires n <= |lens|
  {
    if n == 0 then [] else Present(lens, n - 1) + if lens[n - 1] > 0 then [n - 1] else []
  }

  /** It is a strictly increasing enumeration. */
  lemma {:induction false} PresentEnumerates(lens: seq<nat>, n: nat)
    requires n <= |lens|
    ensures var r := Present(lens, n);
            && (forall k :: 0 <= k < |r| ==> r[k] < n && lens[r[k]] > 0)
            && (forall j, k :: 0 <= j < k < |r| ==> r[j] < r[k])
            && forall i: nat :: i < n && lens[i] > 0 ==> i in r
  {
    if n > 0 {
      PresentEnumerates(lens, n - 1);
    }
  }

  /** Exactly BARs 0 and 1 exist. */
  predicate OnlyFirstTwo(o: Outcomes)
    requires |o.barLen| == BAR_NUM
  {
    o.barLen[0] > 0 && o.barLen[1] > 0 && forall i :: 2 <= i < BAR_NUM ==> o.barLen[i] == 0
  }

  /** When the second of two BARs is number 1, the configuration BAR. */
  lemma SecondOfTwo(o: Outcomes)
    requires Fits(o)
    ensures var found := Present(o.barLen, BAR_NUM); (|found| == 2 && found[1] == 1) <==> OnlyFirstTwo(o)
  {
    var found := Present(o.barLen, BAR_NUM);
    if OnlyFirstTwo(o) {
      PresentStops(o.barLen, 2, BAR_NUM);
      assert Present(o.barLen, 1) == [0];
    } else if |found| == 2 && found[1] == 1 {
      PresentEnumerates(o.barLen, BAR_NUM);
      NoOthers(o.barLen, found);
    }
  }

  lemma NoOthers(lens: seq<nat>, found: seq<nat>)
    requires |lens| == BAR_NUM && |found| == 2 && found[0] < found[1] == 1 && lens[found[0]] > 0 && lens[1] > 0
    requires forall i: nat :: i < BAR_NUM && lens[i] > 0 ==> i in found
    ensures lens[0] > 0 && forall i :: 2 <= i < BAR_NUM ==> lens[i] == 0
  {
    forall i: nat | 2 <= i < BAR_NUM ensures lens[i] == 0 {
      assert i != found[0] && i != found[1];
    }
  }

  lemma {:induction false} PresentStops(lens: seq<nat>, m: nat, n: nat)
    requires m <= n <= |lens| && forall i :: m <= i < n ==> lens[i] == 0
    ensures Present(lens, n) == Present(lens, m)
  {
    if m < n {
      PresentStops(lens, m, n - 1);
    }
  }

  predicate Mappable(o: Outcomes, n: nat)
    requires n <= |o.barLen| == |o.iomapOk|
  {
    forall i :: 0 <= i < n && o.barLen[i] > 0 ==> o.iomapOk[i]
  }

  // ----- Interrupt modes -----

  predicate UsesMsix(mode: nat, o: Outcomes) { (mode == 3 || mode == 0) && o.msixCapable }

  predicate UsesMsi(mode: nat, o: Outcomes) { !UsesMsix(mode, o) && (mode == 1 || mode == 0) && o.msiCapable }

  predicate InterruptsOk(mode: nat, userMax: nat, o: Outcomes)
    requires Fits(o) && userMax <= 16
  {
    if UsesMsix(mode, o) then o.msixOk && forall i :: 0 <= i < userMax ==> o.slotIrqOk[i]
    else if UsesMsi(mode, o) then o.msiOk && o.lineIrqOk
    else o.pin != 0 && o.lineIrqOk
  }

  /** The device is enabled and no region refused. */
  predicate PassesRegions(o: Outcomes) {
    o.enableOk && o.region2Ok && o.region5Ok
  }

  /** An open gets as far as writing registers. */
  predicate ReachesRegisters(o: Outcomes)
    requires Fits(o)
  {
    PassesRegions(o) && Mappable(o, BAR_NUM) && (o.dma64Ok || o.dma32Ok)
  }

  /** It then writes through BAR 1, which does not exist: the code does not check. */
  predicate Faults(o: Outcomes)
    requires Fits(o)
  {
    ReachesRegisters(o) && o.barLen[1] == 0
  }

  /** When an open gets through. */
  predicate Acquires(mode: nat, userMax: nat, o: Outcomes)
    requires Fits(o) && userMax <= 16
  {
    ReachesRegisters(o) && o.barLen[1] > 0 && InterruptsOk(mode, userMax, o)
  }

  /** What an open needs, mode by mode: an MSI-X interrupt for every slot, one MSI
      interrupt, or a pin and its interrupt. */
  lemma AcquiresExactlyWhen(mode: nat, userMax: nat, o: Outcomes)
    requires Fits(o) && userMax <= 16
    ensures Acquires(mode, userMax, o) <==>
            && o.enableOk && o.region2Ok && o.region5Ok && (o.dma64Ok || o.dma32Ok)
            && (forall i :: 0 <= i < 6 && o.barLen[i] > 0 ==> o.iomapOk[i]) && o.barLen[1] > 0
            && ((mode == 0 || mode == 3) && o.msixCapable ==> o.msixOk && forall i :: 0 <= i < userMax ==> o.slotIrqOk[i])
            && (mode == 1 && o.msiCapable ==> o.msiOk && o.lineIrqOk)
            && (mode == 0 && !o.msixCapable && o.msiCapable ==> o.msiOk && o.lineIrqOk)
            && (mode == 0 && !o.msixCapable && !o.msiCapable ==> o.pin != 0 && o.lineIrqOk)
            && (mode == 1 && !o.msiCapable ==> o.pin != 0 && o.lineIrqOk)
            && (mode == 3 && !o.msixCapable ==> o.pin != 0 && o.lineIrqOk)
            && (mode != 0 && mode != 1 && mode != 3 ==> o.pin != 0 && o.lineIrqOk)
  {
  }

  /** BAR `r` exists; a region without length is granted and nothing held. */
  predicate Exists(lens: seq<nat>, r: nat) { r < |lens| && lens[r] > 0 }

  /** The regions an open is granted; nothing ever releases them. */
  function Granted(o: Outcomes): set<nat> {
    (if o.enableOk && o.region2Ok && Exists(o.barLen, 2) then {2} else {})
    + if PassesRegions(o) && Exists(o.barLen, 5) then {5} else {}
  }

  // ----- All opens of one device -----

  /** One open of a device, as far as acquiring goes. */
  datatype Attempt = Attempt(mode: nat, userMax: nat, o: Outcomes)

  predicate Succeeds(a: Attempt) {
    Fits(a.o) && a.userMax <= 16 && Acquires(a.mode, a.userMax, a.o)
  }

  /** It got past region `r`, which is 2 or 5. */
  predicate Passes(a: Attempt, r: nat) {
    a.o.enableOk && a.o.region2Ok && (r == 2 || a.o.region5Ok)
  }

  predicate PassedBefore(opens: seq<Attempt>, r: nat) {
    exists k :: 0 <= k < |opens| && Passes(opens[k], r)
  }

  /** The regions held after the opens of a device; closing it gives none back. */
  function HeldAfter(opens: seq<Attempt>): set<nat> {
    if opens == [] then {} else HeldAfter(opens[..|opens| - 1]) + Granted(opens[|opens| - 1].o)
  }

  /** The BARs of a device are the same at every open. */
  predicate SameBars(opens: seq<Attempt>, lens: seq<nat>) {
    forall k :: 0 <= k < |opens| ==> opens[k].o.barLen == lens
  }

  /** The kernel refuses a region that is still held. */
  predicate Honours(held: set<nat>, o: Outcomes) {
    (2 in held ==> !o.region2Ok) && (5 in held ==> !o.region5Ok)
  }

  predicate Honoured(opens: seq<Attempt>) {
    forall k :: 0 <= k < |opens| ==> Honours(HeldAfter(opens[..k]), opens[k].o)
  }

  lemma HeldAfterNext(opens: seq<Attempt>, a: Attempt)
    ensures HeldAfter(opens + [a]) == HeldAfter(opens) + Granted(a.o)
  {
    assert (opens + [a])[..|opens|] == opens;
  }

  /** A region is held exactly when it has a length and an open got past it. */
  lemma {:induction false} HeldOncePassed(opens: seq<Attempt>, lens: seq<nat>, r: nat)
    requires SameBars(opens, lens) && (r == 2 || r == 5)
    ensures r in HeldAfter(opens) <==> Exists(lens, r) && PassedBefore(opens, r)
  {
    if opens != [] {
      var (front, last) := (opens[..|opens| - 1], opens[|opens| - 1]);
      HeldOncePassed(front, lens, r);
      assert forall k :: 0 <= k < |front| ==> front[k] == opens[k];
      assert PassedBefore(opens, r) <==> PassedBefore(front, r) || Passes(last, r);
    }
  }

  /** As long as the kernel refuses held regions: after an open that got past a region with
      a length, closed or not, no later open gets past it. */
  lemma RefusedEverAfter(opens: seq<Attempt>, lens: seq<nat>, r: nat, j: nat, k: nat)
    requires Honoured(opens) && SameBars(opens, lens) && (r == 2 || r == 5) && Exists(lens, r)
    requires j < k < |opens| && Passes(opens[j], r)
    ensures !Passes(opens[k], r)
  {
    var before := opens[..k];
    assert before[j] == opens[j];
    HeldOncePassed(before, lens, r);
  }

  /** So at most one open of a device ever gets past such a region, and a device that has one
      is opened successfully at most once. */
  lemma OneOpenSucceeds(opens: seq<Attempt>, lens: seq<nat>, r: nat, k: nat)
    requires Honoured(opens) && SameBars(opens, lens) && (r == 2 || r == 5) && Exists(lens, r)
    requires k < |opens| && Succeeds(opens[k])
    ensures forall j :: 0 <= j < |opens| && j != k ==> !Passes(opens[j], r) && !Succeeds(opens[j])
  {
    forall j | 0 <= j < |opens| && j != k ensures !Passes(opens[j], r) {
      if j < k && Passes(opens[j], r) {
        RefusedEverAfter(opens, lens, r, j, k);
      } else if j > k {
        RefusedEverAfter(opens, lens, r, k, j);
      }
    }
  }

  /** The kernel can let an open through, refusing the regions held. */
  ghost predicate Reopenable(held: set<nat>, lens: seq<nat>, mode: nat, userMax: nat)
    requires userMax <= 16
  {
    exists o :: Fits(o) && o.barLen == lens && Honours(held, o) && Acquires(mode, userMax, o)
  }

  lemma ReopensUnlessHeld(held: set<nat>, lens: seq<nat>, mode: nat, userMax: nat)
    requires userMax <= 16 && Lengths(lens) && lens[1] > 0
    ensures Reopenable(held, lens, mode, userMax) <==> 2 !in held && 5 !in held
  {
    if 2 !in held && 5 !in held {
      var o := Outcomes(true, true, true, lens, [true, true, true, true, true, true], true, true,
                        false, false, seq(16, _ => 0), seq(16, _ => true), false, false, 1, 0, true);
      assert Fits(o) && o.barLen == lens && Honours(held, o) && Acquires(mode, userMax, o);
    }
  }

  /** After any opens of a device, however they and the closes among them ended, a further
      open can succeed exactly when neither region both has a length and was got past. */
  lemma ReopensExactlyWhen(opens: seq<Attempt>, lens: seq<nat>, mode: nat, userMax: nat)
    requires userMax <= 16 && Lengths(lens) && lens[1] > 0 && SameBars(opens, lens)
    ensures Reopenable(HeldAfter(opens), lens, mode, userMax)
            <==> (lens[2] == 0 || !PassedBefore(opens, 2)) && (lens[5] == 0 || !PassedBefore(opens, 5))
  {
    HeldOncePassed(opens, lens, 2);
    HeldOncePassed(opens, lens, 5);
    ReopensUnlessHeld(HeldAfter(opens), lens, mode, userMax);
  }

  ghost function SlotIrqs(vectors: seq<int>, n: nat): set<Irq>
    requires n <= |vectors|
  {
    set i | 0 <= i < n :: Irq(vectors[i], Slot(i))
  }

  lemma SlotIrqsNext(vectors: seq<int>, n: nat)
    requires n < |vectors|
    ensures SlotIrqs(vectors, n + 1) == SlotIrqs(vectors, n) + {Irq(vectors[n], Slot(n))}
    ensures SlotIrqs(vectors, n + 1) - {Irq(vectors[n], Slot(n))} == SlotIrqs(vectors, n)
  {
  }

  class XgpuDev {
    const pdev: PciDev
    var idx: int
    var userMax: nat
    var offline: bool
    var bar: seq<bool>            // which of the mapping addresses are not NULL
    var userBarIdx: int
    var configBarIdx: int
    var bypassBarIdx: int
    var regionsInUse: bool
    var gotRegions: bool
    var irqCount: nat
    var irqLine: int
    var msiEnabled: bool
    var msixEnabled: bool
    var lines: seq<Line>          // user_irq[16]
    var trace: seq<Action>        // handler calls and wake-ups, in order
    ghost var interrupts: seq<Interrupt>  // those handled so far

    ghost function Irqs(): IrqState
      reads this
    {
      IrqState(lines, trace)
    }

    /** Lines and counter are as the interrupts so far have left them since the device was new;
        no part of the driver registers a handler or clears a flag. */
    ghost predicate Handled()
      reads this
    {
      After(Irqs(), irqCount, interrupts, userMax)
    }

    /** No interrupt has been handled yet. */
    ghost predicate Unserved()
      reads this
    {
      Irqs() == Quiet() && interrupts == [] && irqCount == 0
    }

    /** The book-keeping is consistent with itself. */
    ghost predicate Shaped()
      reads this
    {
      |bar| == BAR_NUM && |lines| == 16 && userMax <= 16 && !regionsInUse && !gotRegions
    }

    ghost predicate Blank()
      reads this
    {
      && Shaped() && offline && bar == [false, false, false, false, false, false]
      && userBarIdx == configBarIdx == bypassBarIdx == -1
      && irqLine == 0 && !msiEnabled && !msixEnabled
      && Unserved()
    }

    /** The kernel holds for the device exactly what the book-keeping records, and both
        regions besides, if they have a length. */
    ghost predicate Attached()
      reads this, pdev
    {
      && Shaped() && configBarIdx == 1 && bar[1]
      && pdev.enables == 1
      && (Exists(pdev.barLen, 2) ==> 2 in pdev.regions) && (Exists(pdev.barLen, 5) ==> 5 in pdev.regions)
      && pdev.mapped == MappedOf(bar)
      && Interrupting()
    }

    /** The interrupt mode is on and its interrupts are registered: one per slot in MSI-X
        mode, with the vector registers programmed, else a single one. */
    ghost predicate Interrupting()
      reads this, pdev
    {
      && |pdev.vectorRegs| == 8
      && if msixEnabled then
           && pdev.msi == Msix && |pdev.vectors| == 16 && userMax <= 16
           && pdev.irqs == SlotIrqs(pdev.vectors, userMax) && HoldsVectors(pdev.vectorRegs, userMax)
         else
           && pdev.msi == (if msiEnabled then Msi else NoMsi)
           && irqLine >= 0 && pdev.irqs == {Irq(irqLine, Device)}
    }

    /** Nothing but lines, counters and the write-one-to-clear registers has changed, which is
        all that the interrupt handlers may modify, or the offline flag. */
    twostate predicate OnlyServed()
      reads this, pdev
    {
      && |lines| == 16
      && unchanged(this`idx, this`userMax, this`bar, this`userBarIdx, this`configBarIdx, this`bypassBarIdx,
                   this`regionsInUse, this`gotRegions, this`irqLine, this`msiEnabled, this`msixEnabled)
      && unchanged(pdev`enables, pdev`regions, pdev`mapped, pdev`irqs, pdev`msi, pdev`vectors, pdev`vectorRegs, pdev`opens)
    }

    constructor (pdev: PciDev, userMax: nat)
      requires userMax <= 16
      ensures this.pdev == pdev && this.userMax == userMax && Blank()
      ensures offline && userBarIdx == configBarIdx == bypassBarIdx == -1 && trace == [] && irqCount == 0
      ensures lines == seq(16, _ => Line(false, 0))
    {
      this.pdev := pdev;
      this.userMax := userMax;
      idx := 0;
      offline := true;
      bar := [false, false, false, false, false, false];
      userBarIdx, configBarIdx, bypassBarIdx := -1, -1, -1;
      regionsInUse, gotRegions, msiEnabled, msixEnabled := false, false, false, false;
      irqCount, irqLine := 0, 0;
      lines := seq(16, _ => Line(false, 0));
      trace := [];
      interrupts := [];
    }

    method UnmapBars()
      requires |bar| == BAR_NUM && pdev.mapped == MappedOf(bar)
      modifies this`bar, pdev`mapped
      ensures bar == [false, false, false, false, false, false] && pdev.mapped == {}
    {
      for i := 0 to BAR_NUM
        invariant |bar| == BAR_NUM && pdev.mapped == MappedOf(bar)
        invariant forall k :: 0 <= k < i ==> !bar[k]
      {
        if bar[i] {
          pdev.mapped := pdev.mapped - {i};
          bar := bar[i := false];
        }
      }
    }

    /** 0 for a BAR that is not there, negative when mapping fails, else the mapped length. */
    method MapSingleBar(i: nat, barLen: nat, iomapOk: bool) returns (r: int)
      requires i < BAR_NUM == |bar| && !bar[i] && barLen < 0x1_0000_0000_0000_0000
      requires pdev.mapped == MappedOf(bar)
      modifies this`bar, pdev`mapped
      ensures |bar| == BAR_NUM && pdev.mapped == MappedOf(bar)
      ensures bar == old(bar)[i := barLen > 0 && iomapOk]
      ensures r == 0 <==> barLen == 0
      ensures r < 0 <==> barLen > 0 && !iomapOk
      ensures r > 0 ==> r == if barLen > INT_MAX then INT_MAX else barLen
    {
      bar := bar[i := false];
      if barLen == 0 {
        return 0;
      }
      var mapLen := barLen;
      if barLen > INT_MAX {
        mapLen := INT_MAX;
      }
      if !iomapOk {
        return -1;
      }
      pdev.mapped := pdev.mapped + {i};
      bar := bar[i := true];
      return ToInt32(mapLen);
    }

    /** Which BAR serves user logic and which the bypass, by the position of the
        configuration BAR among the BARs found. */
    method IdentifyBars(list: seq<nat>, configBarPos: nat)
      modifies this`userBarIdx, this`bypassBarIdx
      ensures userBarIdx == if (|list| == 2 && configBarPos == 1) || (3 <= |list| <= 4 && 1 <= configBarPos <= 2)
                            then list[0] else old(userBarIdx)
      ensures bypassBarIdx == if (|list| == 2 && configBarPos == 0) || (3 <= |list| <= 4 && 1 <= configBarPos <= 2)
                              then list[|list| - 1] else old(bypassBarIdx)
    {
      if |list| == 2 {
        if configBarPos == 0 {
          bypassBarIdx := list[1];
        } else if configBarPos == 1 {
          userBarIdx := list[0];
        }
      } else if |list| == 3 || |list| == 4 {
        if configBarPos == 1 || configBarPos == 2 {
          userBarIdx := list[0];
          bypassBarIdx := list[|list| - 1];
        }
      }
    }

    /** All BARs that exist are mapped, or none is. */
    method MapBars(o: Outcomes) returns (rv: int)
      requires Fits(o) && Blank() && pdev.mapped == {}
      modifies this`bar, this`userBarIdx, this`configBarIdx, this`bypassBarIdx, pdev`mapped
      ensures rv == 0 <==> Mappable(o, BAR_NUM)
      ensures rv <= 0 && |bar| == BAR_NUM && pdev.mapped == MappedOf(bar)
      ensures rv != 0 ==> pdev.mapped == {} && bar == old(bar)
      ensures rv == 0 ==> forall i :: 0 <= i < BAR_NUM ==> (bar[i] <==> o.barLen[i] > 0)
      ensures rv == 0 ==> forall i: nat :: i in pdev.mapped <==> i < BAR_NUM && o.barLen[i] > 0
      ensures rv == 0 ==> configBarIdx == 1 && userBarIdx == -1
      ensures rv == 0 ==> var found := Present(o.barLen, BAR_NUM); bypassBarIdx == if |found| == 2 then found[1] else -1
      ensures rv == 0 ==> (bypassBarIdx == configBarIdx <==> OnlyFirstTwo(o))
    {
      var list;
      rv, list := MapEach(o);
      if rv != 0 {
        return rv;
      }
      configBarIdx := 1;
      IdentifyBars(list, 0);
      SecondOfTwo(o);
      return 0;
    }

    method MapEach(o: Outcomes) returns (rv: int, list: seq<nat>)
      requires Fits(o) && pdev.mapped == {} && bar == [false, false, false, false, false, false]
      modifies this`bar, pdev`mapped
      ensures rv <= 0 && |bar| == BAR_NUM && pdev.mapped == MappedOf(bar)
      ensures rv == 0 <==> Mappable(o, BAR_NUM)
      ensures rv != 0 ==> bar == old(bar) && pdev.mapped == {}
      ensures rv == 0 ==> list == Present(o.barLen, BAR_NUM) && forall i :: 0 <= i < BAR_NUM ==> (bar[i] <==> o.barLen[i] > 0)
    {
      list := [];
      for i := 0 to BAR_NUM
        invariant |bar| == BAR_NUM && pdev.mapped == MappedOf(bar) && list == Present(o.barLen, i)
        invariant Mappable(o, i)
        invariant forall k :: 0 <= k < BAR_NUM ==> bar[k] == (k < i && o.barLen[k] > 0)
      {
        var barLen := MapSingleBar(i, o.barLen[i], o.iomapOk[i]);
        if barLen < 0 {
          UnmapBars();
          return -EINVAL, [];
        } else if barLen > 0 {
          list := list + [i];
        } else {
          assert Present(o.barLen, i + 1) == Present(o.barLen, i) + [];
        }
      }
      return 0, list;
    }

    method RequestRegions(o: Outcomes) returns (rv: int)
      requires Fits(o) && o.enableOk && o.barLen == pdev.barLen
      modifies pdev`regions
      ensures rv <= 0 && (rv == 0 <==> o.region2Ok && o.region5Ok)
      ensures pdev.regions == old(pdev.regions) + Granted(o)
      ensures 2 in pdev.regions <==> 2 in old(pdev.regions) || (o.region2Ok && o.barLen[2] > 0)
      ensures 5 in pdev.regions <==> 5 in old(pdev.regions) || (o.region2Ok && o.region5Ok && o.barLen[5] > 0)
    {
      rv := pdev.RequestRegion(2, o.region2Ok);
      if rv != 0 {
        return rv;
      }
      rv := pdev.RequestRegion(5, o.region5Ok);
    }

    method SetDmaMask(o: Outcomes) returns (rv: int)
      ensures rv == 0 <==> o.dma64Ok || o.dma32Ok
    {
      if o.dma64Ok {
        return 0;
      } else if o.dma32Ok {
        return 0;
      }
      return -EINVAL;
    }

    /** Any register access goes through the mapped configuration BAR. */
    method WriteRegister(offset: nat, v: bv32)
      requires |bar| == BAR_NUM && configBarIdx == 1 && bar[1]
      modifies pdev`registers
      ensures pdev.registers == old(pdev.registers)[offset := v]
    {
      pdev.registers := pdev.registers[offset := v];
    }

    method WriteVector(j: nat, v: bv32)
      requires |bar| == BAR_NUM && configBarIdx == 1 && bar[1] && j < |pdev.vectorRegs|
      modifies pdev`vectorRegs
      ensures pdev.vectorRegs == old(pdev.vectorRegs)[j := v]
    {
      pdev.vectorRegs := pdev.vectorRegs[j := v];
    }

    method DisableMsiMsix()
      modifies this`msixEnabled, this`msiEnabled, pdev`msi
      ensures old(msixEnabled) ==> !msixEnabled && msiEnabled == old(msiEnabled) && pdev.msi == (if old(pdev.msi) == Msix then NoMsi else old(pdev.msi))
      ensures !old(msixEnabled) ==> !msixEnabled && !msiEnabled
      ensures !old(msixEnabled) ==> pdev.msi == if old(msiEnabled) && old(pdev.msi) == Msi then NoMsi else old(pdev.msi)
    {
      if msixEnabled {
        pdev.Disable(Msix);
        msixEnabled := false;
      } else if msiEnabled {
        pdev.Disable(Msi);
        msiEnabled := false;
      }
    }

    /** The flag of the chosen mode is set even when the kernel refuses. */
    method EnableMsiMsix(mode: nat, o: Outcomes) returns (rv: int)
      requires pdev.msi == NoMsi && !msixEnabled && !msiEnabled
      modifies this`msixEnabled, this`msiEnabled, pdev`msi, pdev`vectors
      ensures msixEnabled == UsesMsix(mode, o) && msiEnabled == UsesMsi(mode, o)
      ensures msixEnabled <==> (mode == 0 || mode == 3) && o.msixCapable
      ensures msiEnabled <==> o.msiCapable && (mode == 1 || (mode == 0 && !o.msixCapable))
      ensures rv < 0 <==> (msixEnabled && !o.msixOk) || (msiEnabled && !o.msiOk)
      ensures rv >= 0 ==> pdev.msi == (if msixEnabled then Msix else if msiEnabled then Msi else NoMsi)
      ensures rv >= 0 && msixEnabled ==> pdev.vectors == o.vectors
      ensures rv < 0 ==> pdev.msi == NoMsi
    {
      rv := 0;
      if (mode == 3 || mode == 0) && o.msixCapable {
        rv := pdev.AllocIrqVectors(userMax, o.msixOk, o.vectors);
        msixEnabled := true;
      } else if (mode == 1 || mode == 0) && o.msiCapable {
        rv := pdev.EnableMsi(o.msiOk);
        msiEnabled := true;
      }
    }

    /** All slots get their interrupt, or none keeps one. */
    method IrqMsixUserSetup(o: Outcomes) returns (rv: int)
      requires Fits(o) && userMax <= 16 && pdev.irqs == {} && pdev.vectors == o.vectors
      modifies pdev`irqs
      ensures rv <= 0 && (rv == 0 <==> forall i :: 0 <= i < userMax ==> o.slotIrqOk[i])
      ensures pdev.irqs == if rv == 0 then SlotIrqs(pdev.vectors, userMax) else {}
      ensures rv == 0 ==> forall q :: q in pdev.irqs <==>
                q.cookie.Slot? && q.cookie.line < userMax && q.vector == pdev.vectors[q.cookie.line]
    {
      rv := 0;
      var i := 0;
      while i < userMax
        invariant i <= userMax && rv == 0
        invariant forall k :: 0 <= k < i ==> o.slotIrqOk[k]
        invariant pdev.irqs == SlotIrqs(pdev.vectors, i)
      {
        rv := pdev.RequestIrq(Irq(pdev.vectors[i], Slot(i)), o.slotIrqOk[i]);
        if rv != 0 {
          break;
        }
        SlotIrqsNext(pdev.vectors, i);
        i := i + 1;
      }
      if rv != 0 {
        while i > 0
          invariant 0 <= i <= userMax && pdev.irqs == SlotIrqs(pdev.vectors, i)
        {
          i := i - 1;
          SlotIrqsNext(pdev.vectors, i);
          pdev.FreeIrq(Irq(pdev.vectors[i], Slot(i)));
        }
      }
    }

    /** Four vector numbers of five bits to a word, or zeros. */
    method PackWord(start: nat, max: nat) returns (val: bv32, next: nat)
      requires start < max <= 32
      ensures next == if start + 4 <= max then start + 4 else max
      ensures Packed(val, Numbers(start), next - start)
    {
      val := 0;
      next := start;
      var shift: bv32, k := 0, 0;
      ghost var xs := Numbers(start);
      while k < 4 && next < max
        invariant k <= 4 && next == start + k <= max && shift == ShiftOf(k)
        invariant Packed(val, xs, k)
      {
        var x := Low5(next);
        Low5Fits(next);
        PackNext(val, xs, k, x, shift);
        val := val | (x << shift);
        next := next + 1;
        k := k + 1;
        shift := shift + 8;
      }
    }

    method ProgIrqMsixUser(clear: bool)
      requires |bar| == BAR_NUM && configBarIdx == 1 && bar[1] && |pdev.vectorRegs| == 8 && userMax <= 32
      modifies pdev`vectorRegs
      ensures |pdev.vectorRegs| == 8
      ensures forall j :: WordCount(userMax) <= j < 8 ==> pdev.vectorRegs[j] == old(pdev.vectorRegs)[j]
      ensures clear ==> forall j :: 0 <= j < WordCount(userMax) ==> pdev.vectorRegs[j] == 0
      ensures !clear ==> HoldsVectors(pdev.vectorRegs, userMax)
    {
      var i, j := 0, 0;
      while i < userMax
        invariant |pdev.vectorRegs| == 8 && j <= WordCount(userMax)
        invariant if clear then i == 4 * j else i == if 4 * j <= userMax then 4 * j else userMax
        invariant forall k :: j <= k < 8 ==> pdev.vectorRegs[k] == old(pdev.vectorRegs)[k]
        invariant clear ==> forall k :: 0 <= k < j ==> pdev.vectorRegs[k] == 0
        invariant !clear ==> forall k :: 0 <= k < j ==> WordHolds(pdev.vectorRegs[k], k, userMax)
        decreases userMax - i
      {
        var val: bv32 := 0;
        if clear {
          i := i + 4;
        } else {
          val, i := PackWord(i, userMax);
          PackedHolds(val, j, userMax);
        }
        WriteVector(j, val);
        j := j + 1;
      }
    }

    method IrqLineSetup(o: Outcomes) returns (rv: int)
      requires Fits(o) && pdev.irqs == {}
      modifies this`irqLine, pdev`irqs
      ensures rv <= 0 && (rv == 0 <==> o.lineIrqOk) && irqLine == o.irq
      ensures pdev.irqs == if rv == 0 then {Irq(irqLine, Device)} else {}
    {
      irqLine := ToInt32(o.irq);
      rv := pdev.RequestIrq(Irq(irqLine, Device), o.lineIrqOk);
    }

    method IrqLegacySetup(o: Outcomes) returns (rv: int)
      requires Fits(o) && pdev.irqs == {}
      requires |bar| == BAR_NUM && configBarIdx == 1 && bar[1] && |pdev.vectorRegs| == 8
      modifies this`irqLine, pdev`irqs, pdev`vectorRegs, pdev`registers
      ensures rv <= 0 && (rv == 0 <==> o.pin != 0 && o.lineIrqOk) && |pdev.vectorRegs| == 8
      ensures rv == 0 ==> irqLine == o.irq
      ensures pdev.irqs == if rv == 0 then {Irq(irqLine, Device)} else {}
      ensures if o.pin <= 1 then pdev.vectorRegs == old(pdev.vectorRegs) && pdev.registers == old(pdev.registers)
              else var w := Replicated((o.pin - 1) as bv32);
                   && pdev.vectorRegs == [w, w, w, w] + old(pdev.vectorRegs)[4..]
                   && pdev.registers == old(pdev.registers)[0x20a0 := w][0x20a4 := w]
    {
      if o.pin == 0 {
        return -EINVAL;
      }
      if o.pin > 1 {
        var val := (o.pin - 1) as bv32;
        var w := Replicated(val);
        WriteVector(0, w);
        WriteVector(1, w);
        WriteVector(2, w);
        WriteVector(3, w);
        WriteRegister(CHANNEL_VECTORS, w);
        WriteRegister(CHANNEL_VECTORS + 4, w);
      }
      rv := IrqLineSetup(o);
    }

    method IrqSetup(mode: nat, o: Outcomes) returns (rv: int)
      requires Fits(o) && Shaped() && pdev.irqs == {} && configBarIdx == 1 && bar[1] && |pdev.vectorRegs| == 8
      requires msixEnabled == UsesMsix(mode, o) && msiEnabled == UsesMsi(mode, o)
      requires msixEnabled ==> pdev.vectors == o.vectors && o.msixOk
      requires msiEnabled ==> o.msiOk
      modifies this`irqLine, pdev`irqs, pdev`vectorRegs, pdev`registers
      ensures rv <= 0 && (rv == 0 <==> InterruptsOk(mode, userMax, o)) && |pdev.vectorRegs| == 8
      ensures rv != 0 ==> pdev.irqs == {}
      ensures rv == 0 && msixEnabled ==> pdev.irqs == SlotIrqs(pdev.vectors, userMax) && HoldsVectors(pdev.vectorRegs, userMax)
      ensures rv == 0 && !msixEnabled ==> irqLine == o.irq && pdev.irqs == {Irq(irqLine, Device)}
      ensures Silenced(old(pdev.registers)) ==> Silenced(pdev.registers)
    {
      if msixEnabled {
        rv := IrqMsixUserSetup(o);
        if rv != 0 {
          return rv;
        }
        ProgIrqMsixUser(false);
        return 0;
      } else if msiEnabled {
        rv := IrqLineSetup(o);
        return rv;
      }
      rv := IrqLegacySetup(o);
    }

    method IrqTeardown()
      requires Attached()
      modifies pdev`irqs, pdev`vectorRegs
      ensures pdev.irqs == {} && |pdev.vectorRegs| == 8
      ensures if msixEnabled then forall j :: 0 <= j < 8 ==> pdev.vectorRegs[j] == if j < WordCount(userMax) then 0 else old(pdev.vectorRegs)[j]
              else pdev.vectorRegs == old(pdev.vectorRegs)
    {
      if msixEnabled {
        ProgIrqMsixUser(true);
        FreeSlots();
      } else if irqLine != -1 {
        pdev.FreeIrq(Irq(irqLine, Device));
      }
    }

    method FreeSlots()
      requires userMax <= |pdev.vectors| && pdev.irqs == SlotIrqs(pdev.vectors, userMax)
      modifies pdev`irqs
      ensures pdev.irqs == {}
    {
      ghost var vs := pdev.vectors;
      for i := 0 to userMax
        invariant pdev.irqs == SlotIrqs(vs, userMax) - SlotIrqs(vs, i)
      {
        SlotIrqsNext(vs, i);
        pdev.FreeIrq(Irq(pdev.vectors[i], Slot(i)));
      }
    }

    /** The acquiring sequence of an open. Whatever fails, what was acquired before is
        given back, regions excepted. Refused a region, it changes nothing else, not even on
        a device in use. Registers are written exactly when it gets that far, which is why
        BAR 1 must exist then. */
    method Acquire(mode: nat, o: Outcomes) returns (ok: bool)
      requires Fits(o) && o.barLen == pdev.barLen && !Faults(o) && Blank() && (pdev.Idle() || !PassesRegions(o))
      modifies this, pdev
      ensures userMax == old(userMax) && idx == old(idx) && irqCount == old(irqCount)
      ensures Irqs() == old(Irqs()) && interrupts == old(interrupts) && pdev.opens == old(pdev.opens)
      ensures ok <==> Acquires(mode, userMax, o)
      ensures !PassesRegions(o) ==> pdev.SameHoldings()
      ensures if ReachesRegisters(o) then Silenced(pdev.registers) else pdev.registers == old(pdev.registers)
      ensures ReachesRegisters(o) ==> pdev.registers.Keys >= {0x2018, 0x200c}
      ensures ReachesRegisters(o) ==> pdev.registers[0x2018] == pdev.registers[0x200c] == 0xffff_ffff
      ensures ok ==> Attached() && !offline && msixEnabled == UsesMsix(mode, o) && msiEnabled == UsesMsi(mode, o)
      ensures ok ==> (pdev.msi == Msix <==> (mode == 0 || mode == 3) && o.msixCapable)
      ensures ok ==> (pdev.msi == Msi <==> o.msiCapable && (mode == 1 || (mode == 0 && !o.msixCapable)))
      ensures ok && !msixEnabled ==> irqLine == o.irq
      ensures ok ==> forall i :: 0 <= i < BAR_NUM ==> (bar[i] <==> o.barLen[i] > 0)
      ensures !ok && old(pdev.Idle()) ==> pdev.Idle()
      ensures pdev.regions == old(pdev.regions) + Granted(o)
    {
      label errEnable: {
        var rv := pdev.EnableDevice(o.enableOk);
        if rv != 0 {
          break errEnable;
        }
        label errRegions: {
          rv := RequestRegions(o);
          if rv != 0 {
            break errRegions;
          }
          ok := AcquireBars(mode, o);
          if ok {
            return true;
          }
          if gotRegions {
            assert false;  // the flag is never set, so the regions stay
          }
        }
        if !regionsInUse {
          pdev.DisableDevice();
        }
      }
      return false;
    }

    /** From mapping the BARs on, with the unwinding down to there. */
    method AcquireBars(mode: nat, o: Outcomes) returns (ok: bool)
      requires Fits(o) && PassesRegions(o) && !Faults(o) && Blank()
      requires pdev.mapped == {} && pdev.irqs == {} && pdev.msi == NoMsi && |pdev.vectorRegs| == 8
      modifies this`bar, this`userBarIdx, this`configBarIdx, this`bypassBarIdx, pdev`mapped
      modifies this`msixEnabled, this`msiEnabled, this`irqLine, this`offline
      modifies pdev`msi, pdev`vectors, pdev`irqs, pdev`vectorRegs, pdev`registers
      ensures ok <==> Acquires(mode, userMax, o)
      ensures |bar| == BAR_NUM && |pdev.vectorRegs| == 8
      ensures ok ==> !offline && configBarIdx == 1 && bar[1] && pdev.mapped == MappedOf(bar) && Interrupting()
      ensures ok ==> msixEnabled == UsesMsix(mode, o) && msiEnabled == UsesMsi(mode, o)
      ensures if ReachesRegisters(o) then Silenced(pdev.registers) else pdev.registers == old(pdev.registers)
      ensures ok && !msixEnabled ==> irqLine == o.irq
      ensures ok ==> forall i :: 0 <= i < BAR_NUM ==> (bar[i] <==> o.barLen[i] > 0)
      ensures !ok ==> pdev.mapped == {} && pdev.irqs == {} && pdev.msi == NoMsi
    {
      label errMap: {
        var rv := MapBars(o);
        if rv != 0 {
          break errMap;
        }
        label errMask: {
          rv := SetDmaMask(o);
          if rv != 0 {
            break errMask;
          }
          ok := AcquireInterrupts(mode, o);
          if ok {
            return true;
          }
        }
        UnmapBars();
      }
      return false;
    }

    /** From choosing the interrupt mode on. */
    method AcquireInterrupts(mode: nat, o: Outcomes) returns (ok: bool)
      requires Fits(o) && Shaped() && configBarIdx == 1 && bar[1] && !msixEnabled && !msiEnabled
      requires pdev.irqs == {} && pdev.msi == NoMsi && |pdev.vectorRegs| == 8
      modifies this`msixEnabled, this`msiEnabled, this`irqLine, this`offline
      modifies pdev`msi, pdev`vectors, pdev`irqs, pdev`vectorRegs, pdev`registers
      ensures ok <==> InterruptsOk(mode, userMax, o)
      ensures ok ==> !offline && Interrupting() && msixEnabled == UsesMsix(mode, o) && msiEnabled == UsesMsi(mode, o)
      ensures !ok ==> pdev.irqs == {} && pdev.msi == NoMsi && |pdev.vectorRegs| == 8
      ensures Silenced(pdev.registers) && (ok && !msixEnabled ==> irqLine == o.irq)
    {
      WriteRegister(CHANNEL_W1C, 0xffff_ffff);
      WriteRegister(USER_W1C, 0xffff_ffff);
      label errMsix: {
        var rv := EnableMsiMsix(mode, o);
        if rv < 0 {
          break errMsix;
        }
        rv := IrqSetup(mode, o);
        if rv < 0 {
          break errMsix;
        }
        offline := false;
        return true;
      }
      DisableMsiMsix();
      return false;
    }

    /** The releasing sequence of a close. */
    method Release()
      requires Attached()
      modifies this, pdev
      ensures pdev.Idle() && pdev.regions == old(pdev.regions) && pdev.opens == old(pdev.opens) && idx == old(idx)
      ensures bar == [false, false, false, false, false, false]
      ensures old(msixEnabled) ==> forall j :: 0 <= j < WordCount(old(userMax)) ==> pdev.vectorRegs[j] == 0
    {
      IrqTeardown();
      DisableMsiMsix();
      UnmapBars();
      if gotRegions {
        assert false;  // the flag is never set, so the regions stay
      }
      if !regionsInUse {
        pdev.DisableDevice();
      }
    }

    method UserIrqService(i: nat)
      requires i < |lines|
      modifies this`lines, this`trace
      ensures Irqs() == Service(old(Irqs()), i)
    {
      if lines[i].hasHandler {
        trace := trace + [Handle(i)];
        return;
      }
      if lines[i].events == 0 {
        lines := lines[i := lines[i].(events := 1)];
        trace := trace + [Wake(i)];
      }
    }

    /** The shared interrupt handler, given the two request registers; `pending` is what
        its loop leaves of the user request. */
    method Isr(channelRequest: bv32, userRequest: bv32) returns (pending: bv32)
      requires Shaped() && configBarIdx == 1 && bar[1]
      modifies this`lines, this`trace, this`irqCount, this`interrupts, pdev`registers
      ensures Irqs() == ServiceAll(old(Irqs()), Requested(userRequest, userMax))
      ensures Rest(userRequest, userMax, pending)
      ensures interrupts == old(interrupts) + [Shared(userRequest)]
      ensures old(Handled()) ==> Handled()
      ensures irqCount == old(irqCount) + 1
      ensures pdev.registers == if channelRequest != 0 then old(pdev.registers)[0x2018 := channelRequest] else old(pdev.registers)
    {
      if channelRequest != 0 {
        WriteRegister(CHANNEL_W1C, channelRequest);
      }
      pending := DispatchUser(userRequest);
      irqCount := irqCount + 1;
      if old(Handled()) {
        AfterShared(old(Irqs()), old(irqCount), interrupts, userMax, userRequest);
      }
      interrupts := interrupts + [Shared(userRequest)];
    }

    /** The handler of the interrupt of slot `i`, in MSI-X mode. */
    method UserIrq(i: nat)
      requires |lines| == 16 && i < userMax <= 16
      modifies this`lines, this`trace, this`interrupts
      ensures Irqs() == Service(old(Irqs()), i)
      ensures interrupts == old(interrupts) + [Vector(i)]
      ensures old(Handled()) ==> Handled()
    {
      UserIrqService(i);
      if old(Handled()) {
        AfterVector(old(Irqs()), irqCount, interrupts, userMax, i);
      }
      interrupts := interrupts + [Vector(i)];
    }

    /** The body of the dispatch loop, on line `user`. */
    method DispatchLine(ghost request: bv32, user: nat, mask: bv32, pending: bv32) returns (nextMask: bv32, left: bv32)
      requires user < |lines| && Rest(request, user, pending) && mask == Mask(user)
      modifies this`lines, this`trace
      ensures Irqs() ==
              var s := old(Irqs()); if Bit(request, user) then Service(s, user) else s
      ensures Rest(request, user + 1, left) && nextMask == Mask(user + 1)
    {
      var fired;
      fired, left := TestAndClear(request, user, mask, pending);
      if fired {
        UserIrqService(user);
      }
      nextMask := Twice(mask);
    }

    method DispatchUser(userRequest: bv32) returns (pending: bv32)
      requires |lines| == 16 && userMax <= 16
      modifies this`lines, this`trace
      ensures Irqs() == ServiceAll(old(Irqs()), Requested(userRequest, userMax))
      ensures Rest(userRequest, userMax, pending)
    {
      ghost var s := Irqs();
      pending := userRequest;
      RestStart(userRequest);
      var user, mask: bv32 := 0, 1;
      while user < userMax && pending != 0
        invariant user <= userMax && |lines| == 16
        invariant mask == Mask(user)
        invariant Rest(userRequest, user, pending)
        invariant Irqs() == ServiceAll(s, Requested(userRequest, user))
      {
        ServeStep(s, userRequest, user);
        mask, pending := DispatchLine(userRequest, user, mask, pending);
        user := user + 1;
      }
      DispatchEnds(userRequest, user, userMax, pending);
    }
  }

  /** `if (user_irq & mask) user_irq &= ~mask`. */
  method TestAndClear(ghost request: bv32, ghost user: nat, mask: bv32, pending: bv32) returns (fired: bool, left: bv32)
    requires Rest(request, user, pending) && mask == Mask(user)
    ensures fired == Bit(request, user) && Rest(request, user + 1, left)
  {
    RestBit(request, user, mask, pending);
    BitOf(request, user, mask, pending & mask);
    if pending & mask != 0 {
      RestClear(request, user, mask, pending);
      return true, pending & !mask;
    }
    RestSkip(request, user, pending);
    return false, pending;
  }

  ghost function MappedOf(bar: seq<bool>): set<nat> {
    set i: nat | i < |bar| && bar[i]
  }

  /** Since it was opened, however often its handlers have run: a line is flagged iff its
      interrupt ever fired, and was woken exactly once then. */
  lemma LinesSinceOpen(x: XgpuDev, i: nat)
    requires x.Handled() && i < x.userMax
    ensures |x.lines| == 16 && x.lines[i] == Line(false, if Firings(x.interrupts, i) > 0 then 1 else 0)
    ensures Times(x.trace, Wake(i)) == x.lines[i].events && Times(x.trace, Handle(i)) == 0
  {
    RunOfInterrupts(Quiet().lines, x.interrupts, x.userMax, i);
    RunServesAll(Quiet(), x.interrupts, x.userMax);
    ServedLine(Quiet(), AllServed(x.interrupts, x.userMax), i);
  }

  lemma RestStart(request: bv32)
    ensures Rest(request, 0, request)
  {
  }
}
