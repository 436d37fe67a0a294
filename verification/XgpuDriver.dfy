/**
 The driver: the list of open devices, opening, closing and the offline flag.

 `Valid(all)` is the invariant of every run: the list is in index order with one
 entry per PCI device, the kernel holds for every listed device exactly what its
 entry records, its lines are as the interrupts so far have left them, and nothing
 is held for any other device, regions excepted.
 */
module XgpuDriver {
  import opened XgpuDevice

  // ----- The registry's indices -----

  function NextIndex(xs: seq<int>): int { if xs == [] then 0 else xs[|xs| - 1] + 1 }

  predicate Increasing(xs: seq<int>) {
    forall i, j :: 0 <= i < j < |xs| ==> xs[i] < xs[j]
  }

  datatype RegistryOp = AddEntry | RemoveAt(k: nat)

  function StepIndices(xs: seq<int>, op: RegistryOp): seq<int> {
    match op
    case AddEntry => xs + [NextIndex(xs)]
    case RemoveAt(k) => if k < |xs| then xs[..k] + xs[k + 1..] else xs
  }

  function RunIndices(ops: seq<RegistryOp>): seq<int> {
    if ops == [] then [] else StepIndices(RunIndices(ops[..|ops| - 1]), ops[|ops| - 1])
  }

  lemma AddKeeps(xs: seq<int>, ys: seq<int>)
    requires Increasing(xs) && ys == xs + [NextIndex(xs)]
    ensures Increasing(ys)
  {
    forall i, j | 0 <= i < j < |ys| ensures ys[i] < ys[j] {
      assert ys[i] == xs[i] <= xs[|xs| - 1];
    }
  }

  lemma RemoveAtKeeps(xs: seq<int>, k: nat, ys: seq<int>)
    requires Increasing(xs) && k < |xs| && ys == xs[..k] + xs[k + 1..]
    ensures Increasing(ys) && forall i :: 0 <= i < |ys| ==> ys[i] in xs
  {
    forall i, j | 0 <= i < j < |ys| ensures ys[i] < ys[j] {
      var (i', j') := (if i < k then i else i + 1, if j < k then j else j + 1);
      assert ys[i] == xs[i'] && ys[j] == xs[j'];
    }
  }

  /** Under every interleaving of adds and removes the live indices stay strictly
      increasing along the list, and a new index exceeds all of them. */
  lemma {:induction false} IndicesIncrease(ops: seq<RegistryOp>)
    ensures var xs := RunIndices(ops);
            Increasing(xs) && forall i :: 0 <= i < |xs| ==> 0 <= xs[i] < NextIndex(xs)
    decreases |ops|
  {
    if ops != [] {
      var (front, last) := (ops[..|ops| - 1], ops[|ops| - 1]);
      var (xs, ys) := (RunIndices(front), RunIndices(ops));
      IndicesIncrease(front);
      if last.AddEntry? {
        AddKeeps(xs, ys);
      } else if last.k < |xs| {
        RemoveAtKeeps(xs, last.k, ys);
      }
    }
  }

  /** The list without its first entry `x`. */
  function Without(list: seq<XgpuDev>, x: XgpuDev): seq<XgpuDev> {
    if list == [] then [] else if list[0] == x then list[1..] else [list[0]] + Without(list[1..], x)
  }

  lemma {:induction false} WithoutAt(list: seq<XgpuDev>, x: XgpuDev, k: nat)
    requires k < |list| && list[k] == x && forall i :: 0 <= i < k ==> list[i] != x
    ensures Without(list, x) == list[..k] + list[k + 1..]
  {
    if k > 0 {
      WithoutAt(list[1..], x, k - 1);
      assert list[1..][..k - 1] == list[1..k] && list[1..][k..] == list[k + 1..];
      assert list[..k] == [list[0]] + list[1..k];
    }
  }

  lemma {:induction false} WithoutAbsent(list: seq<XgpuDev>, x: XgpuDev)
    requires x !in list
    ensures Without(list, x) == list
  {
    if list != [] {
      WithoutAbsent(list[1..], x);
    }
  }

  class Driver {
    var list: seq<XgpuDev>

    ghost predicate Valid(all: set<PciDev>)
      reads this, list, all
    {
      EntriesHold(all) && Ordered() && BooksHold(all)
    }

    ghost predicate EntriesHold(all: set<PciDev>)
      reads this, list, all
    {
      forall i :: 0 <= i < |list| ==> list[i].pdev in all && list[i].Attached() && list[i].Handled()
    }

    ghost predicate Ordered()
      reads this, list
    {
      forall i, j :: 0 <= i < j < |list| ==> list[i].pdev != list[j].pdev && list[i].idx < list[j].idx
    }

    ghost predicate BooksHold(all: set<PciDev>)
      reads this, all
    {
      forall p :: p in all ==> p.Recorded() && (!Live(p) ==> p.Idle())
    }

    /** Some open device is on `p`. */
    ghost predicate Live(p: PciDev)
      reads this
    {
      exists i :: 0 <= i < |list| && list[i].pdev == p
    }

    /** `x` is the first entry on `p`. */
    ghost predicate HandleOf(x: XgpuDev, p: PciDev)
      reads this
    {
      x.pdev == p && exists k :: 0 <= k < |list| && list[k] == x && forall i :: 0 <= i < k ==> list[i].pdev != p
    }

    constructor (ghost all: set<PciDev>)
      requires forall p :: p in all ==> p.Idle() && p.regions == {} && p.opens == []
      ensures list == [] && Valid(all)
    {
      list := [];
    }

    method XdevListAdd(x: XgpuDev)
      requires x !in list
      modifies this`list, x`idx
      ensures list == old(list) + [x]
      ensures x.idx == if old(list) == [] then 0 else old(list)[|old(list)| - 1].idx + 1
    {
      if |list| == 0 {
        x.idx := 0;
      } else {
        var last := list[|list| - 1];
        x.idx := last.idx + 1;
      }
      list := list + [x];
    }

    method XdevListRemove(x: XgpuDev)
      modifies this`list
      ensures list == Without(old(list), x)
    {
      var k := 0;
      while k < |list| && list[k] != x
        invariant k <= |list| && forall i :: 0 <= i < k ==> list[i] != x
      {
        k := k + 1;
      }
      if k < |list| {
        WithoutAt(list, x, k);
        list := list[..k] + list[k + 1..];
      } else {
        WithoutAbsent(list, x);
      }
    }

    method XdevFindByPdev(pdev: PciDev) returns (x: XgpuDev?)
      ensures if x == null then !Live(pdev) else HandleOf(x, pdev)
    {
      for k := 0 to |list|
        invariant forall i :: 0 <= i < k ==> list[i].pdev != pdev
      {
        if list[k].pdev == pdev {
          return list[k];
        }
      }
      return null;
    }

    method CheckDevHndl(pdev: PciDev, hndl: XgpuDev) returns (rv: int)
      ensures rv <= 0 && (rv == 0 <==> HandleOf(hndl, pdev))
    {
      var found := XdevFindByPdev(pdev);
      if found != hndl {
        return -EINVAL;
      }
      return 0;
    }

    /** Opening a device. It succeeds exactly when memory and every kernel call needed are
        granted; otherwise it leaves the list as it was, and the device idle or, if it had
        a live handle, as it was. The granted regions stay with the device either way.
        A live device is taken to be refused a region, as `LiveIsRefused` says; and an open
        is taken not to reach a register write without BAR 1. */
    method XgpuDeviceOpen(pdev: PciDev, userMax: nat, mode: nat, allocOk: bool, o: Outcomes, ghost all: set<PciDev>)
      returns (x: XgpuDev?)
      requires Valid(all) && pdev in all && (Live(pdev) ==> !PassesRegions(o))
      requires Fits(o) && o.barLen == pdev.barLen && !Faults(o) && userMax <= 16
      modifies this`list, pdev
      ensures Valid(all)
      ensures x != null <==> allocOk && Acquires(mode, userMax, o)
      ensures x == null ==> list == old(list) && if old(Live(pdev)) then pdev.SameHoldings() else pdev.Idle()
      ensures x != null ==> !old(Live(pdev)) && fresh(x) && list == old(list) + [x]
      ensures x != null ==> x.pdev == pdev && x.userMax == userMax && x.Attached() && !x.offline && x.Handled() && x.Unserved()
      ensures x != null ==> (pdev.msi == Msix <==> (mode == 0 || mode == 3) && o.msixCapable)
      ensures x != null ==> (pdev.msi == Msi <==> o.msiCapable && (mode == 1 || (mode == 0 && !o.msixCapable)))
      ensures pdev.regions == old(pdev.regions) + if allocOk then Granted(o) else {}
      ensures pdev.opens == old(pdev.opens) + if allocOk then [Attempt(mode, userMax, o)] else []
    {
      x := AddOrUndo(pdev, userMax, mode, allocOk, o);
      OpenOutcome(View(this, all, pdev), x);
    }

    /** A new entry that has acquired what it needs, or else no trace of it. */
    method AddOrUndo(pdev: PciDev, userMax: nat, mode: nat, allocOk: bool, o: Outcomes) returns (x: XgpuDev?)
      requires Fits(o) && o.barLen == pdev.barLen && !Faults(o) && userMax <= 16 && (pdev.Idle() || !PassesRegions(o))
      modifies this`list, pdev
      ensures x != null <==> allocOk && Acquires(mode, userMax, o)
      ensures x != null ==> fresh(x) && list == old(list) + [x]
      ensures x != null ==> x.idx == if old(list) == [] then 0 else old(list[|list| - 1].idx) + 1
      ensures x != null ==> x.pdev == pdev && x.userMax == userMax && x.Attached() && !x.offline && x.Handled() && x.Unserved()
      ensures x == null ==> list == old(list) && (old(pdev.Idle()) ==> pdev.Idle()) && (!PassesRegions(o) ==> pdev.SameHoldings())
      ensures x != null ==> (pdev.msi == Msix <==> (mode == 0 || mode == 3) && o.msixCapable)
      ensures x != null ==> (pdev.msi == Msi <==> o.msiCapable && (mode == 1 || (mode == 0 && !o.msixCapable)))
      ensures pdev.regions == old(pdev.regions) + if allocOk then Granted(o) else {}
      ensures pdev.opens == old(pdev.opens) + if allocOk then [Attempt(mode, userMax, o)] else []
      ensures old(pdev.Recorded()) ==> pdev.Recorded()
    {
      if !allocOk {
        return null;
      }
      var ok;
      x, ok := AddAndAcquire(pdev, userMax, mode, o);
      if !ok {
        WithoutAt(list, x, |old(list)|);
        XdevListRemove(x);
        return null;
      }
    }

    /** A new entry at the end of the list, and what it acquires. */
    method AddAndAcquire(pdev: PciDev, userMax: nat, mode: nat, o: Outcomes) returns (x: XgpuDev, ok: bool)
      requires Fits(o) && o.barLen == pdev.barLen && !Faults(o) && userMax <= 16 && (pdev.Idle() || !PassesRegions(o))
      modifies this`list, pdev
      ensures fresh(x) && x.pdev == pdev && x.userMax == userMax && list == old(list) + [x]
      ensures x.idx == if old(list) == [] then 0 else old(list[|list| - 1].idx) + 1
      ensures ok <==> Acquires(mode, userMax, o)
      ensures ok ==> x.Attached() && !x.offline && x.Handled() && x.Unserved()
      ensures ok ==> (pdev.msi == Msix <==> (mode == 0 || mode == 3) && o.msixCapable)
      ensures ok ==> (pdev.msi == Msi <==> o.msiCapable && (mode == 1 || (mode == 0 && !o.msixCapable)))
      ensures !PassesRegions(o) ==> pdev.SameHoldings()
      ensures !ok && old(pdev.Idle()) ==> pdev.Idle()
      ensures pdev.regions == old(pdev.regions) + Granted(o)
      ensures pdev.opens == old(pdev.opens) + [Attempt(mode, userMax, o)]
      ensures old(pdev.Recorded()) ==> pdev.Recorded()
    {
      x := new XgpuDev(pdev, userMax);
      XdevListAdd(x);
      ok := x.Acquire(mode, o);
      HeldAfterNext(pdev.opens, Attempt(mode, userMax, o));
      pdev.opens := pdev.opens + [Attempt(mode, userMax, o)];
    }

    /** Closing acts on the live handle of the device and on nothing else. */
    method XgpuDeviceClose(pdev: PciDev, hndl: XgpuDev?, ghost all: set<PciDev>)
      requires Valid(all) && pdev in all
      modifies this`list, pdev, if hndl == null then {} else {hndl}
      ensures Valid(all)
      ensures if hndl != null && hndl in old(list) && hndl.pdev == pdev
              then list == Without(old(list), hndl) && !Live(pdev) && pdev.Idle()
                   && pdev.regions == old(pdev.regions) && pdev.opens == old(pdev.opens)
              else list == old(list) && unchanged(pdev) && (hndl != null ==> unchanged(hndl))
    {
      if hndl == null {
        return;
      }
      var rv := CheckDevHndl(pdev, hndl);
      if rv < 0 {
        return;
      }
      ghost var k := IndexOf(list, hndl);
      ReleaseAndRemove(hndl, k);
      CloseKeepsValid(View(this, all, pdev), k);
    }

    method ReleaseAndRemove(x: XgpuDev, ghost k: nat)
      requires k < |list| && list[k] == x && forall i :: 0 <= i < k ==> list[i] != x
      requires x.Attached()
      modifies this`list, x, x.pdev
      ensures list == Without(old(list), x) == old(list)[..k] + old(list)[k + 1..]
      ensures x.pdev.Idle() && x.pdev.regions == old(x.pdev.regions) && x.pdev.opens == old(x.pdev.opens)
    {
      x.Release();
      WithoutAt(list, x, k);
      XdevListRemove(x);
    }

    /** Taking a device offline marks its live handle and changes nothing else. */
    method XgpuDeviceOffline(pdev: PciDev, hndl: XgpuDev?, ghost all: set<PciDev>)
      requires Valid(all)
      modifies (if hndl == null then {} else {hndl})`offline
      ensures Valid(all)
      ensures hndl != null ==> hndl.offline == (old(hndl.offline) || (hndl in list && hndl.pdev == pdev))
    {
      if hndl == null {
        return;
      }
      var rv := CheckDevHndl(pdev, hndl);
      if rv < 0 {
        return;
      }
      hndl.offline := true;
      ServedKeepsValid(View(this, all, pdev));
    }

    method XgpuDeviceOnline(pdev: PciDev, hndl: XgpuDev?, ghost all: set<PciDev>)
      requires Valid(all)
      modifies (if hndl == null then {} else {hndl})`offline
      ensures Valid(all)
      ensures hndl != null ==> hndl.offline == (old(hndl.offline) && !(hndl in list && hndl.pdev == pdev))
    {
      if hndl == null {
        return;
      }
      var rv := CheckDevHndl(pdev, hndl);
      if rv < 0 {
        return;
      }
      hndl.offline := false;
      ServedKeepsValid(View(this, all, pdev));
    }

    /** A kernel that refuses held regions refuses one to a device with a live handle, if
        BAR 2 or 5 exists. */
    lemma LiveIsRefused(all: set<PciDev>, p: PciDev, o: Outcomes)
      requires Valid(all) && Live(p) && Honours(p.regions, o) && (Exists(p.barLen, 2) || Exists(p.barLen, 5))
      ensures !PassesRegions(o)
    {
    }

    /** In every reachable state: if the kernel has always refused held regions, and BAR 2 or
        5 exists, at most one open of the device has ever succeeded. */
    lemma OneOpenEver(all: set<PciDev>, p: PciDev)
      requires Valid(all) && p in all && Honoured(p.opens) && (Exists(p.barLen, 2) || Exists(p.barLen, 5))
      ensures p.regions == HeldAfter(p.opens)
      ensures forall j, k :: 0 <= j < k < |p.opens| ==> !(Succeeds(p.opens[j]) && Succeeds(p.opens[k]))
    {
      forall j, k | 0 <= j < k < |p.opens| && Succeeds(p.opens[k]) ensures !Succeeds(p.opens[j]) {
        OneOpenSucceeds(p.opens, p.barLen, if Exists(p.barLen, 2) then 2 else 5, k);
      }
    }

    /** And the kernel can let a further open through exactly when neither region both has a
        length and was got past by an earlier open. */
    lemma CanStillOpen(all: set<PciDev>, p: PciDev, mode: nat, userMax: nat)
      requires Valid(all) && p in all && userMax <= 16 && Lengths(p.barLen) && p.barLen[1] > 0
      ensures Reopenable(p.regions, p.barLen, mode, userMax)
              <==> (p.barLen[2] == 0 || !PassedBefore(p.opens, 2)) && (p.barLen[5] == 0 || !PassedBefore(p.opens, 5))
    {
      ReopensExactlyWhen(p.opens, p.barLen, mode, userMax);
    }
  }

  ghost function IndexOf(xs: seq<XgpuDev>, x: XgpuDev): (k: nat)
    requires x in xs
    ensures k < |xs| && xs[k] == x && forall i :: 0 <= i < k ==> xs[i] != x
  {
    if xs[0] == x then 0 else 1 + IndexOf(xs[1..], x)
  }

  // ----- One call on `pdev` keeps the invariant -----

  datatype View = View(driver: Driver, all: set<PciDev>, pdev: PciDev)

  /** A listed device is as attached as before, with its index. */
  twostate predicate Kept(new all: set<PciDev>, y: XgpuDev)
    reads y, y.pdev
  {
    y.pdev in all && y.Attached() && y.Handled() && y.idx == old(y.idx)
  }

  twostate lemma KeptIfSame(new all: set<PciDev>, y: XgpuDev)
    requires old(y.Attached()) && old(y.Handled()) && y.pdev in all && unchanged(y) && y.pdev.SameHoldings()
    ensures Kept(all, y)
  {
  }

  twostate lemma KeptIfServed(new all: set<PciDev>, y: XgpuDev)
    requires old(y.Attached()) && y.OnlyServed() && y.Handled() && y.pdev in all
    ensures Kept(all, y)
  {
  }

  /** What is apart from `pdev` is as before. */
  twostate lemma OthersKept(v: View)
    requires old(v.driver.Valid(v.all))
    requires forall y :: y in old(v.driver.list) && y.pdev != v.pdev ==> unchanged(y)
    requires forall p :: p in v.all && p != v.pdev ==> unchanged(p)
    ensures forall i :: 0 <= i < |old(v.driver.list)| && old(v.driver.list)[i].pdev != v.pdev ==> Kept(v.all, old(v.driver.list)[i])
    ensures forall p :: p in v.all && p != v.pdev ==> p.Recorded() && (!old(v.driver.Live(p)) ==> p.Idle())
  {
    var ys := old(v.driver.list);
    forall i | 0 <= i < |ys| && ys[i].pdev != v.pdev ensures Kept(v.all, ys[i]) {
      assert ys[i] in ys;
      KeptIfSame(v.all, ys[i]);
    }
  }

  /** The list is as before, and so is, as far as it matters, every entry on `pdev`. */
  twostate lemma StaysValid(v: View)
    requires old(v.driver.Valid(v.all)) && v.driver.list == old(v.driver.list)
    requires forall y :: y in old(v.driver.list) && y.pdev != v.pdev ==> unchanged(y)
    requires forall p :: p in v.all && p != v.pdev ==> unchanged(p)
    requires forall y :: y in old(v.driver.list) && y.pdev == v.pdev ==> Kept(v.all, y)
    requires v.pdev in v.all ==> v.pdev.Recorded() && (!old(v.driver.Live(v.pdev)) ==> v.pdev.Idle())
    ensures v.driver.Valid(v.all)
  {
    OthersKept(v);
    var ys := v.driver.list;
    forall i | 0 <= i < |ys| ensures Kept(v.all, ys[i]) {
      assert ys[i] in ys;
    }
  }

  /** Interrupt handlers on the live handle of `pdev`, however many, and changes of its
      offline flag keep the invariant. */
  twostate lemma ServedKeepsValid(v: View)
    requires old(v.driver.Valid(v.all)) && v.driver.list == old(v.driver.list)
    requires forall y :: y in old(v.driver.list) && y.pdev != v.pdev ==> unchanged(y)
    requires forall p :: p in v.all && p != v.pdev ==> unchanged(p)
    requires forall y :: y in old(v.driver.list) && y.pdev == v.pdev ==> y.OnlyServed() && y.Handled()
    requires old(v.driver.Live(v.pdev))
    ensures v.driver.Valid(v.all)
  {
    forall y | y in old(v.driver.list) && y.pdev == v.pdev ensures Kept(v.all, y) {
      KeptIfServed(v.all, y);
    }
    StaysValid(v);
  }

  twostate lemma OpenOutcome(v: View, new x: XgpuDev?)
    requires old(v.driver.Valid(v.all)) && v.pdev in v.all && v.pdev.Recorded()
    requires x == null ==> v.driver.list == old(v.driver.list) && if old(v.driver.Live(v.pdev)) then v.pdev.SameHoldings() else v.pdev.Idle()
    requires x != null ==> !old(v.driver.Live(v.pdev)) && v.driver.list == old(v.driver.list) + [x] && x.pdev == v.pdev && x.Attached() && x.Handled()
    requires x != null ==> x.idx == if old(v.driver.list) == [] then 0 else old(v.driver.list[|v.driver.list| - 1].idx) + 1
    requires forall y :: y in old(v.driver.list) ==> unchanged(y)
    requires forall p :: p in v.all && p != v.pdev ==> unchanged(p)
    ensures v.driver.Valid(v.all)
  {
    if x != null {
      OpenKeepsValid(v, x);
    } else {
      RefusalKeepsValid(v);
    }
  }

  twostate lemma RefusalKeepsValid(v: View)
    requires old(v.driver.Valid(v.all)) && v.driver.list == old(v.driver.list) && v.pdev in v.all && v.pdev.Recorded()
    requires if old(v.driver.Live(v.pdev)) then v.pdev.SameHoldings() else v.pdev.Idle()
    requires forall y :: y in old(v.driver.list) ==> unchanged(y)
    requires forall p :: p in v.all && p != v.pdev ==> unchanged(p)
    ensures v.driver.Valid(v.all)
  {
    forall y | y in old(v.driver.list) && y.pdev == v.pdev ensures Kept(v.all, y) {
      KeptIfSame(v.all, y);
    }
    StaysValid(v);
  }

  twostate lemma OpenKeepsValid(v: View, new x: XgpuDev)
    requires old(v.driver.Valid(v.all)) && v.pdev in v.all && !old(v.driver.Live(v.pdev)) && v.pdev.Recorded()
    requires v.driver.list == old(v.driver.list) + [x] && x.pdev == v.pdev && x.Attached() && x.Handled()
    requires x.idx == if old(v.driver.list) == [] then 0 else old(v.driver.list[|v.driver.list| - 1].idx) + 1
    requires forall y :: y in old(v.driver.list) ==> unchanged(y)
    requires forall p :: p in v.all && p != v.pdev ==> unchanged(p)
    ensures v.driver.Valid(v.all)
  {
    OthersKept(v);
    EntriesAfterOpen(v, x);
    OrderedAfterOpen(v, x);
    LiveAfterOpen(v, x);
  }

  twostate lemma EntriesAfterOpen(v: View, new x: XgpuDev)
    requires !old(v.driver.Live(v.pdev)) && v.pdev in v.all
    requires v.driver.list == old(v.driver.list) + [x] && x.pdev == v.pdev && x.Attached() && x.Handled()
    requires forall i :: 0 <= i < |old(v.driver.list)| && old(v.driver.list)[i].pdev != v.pdev ==> Kept(v.all, old(v.driver.list)[i])
    ensures v.driver.EntriesHold(v.all)
  {
    var (d, ys) := (v.driver, old(v.driver.list));
    forall i | 0 <= i < |ys| ensures d.list[i] == ys[i] && Kept(v.all, ys[i]) { }
  }

  twostate lemma OrderedAfterOpen(v: View, new x: XgpuDev)
    requires old(v.driver.Ordered()) && !old(v.driver.Live(v.pdev))
    requires v.driver.list == old(v.driver.list) + [x] && x.pdev == v.pdev
    requires x.idx == if old(v.driver.list) == [] then 0 else old(v.driver.list[|v.driver.list| - 1].idx) + 1
    requires forall y :: y in old(v.driver.list) ==> unchanged(y)
    ensures v.driver.Ordered()
  {
    var (d, ys) := (v.driver, old(v.driver.list));
    forall i | 0 <= i < |ys| ensures d.list[i] == ys[i] && ys[i].pdev != v.pdev && ys[i].idx == old(ys[i].idx) < x.idx {
      assert ys[i] in ys;
    }
  }

  twostate lemma LiveAfterOpen(v: View, new x: XgpuDev)
    requires v.driver.list == old(v.driver.list) + [x]
    ensures v.driver.Live(x.pdev) && forall p :: p in v.all && old(v.driver.Live(p)) ==> v.driver.Live(p)
  {
    var (d, ys) := (v.driver, old(v.driver.list));
    assert d.list[|ys|] == x && forall i :: 0 <= i < |ys| ==> d.list[i] == ys[i];
  }

  twostate lemma CloseKeepsValid(v: View, new k: nat)
    requires old(v.driver.Valid(v.all)) && k < |old(v.driver.list)| && old(v.driver.list)[k].pdev == v.pdev
    requires v.driver.list == old(v.driver.list)[..k] + old(v.driver.list)[k + 1..] && v.pdev.Idle() && v.pdev.Recorded()
    requires forall y :: y in old(v.driver.list) && y.pdev != v.pdev ==> unchanged(y)
    requires forall p :: p in v.all && p != v.pdev ==> unchanged(p)
    ensures v.driver.Valid(v.all) && !v.driver.Live(v.pdev)
  {
    OthersKept(v);
    EntriesAfterClose(v, k);
    LiveAfterClose(v, k);
  }

  twostate lemma EntriesAfterClose(v: View, new k: nat)
    requires old(v.driver.Ordered()) && k < |old(v.driver.list)| && old(v.driver.list)[k].pdev == v.pdev
    requires v.driver.list == old(v.driver.list)[..k] + old(v.driver.list)[k + 1..]
    requires forall i :: 0 <= i < |old(v.driver.list)| && old(v.driver.list)[i].pdev != v.pdev ==> Kept(v.all, old(v.driver.list)[i])
    ensures v.driver.EntriesHold(v.all) && v.driver.Ordered() && !v.driver.Live(v.pdev)
  {
    var (d, ys) := (v.driver, old(v.driver.list));
    forall i | 0 <= i < |d.list|
      ensures d.list[i] == ys[if i < k then i else i + 1] && Kept(v.all, d.list[i]) && d.list[i].pdev != v.pdev { }
  }

  twostate lemma LiveAfterClose(v: View, new k: nat)
    requires k < |old(v.driver.list)| && v.driver.list == old(v.driver.list)[..k] + old(v.driver.list)[k + 1..]
    ensures forall p :: p in v.all && old(v.driver.Live(p)) && p != old(v.driver.list)[k].pdev ==> v.driver.Live(p)
  {
    var (d, ys) := (v.driver, old(v.driver.list));
    forall p | p in v.all && old(v.driver.Live(p)) && p != ys[k].pdev ensures d.Live(p) {
      var j :| 0 <= j < |ys| && ys[j].pdev == p;
      assert ys[j] == d.list[if j < k then j else j - 1];
    }
  }
}
