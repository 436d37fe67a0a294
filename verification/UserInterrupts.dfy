/**
 User interrupt lines: which bits of a request word are served and in what order,
 what a run of interrupts does to a line, and the packing of MSI-X vector numbers
 into 32-bit registers.
 */
module UserInterrupts {

  // ----- Bits of a request word -----

  /** The mask of line `i`: one, shifted left `i` times, in 32 bits. */
  function Mask(i: nat): bv32 { if i == 0 then 1 else Twice(Mask(i - 1)) }

  function Twice(m: bv32): bv32 { m << 1 }

  predicate Bit(w: bv32, i: nat) { w & Mask(i) != 0 }

  /** The masks of the lines below `n`. */
  function Low(n: nat): bv32 { if n == 0 then 0 else Low(n - 1) | Mask(n - 1) }

  /** The requested lines below `n`, ascending. */
  function Requested(w: bv32, n: nat): (r: seq<nat>)
    ensures AllBelow(r, n)
  {
    if n == 0 then [] else Requested(w, n - 1) + if Bit(w, n - 1) then [n - 1] else []
  }

  /** `pending` is the request without the lines below `user`. */
  predicate Rest(request: bv32, user: nat, pending: bv32) { pending == request & !Low(user) }

  lemma LowStep(l: bv32, m: bv32)
    requires l == m - 1 && l & m == 0
    ensures (l | m) == (m << 1) - 1 && (l | m) & (m << 1) == 0
  {
  }

  lemma {:induction false} LowBelow(n: nat)
    ensures Low(n) == Mask(n) - 1 && Low(n) & Mask(n) == 0
  {
    if n > 0 {
      LowBelow(n - 1);
      LowStep(Low(n - 1), Mask(n - 1));
    }
  }

  lemma LowDisjoint(n: nat)
    ensures Low(n) & Mask(n) == 0
  {
    LowBelow(n);
  }

  lemma PendingBit(r: bv32, l: bv32, m: bv32)
    requires l & m == 0
    ensures (r & !l) & m == r & m
  {
  }

  lemma PendingNone(r: bv32, l: bv32, m: bv32)
    requires l & m == 0 && r & !l == 0
    ensures r & m == 0
  {
  }

  /** What is pending at line `user` is requested there. */
  lemma RestBit(request: bv32, user: nat, mask: bv32, pending: bv32)
    requires Rest(request, user, pending) && mask == Mask(user)
    ensures pending & mask == request & mask
  {
    LowDisjoint(user);
    PendingBit(request, Low(user), mask);
  }

  lemma BitOf(w: bv32, i: nat, mask: bv32, fired: bv32)
    requires mask == Mask(i) && fired == w & mask
    ensures fired != 0 <==> Bit(w, i)
  {
  }

  lemma RestSkip(request: bv32, user: nat, pending: bv32)
    requires Rest(request, user, pending) && !Bit(request, user)
    ensures Rest(request, user + 1, pending)
  {
  }

  lemma RestClear(request: bv32, user: nat, mask: bv32, pending: bv32)
    requires Rest(request, user, pending) && mask == Mask(user)
    ensures Rest(request, user + 1, pending & !mask)
  {
  }

  lemma RestNone(request: bv32, user: nat)
    requires Rest(request, user, 0)
    ensures !Bit(request, user)
  {
    LowDisjoint(user);
    PendingNone(request, Low(user), Mask(user));
  }

  /** Leaving the loop early, with nothing pending, misses no line. */
  lemma {:induction false} EarlyExit(request: bv32, user: nat, max: nat)
    requires user <= max && Rest(request, user, 0)
    ensures Rest(request, max, 0) && Requested(request, max) == Requested(request, user)
  {
    if user < max {
      EarlyExit(request, user, max - 1);
      RestNone(request, max - 1);
      RestSkip(request, max - 1, 0);
    }
  }

  /** The residue of the loop is the request with its `max` low bits cleared. */
  lemma ResidueIsHighBits(request: bv32, max: nat, pending: bv32)
    requires Rest(request, max, pending)
    ensures pending == request & !(Mask(max) - 1)
  {
    LowBelow(max);
  }

  // ----- Serving lines -----

  /** One `xgpu_user_irq` slot: whether a handler is registered, and the event flag. */
  datatype Line = Line(hasHandler: bool, events: nat)

  datatype Action = Handle(line: nat) | Wake(line: nat)

  datatype IrqState = IrqState(lines: seq<Line>, trace: seq<Action>)

  /** `user_irq_service` on line `i`. */
  function Service(s: IrqState, i: nat): (t: IrqState)
    requires i < |s.lines|
    ensures |t.lines| == |s.lines|
  {
    if s.lines[i].hasHandler then s.(trace := s.trace + [Handle(i)])
    else if s.lines[i].events == 0 then
      IrqState(s.lines[i := s.lines[i].(events := 1)], s.trace + [Wake(i)])
    else s
  }

  predicate AllBelow(ids: seq<nat>, n: nat) {
    forall k :: 0 <= k < |ids| ==> ids[k] < n
  }

  function ServiceAll(s: IrqState, ids: seq<nat>): (t: IrqState)
    requires AllBelow(ids, |s.lines|)
    ensures |t.lines| == |s.lines|
  {
    if ids == [] then s else Service(ServiceAll(s, ids[..|ids| - 1]), ids[|ids| - 1])
  }

  function Times<T(==)>(ts: seq<T>, t: T): nat {
    if ts == [] then 0 else Times(ts[..|ts| - 1], t) + if ts[|ts| - 1] == t then 1 else 0
  }

  lemma {:induction false} TimesLast<T>(ts: seq<T>, x: T, t: T)
    ensures Times(ts + [x], t) == Times(ts, t) + if x == t then 1 else 0
  {
  }

  lemma ServedOne(s: IrqState, k: nat, i: nat)
    requires i < |s.lines| && k < |s.lines|
    ensures var t := Service(s, k);
            var quiet := s.lines[i].hasHandler || s.lines[i].events != 0 || k != i;
            && t.lines[i] == (if quiet then s.lines[i] else s.lines[i].(events := 1))
            && Times(t.trace, Wake(i)) == Times(s.trace, Wake(i)) + (if quiet then 0 else 1)
            && Times(t.trace, Handle(i)) == Times(s.trace, Handle(i)) + (if s.lines[i].hasHandler && k == i then 1 else 0)
  {
  }

  /** What a sequence of services does to line `i`: a handler is called every time; a line
      without one is woken and flagged the first time only. */
  lemma {:induction false} ServedLine(s: IrqState, ids: seq<nat>, i: nat)
    requires i < |s.lines| && AllBelow(ids, |s.lines|)
    ensures var (t, times) := (ServiceAll(s, ids), Times(ids, i));
            var quiet := s.lines[i].hasHandler || s.lines[i].events != 0 || times == 0;
            && t.lines[i] == (if quiet then s.lines[i] else s.lines[i].(events := 1))
            && Times(t.trace, Wake(i)) == Times(s.trace, Wake(i)) + (if quiet then 0 else 1)
            && Times(t.trace, Handle(i)) == Times(s.trace, Handle(i)) + (if s.lines[i].hasHandler then times else 0)
    decreases |ids|
  {
    if ids != [] {
      var (front, last) := (ids[..|ids| - 1], ids[|ids| - 1]);
      ServedLine(s, front, i);
      ServedOne(ServiceAll(s, front), last, i);
    }
  }

  lemma ServiceActs(s: IrqState, i: nat)
    requires i < |s.lines|
    ensures var t := Service(s, i);
            t.trace == s.trace || t.trace == s.trace + [if s.lines[i].hasHandler then Handle(i) else Wake(i)]
    ensures forall k :: 0 <= k < |s.lines| ==> Service(s, i).lines[k].hasHandler == s.lines[k].hasHandler
  {
  }

  /** What services in ascending order add to the trace: one action at most for a line, in
      the order of the lines. */
  lemma {:induction false} ActionsAscend(s: IrqState, ids: seq<nat>)
    requires AllBelow(ids, |s.lines|) && Ascending(ids)
    ensures var (t, n) := (ServiceAll(s, ids), |s.trace|);
            && n <= |t.trace| && t.trace[..n] == s.trace
            && (forall k :: n <= k < |t.trace| ==>
                  t.trace[k].line in ids && t.trace[k].Handle? == s.lines[t.trace[k].line].hasHandler)
            && (forall j, k :: n <= j < k < |t.trace| ==> t.trace[j].line < t.trace[k].line)
    ensures forall k :: 0 <= k < |s.lines| ==> ServiceAll(s, ids).lines[k].hasHandler == s.lines[k].hasHandler
    decreases |ids|
  {
    if ids != [] {
      var (front, last) := (ids[..|ids| - 1], ids[|ids| - 1]);
      ActionsAscend(s, front);
      ServiceActs(ServiceAll(s, front), last);
      assert forall i :: 0 <= i < |front| ==> ids[i] == front[i] < last;
    }
  }

  /** An interrupt: through the shared handler with its request word, or, in MSI-X mode,
      through the vector of one line. */
  datatype Interrupt = Shared(request: bv32) | Vector(line: nat)

  function Served(x: Interrupt, userMax: nat): (ids: seq<nat>)
    ensures AllBelow(ids, userMax)
  {
    match x
    case Shared(request) => Requested(request, userMax)
    case Vector(i) => if i < userMax then [i] else []
  }

  predicate Fires(x: Interrupt, i: nat) {
    match x
    case Shared(request) => Bit(request, i)
    case Vector(k) => k == i
  }

  function AllServed(xs: seq<Interrupt>, userMax: nat): (ids: seq<nat>)
    ensures AllBelow(ids, userMax)
  {
    if xs == [] then [] else AllServed(xs[..|xs| - 1], userMax) + Served(xs[|xs| - 1], userMax)
  }

  /** How many of them came through the shared handler. */
  function SharedCount(xs: seq<Interrupt>): nat {
    if xs == [] then 0 else SharedCount(xs[..|xs| - 1]) + if xs[|xs| - 1].Shared? then 1 else 0
  }

  function Firings(xs: seq<Interrupt>, i: nat): nat {
    if xs == [] then 0 else Firings(xs[..|xs| - 1], i) + if Fires(xs[|xs| - 1], i) then 1 else 0
  }

  lemma {:induction false} RequestedOnce(w: bv32, n: nat, i: nat)
    ensures Times(Requested(w, n), i) == if i < n && Bit(w, i) then 1 else 0
  {
    if n > 0 {
      RequestedOnce(w, n - 1, i);
      var (front, fired) := (Requested(w, n - 1), Bit(w, n - 1));
      if fired {
        TimesLast(front, n - 1, i);
        assert Requested(w, n) == front + [n - 1];
      } else {
        assert Requested(w, n) == front;
      }
    }
  }

  lemma {:induction false} RequestedAscends(w: bv32, n: nat)
    ensures Ascending(Requested(w, n))
  {
    if n > 0 {
      RequestedAscends(w, n - 1);
      AscendingGrows(Requested(w, n - 1), n - 1);
      assert Requested(w, n - 1) + [] == Requested(w, n - 1);
    }
  }

  predicate Ascending(r: seq<nat>) {
    forall j, k :: 0 <= j < k < |r| ==> r[j] < r[k]
  }

  lemma AscendingGrows(q: seq<nat>, x: nat)
    requires Ascending(q) && AllBelow(q, x)
    ensures Ascending(q + [x])
  {
  }

  lemma {:induction false} TimesConcat<T>(a: seq<T>, b: seq<T>, t: T)
    ensures Times(a + b, t) == Times(a, t) + Times(b, t)
    decreases |b|
  {
    if b == [] {
      assert a + b == a;
    } else {
      var (front, last) := (b[..|b| - 1], b[|b| - 1]);
      assert a + b == (a + front) + [last];
      TimesLast(a + front, last, t);
      TimesConcat(a, front, t);
    }
  }

  lemma {:induction false} ServedAsFired(xs: seq<Interrupt>, userMax: nat, i: nat)
    requires i < userMax
    ensures Times(AllServed(xs, userMax), i) == Firings(xs, i)
    decreases |xs|
  {
    if xs != [] {
      var (front, x) := (xs[..|xs| - 1], xs[|xs| - 1]);
      ServedAsFired(front, userMax, i);
      TimesConcat(AllServed(front, userMax), Served(x, userMax), i);
      match x
      case Shared(request) => RequestedOnce(request, userMax, i);
      case Vector(k) =>
        if k < userMax {
          TimesLast([], k, i);
          assert [] + [k] == [k];
        }
    }
  }

  lemma {:induction false} ServiceAllConcat(s: IrqState, a: seq<nat>, b: seq<nat>)
    requires AllBelow(a, |s.lines|) && AllBelow(b, |s.lines|)
    ensures ServiceAll(s, a + b) == ServiceAll(ServiceAll(s, a), b)
    decreases |b|
  {
    if b == [] {
      assert a + b == a;
    } else {
      var (front, last) := (b[..|b| - 1], b[|b| - 1]);
      ServiceAllConcat(s, a, front);
      assert a + b == (a + front) + [last];
      ServiceAllLast(s, a + front, last);
    }
  }

  /** What the handler of one interrupt does to the lines. */
  function Serve(s: IrqState, x: Interrupt, userMax: nat): (t: IrqState)
    requires userMax <= |s.lines|
    ensures |t.lines| == |s.lines|
  {
    ServiceAll(s, Served(x, userMax))
  }

  /** The handlers of successive interrupts. */
  function ServeRun(s: IrqState, xs: seq<Interrupt>, userMax: nat): (t: IrqState)
    requires userMax <= |s.lines|
    ensures |t.lines| == |s.lines|
  {
    if xs == [] then s else Serve(ServeRun(s, xs[..|xs| - 1], userMax), xs[|xs| - 1], userMax)
  }

  /** The lines of a device just opened. */
  function Quiet(): IrqState { IrqState(seq(16, _ => Line(false, 0)), []) }

  /** Lines, actions and counter are as the interrupts `xs` leave them on a new device. */
  predicate After(s: IrqState, count: nat, xs: seq<Interrupt>, userMax: nat) {
    userMax <= 16 && s == ServeRun(Quiet(), xs, userMax) && count == SharedCount(xs)
  }

  lemma AfterShared(s: IrqState, count: nat, xs: seq<Interrupt>, userMax: nat, request: bv32)
    requires After(s, count, xs, userMax)
    ensures After(ServiceAll(s, Requested(request, userMax)), count + 1, xs + [Shared(request)], userMax)
  {
    assert (xs + [Shared(request)])[..|xs|] == xs;
  }

  lemma AfterVector(s: IrqState, count: nat, xs: seq<Interrupt>, userMax: nat, i: nat)
    requires After(s, count, xs, userMax) && i < userMax
    ensures After(Service(s, i), count, xs + [Vector(i)], userMax)
  {
    assert (xs + [Vector(i)])[..|xs|] == xs;
    ServiceAllLast(s, [], i);
    assert [] + [i] == [i];
  }

  lemma {:induction false} RunServesAll(s: IrqState, xs: seq<Interrupt>, userMax: nat)
    requires userMax <= |s.lines|
    ensures ServeRun(s, xs, userMax) == ServiceAll(s, AllServed(xs, userMax))
    decreases |xs|
  {
    if xs != [] {
      var (front, x) := (xs[..|xs| - 1], xs[|xs| - 1]);
      RunServesAll(s, front, userMax);
      ServiceAllConcat(s, AllServed(front, userMax), Served(x, userMax));
    }
  }

  /** Over any run of interrupts, handled one after the other: the flag of a line without
      a handler is 1 exactly when the line ever fired, and it is woken exactly once then;
      a handler is called once per firing. */
  lemma RunOfInterrupts(lines: seq<Line>, xs: seq<Interrupt>, userMax: nat, i: nat)
    requires i < userMax <= |lines| && lines[i].events == 0
    ensures var t := ServeRun(IrqState(lines, []), xs, userMax);
            if lines[i].hasHandler then Times(t.trace, Handle(i)) == Firings(xs, i) && Times(t.trace, Wake(i)) == 0
            else && t.lines[i].events == (if Firings(xs, i) > 0 then 1 else 0)
                 && Times(t.trace, Wake(i)) == (if Firings(xs, i) > 0 then 1 else 0)
                 && Times(t.trace, Handle(i)) == 0
  {
    RunServesAll(IrqState(lines, []), xs, userMax);
    ServedAsFired(xs, userMax, i);
    ServedLine(IrqState(lines, []), AllServed(xs, userMax), i);
  }

  // ----- Vector numbers in registers -----

  /** A byte value in all four places of a word. */
  function Replicated(v: bv32): bv32 { (v << 24) | (v << 16) | (v << 8) | v }

  lemma ReplicatedBytes(v: bv32, k: nat)
    requires v & 0xff == v && k < 4
    ensures ByteOf(Replicated(v), k) == v
  {
  }

  /** Byte `k` of a register word. */
  function ByteOf(v: bv32, k: nat): bv32 {
    if k == 0 then v & 0xff else if k == 1 then (v >> 8) & 0xff else if k == 2 then (v >> 16) & 0xff else (v >> 24) & 0xff
  }

  /** Byte 0 is the least significant. */
  lemma WordOfBytes(v: bv32)
    ensures v == (ByteOf(v, 3) << 24) | (ByteOf(v, 2) << 16) | (ByteOf(v, 1) << 8) | ByteOf(v, 0)
    ensures ByteOf(v, 0) <= 0xff && ByteOf(v, 1) <= 0xff && ByteOf(v, 2) <= 0xff && ByteOf(v, 3) <= 0xff
  {
  }

  /** `i & 0x1f`. */
  function Low5(i: nat): bv32
    requires i < 0x1_0000_0000
  {
    (i as bv32) & 0x1f
  }

  /** The word after the first `k` of four numbers have been put into it. */
  predicate Packed(v: bv32, xs: seq<bv32>, k: nat)
    requires |xs| == 4
  {
    && ByteOf(v, 0) == (if 0 < k then xs[0] else 0)
    && ByteOf(v, 1) == (if 1 < k then xs[1] else 0)
    && ByteOf(v, 2) == (if 2 < k then xs[2] else 0)
    && ByteOf(v, 3) == (if 3 < k then xs[3] else 0)
  }

  function ShiftOf(k: nat): bv32 { if k == 0 then 0 else if k == 1 then 8 else if k == 2 then 16 else if k == 3 then 24 else 32 }

  lemma Pack0(v: bv32, xs: seq<bv32>, k: nat, x: bv32, shift: bv32)
    requires |xs| == 4 && k == 0 && Packed(v, xs, k) && x == xs[k] && x & 0x1f == x && shift == 0
    ensures Packed(v | (x << shift), xs, k + 1)
  {
  }

  lemma Pack1(v: bv32, xs: seq<bv32>, k: nat, x: bv32, shift: bv32)
    requires |xs| == 4 && k == 1 && Packed(v, xs, k) && x == xs[k] && x & 0x1f == x && shift == 8
    ensures Packed(v | (x << shift), xs, k + 1)
  {
  }

  lemma Pack2(v: bv32, xs: seq<bv32>, k: nat, x: bv32, shift: bv32)
    requires |xs| == 4 && k == 2 && Packed(v, xs, k) && x == xs[k] && x & 0x1f == x && shift == 16
    ensures Packed(v | (x << shift), xs, k + 1)
  {
  }

  lemma Pack3(v: bv32, xs: seq<bv32>, k: nat, x: bv32, shift: bv32)
    requires |xs| == 4 && k == 3 && Packed(v, xs, k) && x == xs[k] && x & 0x1f == x && shift == 24
    ensures Packed(v | (x << shift), xs, k + 1)
  {
  }

  lemma PackNext(v: bv32, xs: seq<bv32>, k: nat, x: bv32, shift: bv32)
    requires |xs| == 4 && k < 4 && Packed(v, xs, k)
    requires x == xs[k] && x & 0x1f == x && shift <= 24 && shift == ShiftOf(k)
    ensures Packed(v | (x << shift), xs, k + 1)
  {
    if k == 0 {
      Pack0(v, xs, k, x, shift);
    } else if k == 1 {
      Pack1(v, xs, k, x, shift);
    } else if k == 2 {
      Pack2(v, xs, k, x, shift);
    } else {
      Pack3(v, xs, k, x, shift);
    }
  }

  lemma Low5Fits(i: nat)
    requires i < 0x1_0000_0000
    ensures Low5(i) & 0x1f == Low5(i)
  {
  }

  /** A 5-bit number survives the mask. */
  lemma Low5IsExact(i: nat)
    requires i < 32
    ensures Low5(i) as int == i
  {
    var b := i as bv32;
    assert Low5(i) == b;
    assert b as int == i;
  }

  /** What one register word holds: byte `k` of word `j` is `4j + k`, up to `userMax`. */
  predicate WordHolds(v: bv32, j: nat, userMax: nat)
    requires j < 8
  {
    forall k :: 0 <= k < 4 ==> ByteOf(v, k) == if 4 * j + k < userMax then Low5(4 * j + k) else 0
  }

  /** The four numbers from `start` on. */
  function Numbers(start: nat): seq<bv32>
    requires start + 4 < 0x1_0000_0000
  {
    [Low5(start), Low5(start + 1), Low5(start + 2), Low5(start + 3)]
  }

  lemma PackedBytes(v: bv32, xs: seq<bv32>, k: nat, b: nat)
    requires |xs| == 4 && Packed(v, xs, k) && b < 4
    ensures ByteOf(v, b) == if b < k then xs[b] else 0
  {
  }

  /** A word packed as far as there are lines holds what it should. */
  lemma PackedHolds(v: bv32, j: nat, userMax: nat)
    requires j < 8 && 4 * j < userMax <= 32
    requires Packed(v, Numbers(4 * j), if 4 * j + 4 <= userMax then 4 else userMax - 4 * j)
    ensures WordHolds(v, j, userMax)
  {
    var (xs, n) := (Numbers(4 * j), if 4 * j + 4 <= userMax then 4 else userMax - 4 * j);
    forall b | 0 <= b < 4 ensures ByteOf(v, b) == if 4 * j + b < userMax then Low5(4 * j + b) else 0 {
      NumberAt(4 * j, b);
      PackedBytes(v, xs, n, b);
    }
  }

  lemma NumberAt(start: nat, b: nat)
    requires start + 4 < 0x1_0000_0000 && b < 4
    ensures Numbers(start)[b] == Low5(start + b)
  {
    if b == 0 {
    } else if b == 1 {
    } else if b == 2 {
    } else {
      assert b == 3;
    }
  }

  /** How many words hold the vectors of `userMax` lines. */
  function WordCount(userMax: nat): (n: nat)
    ensures userMax <= 4 * n < userMax + 4
  {
    (userMax + 3) / 4
  }

  predicate HoldsVectors(words: seq<bv32>, userMax: nat) {
    |words| == 8 && userMax <= 32 && forall j :: 0 <= j < WordCount(userMax) ==> WordHolds(words[j], j, userMax)
  }

  /** Reading the vector number of line `i` back. */
  function VectorOf(words: seq<bv32>, i: nat): int
    requires |words| == 8 && i < 32
  {
    ByteOf(words[i / 4], i % 4) as int
  }

  /** Unpacking the programmed registers gives back 0, 1, 2, ..., and then zeros. */
  lemma UnpackIsIdentity(words: seq<bv32>, userMax: nat, i: nat)
    requires HoldsVectors(words, userMax) && i < 4 * WordCount(userMax)
    ensures VectorOf(words, i) == if i < userMax then i else 0
  {
    assert WordHolds(words[i / 4], i / 4, userMax);
    assert 4 * (i / 4) + i % 4 == i;
    if i < userMax {
      Low5IsExact(i);
    }
  }

  lemma ServiceAllLast(s: IrqState, ids: seq<nat>, i: nat)
    requires AllBelow(ids, |s.lines|) && i < |s.lines|
    ensures AllBelow(ids + [i], |s.lines|)
    ensures ServiceAll(s, ids + [i]) == Service(ServiceAll(s, ids), i)
  {
  }

  /** The loop has ended, early or not. */
  lemma DispatchEnds(request: bv32, user: nat, max: nat, pending: bv32)
    requires user <= max && Rest(request, user, pending) && (user == max || pending == 0)
    ensures Rest(request, max, pending)
    ensures Requested(request, max) == Requested(request, user)
  {
    if user < max {
      EarlyExit(request, user, max);
    }
  }

  /** One step of the dispatch loop, as an effect on the lines. */
  lemma ServeStep(s: IrqState, request: bv32, user: nat)
    requires user < |s.lines|
    ensures AllBelow(Requested(request, user), |s.lines|) && AllBelow(Requested(request, user + 1), |s.lines|)
    ensures ServiceAll(s, Requested(request, user + 1)) ==
            var t := ServiceAll(s, Requested(request, user)); if Bit(request, user) then Service(t, user) else t
  {
    var ids := Requested(request, user);
    if Bit(request, user) {
      ServiceAllLast(s, ids, user);
    } else {
      assert ids + [] == ids;
    }
  }
}
