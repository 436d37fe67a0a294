/**
 What one parser call does, as functions on the parser's whole state, and what
 those functions mean: errors, positionals and option values are determined
 separately by the event sequence, and the name index inverts the short names.
 */
module ParserSpec {
  import opened Wrappers
  import opened Options
  import opened ArgScanner
  import Tokenizer

  type Slots = map<string, Slot>

  /** `keys` is the iteration order of the option map, `ordered` the order of declaration. */
  datatype ParserState = ParserState(slots: Slots, keys: seq<string>, ordered: seq<string>,
                                     progName: string, others: seq<string>, errors: seq<string>)

  const Fresh := ParserState(map[], [], [], "", [], [])

  const NO_ARGUMENTS := "argument number must be longer than 0"
  function AmbiguousShort(c: char): string { "short option '" + [c] + "' is ambiguous" }
  function MissingOption(name: string): string { "need option: --" + name }
  function MultipleDefinition(name: string): string { "multiple definition: " + name }

  // ----- The name order of the option map -----

  predicate Less(a: string, b: string) {
    b != "" && (a == "" || a[0] < b[0] || (a[0] == b[0] && Less(a[1..], b[1..])))
  }

  lemma {:induction false} LessTrans(a: string, b: string, c: string)
    requires Less(a, b) && Less(b, c)
    ensures Less(a, c)
  {
    if a != "" && a[0] == b[0] == c[0] {
      LessTrans(a[1..], b[1..], c[1..]);
    }
  }

  lemma {:induction false} LessTotal(a: string, b: string)
    ensures Less(a, b) || a == b || Less(b, a)
    ensures !(Less(a, b) && Less(b, a)) && !Less(a, a)
  {
    if a != "" && b != "" {
      LessTotal(a[1..], b[1..]);
      LessTotal(a[1..], a[1..]);
      assert a == [a[0]] + a[1..] && b == [b[0]] + b[1..];
    } else if a != "" {
      LessTotal(a[1..], a[1..]);
    }
  }

  /** `a` ends or has the smaller character where the two first differ, at position `k`. */
  predicate PrecedesAt(a: string, b: string, k: nat) {
    k <= |a| && k < |b| && a[..k] == b[..k] && (k == |a| || a[k] < b[k])
  }

  /** The lexicographic order of strings. */
  ghost predicate Precedes(a: string, b: string) {
    exists k :: PrecedesAt(a, b, k)
  }

  lemma {:induction false} LessIsPrecedes(a: string, b: string)
    ensures Less(a, b) <==> Precedes(a, b)
  {
    if a == "" || b == "" || a[0] != b[0] {
      assert b != "" && (a == "" || a[0] < b[0]) ==> PrecedesAt(a, b, 0);
      forall k: nat | PrecedesAt(a, b, k) ensures k == 0 {
        if k > 0 {
          HeadsAgree(a, b, k);
        }
      }
    } else {
      LessIsPrecedes(a[1..], b[1..]);
      forall k: nat ensures PrecedesAt(a, b, k + 1) <==> PrecedesAt(a[1..], b[1..], k) {
        TailPrecedes(a, b, k);
      }
      assert !PrecedesAt(a, b, 0);
      if k: nat :| PrecedesAt(a, b, k) {
        assert PrecedesAt(a[1..], b[1..], k - 1);
      }
    }
  }

  lemma HeadsAgree(a: string, b: string, k: nat)
    requires k > 0 && PrecedesAt(a, b, k)
    ensures a != "" && b != "" && a[0] == b[0]
  {
    assert a[..k][0] == b[..k][0];
  }

  lemma TailPrecedes(a: string, b: string, k: nat)
    requires a != "" && b != "" && a[0] == b[0]
    ensures PrecedesAt(a, b, k + 1) <==> PrecedesAt(a[1..], b[1..], k)
  {
    if k < |a| && k < |b| {
      assert a[..k + 1] == [a[0]] + a[1..][..k] && b[..k + 1] == [b[0]] + b[1..][..k];
    }
  }

  ghost predicate Sorted(keys: seq<string>) {
    forall i, j :: 0 <= i < j < |keys| ==> Precedes(keys[i], keys[j])
  }

  lemma SortedDistinct(keys: seq<string>)
    requires Sorted(keys)
    ensures forall i, j :: 0 <= i < j < |keys| ==> keys[i] != keys[j]
  {
  }

  lemma SortedByLess(keys: seq<string>)
    ensures Sorted(keys) <==> forall i, j :: 0 <= i < j < |keys| ==> Less(keys[i], keys[j])
  {
    forall i, j | 0 <= i < j < |keys| ensures Precedes(keys[i], keys[j]) <==> Less(keys[i], keys[j]) {
      LessIsPrecedes(keys[i], keys[j]);
    }
  }

  function InsertKey(keys: seq<string>, name: string): (r: seq<string>)
    ensures forall n :: n in r <==> n in keys || n == name
  {
    if keys == [] || Less(name, keys[0]) then [name] + keys
    else
      var r := [keys[0]] + InsertKey(keys[1..], name);
      assert keys == [keys[0]] + keys[1..];
      r
  }

  lemma {:induction false} InsertKeeps(keys: seq<string>, name: string)
    requires Sorted(keys) && name !in keys
    ensures Sorted(InsertKey(keys, name))
  {
    SortedByLess(keys);
    SortedByLess(InsertKey(keys, name));
    if keys == [] {
    } else if Less(name, keys[0]) {
      forall j | 0 < j < |keys| ensures Less(name, keys[j]) { LessTrans(name, keys[0], keys[j]); }
    } else {
      InsertKeeps(keys[1..], name);
      LessTotal(name, keys[0]);
      var r := InsertKey(keys[1..], name);
      SortedByLess(r);
      forall j | 0 <= j < |r| ensures Less(keys[0], r[j]) {
        assert r[j] in keys[1..] || r[j] == name;
      }
    }
  }

  // ----- Short names -----

  predicate NamedShort(slots: Slots, n: string) {
    n in slots && n != "" && slots[n].decl.short != '\0'
  }

  predicate Shares(slots: Slots, m: string, n: string) {
    m != n && NamedShort(slots, m) && NamedShort(slots, n) && slots[m].decl.short == slots[n].decl.short
  }

  ghost predicate Unambiguous(slots: Slots) {
    forall m, n :: m in slots && n in slots ==> !Shares(slots, m, n)
  }

  /** The option at `j` repeats the short name of an option in front of it. */
  predicate ClashesAt(slots: Slots, keys: seq<string>, j: nat)
    requires j < |keys|
  {
    exists i :: 0 <= i < j && Shares(slots, keys[i], keys[j])
  }

  /** The short name of the first option in name order that repeats one. */
  function FirstClash(slots: Slots, keys: seq<string>, j: nat): Option<char>
    requires j <= |keys| && forall k :: k in keys ==> k in slots
    decreases |keys| - j
  {
    if j == |keys| then None
    else if ClashesAt(slots, keys, j) then Some(slots[keys[j]].decl.short)
    else FirstClash(slots, keys, j + 1)
  }

  lemma {:induction false} FirstClashNone(slots: Slots, keys: seq<string>, j: nat)
    requires j <= |keys| && forall k :: k in keys ==> k in slots
    ensures FirstClash(slots, keys, j) == None <==> forall i :: j <= i < |keys| ==> !ClashesAt(slots, keys, i)
    decreases |keys| - j
  {
    if j < |keys| {
      FirstClashNone(slots, keys, j + 1);
    }
  }

  lemma NoClashIsUnambiguous(slots: Slots, keys: seq<string>)
    requires forall n :: n in keys <==> n in slots
    ensures FirstClash(slots, keys, 0) == None <==> Unambiguous(slots)
  {
    FirstClashNone(slots, keys, 0);
    if !Unambiguous(slots) {
      var m, n :| m in slots && n in slots && Shares(slots, m, n);
      var i :| 0 <= i < |keys| && keys[i] == m;
      var j :| 0 <= j < |keys| && keys[j] == n;
      assert ClashesAt(slots, keys, j) || ClashesAt(slots, keys, i);
    }
  }

  /** An option that repeats the short name of one in front of it in name order. */
  ghost predicate Repeats(slots: Slots, n: string) {
    exists m :: Precedes(m, n) && Shares(slots, m, n)
  }

  lemma {:induction false} FirstClashAt(slots: Slots, keys: seq<string>, j: nat) returns (k: nat)
    requires j <= |keys| && (forall n :: n in keys ==> n in slots) && FirstClash(slots, keys, j).Some?
    ensures j <= k < |keys| && ClashesAt(slots, keys, k) && FirstClash(slots, keys, j) == Some(slots[keys[k]].decl.short)
    ensures forall i :: j <= i < k ==> !ClashesAt(slots, keys, i)
    decreases |keys| - j
  {
    if ClashesAt(slots, keys, j) {
      k := j;
    } else {
      k := FirstClashAt(slots, keys, j + 1);
    }
  }

  lemma ClashesWhereRepeated(slots: Slots, keys: seq<string>, j: nat)
    requires Sorted(keys) && (forall n :: n in keys <==> n in slots) && j < |keys|
    ensures ClashesAt(slots, keys, j) <==> Repeats(slots, keys[j])
  {
    if m :| Precedes(m, keys[j]) && Shares(slots, m, keys[j]) {
      var i :| 0 <= i < |keys| && keys[i] == m;
      LessIsPrecedes(m, keys[j]);
      LessIsPrecedes(keys[j], m);
      LessTotal(m, keys[j]);
      assert i < j;
    }
  }

  /** The clash reported is that of the first name, in name order, that repeats one. */
  lemma FirstClashIsLeast(slots: Slots, keys: seq<string>) returns (n: string)
    requires Sorted(keys) && (forall n :: n in keys <==> n in slots) && FirstClash(slots, keys, 0).Some?
    ensures n in slots && Repeats(slots, n) && FirstClash(slots, keys, 0) == Some(slots[n].decl.short)
    ensures forall m :: m in slots && Repeats(slots, m) ==> m == n || Precedes(n, m)
  {
    var k := FirstClashAt(slots, keys, 0);
    n := keys[k];
    ClashesWhereRepeated(slots, keys, k);
    forall m | m in slots && Repeats(slots, m) ensures m == n || Precedes(n, m) {
      NotBeforeFirst(slots, keys, k, m);
    }
  }

  lemma NotBeforeFirst(slots: Slots, keys: seq<string>, k: nat, m: string)
    requires Sorted(keys) && (forall n :: n in keys <==> n in slots) && k < |keys|
    requires forall i :: 0 <= i < k ==> !ClashesAt(slots, keys, i)
    requires m in keys && Repeats(slots, m)
    ensures m == keys[k] || Precedes(keys[k], m)
  {
    var j :| 0 <= j < |keys| && keys[j] == m;
    assert ClashesAt(slots, keys, j) by {
      ClashesWhereRepeated(slots, keys, j);
    }
    assert j == k || Precedes(keys[k], keys[j]);
  }

  /** The short-name index: the inverse of `short_name` on the named options. */
  ghost function LookupOf(slots: Slots): map<char, string>
    requires Unambiguous(slots)
  {
    map n | n in slots && NamedShort(slots, n) :: slots[n].decl.short := n
  }

  ghost function SchemaOf(slots: Slots): (sc: Schema)
    requires Unambiguous(slots)
    ensures Coherent(sc)
  {
    Schema(map n | n in slots :: slots[n].decl.Valued?, LookupOf(slots))
  }

  // ----- Events in effect -----

  /** `set_option` and its surroundings: the effect of one event. */
  function Apply(p: ParserState, e: Event): ParserState {
    match e
    case SetFlag(n) =>
      if n !in p.slots then p.(errors := p.errors + [UndefinedLong(n)])
      else
        var (s, ok) := SetNone(p.slots[n]);
        if ok then p.(slots := p.slots[n := s]) else p.(errors := p.errors + [NeedsValue(n)])
    case SetValue(n, v) =>
      if n !in p.slots then p.(errors := p.errors + [UndefinedLong(n)])
      else
        var (s, ok) := SetTo(p.slots[n], v);
        if ok then p.(slots := p.slots[n := s]) else p.(errors := p.errors + [Invalid(n, v)])
    case Positional(w) => p.(others := p.others + [w])
    case Report(m) => p.(errors := p.errors + [m])
  }

  function ApplyAll(p: ParserState, es: seq<Event>): ParserState
    decreases |es|
  {
    if es == [] then p else ApplyAll(Apply(p, es[0]), es[1..])
  }

  lemma {:induction false} ApplyConcat(p: ParserState, a: seq<Event>, b: seq<Event>)
    ensures ApplyAll(p, a + b) == ApplyAll(ApplyAll(p, a), b)
    decreases |a|
  {
    if a == [] {
      assert a + b == b;
    } else {
      assert (a + b)[1..] == a[1..] + b;
      ApplyConcat(Apply(p, a[0]), a[1..], b);
    }
  }

  /** What an event has to say against itself; only declarations matter. */
  function Complaint(slots: Slots, e: Event): seq<string> {
    match e
    case SetFlag(n) =>
      if n !in slots then [UndefinedLong(n)] else if slots[n].decl.Flag? then [] else [NeedsValue(n)]
    case SetValue(n, v) =>
      if n !in slots then [UndefinedLong(n)]
      else if slots[n].decl.Valued? && Read(slots[n].decl.reader, v).Some? then [] else [Invalid(n, v)]
    case Positional(_) => []
    case Report(m) => [m]
  }

  function Complaints(slots: Slots, es: seq<Event>): seq<string> {
    if es == [] then [] else Complaint(slots, es[0]) + Complaints(slots, es[1..])
  }

  /** Same options with the same declarations. */
  ghost predicate SameDecls(a: Slots, b: Slots) {
    a.Keys == b.Keys && forall n :: n in a ==> a[n].decl == b[n].decl
  }

  /** The value of the latest accepted binding of `n`. */
  function Latest(d: Decl, n: string, es: seq<Event>): Option<Value> {
    if es == [] || d.Flag? then None
    else
      var (front, e) := (es[..|es| - 1], es[|es| - 1]);
      if e.SetValue? && e.name == n && Read(d.reader, e.value).Some? then Read(d.reader, e.value)
      else Latest(d, n, front)
  }

  /** Option `n` after the events: set when it was or when some event sets it, and
      valued by the latest binding its reader accepts. */
  function Settled(s: Slot, n: string, es: seq<Event>): Slot {
    if s.decl.Flag? then s.(has := s.has || SetFlag(n) in es)
    else
      match Latest(s.decl, n, es)
      case None => s
      case Some(x) => s.(has := true, actual := x)
  }

  lemma {:induction false} LatestStep(d: Decl, n: string, es: seq<Event>)
    requires es != []
    ensures Latest(d, n, es) == match Latest(d, n, es[1..])
                                case Some(x) => Some(x)
                                case None => Latest(d, n, [es[0]])
    decreases |es|
  {
    if |es| > 1 {
      LatestStep(d, n, es[..|es| - 1]);
      assert es[..|es| - 1][1..] == es[1..][..|es| - 2];
    } else {
      assert es == [es[0]];
    }
  }

  lemma LatestOfOne(d: Decl, n: string, e: Event)
    requires d.Valued?
    ensures Latest(d, n, [e]) ==
            if e.SetValue? && e.name == n then Read(d.reader, e.value) else None
  {
  }

  /** One event and then the others. */
  lemma ApplyStep(p: ParserState, e: Event)
    ensures var q := Apply(p, e);
            && SameDecls(p.slots, q.slots)
            && q.(slots := p.slots, others := p.others, errors := p.errors) == p
            && q.errors == p.errors + Complaint(p.slots, e)
            && q.others == p.others + Positionals([e])
            && forall n :: n in p.slots ==> q.slots[n] == Settled(p.slots[n], n, [e])
  {
    assert Positionals([e][1..]) == [];
    forall n | n in p.slots
      ensures Apply(p, e).slots[n] == Settled(p.slots[n], n, [e])
    {
      if p.slots[n].decl.Valued? {
        LatestOfOne(p.slots[n].decl, n, e);
      }
    }
  }

  lemma {:induction false} SettledStep(s: Slot, n: string, es: seq<Event>)
    requires es != []
    ensures Settled(Settled(s, n, [es[0]]), n, es[1..]) == Settled(s, n, es)
  {
    LatestStep(s.decl, n, es);
    assert es == [es[0]] + es[1..];
  }

  lemma {:induction false} ComplaintsSame(a: Slots, b: Slots, es: seq<Event>)
    requires SameDecls(a, b)
    ensures Complaints(a, es) == Complaints(b, es)
  {
    if es != [] {
      ComplaintsSame(a, b, es[1..]);
    }
  }

  lemma SlotsSettle(a: Slots, b: Slots, c: Slots, es: seq<Event>)
    requires es != [] && a.Keys == b.Keys == c.Keys
    requires forall n :: n in a ==> b[n] == Settled(a[n], n, [es[0]])
    requires forall n :: n in b ==> c[n] == Settled(b[n], n, es[1..])
    ensures forall n :: n in a ==> c[n] == Settled(a[n], n, es)
  {
    forall n | n in a ensures c[n] == Settled(a[n], n, es) {
      SettledStep(a[n], n, es);
    }
  }

  /** The three effects of an event sequence are independent: errors are the
      complaints in order, `others` the positionals in order, and each option is
      settled by its own bindings. Declarations never change. */
  lemma {:induction false} EventsDecompose(p: ParserState, es: seq<Event>)
    ensures var q := ApplyAll(p, es);
            && SameDecls(p.slots, q.slots)
            && q.(slots := p.slots, others := p.others, errors := p.errors) == p
            && q.errors == p.errors + Complaints(p.slots, es)
            && q.others == p.others + Positionals(es)
            && forall n :: n in p.slots ==> q.slots[n] == Settled(p.slots[n], n, es)
    decreases |es|
  {
    if es != [] {
      var p1 := Apply(p, es[0]);
      ApplyStep(p, es[0]);
      EventsDecompose(p1, es[1..]);
      ComplaintsSame(p.slots, p1.slots, es[1..]);
      assert es == [es[0]] + es[1..];
      PositionalsOfConcat([es[0]], es[1..]);
      SlotsSettle(p.slots, p1.slots, ApplyAll(p, es).slots, es);
    }
  }

  lemma SchemaSame(a: Slots, b: Slots)
    requires SameDecls(a, b) && Unambiguous(a)
    ensures Unambiguous(b) && SchemaOf(b) == SchemaOf(a)
  {
    assert forall m, n :: m in a && n in a ==> (Shares(a, m, n) <==> Shares(b, m, n));
  }

  /** Scanning composes: the words `a ++ b` leave the parser where `a`, and then `b` from
      the state reached, leave it, unless `a` ends in an option word awaiting its value. */
  lemma ScanComposes(p: ParserState, a: seq<string>, b: seq<string>)
    requires Unambiguous(p.slots)
    ensures var sc := SchemaOf(p.slots);
            var q := ApplyAll(p, Lex(sc, a));
            && Unambiguous(q.slots)
            && (b == [] || !AwaitsValue(sc, a) ==>
                  ApplyAll(p, Lex(sc, a + b)) == ApplyAll(q, Lex(SchemaOf(q.slots), b)))
  {
    var sc := SchemaOf(p.slots);
    EventsDecompose(p, Lex(sc, a));
    SchemaSame(p.slots, ApplyAll(p, Lex(sc, a)).slots);
    LexComposes(sc, a, b);
    ApplyConcat(p, Lex(sc, a), Lex(sc, b));
  }

  // ----- The three forms of `parse` and `add` -----

  function Missing(slots: Slots, keys: seq<string>): seq<string>
    requires forall k :: k in keys ==> k in slots
  {
    if keys == [] then []
    else (if MissingIn(slots[keys[0]]) then [MissingOption(keys[0])] else []) + Missing(slots, keys[1..])
  }

  lemma {:induction false} NothingMissing(slots: Slots, keys: seq<string>)
    requires forall k :: k in keys ==> k in slots
    ensures Missing(slots, keys) == [] <==> forall k :: k in keys ==> !MissingIn(slots[k])
  {
    if keys != [] {
      NothingMissing(slots, keys[1..]);
    }
  }

  function MissingNames(slots: Slots, keys: seq<string>): seq<string>
    requires forall k :: k in keys ==> k in slots
  {
    if keys == [] then []
    else (if MissingIn(slots[keys[0]]) then [keys[0]] else []) + MissingNames(slots, keys[1..])
  }

  /** They are exactly the required options that are unset, in lexicographic order. */
  lemma {:induction false} MissingInOrder(slots: Slots, keys: seq<string>)
    requires Sorted(keys) && forall k :: k in keys ==> k in slots
    ensures Sorted(MissingNames(slots, keys))
    ensures forall n :: n in MissingNames(slots, keys) <==> n in keys && slots[n].decl.Valued? && slots[n].decl.need && !slots[n].has
  {
    if keys != [] {
      var (tail, later) := (keys[1..], MissingNames(slots, keys[1..]));
      MissingInOrder(slots, tail);
      assert keys == [keys[0]] + tail;
      forall j | 0 <= j < |later| ensures Precedes(keys[0], later[j]) {
        assert later[j] in tail;
      }
    }
  }

  lemma {:induction false} MissingAreNamed(slots: Slots, keys: seq<string>)
    requires forall k :: k in keys ==> k in slots
    ensures var ns := MissingNames(slots, keys);
            Missing(slots, keys) == seq(|ns|, i requires 0 <= i < |ns| => "need option: --" + ns[i])
  {
    if keys != [] {
      MissingAreNamed(slots, keys[1..]);
    }
  }

  /** The key list and the declaration list name the same options, each once. */
  ghost predicate Consistent(p: ParserState) {
    && Sorted(p.keys)
    && (forall n :: n in p.keys <==> n in p.slots)
    && (forall n :: n in p.ordered <==> n in p.slots)
    && (forall i, j :: 0 <= i < j < |p.ordered| ==> p.ordered[i] != p.ordered[j])
    && (forall n :: n in p.slots ==> p.slots[n].decl.name == n)
  }

  /** The state after the argument words have been scanned and their events applied. */
  ghost function Scanned(p: ParserState, argv: seq<string>): ParserState
    requires argv != [] && Unambiguous(p.slots)
  {
    var q := p.(errors := [], others := [], progName := if p.progName == "" then argv[0] else p.progName);
    ApplyAll(q, Lex(SchemaOf(p.slots), argv[1..]))
  }

  ghost function ParseArgv(p: ParserState, argv: seq<string>): (ParserState, bool)
    requires Consistent(p)
  {
    if argv == [] then (p.(errors := [NO_ARGUMENTS], others := []), false)
    else if !Unambiguous(p.slots) then
      NoClashIsUnambiguous(p.slots, p.keys);
      (p.(errors := [AmbiguousShort(FirstClash(p.slots, p.keys, 0).value)], others := [],
          progName := if p.progName == "" then argv[0] else p.progName), false)
    else
      var q := Scanned(p, argv);
      EventsDecompose(p, Lex(SchemaOf(p.slots), argv[1..]));
      ScannedKeeps(p, argv);
      var r := q.(errors := q.errors + Missing(q.slots, q.keys));
      (r, r.errors == [])
  }

  lemma ScannedKeeps(p: ParserState, argv: seq<string>)
    requires Consistent(p) && argv != [] && Unambiguous(p.slots)
    ensures var (q, es) := (Scanned(p, argv), Lex(SchemaOf(p.slots), argv[1..]));
            && SameDecls(p.slots, q.slots) && q.keys == p.keys && q.ordered == p.ordered
            && q.errors == Complaints(p.slots, es)
            && q.others == Positionals(es)
            && forall n :: n in p.slots ==> q.slots[n] == Settled(p.slots[n], n, es)
  {
    var q := p.(errors := [], others := [], progName := if p.progName == "" then argv[0] else p.progName);
    EventsDecompose(q, Lex(SchemaOf(p.slots), argv[1..]));
  }

  /** `c_str()`: the characters in front of the first NUL. */
  function CStr(s: string): string { s[..IndexOf(s, '\0')] }

  function CStrs(args: seq<string>): (r: seq<string>)
    ensures |r| == |args| && forall i :: 0 <= i < |args| ==> r[i] == CStr(args[i])
  {
    if args == [] then [] else [CStr(args[0])] + CStrs(args[1..])
  }

  ghost function ParseVector(p: ParserState, args: seq<string>): (ParserState, bool)
    requires Consistent(p)
  {
    ParseArgv(p, CStrs(args))
  }

  ghost function ParseText(p: ParserState, arg: string): (ParserState, bool)
    requires Consistent(p)
  {
    match Tokenizer.Tokens(arg)
    case Failure(e) => (p.(errors := p.errors + [e]), false)
    case Success(args) => ParseVector(p, args)
  }

  /** `add`: refused, and nothing changed, when the name is taken. */
  function Add(p: ParserState, d: Decl): ParserState {
    if d.name in p.slots then p
    else p.(slots := p.slots[d.name := Initial(d)], keys := InsertKey(p.keys, d.name), ordered := p.ordered + [d.name])
  }
}
