/**
 Whole runs of one parser: any sequence of `add` and the three forms of `parse`.
 */
module ParserRuns {
  import opened Wrappers
  import opened Options
  import opened ArgScanner
  import opened ParserSpec
  import Tokenizer

  datatype Op =
    | AddOp(decl: Decl)
    | ArgvOp(argv: seq<string>)
    | VectorOp(args: seq<string>)
    | TextOp(text: string)

  ghost function Step(p: ParserState, op: Op): (q: ParserState)
    requires Consistent(p)
  {
    match op
    case AddOp(d) => Add(p, d)
    case ArgvOp(argv) => ParseArgv(p, argv).0
    case VectorOp(args) => ParseVector(p, args).0
    case TextOp(text) => ParseText(p, text).0
  }

  /** The argument vector a call scans, if it gets as far as scanning. */
  ghost function ScannedWords(p: ParserState, op: Op): seq<string> {
    var argv := match op
      case AddOp(_) => []
      case ArgvOp(argv) => argv
      case VectorOp(args) => CStrs(args)
      case TextOp(text) => match Tokenizer.Tokens(text) case Success(args) => CStrs(args) case Failure(_) => [];
    if argv == [] then [] else argv[1..]
  }

  /** The events a call applies. */
  ghost function EventsOf(p: ParserState, op: Op): seq<Event> {
    if Unambiguous(p.slots) then Lex(SchemaOf(p.slots), ScannedWords(p, op)) else []
  }

  lemma ParseArgvEffect(p: ParserState, argv: seq<string>)
    requires Consistent(p)
    ensures var q := ParseArgv(p, argv).0;
            var es := if argv == [] || !Unambiguous(p.slots) then [] else Lex(SchemaOf(p.slots), argv[1..]);
            && Consistent(q) && SameDecls(p.slots, q.slots)
            && forall n :: n in p.slots ==> q.slots[n] == Settled(p.slots[n], n, es)
  {
    if argv != [] && Unambiguous(p.slots) {
      ScannedKeeps(p, argv);
    }
  }

  lemma AddEffect(p: ParserState, d: Decl)
    requires Consistent(p)
    ensures var q := Add(p, d);
            && Consistent(q)
            && (forall n :: n in q.slots ==> n in p.slots || (n == d.name && q.slots[n] == Initial(d)))
            && (forall n :: n in p.slots ==> n in q.slots && q.slots[n] == p.slots[n])
  {
    if d.name !in p.slots {
      InsertKeeps(p.keys, d.name);
      assert d.name !in p.ordered;
    }
  }

  /** One call keeps the parser consistent and settles every option it knew by the
      call's own events. */
  lemma StepEffect(p: ParserState, op: Op)
    requires Consistent(p)
    ensures var q := Step(p, op);
            && Consistent(q)
            && (forall n :: n in q.slots ==> n in p.slots || (op.AddOp? && n == op.decl.name && q.slots[n] == Initial(op.decl)))
            && (forall n :: n in p.slots ==> n in q.slots && q.slots[n] == Settled(p.slots[n], n, EventsOf(p, op)))
  {
    match op
    case AddOp(d) => AddEffect(p, d);
    case ArgvOp(argv) => ParseArgvEffect(p, argv);
    case VectorOp(args) => ParseArgvEffect(p, CStrs(args));
    case TextOp(text) =>
      match Tokenizer.Tokens(text)
      case Success(args) => ParseArgvEffect(p, CStrs(args));
      case Failure(_) =>
  }

  ghost function Run(p: ParserState, ops: seq<Op>): ParserState
    requires Consistent(p)
    decreases |ops|
  {
    if ops == [] then p
    else
      StepEffect(p, ops[0]);
      Run(Step(p, ops[0]), ops[1..])
  }

  ghost function RunEvents(p: ParserState, ops: seq<Op>): seq<Event>
    requires Consistent(p)
    decreases |ops|
  {
    if ops == [] then []
    else
      StepEffect(p, ops[0]);
      EventsOf(p, ops[0]) + RunEvents(Step(p, ops[0]), ops[1..])
  }

  lemma {:induction false} SettledConcat(s: Slot, n: string, a: seq<Event>, b: seq<Event>)
    ensures Settled(Settled(s, n, a), n, b) == Settled(s, n, a + b)
    decreases |a|
  {
    if a == [] {
      assert a + b == b;
    } else {
      SettledConcat(Settled(s, n, [a[0]]), n, a[1..], b);
      SettledStep(s, n, a);
      SettledStep(s, n, a + b);
      assert (a + b)[1..] == a[1..] + b;
    }
  }

  /** Over any run, an option known at the start is settled by the whole run's events:
      its declaration stays, `has` never reverts, and its value is the reader's result
      on the latest accepted binding, or what it was. */
  lemma {:induction false} RunSettles(p: ParserState, ops: seq<Op>, n: string)
    requires Consistent(p) && n in p.slots
    ensures var q := Run(p, ops);
            && n in q.slots && q.slots[n] == Settled(p.slots[n], n, RunEvents(p, ops))
            && q.slots[n].decl == p.slots[n].decl && (p.slots[n].has ==> q.slots[n].has)
    decreases |ops|
  {
    if ops != [] {
      StepEffect(p, ops[0]);
      RunSettles(Step(p, ops[0]), ops[1..], n);
      SettledConcat(p.slots[n], n, EventsOf(p, ops[0]), RunEvents(Step(p, ops[0]), ops[1..]));
    }
  }

  /** The value of an option is its default until set, and then a value its reader let through. */
  ghost predicate Honest(s: Slot) {
    s.decl.Valued? ==>
      if s.has then exists v: string :: Read(s.decl.reader, v) == Some(s.actual) else s.actual == s.decl.def
  }

  lemma {:induction false} LatestWasRead(d: Decl, n: string, es: seq<Event>)
    ensures Latest(d, n, es).Some? ==> d.Valued? && exists v: string :: Read(d.reader, v) == Latest(d, n, es)
    decreases |es|
  {
    if es != [] && d.Valued? {
      LatestWasRead(d, n, es[..|es| - 1]);
    }
  }

  lemma HonestSettled(s: Slot, n: string, es: seq<Event>)
    requires Honest(s)
    ensures Honest(Settled(s, n, es))
  {
    LatestWasRead(s.decl, n, es);
  }

  /** A set range option is within its bounds, a set one-of option is in its list, and an
      unset one has its default. */
  ghost predicate WithinReader(s: Slot) {
    s.decl.Valued? ==>
      && (s.has && s.decl.reader.Range? ==>
            s.decl.reader.le(s.decl.reader.low, s.actual) && s.decl.reader.le(s.actual, s.decl.reader.high))
      && (s.has && s.decl.reader.OneOf? ==> s.actual in s.decl.reader.alt)
      && (!s.has ==> s.actual == s.decl.def)
  }

  /** Every reachable parser is consistent and all its options are honest; so a set
      range option is within its bounds and a set one-of option is in its list. */
  lemma {:induction false} ReachableIsHonest(p: ParserState, ops: seq<Op>)
    requires Consistent(p) && forall n :: n in p.slots ==> Honest(p.slots[n])
    ensures var q := Run(p, ops);
            && Consistent(q)
            && forall n :: n in q.slots ==> Honest(q.slots[n]) && WithinReader(q.slots[n])
    decreases |ops|
  {
    if ops == [] {
      forall n | n in p.slots ensures WithinReader(p.slots[n]) {
        if p.slots[n].decl.Valued? && p.slots[n].has {
          var v: string :| Read(p.slots[n].decl.reader, v) == Some(p.slots[n].actual);
        }
      }
    } else {
      var q := Step(p, ops[0]);
      StepEffect(p, ops[0]);
      forall n | n in q.slots ensures Honest(q.slots[n]) {
        if n in p.slots {
          HonestSettled(p.slots[n], n, EventsOf(p, ops[0]));
        }
      }
      ReachableIsHonest(q, ops[1..]);
    }
  }

  /** From a new parser, whatever is declared and parsed. */
  lemma FreshRunsAreHonest(ops: seq<Op>)
    ensures var q := Run(Fresh, ops);
            && Consistent(q)
            && forall n :: n in q.slots ==> WithinReader(q.slots[n])
  {
    ReachableIsHonest(Fresh, ops);
  }

  /** The parse failed with nothing set and one error, about the first option in name order
      that repeats a short name. */
  ghost predicate AmbiguousFails(p: ParserState, q: ParserState, ok: bool) {
    && !ok && q.slots == p.slots && q.others == []
    && exists n :: n in p.slots && FirstRepeat(p.slots, n) && q.errors == ["short option '" + [p.slots[n].decl.short] + "' is ambiguous"]
  }

  ghost predicate FirstRepeat(slots: Slots, n: string) {
    Repeats(slots, n) && forall m :: m in slots && Repeats(slots, m) ==> m == n || Precedes(n, m)
  }

  /** An ambiguous short name fails every parse with that one error and sets nothing;
      without one the index inverts the short names. */
  lemma AmbiguityOrInverse(p: ParserState, argv: seq<string>)
    requires Consistent(p) && argv != []
    ensures if Unambiguous(p.slots)
            then forall n, c :: c != '\0' && n != "" ==>
                   ((n in p.slots && p.slots[n].decl.short == c) <==> (c in LookupOf(p.slots) && LookupOf(p.slots)[c] == n))
            else AmbiguousFails(p, ParseArgv(p, argv).0, ParseArgv(p, argv).1)
  {
    if Unambiguous(p.slots) {
      LookupInverts(p.slots);
    } else {
      AmbiguityFails(p, argv);
    }
  }

  lemma LookupInverts(slots: Slots)
    requires Unambiguous(slots)
    ensures forall n, c :: c != '\0' && n != "" ==>
              ((n in slots && slots[n].decl.short == c) <==> (c in LookupOf(slots) && LookupOf(slots)[c] == n))
  {
  }

  lemma AmbiguityFails(p: ParserState, argv: seq<string>)
    requires Consistent(p) && argv != [] && !Unambiguous(p.slots)
    ensures AmbiguousFails(p, ParseArgv(p, argv).0, ParseArgv(p, argv).1)
  {
    NoClashIsUnambiguous(p.slots, p.keys);
    var n := FirstClashIsLeast(p.slots, p.keys);
    assert FirstRepeat(p.slots, n);
  }
}
