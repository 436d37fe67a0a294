/**
 When a parse succeeds and what it then leaves behind, in terms of the grammar.
 */
module CommandLines {
  import opened Wrappers
  import opened Options
  import opened ArgScanner
  import opened Grammar
  import opened ParserSpec
  import Tokenizer

  /** The items spell the words and every value they bind is accepted by its reader. */
  ghost predicate Spells(slots: Slots, items: seq<Item>, ws: seq<string>)
    requires Unambiguous(slots)
  {
    var sc := SchemaOf(slots);
    && AllWellFormed(sc, items) && Render(items) == ws
    && AllAccepted(slots, Meanings(sc, items))
  }

  ghost predicate AllAccepted(slots: Slots, es: seq<Event>) {
    forall e :: e in es && e.SetValue? ==>
      e.name in slots && slots[e.name].decl.Valued? && Read(slots[e.name].decl.reader, e.value).Some?
  }

  ghost predicate Binds(es: seq<Event>, n: string) {
    exists v :: SetValue(n, v) in es
  }

  /** Events that the declarations allow, as far as kind and name go. */
  ghost predicate FitEvent(slots: Slots, e: Event) {
    match e
    case SetFlag(n) => n in slots && slots[n].decl.Flag?
    case SetValue(n, _) => n in slots && slots[n].decl.Valued?
    case Positional(_) => true
    case Report(_) => true
  }

  lemma {:induction false} LexFits(slots: Slots, ws: seq<string>)
    requires Unambiguous(slots)
    ensures forall e :: e in Lex(SchemaOf(slots), ws) ==> FitEvent(slots, e)
    decreases |ws|
  {
    var sc := SchemaOf(slots);
    if ws != [] {
      var next := if |ws| > 1 then Some(ws[1]) else None;
      var k := if TakesNext(sc, ws[0]) && |ws| > 1 then 2 else 1;
      LexHead(sc, ws);
      LexFits(slots, ws[k..]);
      HeadFits(slots, ws[0], next);
    }
  }

  lemma HeadFits(slots: Slots, w: string, next: Option<string>)
    requires Unambiguous(slots)
    ensures forall e :: e in HeadEvents(SchemaOf(slots), w, next) ==> FitEvent(slots, e)
  {
    var sc := SchemaOf(slots);
    assert forall cs, e :: e in Letters(sc, cs) ==> FitEvent(slots, e);
    if IsLong(w) { } else { }
  }

  /** No complaint: no report, and every reader accepts. */
  lemma {:induction false} NoComplaints(slots: Slots, es: seq<Event>)
    requires forall e :: e in es ==> FitEvent(slots, e)
    ensures Complaints(slots, es) == [] <==> Clean(es) && AllAccepted(slots, es)
  {
    if es != [] {
      NoComplaints(slots, es[1..]);
      assert es == [es[0]] + es[1..];
      CleanConcat([es[0]], es[1..]);
      CleanOne(es[0]);
      assert FitEvent(slots, es[0]);
    }
  }

  /** Whether option `n` has been set, after the events. */
  lemma {:induction false} LatestExists(d: Decl, n: string, es: seq<Event>)
    requires d.Valued?
    ensures Latest(d, n, es).Some? <==> exists v :: SetValue(n, v) in es && Read(d.reader, v).Some?
    decreases |es|
  {
    if es != [] {
      var (front, e) := (es[..|es| - 1], es[|es| - 1]);
      LatestExists(d, n, front);
      assert es == front + [e];
    }
  }

  ghost predicate Present(p: ParserState, es: seq<Event>) {
    forall n :: n in p.slots && p.slots[n].decl.Valued? && p.slots[n].decl.need ==> p.slots[n].has || Binds(es, n)
  }

  /** `parse` returns true exactly on a nonempty argument vector whose words are
      spelled by accepted items, with unambiguous short names and every required
      option set before or bound now. */
  lemma SucceedsExactlyWhen(p: ParserState, argv: seq<string>)
    requires Consistent(p)
    ensures ParseArgv(p, argv).1 <==>
            && argv != [] && Unambiguous(p.slots)
            && exists items :: Spells(p.slots, items, argv[1..]) && Present(p, Meanings(SchemaOf(p.slots), items))
  {
    if argv != [] && Unambiguous(p.slots) {
      var (sc, ws) := (SchemaOf(p.slots), argv[1..]);
      var es := Lex(sc, ws);
      ErrorFree(p, argv);
      DeriveIsSound(sc, ws);
      if ParseArgv(p, argv).1 {
        var items := Derive(sc, ws).value;
        assert Spells(p.slots, items, ws) && Present(p, Meanings(sc, items));
      }
      forall items | Spells(p.slots, items, ws) && Present(p, Meanings(sc, items))
        ensures Clean(es) && AllAccepted(p.slots, es) && Present(p, es)
      {
        LexOfRender(sc, items);
      }
    }
  }

  lemma ErrorFree(p: ParserState, argv: seq<string>)
    requires Consistent(p) && argv != [] && Unambiguous(p.slots)
    ensures var es := Lex(SchemaOf(p.slots), argv[1..]);
            ParseArgv(p, argv).1 <==> Clean(es) && AllAccepted(p.slots, es) && Present(p, es)
  {
    var es := Lex(SchemaOf(p.slots), argv[1..]);
    var q := Scanned(p, argv);
    ScannedKeeps(p, argv);
    LexFits(p.slots, argv[1..]);
    NoComplaints(p.slots, es);
    NothingMissing(q.slots, q.keys);
    if AllAccepted(p.slots, es) {
      forall n | n in p.slots && p.slots[n].decl.Valued?
        ensures q.slots[n].has <==> p.slots[n].has || Binds(es, n)
      {
        LatestExists(p.slots[n].decl, n, es);
        if Binds(es, n) {
          var v :| SetValue(n, v) in es;
          assert Read(p.slots[n].decl.reader, v).Some?;
        }
      }
    }
  }

  /** Success means that every required option is set. */
  lemma SuccessSetsRequired(p: ParserState, argv: seq<string>)
    requires Consistent(p) && ParseArgv(p, argv).1
    ensures var q := ParseArgv(p, argv).0;
            q.errors == [] && forall n :: n in q.slots ==> !MissingIn(q.slots[n])
  {
    var q := Scanned(p, argv);
    ScannedKeeps(p, argv);
    NothingMissing(q.slots, q.keys);
    assert q.errors + Missing(q.slots, q.keys) == [];
  }

  /** The value of the last binding of `n`. */
  function LastBinding(n: string, es: seq<Event>): Option<string> {
    if es == [] then None
    else
      var e := es[|es| - 1];
      if e.SetValue? && e.name == n then Some(e.value) else LastBinding(n, es[..|es| - 1])
  }

  lemma {:induction false} LatestIsLast(slots: Slots, n: string, es: seq<Event>)
    requires n in slots && slots[n].decl.Valued? && AllAccepted(slots, es)
    ensures Latest(slots[n].decl, n, es) ==
            match LastBinding(n, es) case None => None case Some(v) => Read(slots[n].decl.reader, v)
    decreases |es|
  {
    if es != [] {
      var front := es[..|es| - 1];
      assert forall e :: e in front ==> e in es;
      assert es[|es| - 1] in es;
      LatestIsLast(slots, n, front);
    }
  }

  function WordsOf(items: seq<Item>): seq<string> {
    if items == [] then []
    else (if items[0].Word? then [items[0].word] else []) + WordsOf(items[1..])
  }

  lemma {:induction false} PositionalsOfMeanings(sc: Schema, items: seq<Item>)
    requires AllWellFormed(sc, items)
    ensures Positionals(Meanings(sc, items)) == WordsOf(items)
  {
    if items != [] {
      PositionalsOfMeanings(sc, items[1..]);
      PositionalsOfConcat(Meaning(sc, items[0]), Meanings(sc, items[1..]));
      if items[0].Word? {
        assert Meaning(sc, items[0])[1..] == [];
      } else {
        NoPositionals(Meaning(sc, items[0]));
      }
    }
  }

  /** `after` is what the events `es` make of an unset option: a flag is set when it is
      named, a valued option takes the reader's result on its last binding. */
  ghost predicate TakesExactly(before: Slot, after: Slot, n: string, es: seq<Event>) {
    && after.decl == before.decl
    && if before.decl.Flag? then after.has <==> SetFlag(n) in es
       else match LastBinding(n, es)
         case None => !after.has && after.actual == before.decl.def
         case Some(v) => after.has && Read(before.decl.reader, v) == Some(after.actual)
  }

  lemma UnsetTakesExactly(slots: Slots, n: string, es: seq<Event>)
    requires n in slots && slots[n] == Initial(slots[n].decl) && AllAccepted(slots, es)
    ensures TakesExactly(slots[n], Settled(slots[n], n, es), n, es)
  {
    if slots[n].decl.Valued? {
      LatestIsLast(slots, n, es);
      LastBindingIn(n, es);
    }
  }

  /** Render, then parse: a parser on which nothing has been set takes from the words
      of accepted items exactly their bindings and positionals. */
  lemma RenderThenParse(p: ParserState, prog: string, items: seq<Item>)
    requires Consistent(p) && Unambiguous(p.slots)
    requires forall n :: n in p.slots ==> p.slots[n] == Initial(p.slots[n].decl)
    requires Spells(p.slots, items, Render(items))
    ensures var (q, ok) := ParseArgv(p, [prog] + Render(items));
            var es := Meanings(SchemaOf(p.slots), items);
            && (ok <==> Present(p, es))
            && q.others == WordsOf(items)
            && q.slots.Keys == p.slots.Keys
            && forall n :: n in p.slots ==> TakesExactly(p.slots[n], q.slots[n], n, es)
  {
    var (sc, argv) := (SchemaOf(p.slots), [prog] + Render(items));
    var es := Meanings(sc, items);
    assert argv[1..] == Render(items);
    LexOfRender(sc, items);
    ScannedKeeps(p, argv);
    ErrorFree(p, argv);
    PositionalsOfMeanings(sc, items);
    forall n | n in p.slots ensures TakesExactly(p.slots[n], Settled(p.slots[n], n, es), n, es) {
      UnsetTakesExactly(p.slots, n, es);
    }
  }

  lemma {:induction false} LastBindingIn(n: string, es: seq<Event>)
    ensures LastBinding(n, es).Some? ==> SetValue(n, LastBinding(n, es).value) in es
    decreases |es|
  {
    if es != [] {
      LastBindingIn(n, es[..|es| - 1]);
      assert es[|es| - 1] in es;
    }
  }

  /** `rest()` holds the words whose role is positional, in order. */
  lemma RestIsPositionalWords(p: ParserState, argv: seq<string>)
    requires Consistent(p) && argv != [] && Unambiguous(p.slots)
    ensures var (sc, ws) := (SchemaOf(p.slots), argv[1..]);
            ParseArgv(p, argv).0.others == WordsWith(ws, Roles(sc, ws), PositionalWord)
  {
    ScannedKeeps(p, argv);
    PositionalsAreWords(SchemaOf(p.slots), argv[1..]);
  }

  // ----- What the errors say -----

  lemma ComplaintOf(slots: Slots, e: Event)
    ensures Complaints(slots, [e]) == Complaint(slots, e)
  {
    assert Complaints(slots, [e][1..]) == [];
  }

  /** The error of a lone word `--n`. */
  lemma LongWordError(slots: Slots, n: string)
    requires Unambiguous(slots) && '=' !in n
    ensures Complaints(slots, Lex(SchemaOf(slots), ["--" + n])) ==
            if n !in slots then ["undefined option: --" + n]
            else if slots[n].decl.Valued? then ["option needs value: --" + n] else []
  {
    var (sc, w) := (SchemaOf(slots), "--" + n);
    assert w[2..] == n;
    IndexOfAbsent(n, '=');
    LexHead(sc, [w]);
    ComplaintOf(slots, HeadEvents(sc, w, None)[0]);
    assert Lex(sc, [w]) == [HeadEvents(sc, w, None)[0]];
  }

  /** The error of a lone word `--n=v`. */
  lemma EqualsWordError(slots: Slots, n: string, v: string)
    requires Unambiguous(slots) && '=' !in n
    ensures Complaints(slots, Lex(SchemaOf(slots), ["--" + n + "=" + v])) ==
            if n !in slots then ["undefined option: --" + n]
            else if slots[n].decl.Valued? && Read(slots[n].decl.reader, v).Some? then []
            else ["option value is invalid: --" + n + "=" + v]
  {
    var (sc, w) := (SchemaOf(slots), "--" + n + "=" + v);
    var e := if n !in slots then Report(UndefinedLong(n)) else if slots[n].decl.Valued? then SetValue(n, v) else Report(Invalid(n, v));
    assert OwnEvents(sc, w) == [e] && !TakesNext(sc, w) by {
      HeadOfEqualsWord(sc, n, v, None);
    }
    assert Lex(sc, [w]) == [e] + Lex(sc, []) == [e];
    ComplaintOf(slots, e);
  }

  /** The errors of two words that give `n` the value `v`. */
  lemma ValueError(slots: Slots, n: string, v: string)
    requires Unambiguous(slots) && '=' !in n && n in slots && slots[n].decl.Valued?
    ensures Complaints(slots, Lex(SchemaOf(slots), ["--" + n, v])) ==
            if Read(slots[n].decl.reader, v).Some? then [] else ["option value is invalid: --" + n + "=" + v]
  {
    var (sc, ws) := (SchemaOf(slots), ["--" + n, v]);
    assert ws[0][2..] == n;
    LexHead(sc, ws);
    assert Lex(sc, ws) == [SetValue(n, v)];
    ComplaintOf(slots, SetValue(n, v));
  }

  /** The error of a letter that is given no value, alone or in front of others. */
  lemma LetterError(slots: Slots, c: char, n: string)
    requires Unambiguous(slots)
    ensures (forall m :: m in slots ==> !(NamedShort(slots, m) && slots[m].decl.short == c)) ==>
              Complaint(slots, LetterEvent(SchemaOf(slots), c)) == ["undefined short option: -" + [c]]
    ensures NamedShort(slots, n) && slots[n].decl.short == c ==>
              Complaint(slots, LetterEvent(SchemaOf(slots), c)) ==
              if slots[n].decl.Valued? then ["option needs value: --" + n] else []
  {
  }

  /** All errors of a parse: those of the words, then those of the missing options, in
      lexicographic order. */
  lemma ErrorsOfParse(p: ParserState, argv: seq<string>)
    requires Consistent(p) && argv != [] && Unambiguous(p.slots)
    ensures Consistent(ParseArgv(p, argv).0)
    ensures var (q, es) := (ParseArgv(p, argv).0, Lex(SchemaOf(p.slots), argv[1..]));
            var ns := MissingNames(q.slots, q.keys);
            && q.errors == Complaints(p.slots, es) + seq(|ns|, i requires 0 <= i < |ns| => "need option: --" + ns[i])
            && Sorted(ns)
            && forall n :: n in ns <==> n in q.slots && q.slots[n].decl.Valued? && q.slots[n].decl.need && !q.slots[n].has
  {
    var q := Scanned(p, argv);
    ScannedKeeps(p, argv);
    MissingInOrder(q.slots, q.keys);
    MissingAreNamed(q.slots, q.keys);
  }

  /** No words at all, and which program name is kept. */
  lemma ProgramName(p: ParserState, argv: seq<string>)
    requires Consistent(p)
    ensures argv == [] ==> ParseArgv(p, argv) == (p.(errors := ["argument number must be longer than 0"], others := []), false)
    ensures argv != [] ==> ParseArgv(p, argv).0.progName == if p.progName == "" then argv[0] else p.progName
  {
    if argv != [] && Unambiguous(p.slots) {
      var q := p.(errors := [], others := [], progName := if p.progName == "" then argv[0] else p.progName);
      EventsDecompose(q, Lex(SchemaOf(p.slots), argv[1..]));
    }
  }

  // ----- The string form -----

  /** Words given as strings are cut at their first NUL. */
  lemma CStrCuts(w: string, rest: string)
    requires '\0' !in w
    ensures CStr(w + ['\0'] + rest) == w
  {
    IndexOfFirst(w, '\0', rest);
    assert (w + ['\0'] + rest)[..|w|] == w;
  }

  lemma {:induction false} CStrOfPlain(w: string)
    requires '\0' !in w
    ensures CStr(w) == w
  {
  }

  predicate Plain(ws: seq<string>) {
    forall i :: 0 <= i < |ws| ==> '\0' !in ws[i]
  }

  lemma CStrsOfPlain(ws: seq<string>)
    requires Plain(ws)
    ensures CStrs(ws) == ws
  {
    forall i | 0 <= i < |ws| ensures CStrs(ws)[i] == ws[i] { CStrOfPlain(ws[i]); }
  }

  lemma TextOfTokens(p: ParserState, arg: string, args: seq<string>)
    requires Consistent(p) && Tokenizer.Tokens(arg) == Success(args)
    requires Plain(args)
    ensures ParseText(p, arg) == ParseArgv(p, args)
  {
    CStrsOfPlain(args);
  }

  /** Quoting a command line and parsing the string is parsing the words, without the last
      one when it is empty. */
  lemma TextOfQuotedWords(p: ParserState, ws: seq<string>, es: seq<string>)
    requires Consistent(p) && Plain(ws) && Tokenizer.Quotes(ws, es)
    ensures ParseText(p, Tokenizer.Join(es)) == ParseArgv(p, Tokenizer.DropEmptyLast(ws))
  {
    Tokenizer.TokenizeUndoesQuoting(ws, es);
    TextOfTokens(p, Tokenizer.Join(es), Tokenizer.DropEmptyLast(ws));
  }

  /** A string that cannot be tokenized costs one more error and nothing else. */
  lemma UntokenizableText(p: ParserState, arg: string)
    requires Consistent(p)
    requires Tokenizer.Escaped(arg, |arg|) || Tokenizer.InQuote(arg, |arg|)
    ensures ParseText(p, arg) ==
            (p.(errors := p.errors + [if Tokenizer.Escaped(arg, |arg|) then "unexpected occurrence of '\\' at end of string"
                                     else "quote is not closed"]), false)
  {
    Tokenizer.FailsExactlyWhen(arg);
  }
}
