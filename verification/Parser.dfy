/**
 The parser object. Its methods change the fields and option objects in place;
 each is proved to take `model` where the functions of `ParserSpec` say.
 */
module Parser {
  import opened Wrappers
  import opened Options
  import opened ArgScanner
  import opened ParserSpec
  import Grammar
  import Tokenizer

  /** Setting through a short letter is the letter's event. */
  lemma LetterInEffect(p: ParserState, c: char)
    requires Unambiguous(p.slots)
    ensures var sc := SchemaOf(p.slots);
            c in sc.lookup ==> Apply(p, SetFlag(sc.lookup[c])) == Apply(p, LetterEvent(sc, c))
  {
  }

  lemma {:induction false} ApplyOne(p: ParserState, e: Event)
    ensures ApplyAll(p, [e]) == Apply(p, e)
  {
  }

  lemma ApplyLast(p: ParserState, es: seq<Event>, e: Event)
    ensures ApplyAll(p, es + [e]) == Apply(ApplyAll(p, es), e)
  {
    ApplyConcat(p, es, [e]);
    ApplyOne(ApplyAll(p, es), e);
  }

  /** The index holds exactly the short names of the first `k` options. */
  ghost predicate IndexedUpTo(slots: Slots, keys: seq<string>, k: nat, lookup: map<char, string>)
    requires k <= |keys|
  {
    && (forall c :: c in lookup ==> NamedShort(slots, lookup[c]) && slots[lookup[c]].decl.short == c && lookup[c] in keys[..k])
    && (forall n :: n in keys[..k] && NamedShort(slots, n) ==> slots[n].decl.short in lookup && lookup[slots[n].decl.short] == n)
  }

  lemma IndexStep(slots: Slots, keys: seq<string>, k: nat, lookup: map<char, string>)
    requires k < |keys| && (forall n :: n in keys <==> n in slots) && Sorted(keys) && IndexedUpTo(slots, keys, k, lookup)
    ensures keys[k] in slots
    ensures ClashesAt(slots, keys, k) <==> NamedShort(slots, keys[k]) && slots[keys[k]].decl.short in lookup
    ensures !ClashesAt(slots, keys, k) ==>
              IndexedUpTo(slots, keys, k + 1, if NamedShort(slots, keys[k]) then lookup[slots[keys[k]].decl.short := keys[k]] else lookup)
  {
    SortedDistinct(keys);
    assert keys[k] in keys && keys[..k + 1] == keys[..k] + [keys[k]];
    var c := slots[keys[k]].decl.short;
    if NamedShort(slots, keys[k]) && c in lookup {
      var i :| 0 <= i < k && keys[i] == lookup[c];
      assert Shares(slots, keys[i], keys[k]);
    }
    if ClashesAt(slots, keys, k) {
      var i :| 0 <= i < k && Shares(slots, keys[i], keys[k]);
      assert keys[i] in keys[..k];
    }
  }

  lemma IndexComplete(slots: Slots, keys: seq<string>, lookup: map<char, string>)
    requires (forall n :: n in keys <==> n in slots) && IndexedUpTo(slots, keys, |keys|, lookup) && Unambiguous(slots)
    ensures lookup == LookupOf(slots)
  {
  }

  lemma AddKeeps(p: ParserState, d: Decl)
    requires Consistent(p)
    ensures Consistent(ParserSpec.Add(p, d))
  {
    if d.name !in p.slots {
      InsertKeeps(p.keys, d.name);
      assert d.name !in p.ordered;
    }
  }

  ghost predicate Holds(o: CmdOption, s: Slot)
    reads o
  {
    o.decl == s.decl && o.has == s.has && o.actual == s.actual
  }

  class Parser {
    var options: map<string, CmdOption>
    var keys: seq<string>          // the iteration order of `options`
    var ordered: seq<CmdOption>
    var progName: string
    var others: seq<string>
    var errors: seq<string>

    /** The parser's state as a value. */
    ghost var model: ParserState

    /** The fields and the option objects are as `model` says. */
    ghost predicate Linked()
      reads this, options.Values
    {
      && model.keys == keys && model.progName == progName && model.others == others && model.errors == errors
      && model.slots.Keys == options.Keys
      && (forall n :: n in options ==> options[n].decl.name == n && Holds(options[n], model.slots[n]))
      && |ordered| == |model.ordered|
      && (forall i :: 0 <= i < |ordered| ==> model.ordered[i] in options && options[model.ordered[i]] == ordered[i])
    }

    ghost predicate Valid()
      reads this, options.Values
    {
      Linked() && Consistent(model)
    }

    constructor ()
      ensures Valid() && model == Fresh
    {
      options, keys, ordered, progName, others, errors := map[], [], [], "", [], [];
      model := Fresh;
    }

    method Add(d: Decl) returns (thrown: Option<string>)
      requires Valid()
      modifies this
      ensures Valid() && model == ParserSpec.Add(old(model), d)
      ensures model.ordered == old(model).ordered + if d.name in old(model).slots then [] else [d.name]
      ensures thrown == if d.name in old(model).slots then Some("multiple definition: " + d.name) else None
      ensures fresh(options.Values - old(options.Values))
    {
      if d.name in options {
        return Some(MultipleDefinition(d.name));
      }
      AddKeeps(model, d);
      Insert(d);
      return None;
    }

    method Insert(d: Decl)
      requires Linked() && d.name !in options
      modifies this
      ensures Linked() && model == ParserSpec.Add(old(model), d)
      ensures fresh(options.Values - old(options.Values))
    {
      var o := new CmdOption(d);
      options := options[d.name := o];
      keys := InsertKey(keys, d.name);
      ordered := ordered + [o];
      model := ParserSpec.Add(model, d);
    }

    method Exist(name: string) returns (r: bool)
      requires Valid()
      ensures r <==> name in model.slots && model.slots[name].has
    {
      if name !in options {
        return false;
      }
      return options[name].has;
    }

    method Get(name: string, typ: Type) returns (r: Result<Value>)
      requires Valid()
      ensures name !in model.slots ==> r == Failure("there is no flag: --" + name)
      ensures name in model.slots ==> var s := model.slots[name];
              r == if s.decl.Valued?
                      && ((typ == IntType && s.decl.def.IntValue?) || (typ == StringType && s.decl.def.StringValue?)
                          || (s.decl.def.OtherValue? && typ == OtherType(s.decl.def.typeName)))
                   then Success(s.actual) else Failure("type mismatch flag '" + name + "'")
    {
      if name !in options {
        return Failure("there is no flag: --" + name);
      }
      var o := options[name];
      if o.decl.Flag? || TypeOf(o.decl.def) != typ {
        return Failure("type mismatch flag '" + name + "'");
      }
      return Success(o.actual);
    }

    method AddError(message: string)
      requires Linked()
      modifies this`errors, this`model
      ensures Linked() && model == Apply(old(model), Report(message))
    {
      errors := errors + [message];
      model := model.(errors := errors);
    }

    method SetOption(name: string)
      requires Linked()
      modifies this`errors, this`model, options.Values
      ensures Linked() && model == Apply(old(model), SetFlag(name))
    {
      if name !in options {
        AddError(UndefinedLong(name));
        return;
      }
      var ok := options[name].Set();
      if ok {
        model := model.(slots := model.slots[name := options[name].State()]);
      } else {
        errors := errors + [NeedsValue(name)];
        model := model.(errors := errors);
      }
    }

    method SetOptionValue(name: string, value: string)
      requires Linked()
      modifies this`errors, this`model, options.Values
      ensures Linked() && model == Apply(old(model), SetValue(name, value))
    {
      if name !in options {
        AddError(UndefinedLong(name));
        return;
      }
      var ok := options[name].SetValue(value);
      if ok {
        model := model.(slots := model.slots[name := options[name].State()]);
      } else {
        errors := errors + [Invalid(name, value)];
        model := model.(errors := errors);
      }
    }

    /** The index of short names, or the error on the first repeated one. */
    method BuildLookup() returns (ok: bool, lookup: map<char, string>)
      requires Valid()
      modifies this`errors, this`model
      ensures Linked() && ok == Unambiguous(old(model).slots)
      ensures ok ==> model == old(model) && lookup == LookupOf(model.slots)
      ensures !ok ==> var clash := FirstClash(old(model).slots, old(model).keys, 0);
                      clash.Some? && model == Apply(old(model), Report(AmbiguousShort(clash.value)))
    {
      lookup := map[];
      ghost var p := model;
      NoClashIsUnambiguous(p.slots, keys);
      for k := 0 to |keys|
        invariant FirstClash(p.slots, p.keys, 0) == FirstClash(p.slots, p.keys, k)
        invariant IndexedUpTo(p.slots, p.keys, k, lookup)
        invariant Linked() && model == p
      {
        var name := keys[k];
        IndexStep(p.slots, keys, k, lookup);
        var initial := options[name].decl.short;
        if name != "" && initial != '\0' {
          if initial in lookup {
            AddError(AmbiguousShort(initial));
            return false, lookup;
          }
          lookup := lookup[initial := name];
        }
      }
      IndexComplete(p.slots, p.keys, lookup);
      return true, lookup;
    }

    /** A word that begins with two dashes; returns the index of the next word to scan. */
    method ScanLong(argv: seq<string>, i: nat) returns (next: nat)
      requires Linked() && i < |argv| && IsLong(argv[i]) && Unambiguous(model.slots)
      modifies this`errors, this`model, options.Values
      ensures Linked() && ScannedHead(old(model), model, argv, i, next)
    {
      var body := argv[i][2..];
      var k := IndexOf(body, '=');
      if k < |body| {
        var (name, val) := (body[..k], body[k + 1..]);
        assert argv[i] == "--" + name + "=" + val;
        EqualsHead(model, argv, i, name, val);
        SetOptionValue(name, val);
        return i + 1;
      }
      var name := body;
      assert argv[i] == "--" + name && '=' !in name by { assert body[..k] == body; }
      PlainHead(model, argv, i, name);
      if name !in options {
        AddError(UndefinedLong(name));
        return i + 1;
      }
      if options[name].decl.Valued? {
        if i + 1 >= |argv| {
          AddError(NeedsValue(name));
          return i + 1;
        } else {
          SetOptionValue(name, argv[i + 1]);
          return i + 2;
        }
      }
      SetOption(name);
      return i + 1;
    }

    /** One bundled letter that is given no value. */
    method SetLetter(lookup: map<char, string>, c: char)
      requires Linked() && Unambiguous(model.slots) && lookup == LookupOf(model.slots)
      modifies this`errors, this`model, options.Values
      ensures Linked() && model == Apply(old(model), LetterEvent(SchemaOf(old(model).slots), c))
    {
      LetterInEffect(model, c);
      if c !in lookup {
        AddError(UndefinedShort(c));
      } else if lookup[c] == "" {
        assert false;
      } else {
        SetOption(lookup[c]);
      }
    }

    /** A word that begins with one dash: a bundle of short options. */
    method ScanShort(lookup: map<char, string>, argv: seq<string>, i: nat) returns (next: nat)
      requires Linked() && i < |argv| && IsShort(argv[i]) && Unambiguous(model.slots)
      requires lookup == LookupOf(model.slots)
      modifies this`errors, this`model, options.Values
      ensures Linked() && ScannedHead(old(model), model, argv, i, next)
    {
      var w := argv[i];
      ghost var p := model;
      if |w| == 1 {
        DashHead(p, argv, i);
        return i + 1;
      }
      var last, j := w[1], 2;
      BundleStart(p, w);
      while j < |w|
        invariant 2 <= j <= |w| && last == w[j - 1]
        invariant Linked() && BundleDone(p, model, w, j - 1)
      {
        last := w[j];
        BundleStep(p, model, w, j - 1);
        SetLetter(lookup, w[j - 1]);
        j := j + 1;
      }
      BundleEnd(p, model, argv, i);
      if i + 1 < |argv| && last in lookup && options[lookup[last]].decl.Valued? {
        SetOptionValue(lookup[last], argv[i + 1]);
        return i + 2;
      }
      SetLetter(lookup, last);
      return i + 1;
    }

    method Reset()
      requires Linked()
      modifies this`errors, this`others, this`model
      ensures Linked() && model == old(model).(errors := [], others := [])
    {
      errors, others := [], [];
      model := model.(errors := [], others := []);
    }

    method AddPositional(word: string)
      requires Linked()
      modifies this`others, this`model
      ensures Linked() && model == Apply(old(model), Positional(word))
    {
      others := others + [word];
      model := model.(others := others);
    }

    method Begin(programName: string)
      requires Linked()
      modifies this`progName, this`model
      ensures Linked() && model == old(model).(progName := if old(model).progName == "" then programName else old(model).progName)
    {
      if progName == "" {
        progName := programName;
        model := model.(progName := programName);
      }
    }

    /** The argument loop. */
    method ScanWords(lookup: map<char, string>, argv: seq<string>)
      requires Linked() && Unambiguous(model.slots) && lookup == LookupOf(model.slots) && |argv| >= 1
      modifies this`errors, this`others, this`model, options.Values
      ensures Linked() && model == ApplyAll(old(model), Lex(SchemaOf(old(model).slots), argv[1..]))
    {
      ghost var p := model;
      var i := 1;
      while i < |argv|
        invariant 1 <= i <= |argv| && Linked()
        invariant ScanGoesOn(p, model, argv, i)
      {
        ghost var (q, at) := (model, i);
        if IsLong(argv[i]) {
          i := ScanLong(argv, i);
        } else if IsShort(argv[i]) {
          i := ScanShort(lookup, argv, i);
        } else {
          PositionalHead(q, argv, i);
          AddPositional(argv[i]);
          i := i + 1;
        }
        HeadThenTail(p, q, model, argv, at, i);
      }
      assert argv[i..] == [];
    }

    method ParseArgv(argv: seq<string>) returns (ok: bool)
      requires Valid()
      modifies this`errors, this`others, this`progName, this`model, options.Values
      ensures Valid()
      ensures (model, ok) == ParserSpec.ParseArgv(old(model), argv)
    {
      ParseKeeps(model, argv);
      ok := ParseLine(argv);
    }

    method ParseLine(argv: seq<string>) returns (ok: bool)
      requires Valid()
      modifies this`errors, this`others, this`progName, this`model, options.Values
      ensures Linked()
      ensures (model, ok) == ParserSpec.ParseArgv(old(model), argv)
    {
      Reset();
      if |argv| < 1 {
        NoArgumentsEnds(old(model), model);
        AddError(NO_ARGUMENTS);
        return false;
      }
      Begin(argv[0]);
      ok := IndexAndScan(argv, old(model));
    }

    method IndexAndScan(argv: seq<string>, ghost p0: ParserState) returns (ok: bool)
      requires Linked() && Consistent(p0) && |argv| >= 1
      requires model == p0.(errors := [], others := [], progName := if p0.progName == "" then argv[0] else p0.progName)
      modifies this`errors, this`others, this`model, options.Values
      ensures Linked() && (model, ok) == ParserSpec.ParseArgv(p0, argv)
    {
      ghost var p := model;
      var unambiguous, lookup := BuildLookup();
      if !unambiguous {
        ClashEnds(p0, argv, p);
        return false;
      }
      ScanEnds(p0, p, argv);
      ok := ScanAndCheck(lookup, argv);
    }

    method ScanAndCheck(lookup: map<char, string>, argv: seq<string>) returns (ok: bool)
      requires Linked() && Unambiguous(model.slots) && lookup == LookupOf(model.slots) && |argv| >= 1
      requires Consistent(ApplyAll(model, Lex(SchemaOf(model.slots), argv[1..])))
      modifies this`errors, this`others, this`model, options.Values
      ensures Linked()
      ensures var q := ApplyAll(old(model), Lex(SchemaOf(old(model).slots), argv[1..]));
              model == q.(errors := q.errors + Missing(q.slots, q.keys)) && ok == (model.errors == [])
    {
      ScanWords(lookup, argv);
      ghost var q := model;
      CheckRequired();
      RequiredEnd(q, model);
      ok := |errors| == 0;
    }

    /** Report every required option that is still unset, in name order. */
    method CheckRequired()
      requires Valid()
      modifies this`errors, this`model
      ensures Linked() && Required(old(model), model, |old(model).keys|)
    {
      ghost var p := model;
      RequiredStart(p);
      for k := 0 to |keys|
        invariant Linked() && Required(p, model, k)
      {
        RequiredStep(p, model, k);
        var valid := options[keys[k]].IsValid();
        if !valid {
          AddError(MissingOption(keys[k]));
        }
      }
    }

    method ParseVector(args: seq<string>) returns (ok: bool)
      requires Valid()
      modifies this`errors, this`others, this`progName, this`model, options.Values
      ensures Valid()
      ensures (model, ok) == ParserSpec.ParseVector(old(model), args)
    {
      var argv := CStrings(args);
      ok := ParseArgv(argv);
    }

    method ParseText(arg: string) returns (ok: bool)
      requires Valid()
      modifies this`errors, this`others, this`progName, this`model, options.Values
      ensures Valid()
      ensures (model, ok) == ParserSpec.ParseText(old(model), arg)
    {
      var r := Tokenizer.Tokenize(arg);
      match r
      case Failure(e) =>
        UntokenizedEnds(model, arg);
        AddError(e);
        return false;
      case Success(args) =>
        ok := ParseVector(args);
    }
  }

  method CStrings(args: seq<string>) returns (argv: seq<string>)
    ensures argv == CStrs(args)
  {
    argv := [];
    for i := 0 to |args|
      invariant |argv| == i && forall j :: 0 <= j < i ==> argv[j] == CStr(args[j])
    {
      argv := argv + [CStr(args[i])];
    }
  }

  /** After the word at `i` the state is moved by the events of that word. */
  ghost predicate ScannedHead(p: ParserState, q: ParserState, argv: seq<string>, i: nat, next: nat)
    requires i < |argv| && Unambiguous(p.slots)
  {
    var sc := SchemaOf(p.slots);
    var follows := if i + 1 < |argv| then Some(argv[i + 1]) else None;
    && next == (if TakesNext(sc, argv[i]) && i + 1 < |argv| then i + 2 else i + 1)
    && q == ApplyAll(p, Grammar.HeadEvents(sc, argv[i], follows))
  }

  lemma PositionalHead(p: ParserState, argv: seq<string>, i: nat)
    requires i < |argv| && Unambiguous(p.slots) && !IsLong(argv[i]) && !IsShort(argv[i])
    ensures ScannedHead(p, Apply(p, Positional(argv[i])), argv, i, i + 1)
  {
  }

  lemma EqualsHead(p: ParserState, argv: seq<string>, i: nat, name: string, val: string)
    requires i < |argv| && Unambiguous(p.slots) && argv[i] == "--" + name + "=" + val && '=' !in name
    ensures ScannedHead(p, Apply(p, SetValue(name, val)), argv, i, i + 1)
  {
    var e := OwnEvents(SchemaOf(p.slots), argv[i])[0];
    Grammar.HeadOfEqualsWord(SchemaOf(p.slots), name, val, None);
    ApplyOne(p, e);
  }

  lemma PlainHead(p: ParserState, argv: seq<string>, i: nat, name: string)
    requires i < |argv| && Unambiguous(p.slots) && argv[i] == "--" + name && '=' !in name
    ensures name !in p.slots ==> ScannedHead(p, Apply(p, Report(UndefinedLong(name))), argv, i, i + 1)
    ensures name in p.slots && p.slots[name].decl.Flag? ==> ScannedHead(p, Apply(p, SetFlag(name)), argv, i, i + 1)
    ensures name in p.slots && p.slots[name].decl.Valued? ==>
              if i + 1 < |argv| then ScannedHead(p, Apply(p, SetValue(name, argv[i + 1])), argv, i, i + 2)
              else ScannedHead(p, Apply(p, Report(NeedsValue(name))), argv, i, i + 1)
  {
    var sc := SchemaOf(p.slots);
    assert argv[i][2..] == name;
    Grammar.IndexOfAbsent(name, '=');
    var events := Grammar.HeadEvents(sc, argv[i], if i + 1 < |argv| then Some(argv[i + 1]) else None);
    assert |events| == 1 && events == [events[0]];
    ApplyOne(p, events[0]);
  }

  lemma DashHead(p: ParserState, argv: seq<string>, i: nat)
    requires i < |argv| && Unambiguous(p.slots) && argv[i] == "-"
    ensures ScannedHead(p, p, argv, i, i + 1)
  {
  }

  /** The letters in front of position `k` of the word have taken effect. */
  ghost predicate BundleDone(p: ParserState, q: ParserState, w: string, k: nat)
    requires 1 <= k <= |w| && Unambiguous(p.slots)
  {
    && q == ApplyAll(p, Letters(SchemaOf(p.slots), w[1..k]))
    && Unambiguous(q.slots) && SchemaOf(q.slots) == SchemaOf(p.slots)
  }

  lemma BundleStart(p: ParserState, w: string)
    requires |w| > 1 && Unambiguous(p.slots)
    ensures BundleDone(p, p, w, 1)
  {
  }

  lemma BundleStep(p: ParserState, q: ParserState, w: string, k: nat)
    requires 1 <= k < |w| && Unambiguous(p.slots) && BundleDone(p, q, w, k)
    ensures BundleDone(p, Apply(q, LetterEvent(SchemaOf(q.slots), w[k])), w, k + 1)
  {
    var sc := SchemaOf(p.slots);
    var e := LetterEvent(sc, w[k]);
    assert Letters(sc, w[1..k + 1]) == Letters(sc, w[1..k]) + [e];
    ApplyLast(p, Letters(sc, w[1..k]), e);
    ApplyStep(q, e);
    SchemaSame(q.slots, Apply(q, e).slots);
  }

  /** The last letter completes the word, with or without the following word. */
  lemma BundleEnd(p: ParserState, q: ParserState, argv: seq<string>, i: nat)
    requires i < |argv| && IsShort(argv[i]) && |argv[i]| > 1 && Unambiguous(p.slots)
    requires BundleDone(p, q, argv[i], |argv[i]| - 1)
    ensures var (sc, last) := (SchemaOf(p.slots), argv[i][|argv[i]| - 1]);
            if i + 1 < |argv| && ValueLetter(sc, last)
            then ScannedHead(p, Apply(q, SetValue(sc.lookup[last], argv[i + 1])), argv, i, i + 2)
            else ScannedHead(p, Apply(q, LetterEvent(sc, last)), argv, i, i + 1)
  {
    var (sc, w) := (SchemaOf(p.slots), argv[i]);
    var (front, last) := (Letters(sc, w[1..|w| - 1]), w[|w| - 1]);
    assert Letters(sc, w[1..]) == front + [LetterEvent(sc, last)];
    ApplyLast(p, front, LetterEvent(sc, last));
    if i + 1 < |argv| && ValueLetter(sc, last) {
      ApplyLast(p, front, SetValue(sc.lookup[last], argv[i + 1]));
    }
  }

  /** The first `k` options have been checked for presence. */
  ghost predicate Required(p: ParserState, q: ParserState, k: nat) {
    && Consistent(p) && k <= |p.keys|
    && q == p.(errors := q.errors)
    && q.errors + Missing(p.slots, p.keys[k..]) == p.errors + Missing(p.slots, p.keys)
  }

  lemma RequiredStart(p: ParserState)
    requires Consistent(p)
    ensures Required(p, p, 0)
  {
  }

  lemma RequiredStep(p: ParserState, q: ParserState, k: nat)
    requires Required(p, q, k) && k < |p.keys|
    ensures p.keys[k] in p.slots
    ensures Required(p, if MissingIn(p.slots[p.keys[k]]) then Apply(q, Report(MissingOption(p.keys[k]))) else q, k + 1)
  {
    var (tail, name) := (p.keys[k + 1..], p.keys[k]);
    assert name in p.keys;
    assert p.keys[k..] == [name] + tail;
    MissingCons(p.slots, name, tail);
    if MissingIn(p.slots[name]) {
      var m := [MissingOption(name)];
      assert q.errors + (m + Missing(p.slots, tail)) == (q.errors + m) + Missing(p.slots, tail);
    } else {
      assert [] + Missing(p.slots, tail) == Missing(p.slots, tail);
    }
  }

  lemma MissingCons(slots: Slots, name: string, tail: seq<string>)
    requires name in slots && forall k :: k in tail ==> k in slots
    ensures Missing(slots, [name] + tail) == (if MissingIn(slots[name]) then [MissingOption(name)] else []) + Missing(slots, tail)
  {
  }

  lemma RequiredEnd(p: ParserState, q: ParserState)
    requires Required(p, q, |p.keys|)
    ensures q == p.(errors := p.errors + Missing(p.slots, p.keys))
  {
  }

  lemma ParseKeeps(p: ParserState, argv: seq<string>)
    requires Consistent(p)
    ensures Consistent(ParserSpec.ParseArgv(p, argv).0)
  {
    if argv != [] && Unambiguous(p.slots) {
      ScannedKeeps(p, argv);
    }
  }

  lemma NoArgumentsEnds(p0: ParserState, p: ParserState)
    requires Consistent(p0) && p == p0.(errors := [], others := [])
    ensures ParserSpec.ParseArgv(p0, []) == (Apply(p, Report(NO_ARGUMENTS)), false)
  {
    assert p.errors + [NO_ARGUMENTS] == [NO_ARGUMENTS];
  }

  lemma UntokenizedEnds(p: ParserState, arg: string)
    requires Consistent(p) && Tokenizer.Tokens(arg).Failure?
    ensures var q := Apply(p, Report(Tokenizer.Tokens(arg).error));
            Consistent(q) && ParserSpec.ParseText(p, arg) == (q, false)
  {
  }

  lemma ClashEnds(p0: ParserState, argv: seq<string>, p: ParserState)
    requires Consistent(p0) && argv != [] && !Unambiguous(p0.slots)
    requires p == p0.(errors := [], others := [], progName := if p0.progName == "" then argv[0] else p0.progName)
    ensures FirstClash(p.slots, p.keys, 0).Some?
    ensures ParserSpec.ParseArgv(p0, argv) ==
            (Apply(p, Report(AmbiguousShort(FirstClash(p.slots, p.keys, 0).value))), false)
  {
    NoClashIsUnambiguous(p0.slots, p0.keys);
    var m := AmbiguousShort(FirstClash(p.slots, p.keys, 0).value);
    assert p.errors + [m] == [m];
  }

  /** From `q`, the words from index `i` on lead where all the words lead from `p`. */
  ghost predicate ScanGoesOn(p: ParserState, q: ParserState, argv: seq<string>, i: nat) {
    && 1 <= i <= |argv| && Unambiguous(p.slots) && Unambiguous(q.slots) && SchemaOf(q.slots) == SchemaOf(p.slots)
    && ApplyAll(q, Lex(SchemaOf(p.slots), argv[i..])) == ApplyAll(p, Lex(SchemaOf(p.slots), argv[1..]))
  }

  lemma HeadThenTail(p: ParserState, q: ParserState, r: ParserState, argv: seq<string>, i: nat, next: nat)
    requires ScanGoesOn(p, q, argv, i) && i < |argv| && ScannedHead(q, r, argv, i, next)
    ensures ScanGoesOn(p, r, argv, next)
  {
    var sc := SchemaOf(p.slots);
    var events := Grammar.HeadEvents(sc, argv[i], if i + 1 < |argv| then Some(argv[i + 1]) else None);
    Grammar.LexHead(sc, argv[i..]);
    assert argv[i..][next - i..] == argv[next..];
    ApplyConcat(q, events, Lex(sc, argv[next..]));
    EventsDecompose(q, events);
    SchemaSame(q.slots, r.slots);
  }

  lemma ScanEnds(p0: ParserState, p: ParserState, argv: seq<string>)
    requires Consistent(p0) && argv != [] && Unambiguous(p0.slots)
    requires p == p0.(errors := [], others := [], progName := if p0.progName == "" then argv[0] else p0.progName)
    ensures var q := ApplyAll(p, Lex(SchemaOf(p.slots), argv[1..]));
            && q == Scanned(p0, argv) && Consistent(q)
            && ParserSpec.ParseArgv(p0, argv) ==
               (q.(errors := q.errors + Missing(q.slots, q.keys)), q.errors + Missing(q.slots, q.keys) == [])
  {
    ScannedKeeps(p0, argv);
  }
}
