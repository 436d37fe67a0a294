/**
 The command lines the scanner accepts, as a grammar: a line is a list of items,
 each written as one or two words.

 `Derive` finds the items of a line. It is the inverse of `Render` on well-formed
 items, it fails exactly when the lexer reports an error, and the lexer's events
 are the items' meanings.
 */
module Grammar {
  import opened Wrappers
  import opened ArgScanner

  datatype Item =
    | EqualsForm(name: string, value: string)                    // --name=value
    | SpaceForm(name: string, value: string)                     // --name value
    | LongFlag(name: string)                                     // --name
    | Bundle(letters: string)                                    // -abc
    | BundleValue(letters: string, last: char, value: string)    // -abc value
    | Word(word: string)
    | Dash

  predicate FlagLetter(sc: Schema, c: char) {
    c in sc.lookup && !ValueLetter(sc, c)
  }

  predicate FlagLetters(sc: Schema, cs: string) {
    forall i :: 0 <= i < |cs| ==> FlagLetter(sc, cs[i])
  }

  predicate WellFormed(sc: Schema, it: Item) {
    match it
    case EqualsForm(n, _) => '=' !in n && TakesValue(sc, n)
    case SpaceForm(n, _) => '=' !in n && TakesValue(sc, n)
    case LongFlag(n) => '=' !in n && n in sc.takesValue && !TakesValue(sc, n)
    case Bundle(cs) => cs != "" && cs[0] != '-' && FlagLetters(sc, cs)
    case BundleValue(cs, c, _) => (cs + [c])[0] != '-' && FlagLetters(sc, cs) && ValueLetter(sc, c)
    case Word(w) => w == "" || w[0] != '-'
    case Dash => true
  }

  predicate AllWellFormed(sc: Schema, items: seq<Item>) {
    forall i :: 0 <= i < |items| ==> WellFormed(sc, items[i])
  }

  /** How an item is written. */
  function Words(it: Item): seq<string> {
    match it
    case EqualsForm(n, v) => ["--" + n + "=" + v]
    case SpaceForm(n, v) => ["--" + n, v]
    case LongFlag(n) => ["--" + n]
    case Bundle(cs) => ["-" + cs]
    case BundleValue(cs, c, v) => ["-" + cs + [c], v]
    case Word(w) => [w]
    case Dash => ["-"]
  }

  function Render(items: seq<Item>): seq<string> {
    if items == [] then [] else Words(items[0]) + Render(items[1..])
  }

  function Flags(sc: Schema, cs: string): (es: seq<Event>)
    requires FlagLetters(sc, cs)
  {
    seq(|cs|, i requires 0 <= i < |cs| => SetFlag(sc.lookup[cs[i]]))
  }

  /** What an item asks for. */
  function Meaning(sc: Schema, it: Item): seq<Event>
    requires WellFormed(sc, it)
  {
    match it
    case EqualsForm(n, v) => [SetValue(n, v)]
    case SpaceForm(n, v) => [SetValue(n, v)]
    case LongFlag(n) => [SetFlag(n)]
    case Bundle(cs) => Flags(sc, cs)
    case BundleValue(cs, c, v) => Flags(sc, cs) + [SetValue(sc.lookup[c], v)]
    case Word(w) => [Positional(w)]
    case Dash => []
  }

  function Meanings(sc: Schema, items: seq<Item>): seq<Event>
    requires AllWellFormed(sc, items)
  {
    if items == [] then [] else Meaning(sc, items[0]) + Meanings(sc, items[1..])
  }

  // ----- Finding the items of a line -----

  function HeadItem(sc: Schema, w: string, next: Option<string>): Option<Item> {
    if IsLong(w) then
      var k := IndexOf(w[2..], '=');
      if k < |w| - 2 then
        if TakesValue(sc, w[2..2 + k]) then Some(EqualsForm(w[2..2 + k], w[3 + k..])) else None
      else if TakesValue(sc, w[2..]) then
        if next.Some? then Some(SpaceForm(w[2..], next.value)) else None
      else if w[2..] in sc.takesValue then Some(LongFlag(w[2..])) else None
    else if IsDash(w) then Some(Dash)
    else if IsShort(w) then
      var (cs, c) := (w[1..|w| - 1], w[|w| - 1]);
      if !FlagLetters(sc, cs) || c !in sc.lookup then None
      else if !ValueLetter(sc, c) then Some(Bundle(w[1..]))
      else if next.Some? then Some(BundleValue(cs, c, next.value)) else None
    else Some(Word(w))
  }

  function Derive(sc: Schema, ws: seq<string>): Option<seq<Item>> {
    if ws == [] then Some([])
    else
      var next := if |ws| > 1 then Some(ws[1]) else None;
      var head := HeadItem(sc, ws[0], next);
      if head.None? then None
      else
        var k := if TakesNext(sc, ws[0]) && |ws| > 1 then 2 else 1;
        var tail := Derive(sc, ws[k..]);
        if tail.None? then None else Some([head.value] + tail.value)
  }

  ghost predicate Clean(es: seq<Event>) {
    forall i :: 0 <= i < |es| ==> !es[i].Report?
  }

  lemma {:induction false} IndexOfFirst(n: string, c: char, v: string)
    requires c !in n
    ensures IndexOf(n + [c] + v, c) == |n|
  {
    var s := n + [c] + v;
    if n != "" {
      assert s[1..] == n[1..] + [c] + v;
      IndexOfFirst(n[1..], c, v);
    }
  }

  lemma {:induction false} IndexOfAbsent(n: string, c: char)
    ensures IndexOf(n, c) == |n| <==> c !in n
  {
  }

  lemma HeadOfLongWord(sc: Schema, n: string, next: Option<string>)
    requires '=' !in n
    ensures var w := "--" + n;
            && (TakesNext(sc, w) <==> TakesValue(sc, n))
            && HeadItem(sc, w, next) ==
               if TakesValue(sc, n) then if next.Some? then Some(SpaceForm(n, next.value)) else None
               else if n in sc.takesValue then Some(LongFlag(n)) else None
  {
  }

  lemma HeadOfEqualsWord(sc: Schema, n: string, v: string, next: Option<string>)
    requires '=' !in n
    ensures var w := "--" + n + "=" + v;
            && !TakesNext(sc, w)
            && HeadItem(sc, w, next) == (if TakesValue(sc, n) then Some(EqualsForm(n, v)) else None)
            && OwnEvents(sc, w) == [if n !in sc.takesValue then Report(UndefinedLong(n))
                                    else if TakesValue(sc, n) then SetValue(n, v) else Report(Invalid(n, v))]
  {
    var w := "--" + n + "=" + v;
    assert w[2..] == n + "=" + v && w[2..2 + |n|] == n && w[3 + |n|..] == v;
    IndexOfFirst(n, '=', v);
    assert w[2..][|n|] == '=';
  }

  lemma HeadOfShortWord(sc: Schema, cs: string, c: char, next: Option<string>)
    requires (cs + [c])[0] != '-'
    ensures var w := "-" + cs + [c];
            && (TakesNext(sc, w) <==> ValueLetter(sc, c))
            && HeadItem(sc, w, next) ==
               if !FlagLetters(sc, cs) || c !in sc.lookup then None
               else if !ValueLetter(sc, c) then Some(Bundle(cs + [c]))
               else if next.Some? then Some(BundleValue(cs, c, next.value)) else None
  {
    var w := "-" + cs + [c];
    assert w[1..] == cs + [c] && w[1..|w| - 1] == cs;
  }

  /** The first word of a well-formed item gives the item back. */
  lemma HeadOfWords(sc: Schema, it: Item, next: Option<string>)
    requires WellFormed(sc, it)
    requires |Words(it)| == 2 ==> next == Some(Words(it)[1])
    ensures HeadItem(sc, Words(it)[0], next) == Some(it)
    ensures TakesNext(sc, Words(it)[0]) <==> |Words(it)| == 2
  {
    match it
    case EqualsForm(n, v) => HeadOfEqualsWord(sc, n, v, next);
    case SpaceForm(n, _) => HeadOfLongWord(sc, n, next);
    case LongFlag(n) => HeadOfLongWord(sc, n, next);
    case Bundle(cs) =>
      var (front, c) := (cs[..|cs| - 1], cs[|cs| - 1]);
      assert cs == front + [c] && "-" + cs == "-" + front + [c];
      assert FlagLetter(sc, c);
      HeadOfShortWord(sc, front, c, next);
    case BundleValue(cs, c, _) => HeadOfShortWord(sc, cs, c, next);
    case Word(_) =>
    case Dash =>
  }

  /** Rendering and deriving: the grammar is unambiguous. */
  lemma {:induction false} DeriveOfRender(sc: Schema, items: seq<Item>)
    requires AllWellFormed(sc, items)
    ensures Derive(sc, Render(items)) == Some(items)
  {
    if items != [] {
      var it, ws := items[0], Render(items);
      DeriveOfRender(sc, items[1..]);
      HeadOfWords(sc, it, if |ws| > 1 then Some(ws[1]) else None);
      assert ws[|Words(it)|..] == Render(items[1..]);
      assert items == [it] + items[1..];
    }
  }

  /** What the lexer makes of the first word of a line. */
  function HeadEvents(sc: Schema, w: string, next: Option<string>): seq<Event> {
    if !TakesNext(sc, w) then OwnEvents(sc, w)
    else Front(sc, w) + [if next.None? then Report(NeedsValue(Target(sc, w))) else SetValue(Target(sc, w), next.value)]
  }

  lemma LettersOfFlags(sc: Schema, cs: string)
    ensures Clean(Letters(sc, cs)) <==> FlagLetters(sc, cs)
    ensures FlagLetters(sc, cs) ==> Letters(sc, cs) == Flags(sc, cs)
  {
  }

  lemma CleanConcat(a: seq<Event>, b: seq<Event>)
    ensures Clean(a + b) <==> Clean(a) && Clean(b)
  {
    if Clean(a + b) {
      assert forall i :: 0 <= i < |a| ==> (a + b)[i] == a[i];
      assert forall i :: 0 <= i < |b| ==> (a + b)[|a| + i] == b[i];
    }
  }

  function LastEvent(sc: Schema, c: char, next: Option<string>): Event {
    if !ValueLetter(sc, c) then LetterEvent(sc, c)
    else if next.None? then Report(NeedsValue(sc.lookup[c])) else SetValue(sc.lookup[c], next.value)
  }

  lemma ShortEvents(sc: Schema, cs: string, c: char, next: Option<string>)
    requires (cs + [c])[0] != '-'
    ensures HeadEvents(sc, "-" + cs + [c], next) == Letters(sc, cs) + [LastEvent(sc, c, next)]
  {
  }

  /** The item found at the head of a line is the one its events stand for. */
  ghost predicate HeadSound(sc: Schema, w: string, next: Option<string>) {
    var (h, es) := (HeadItem(sc, w, next), HeadEvents(sc, w, next));
    && (h.Some? ==> && WellFormed(sc, h.value) && es == Meaning(sc, h.value)
                    && Words(h.value) == if TakesNext(sc, w) && next.Some? then [w, next.value] else [w])
    && (h.Some? <==> Clean(es))
  }

  lemma CleanOne(e: Event)
    ensures Clean([e]) <==> !e.Report?
  {
    assert [e][0] == e;
  }

  lemma LongIsSound(sc: Schema, n: string, next: Option<string>)
    requires '=' !in n
    ensures HeadSound(sc, "--" + n, next)
  {
    var w := "--" + n;
    assert w[2..] == n;
    IndexOfAbsent(n, '=');
    HeadOfLongWord(sc, n, next);
    var es := HeadEvents(sc, w, next);
    assert es == [es[0]];
    CleanOne(es[0]);
  }

  lemma EqualsIsSound(sc: Schema, n: string, v: string, next: Option<string>)
    requires '=' !in n
    ensures HeadSound(sc, "--" + n + "=" + v, next)
  {
    HeadOfEqualsWord(sc, n, v, next);
    CleanOne(HeadEvents(sc, "--" + n + "=" + v, next)[0]);
  }

  lemma FlagsGrow(sc: Schema, cs: string, c: char)
    requires FlagLetters(sc, cs) && FlagLetter(sc, c)
    ensures FlagLetters(sc, cs + [c]) && Flags(sc, cs + [c]) == Flags(sc, cs) + [SetFlag(sc.lookup[c])]
  {
  }

  lemma ShortIsSound(sc: Schema, cs: string, c: char, next: Option<string>)
    requires (cs + [c])[0] != '-'
    ensures HeadSound(sc, "-" + cs + [c], next)
  {
    HeadOfShortWord(sc, cs, c, next);
    ShortEvents(sc, cs, c, next);
    LettersOfFlags(sc, cs);
    var last := LastEvent(sc, c, next);
    assert [last][0] == last;
    CleanConcat(Letters(sc, cs), [last]);
    if FlagLetters(sc, cs) && FlagLetter(sc, c) {
      assert "-" + cs + [c] == "-" + (cs + [c]);
      FlagsGrow(sc, cs, c);
    }
  }

  lemma HeadIsSound(sc: Schema, w: string, next: Option<string>)
    ensures HeadSound(sc, w, next)
  {
    if IsLong(w) {
      var k := IndexOf(w[2..], '=');
      if k < |w| - 2 {
        assert w == "--" + w[2..2 + k] + "=" + w[3 + k..] && w[2..][..k] == w[2..2 + k];
        EqualsIsSound(sc, w[2..2 + k], w[3 + k..], next);
      } else {
        assert w == "--" + w[2..] && w[2..][..k] == w[2..];
        LongIsSound(sc, w[2..], next);
      }
    } else if IsShort(w) && !IsDash(w) {
      assert w[1..|w| - 1] + [w[|w| - 1]] == w[1..];
      assert w == "-" + w[1..|w| - 1] + [w[|w| - 1]];
      ShortIsSound(sc, w[1..|w| - 1], w[|w| - 1], next);
    } else {
      assert IsDash(w) ==> w[1..] == "";
    }
  }

  lemma LexHead(sc: Schema, ws: seq<string>)
    requires ws != []
    ensures var k := if TakesNext(sc, ws[0]) && |ws| > 1 then 2 else 1;
            Lex(sc, ws) == HeadEvents(sc, ws[0], if |ws| > 1 then Some(ws[1]) else None) + Lex(sc, ws[k..])
  {
  }

  function Cons(head: Option<Item>, tail: Option<seq<Item>>): Option<seq<Item>> {
    if head.Some? && tail.Some? then Some([head.value] + tail.value) else None
  }

  lemma DeriveHead(sc: Schema, ws: seq<string>)
    requires ws != []
    ensures var k := if TakesNext(sc, ws[0]) && |ws| > 1 then 2 else 1;
            Derive(sc, ws) == Cons(HeadItem(sc, ws[0], if |ws| > 1 then Some(ws[1]) else None), Derive(sc, ws[k..]))
  {
  }

  /** The items found, if any, spell the words and stand for the events; there are none
      exactly when the events hold a report. */
  ghost predicate Sound(sc: Schema, d: Option<seq<Item>>, ws: seq<string>, es: seq<Event>) {
    && (d.Some? <==> Clean(es))
    && (d.Some? ==> AllWellFormed(sc, d.value) && Render(d.value) == ws && es == Meanings(sc, d.value))
  }

  /** A sound head and a sound tail make a sound derivation. */
  lemma ConsItem(sc: Schema, head: Option<Item>, first: seq<string>, events: seq<Event>,
                 tail: Option<seq<Item>>, rest: seq<string>, later: seq<Event>)
    requires head.Some? <==> Clean(events)
    requires head.Some? ==> WellFormed(sc, head.value) && events == Meaning(sc, head.value) && Words(head.value) == first
    requires Sound(sc, tail, rest, later)
    ensures Sound(sc, Cons(head, tail), first + rest, events + later)
  {
    CleanConcat(events, later);
    if head.Some? && tail.Some? {
      assert ([head.value] + tail.value)[1..] == tail.value;
    }
  }

  /** Derivation is sound and complete: it succeeds exactly on the lines that draw
      no report, its items spell the line, and their meanings are the events. */
  lemma {:induction false} DeriveIsSound(sc: Schema, ws: seq<string>)
    ensures Derive(sc, ws).Some? <==> Clean(Lex(sc, ws))
    ensures var d := Derive(sc, ws);
            d.Some? ==> AllWellFormed(sc, d.value) && Render(d.value) == ws && Lex(sc, ws) == Meanings(sc, d.value)
    decreases |ws|
  {
    if ws != [] {
      var next := if |ws| > 1 then Some(ws[1]) else None;
      var k := if TakesNext(sc, ws[0]) && |ws| > 1 then 2 else 1;
      LexHead(sc, ws);
      DeriveHead(sc, ws);
      HeadIsSound(sc, ws[0], next);
      DeriveIsSound(sc, ws[k..]);
      assert ws == ws[..k] + ws[k..];
      ConsItem(sc, HeadItem(sc, ws[0], next), ws[..k], HeadEvents(sc, ws[0], next),
               Derive(sc, ws[k..]), ws[k..], Lex(sc, ws[k..]));
    }
  }

  /** A rendered line lexes to the meanings of its items. */
  lemma LexOfRender(sc: Schema, items: seq<Item>)
    requires AllWellFormed(sc, items)
    ensures Lex(sc, Render(items)) == Meanings(sc, items) && Clean(Lex(sc, Render(items)))
  {
    DeriveOfRender(sc, items);
    DeriveIsSound(sc, Render(items));
  }
}
