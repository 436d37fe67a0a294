/**
 The scanner's static half: how argument words become events, given only the
 declared names, whether each takes a value, and the short-name index.

 Option state plays no part here. `Parser.ParseArgv`, which interleaves scanning
 and setting, is proved to do what applying these events in order does.
 */
module ArgScanner {
  /** `takesValue` lists the declared names; `lookup` maps short letters to names. */
  datatype Schema = Schema(takesValue: map<string, bool>, lookup: map<char, string>)

  ghost predicate Coherent(sc: Schema) {
    forall c :: c in sc.lookup ==> sc.lookup[c] in sc.takesValue && sc.lookup[c] != ""
  }

  datatype Event =
    | SetFlag(name: string)
    | SetValue(name: string, value: string)
    | Positional(word: string)
    | Report(message: string)

  function UndefinedLong(name: string): string { "undefined option: --" + name }
  function UndefinedShort(c: char): string { "undefined short option: -" + [c] }
  function NeedsValue(name: string): string { "option needs value: --" + name }
  function Invalid(name: string, value: string): string {
    "option value is invalid: --" + name + "=" + value
  }

  predicate IsLong(w: string) { |w| >= 2 && w[0] == '-' && w[1] == '-' }
  predicate IsShort(w: string) { |w| >= 1 && w[0] == '-' && !IsLong(w) }
  predicate IsDash(w: string) { w == "-" }

  /** `strchr`: the position of the first `c` in `s`, or the length. */
  function IndexOf(s: string, c: char): (k: nat)
    ensures k <= |s| && c !in s[..k] && (k < |s| ==> s[k] == c)
  {
    if s == "" || s[0] == c then 0
    else
      var k := IndexOf(s[1..], c);
      assert s[..k + 1] == [s[0]] + s[1..][..k];
      k + 1
  }

  predicate TakesValue(sc: Schema, name: string) {
    name in sc.takesValue && sc.takesValue[name]
  }

  predicate ValueLetter(sc: Schema, c: char) {
    c in sc.lookup && TakesValue(sc, sc.lookup[c])
  }

  /** The option word to which the scanner gives the following word, if any. */
  predicate TakesNext(sc: Schema, w: string) {
    if IsLong(w) then '=' !in w[2..] && TakesValue(sc, w[2..])
    else IsShort(w) && |w| >= 2 && ValueLetter(sc, w[|w| - 1])
  }

  function Target(sc: Schema, w: string): string
    requires TakesNext(sc, w)
  {
    if IsLong(w) then w[2..] else sc.lookup[w[|w| - 1]]
  }

  /** The event of a bundled letter that is given no value. */
  function LetterEvent(sc: Schema, c: char): Event {
    if c !in sc.lookup then Report(UndefinedShort(c))
    else if ValueLetter(sc, c) then Report(NeedsValue(sc.lookup[c]))
    else SetFlag(sc.lookup[c])
  }

  function Letters(sc: Schema, cs: string): (es: seq<Event>)
    ensures |es| == |cs| && forall i :: 0 <= i < |cs| ==> es[i] == LetterEvent(sc, cs[i])
  {
    seq(|cs|, i requires 0 <= i < |cs| => LetterEvent(sc, cs[i]))
  }

  /** The letters in front of the last one of a bundle. */
  function Front(sc: Schema, w: string): seq<Event> {
    if IsLong(w) || |w| < 2 then [] else Letters(sc, w[1..|w| - 1])
  }

  /** The events of a word that is complete in itself. */
  function OwnEvents(sc: Schema, w: string): seq<Event> {
    if IsLong(w) then
      var k := IndexOf(w[2..], '=');
      if k < |w| - 2 then
        var (name, value) := (w[2..2 + k], w[3 + k..]);
        if name !in sc.takesValue then [Report(UndefinedLong(name))]
        else if TakesValue(sc, name) then [SetValue(name, value)]
        else [Report(Invalid(name, value))]
      else if w[2..] !in sc.takesValue then [Report(UndefinedLong(w[2..]))]
      else [SetFlag(w[2..])]
    else if IsShort(w) then Letters(sc, w[1..])
    else [Positional(w)]
  }

  /** The pure lexer. */
  function Lex(sc: Schema, ws: seq<string>): seq<Event> {
    if ws == [] then []
    else if !TakesNext(sc, ws[0]) then OwnEvents(sc, ws[0]) + Lex(sc, ws[1..])
    else if |ws| == 1 then Front(sc, ws[0]) + [Report(NeedsValue(Target(sc, ws[0])))]
    else Front(sc, ws[0]) + [SetValue(Target(sc, ws[0]), ws[1])] + Lex(sc, ws[2..])
  }

  // ----- Composition -----

  /** The last word is an option word still awaiting its value. */
  predicate AwaitsValue(sc: Schema, ws: seq<string>) {
    if ws == [] then false
    else if !TakesNext(sc, ws[0]) then AwaitsValue(sc, ws[1..])
    else |ws| == 1 || AwaitsValue(sc, ws[2..])
  }

  /** Scanning composes exactly when the first part leaves no word open. */
  lemma {:induction false} LexComposes(sc: Schema, a: seq<string>, b: seq<string>)
    ensures Lex(sc, a + b) == Lex(sc, a) + Lex(sc, b) <==> b == [] || !AwaitsValue(sc, a)
    decreases |a|
  {
    if b == [] {
      assert a + b == a;
    } else if a == [] {
      assert a + b == b;
    } else if !TakesNext(sc, a[0]) {
      var own := OwnEvents(sc, a[0]);
      assert (a + b)[1..] == a[1..] + b;
      LexComposes(sc, a[1..], b);
      Cancel(own, Lex(sc, a[1..] + b), Lex(sc, a[1..]), Lex(sc, b));
    } else if |a| == 1 {
      var n := |Front(sc, a[0])|;
      assert (a + b)[0] == a[0];
      assert Lex(sc, a + b)[n] == SetValue(Target(sc, a[0]), b[0]);
      assert (Lex(sc, a) + Lex(sc, b))[n] == Report(NeedsValue(Target(sc, a[0])));
    } else {
      var own := Front(sc, a[0]) + [SetValue(Target(sc, a[0]), a[1])];
      assert (a + b)[2..] == a[2..] + b;
      LexComposes(sc, a[2..], b);
      Cancel(own, Lex(sc, a[2..] + b), Lex(sc, a[2..]), Lex(sc, b));
    }
  }

  lemma Cancel<T>(p: seq<T>, ab: seq<T>, a: seq<T>, b: seq<T>)
    ensures p + ab == p + a + b <==> ab == a + b
  {
    assert p + a + b == p + (a + b);
    assert (p + ab)[|p|..] == ab && (p + (a + b))[|p|..] == a + b;
  }

  // ----- Bundles -----

  function Singles(cs: string): seq<string> {
    if cs == "" then [] else ["-" + [cs[0]]] + Singles(cs[1..])
  }

  /** One step of the lexer, for a word in front of the rest. */
  lemma LexStep(sc: Schema, w: string, rest: seq<string>)
    ensures Lex(sc, [w] + rest) ==
            if !TakesNext(sc, w) then OwnEvents(sc, w) + Lex(sc, rest)
            else if rest == [] then Front(sc, w) + [Report(NeedsValue(Target(sc, w)))]
            else Front(sc, w) + [SetValue(Target(sc, w), rest[0])] + Lex(sc, rest[1..])
  {
    var ws := [w] + rest;
    assert ws[1..] == rest;
    assert rest != [] ==> ws[2..] == rest[1..] && ws[1] == rest[0];
  }

  lemma BundleWord(sc: Schema, cs: string)
    requires cs != "" && cs[0] != '-'
    ensures var (w, c) := ("-" + cs, cs[|cs| - 1]);
            && !IsLong(w) && IsShort(w) && (TakesNext(sc, w) <==> ValueLetter(sc, c))
            && OwnEvents(sc, w) == Letters(sc, cs) && Front(sc, w) == Letters(sc, cs[..|cs| - 1])
            && (TakesNext(sc, w) ==> Target(sc, w) == sc.lookup[c])
  {
  }

  /** What the last letter of a bundle in front of `rest`, and `rest`, contribute. */
  function LastEvents(sc: Schema, c: char, rest: seq<string>): seq<Event> {
    if !ValueLetter(sc, c) then [LetterEvent(sc, c)] + Lex(sc, rest)
    else if rest == [] then [Report(NeedsValue(sc.lookup[c]))]
    else [SetValue(sc.lookup[c], rest[0])] + Lex(sc, rest[1..])
  }

  function BundleEvents(sc: Schema, cs: string, rest: seq<string>): seq<Event>
    requires cs != ""
  {
    Letters(sc, cs[..|cs| - 1]) + LastEvents(sc, cs[|cs| - 1], rest)
  }

  lemma BundleLex(sc: Schema, cs: string, rest: seq<string>)
    requires cs != "" && cs[0] != '-'
    ensures Lex(sc, ["-" + cs] + rest) == BundleEvents(sc, cs, rest)
  {
    BundleWord(sc, cs);
    LexStep(sc, "-" + cs, rest);
    var (front, c) := (Letters(sc, cs[..|cs| - 1]), cs[|cs| - 1]);
    if !ValueLetter(sc, c) {
      LettersLast(sc, cs);
      Regroup(front, [LetterEvent(sc, c)], Lex(sc, rest));
    } else if rest != [] {
      Regroup(front, [SetValue(sc.lookup[c], rest[0])], Lex(sc, rest[1..]));
    }
  }

  lemma Regroup<T>(a: seq<T>, b: seq<T>, c: seq<T>)
    ensures a + b + c == a + (b + c)
  {
  }

  lemma LettersLast(sc: Schema, cs: string)
    requires cs != ""
    ensures Letters(sc, cs) == Letters(sc, cs[..|cs| - 1]) + [LetterEvent(sc, cs[|cs| - 1])]
  {
  }

  lemma LettersHead(sc: Schema, cs: string)
    requires cs != ""
    ensures Letters(sc, cs) == [LetterEvent(sc, cs[0])] + Letters(sc, cs[1..])
  {
  }

  lemma BundleGrows(sc: Schema, cs: string, rest: seq<string>)
    requires |cs| > 1
    ensures BundleEvents(sc, cs, rest) == [LetterEvent(sc, cs[0])] + BundleEvents(sc, cs[1..], rest)
  {
    var (front, last) := (cs[..|cs| - 1], LastEvents(sc, cs[|cs| - 1], rest));
    assert front[1..] == cs[1..][..|cs| - 2];
    LettersHead(sc, front);
    Regroup([LetterEvent(sc, cs[0])], Letters(sc, front[1..]), last);
  }

  /** `-xyz` means what `-x -y -z` means, the last letter's value included. */
  lemma {:induction false} BundleIsSingles(sc: Schema, cs: string, rest: seq<string>)
    requires cs != "" && '-' !in cs
    requires forall i :: 0 <= i < |cs| - 1 ==> !ValueLetter(sc, cs[i])
    ensures Lex(sc, ["-" + cs] + rest) == Lex(sc, Singles(cs) + rest)
    decreases |cs|
  {
    if |cs| == 1 {
      assert cs == [cs[0]] && Singles(cs) == ["-" + cs];
    } else {
      var one, tail := [cs[0]], cs[1..];
      var more := Singles(tail) + rest;
      calc {
        Lex(sc, Singles(cs) + rest);
        { assert Singles(cs) + rest == ["-" + one] + more; }
        Lex(sc, ["-" + one] + more);
        { BundleLex(sc, one, more); }
        BundleEvents(sc, one, more);
        { assert Letters(sc, one[..0]) == []; }
        [LetterEvent(sc, cs[0])] + Lex(sc, more);
        { BundleIsSingles(sc, tail, rest); }
        [LetterEvent(sc, cs[0])] + Lex(sc, ["-" + tail] + rest);
        { BundleLex(sc, tail, rest); }
        [LetterEvent(sc, cs[0])] + BundleEvents(sc, tail, rest);
        { BundleGrows(sc, cs, rest); }
        BundleEvents(sc, cs, rest);
        { BundleLex(sc, cs, rest); }
        Lex(sc, ["-" + cs] + rest);
      }
    }
  }

  // ----- The role of every word -----

  datatype Role = OptionWord | ConsumedValue | PositionalWord | IgnoredDash

  function RoleByShape(w: string): Role {
    if IsDash(w) then IgnoredDash else if w != "" && w[0] == '-' then OptionWord else PositionalWord
  }

  function Roles(sc: Schema, ws: seq<string>): (rs: seq<Role>)
    ensures |rs| == |ws|
  {
    if ws == [] then []
    else if TakesNext(sc, ws[0]) && |ws| > 1 then [OptionWord, ConsumedValue] + Roles(sc, ws[2..])
    else [RoleByShape(ws[0])] + Roles(sc, ws[1..])
  }

  /** A local description: a word is consumed exactly when the word before it is an
      option word that takes it; any other word has the role its shape gives. */
  predicate RoleFitsAt(sc: Schema, ws: seq<string>, rs: seq<Role>, i: nat)
    requires |rs| == |ws| && i < |ws|
  {
    rs[i] == if i > 0 && rs[i - 1] == OptionWord && TakesNext(sc, ws[i - 1]) then ConsumedValue
             else RoleByShape(ws[i])
  }

  ghost predicate RolesFit(sc: Schema, ws: seq<string>, rs: seq<Role>) {
    |rs| == |ws| && forall i :: 0 <= i < |ws| ==> RoleFitsAt(sc, ws, rs, i)
  }

  /** Fitting is decided separately in front of and behind a word boundary. */
  lemma FitSplits(sc: Schema, ws: seq<string>, rs: seq<Role>, k: nat)
    requires |rs| == |ws| && 0 < k <= |ws|
    requires !(rs[k - 1] == OptionWord && TakesNext(sc, ws[k - 1])) || k == |ws|
    ensures RolesFit(sc, ws, rs) <==>
            RolesFit(sc, ws[k..], rs[k..]) && forall i :: 0 <= i < k ==> RoleFitsAt(sc, ws, rs, i)
  {
    forall i | 0 <= i < |ws| - k
      ensures RoleFitsAt(sc, ws[k..], rs[k..], i) <==> RoleFitsAt(sc, ws, rs, i + k)
    {
      if i > 0 {
        assert rs[k..][i - 1] == rs[i + k - 1] && ws[k..][i - 1] == ws[i + k - 1];
      }
    }
    assert forall i :: k <= i < |ws| ==>
             (RoleFitsAt(sc, ws, rs, i) <==> RoleFitsAt(sc, ws[k..], rs[k..], i - k));
  }

  /** Every word has exactly one role: the assignment exists and is unique. */
  lemma {:induction false} RolesAreUnique(sc: Schema, ws: seq<string>, rs: seq<Role>)
    ensures RolesFit(sc, ws, rs) <==> rs == Roles(sc, ws)
    decreases |ws|
  {
    var own := Roles(sc, ws);
    if ws != [] && |rs| == |ws| {
      var k := if TakesNext(sc, ws[0]) && |ws| > 1 then 2 else 1;
      assert own[k..] == Roles(sc, ws[k..]);
      RolesAreUnique(sc, ws[k..], own[k..]);
      RolesAreUnique(sc, ws[k..], rs[k..]);
      FitSplits(sc, ws, own, k);
      assert RoleFitsAt(sc, ws, own, 0) && (k == 2 ==> RoleFitsAt(sc, ws, own, 1));
      assert rs == rs[..k] + rs[k..] && own == own[..k] + own[k..];
      if RolesFit(sc, ws, rs) {
        assert RoleFitsAt(sc, ws, rs, 0) && (k == 2 ==> RoleFitsAt(sc, ws, rs, 1));
        FitSplits(sc, ws, rs, k);
      }
    }
  }

  /** The words standing at the given role, in order. */
  function WordsWith(ws: seq<string>, rs: seq<Role>, r: Role): seq<string>
    requires |ws| == |rs|
  {
    if ws == [] then []
    else (if rs[0] == r then [ws[0]] else []) + WordsWith(ws[1..], rs[1..], r)
  }

  function Positionals(es: seq<Event>): seq<string> {
    if es == [] then []
    else (if es[0].Positional? then [es[0].word] else []) + Positionals(es[1..])
  }

  lemma {:induction false} PositionalsOfConcat(a: seq<Event>, b: seq<Event>)
    ensures Positionals(a + b) == Positionals(a) + Positionals(b)
  {
    if a == [] {
      assert a + b == b;
    } else {
      assert (a + b)[1..] == a[1..] + b;
      PositionalsOfConcat(a[1..], b);
    }
  }

  lemma {:induction false} NoPositionals(es: seq<Event>)
    requires forall e :: e in es ==> !e.Positional?
    ensures Positionals(es) == []
  {
    if es != [] {
      NoPositionals(es[1..]);
    }
  }

  /** A step over `k` words, one of them positional at most, and then the rest. */
  lemma WordsStep(ws: seq<string>, rs: seq<Role>, k: nat)
    requires |ws| == |rs| >= k && (k == 1 || (k == 2 && rs[1] != PositionalWord && rs[0] != PositionalWord))
    ensures WordsWith(ws, rs, PositionalWord) ==
            (if rs[0] == PositionalWord then [ws[0]] else []) + WordsWith(ws[k..], rs[k..], PositionalWord)
  {
  }

  /** The positional events are the positional words, in order. */
  lemma {:induction false} PositionalsAreWords(sc: Schema, ws: seq<string>)
    ensures Positionals(Lex(sc, ws)) == WordsWith(ws, Roles(sc, ws), PositionalWord)
    decreases |ws|
  {
    if ws != [] {
      var w, rs := ws[0], Roles(sc, ws);
      var k := if TakesNext(sc, w) && |ws| > 1 then 2 else 1;
      assert rs[k..] == Roles(sc, ws[k..]);
      WordsStep(ws, rs, k);
      PositionalsAreWords(sc, ws[k..]);
      if TakesNext(sc, w) {
        var own := Front(sc, w) + [if |ws| == 1 then Report(NeedsValue(Target(sc, w))) else SetValue(Target(sc, w), ws[1])];
        NoPositionals(own);
        PositionalsOfConcat(own, Lex(sc, ws[k..]));
        assert Lex(sc, ws) == own + Lex(sc, ws[k..]);
      } else {
        OwnPositionals(sc, w);
        PositionalsOfConcat(OwnEvents(sc, w), Lex(sc, ws[1..]));
      }
    }
  }

  lemma OwnPositionals(sc: Schema, w: string)
    requires !TakesNext(sc, w)
    ensures Positionals(OwnEvents(sc, w)) == if RoleByShape(w) == PositionalWord then [w] else []
  {
    if RoleByShape(w) != PositionalWord {
      NoPositionals(OwnEvents(sc, w));
    } else {
      assert [Positional(w)][1..] == [];
    }
  }
}
