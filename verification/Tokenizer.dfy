/**
 The string form of `parser::parse`: a character loop with quote, escape and
 space handling that cuts one string into argument words.

 `Tokenize` is the loop. `Fields` is the recursive automaton it refines, and the
 lemmas say what the automaton means in terms of positions in the input: which
 quotes and spaces are active, when the scan fails, where it cuts, and that
 quoting a list of words is undone by tokenizing.
 */
module Tokenizer {
  import opened Wrappers

  const DANGLING := "unexpected occurrence of '\\' at end of string"
  const UNCLOSED := "quote is not closed"

  /** Put already finished fields in front of the outcome of the remaining scan. */
  function Prepend(done: seq<string>, r: Result<seq<string>>): Result<seq<string>> {
    match r
    case Success(fs) => Success(done + fs)
    case Failure(e) => Failure(e)
  }

  /** All fields of `s`, the last one kept even when it is empty. */
  function Fields(s: string, inQuote: bool, buf: string): (r: Result<seq<string>>)
    ensures r.Success? ==> |r.value| > 0
    decreases |s|
  {
    if s == "" then
      if inQuote then Failure(UNCLOSED) else Success([buf])
    else if s[0] == '\"' then Fields(s[1..], !inQuote, buf)
    else if s[0] == ' ' && !inQuote then Prepend([buf], Fields(s[1..], false, ""))
    else if s[0] == '\\' then
      if |s| == 1 then Failure(DANGLING) else Fields(s[2..], inQuote, buf + [s[1]])
    else Fields(s[1..], inQuote, buf + [s[0]])
  }

  /** The last field is dropped when it is empty; inner empty fields stay. */
  function DropEmptyLast(fs: seq<string>): seq<string> {
    if fs != [] && fs[|fs| - 1] == "" then fs[..|fs| - 1] else fs
  }

  function Finish(r: Result<seq<string>>): Result<seq<string>> {
    match r
    case Success(fs) => Success(DropEmptyLast(fs))
    case Failure(e) => Failure(e)
  }

  function Tokens(s: string): Result<seq<string>> {
    Finish(Fields(s, false, ""))
  }

  method Tokenize(arg: string) returns (r: Result<seq<string>>)
    ensures r == Tokens(arg)
  {
    var args: seq<string>, buf, inQuote, i := [], "", false, 0;
    assert arg[0..] == arg && forall fs: seq<string> {:trigger args + fs} :: args + fs == fs;
    while i < |arg|
      invariant i <= |arg|
      invariant Fields(arg, false, "") == Prepend(args, Fields(arg[i..], inQuote, buf))
    {
      if arg[i] == '\"' {
        inQuote := !inQuote;
        i := i + 1;
        continue;
      }
      if arg[i] == ' ' && !inQuote {
        assert forall fs: seq<string> {:trigger [buf] + fs} :: args + ([buf] + fs) == args + [buf] + fs;
        args := args + [buf];
        buf := "";
        i := i + 1;
        continue;
      }
      if arg[i] == '\\' {
        i := i + 1;
        if i >= |arg| {
          return Failure(DANGLING);
        }
        assert arg[i - 1..][2..] == arg[i + 1..];
      }
      buf := buf + [arg[i]];
      i := i + 1;
    }
    if inQuote {
      return Failure(UNCLOSED);
    }
    assert DropEmptyLast(args + [buf]) == if |buf| > 0 then args + [buf] else args;
    if |buf| > 0 {
      args := args + [buf];
    }
    return Success(args);
  }

  // ----- What the automaton means: positions in the input -----

  /** How many backslashes stand directly before position `i`. */
  function BackslashRun(s: string, i: nat): nat
    requires i <= |s|
  {
    if i == 0 || s[i - 1] != '\\' then 0 else 1 + BackslashRun(s, i - 1)
  }

  predicate Escaped(s: string, i: nat)
    requires i <= |s|
  {
    BackslashRun(s, i) % 2 == 1
  }

  /** The number of unescaped quotes before position `i`. */
  function QuotesBefore(s: string, i: nat): nat
    requires i <= |s|
  {
    if i == 0 then 0
    else QuotesBefore(s, i - 1) + if s[i - 1] == '\"' && !Escaped(s, i - 1) then 1 else 0
  }

  predicate InQuote(s: string, i: nat)
    requires i <= |s|
  {
    QuotesBefore(s, i) % 2 == 1
  }

  /** A space that cuts: neither escaped nor between quotes. */
  predicate Separator(s: string, i: nat)
    requires i < |s|
  {
    s[i] == ' ' && !Escaped(s, i) && !InQuote(s, i)
  }

  /** An escaped character is neither a quote nor does it escape the next. */
  lemma PastEscape(s: string, i: nat)
    requires i + 1 < |s| && s[i] == '\\' && !Escaped(s, i)
    ensures !Escaped(s, i + 2) && QuotesBefore(s, i + 2) == QuotesBefore(s, i)
  {
    assert BackslashRun(s, i + 1) == BackslashRun(s, i) + 1;
    assert QuotesBefore(s, i + 1) == QuotesBefore(s, i);
  }

  lemma PastPlain(s: string, i: nat)
    requires i < |s| && s[i] != '\\' && !Escaped(s, i)
    ensures !Escaped(s, i + 1) && (InQuote(s, i + 1) <==> InQuote(s, i) != (s[i] == '\"'))
  {
  }

  /** The outcome is decided by how the input ends. */
  predicate FailsAsItEnds(s: string, r: Result<seq<string>>) {
    && (r.Failure? <==> Escaped(s, |s|) || InQuote(s, |s|))
    && (r.Failure? ==> r.error == if Escaped(s, |s|) then DANGLING else UNCLOSED)
  }

  lemma {:induction false} FailsFrom(s: string, i: nat, buf: string)
    requires i <= |s| && !Escaped(s, i)
    ensures FailsAsItEnds(s, Fields(s[i..], InQuote(s, i), buf))
    decreases |s| - i
  {
    if i == |s| {
    } else if s[i] == '\\' {
      if i + 1 < |s| {
        assert s[i..][2..] == s[i + 2..];
        PastEscape(s, i);
        FailsFrom(s, i + 2, buf + [s[i + 1]]);
      } else {
        assert BackslashRun(s, i + 1) == BackslashRun(s, i) + 1;
      }
    } else {
      assert s[i..][1..] == s[i + 1..];
      PastPlain(s, i);
      var sep := s[i] == ' ' && !InQuote(s, i);
      var next := if sep then "" else if s[i] == '\"' then buf else buf + [s[i]];
      FailsFrom(s, i + 1, next);
    }
  }

  /** The scan fails exactly when the input ends in an odd run of backslashes or
      has an odd number of unescaped quotes; the backslash is reported first. */
  lemma FailsExactlyWhen(s: string)
    ensures Tokens(s).Failure? <==> Escaped(s, |s|) || InQuote(s, |s|)
    ensures Tokens(s).Failure? ==> Tokens(s).error == if Escaped(s, |s|) then DANGLING else UNCLOSED
  {
    assert s[0..] == s;
    FailsFrom(s, 0, "");
  }

  // ----- What the fields hold -----

  /** A character of some field: an escaped one, or one that is neither an unescaped quote
      or backslash nor a separator. */
  predicate Kept(s: string, i: nat)
    requires i < |s|
  {
    Escaped(s, i) || (s[i] != '\"' && s[i] != '\\' && !Separator(s, i))
  }

  function SeparatorsBefore(s: string, i: nat): nat
    requires i <= |s|
  {
    if i == 0 then 0 else SeparatorsBefore(s, i - 1) + if Separator(s, i - 1) then 1 else 0
  }

  /** The kept characters before position `n` behind exactly `k` separators, in order. */
  function KeptIn(s: string, k: nat, n: nat): string
    requires n <= |s|
  {
    if n == 0 then ""
    else KeptIn(s, k, n - 1) + if Kept(s, n - 1) && SeparatorsBefore(s, n - 1) == k then [s[n - 1]] else ""
  }

  lemma {:induction false} NoneKeptYet(s: string, k: nat, n: nat)
    requires n <= |s| && SeparatorsBefore(s, n) < k
    ensures KeptIn(s, k, n) == ""
  {
    if n > 0 {
      NoneKeptYet(s, k, n - 1);
    }
  }

  lemma {:induction false} NoneKeptSince(s: string, k: nat, i: nat, n: nat)
    requires i <= n <= |s| && SeparatorsBefore(s, i) > k
    ensures KeptIn(s, k, n) == KeptIn(s, k, i) && SeparatorsBefore(s, n) > k
  {
    if i < n {
      NoneKeptSince(s, k, i, n - 1);
    }
  }

  /** The fields from the `k`-th on are the kept characters behind `k`, `k + 1`, ... separators. */
  ghost predicate HoldFrom(s: string, k: nat, fs: seq<string>) {
    |fs| + k == SeparatorsBefore(s, |s|) + 1 && forall j :: 0 <= j < |fs| ==> fs[j] == KeptIn(s, k + j, |s|)
  }

  lemma HoldMore(s: string, k: nat, f: string, fs: seq<string>)
    requires HoldFrom(s, k + 1, fs) && f == KeptIn(s, k, |s|)
    ensures HoldFrom(s, k, [f] + fs)
  {
    var all := [f] + fs;
    forall j | 0 <= j < |all| ensures all[j] == KeptIn(s, k + j, |s|) {
      assert j > 0 ==> all[j] == fs[j - 1] == KeptIn(s, k + 1 + (j - 1), |s|);
    }
  }

  /** A backslash and the character behind it: the latter is kept. */
  lemma KeptPastEscape(s: string, i: nat)
    requires i + 1 < |s| && s[i] == '\\' && !Escaped(s, i)
    ensures var k := SeparatorsBefore(s, i);
            SeparatorsBefore(s, i + 2) == k && KeptIn(s, k, i + 2) == KeptIn(s, k, i) + [s[i + 1]]
  {
    assert BackslashRun(s, i + 1) == BackslashRun(s, i) + 1;
    assert Escaped(s, i + 1) && !Kept(s, i);
    assert SeparatorsBefore(s, i + 1) == SeparatorsBefore(s, i);
    assert KeptIn(s, SeparatorsBefore(s, i), i + 1) == KeptIn(s, SeparatorsBefore(s, i), i);
  }

  lemma KeptPastPlain(s: string, i: nat)
    requires i < |s| && s[i] != '\\' && !Escaped(s, i)
    ensures var k := SeparatorsBefore(s, i);
            && SeparatorsBefore(s, i + 1) == (if Separator(s, i) then k + 1 else k)
            && KeptIn(s, k, i + 1) == if Separator(s, i) || s[i] == '\"' then KeptIn(s, k, i) else KeptIn(s, k, i) + [s[i]]
  {
    assert KeptIn(s, SeparatorsBefore(s, i), i) + "" == KeptIn(s, SeparatorsBefore(s, i), i);
  }

  /** At a separator the current field is complete and the next one empty. */
  lemma KeptAtSeparator(s: string, i: nat)
    requires i < |s| && Separator(s, i)
    ensures var k := SeparatorsBefore(s, i);
            KeptIn(s, k, |s|) == KeptIn(s, k, i) && SeparatorsBefore(s, i + 1) == k + 1 && KeptIn(s, k + 1, i + 1) == ""
  {
    var k := SeparatorsBefore(s, i);
    NoneKeptYet(s, k + 1, i);
    NoneKeptSince(s, k, i + 1, |s|);
    assert KeptIn(s, k, i + 1) == KeptIn(s, k, i) + "" == KeptIn(s, k, i);
    assert KeptIn(s, k + 1, i + 1) == KeptIn(s, k + 1, i) + "" == "";
  }

  /** Whatever has been kept since the last separator, the rest of the scan completes. */
  ghost predicate Completes(s: string, i: nat, r: Result<seq<string>>)
    requires i <= |s|
  {
    r.Success? ==> HoldFrom(s, SeparatorsBefore(s, i), r.value)
  }

  lemma CompleteAtSeparator(s: string, i: nat, r: Result<seq<string>>)
    requires i < |s| && Separator(s, i) && Completes(s, i + 1, r)
    ensures Completes(s, i, Prepend([KeptIn(s, SeparatorsBefore(s, i), i)], r))
  {
    KeptAtSeparator(s, i);
    if r.Success? {
      HoldMore(s, SeparatorsBefore(s, i), KeptIn(s, SeparatorsBefore(s, i), i), r.value);
    }
  }

  lemma {:induction false} ContentsFrom(s: string, i: nat, buf: string)
    requires i <= |s| && !Escaped(s, i) && buf == KeptIn(s, SeparatorsBefore(s, i), i)
    ensures Completes(s, i, Fields(s[i..], InQuote(s, i), buf))
    decreases |s| - i
  {
    if i == |s| {
    } else if s[i] == '\\' {
      if i + 1 < |s| {
        assert s[i..][2..] == s[i + 2..];
        PastEscape(s, i);
        KeptPastEscape(s, i);
        ContentsFrom(s, i + 2, buf + [s[i + 1]]);
      }
    } else {
      assert s[i..][1..] == s[i + 1..];
      PastPlain(s, i);
      KeptPastPlain(s, i);
      if Separator(s, i) {
        KeptAtSeparator(s, i);
        ContentsFrom(s, i + 1, "");
        CompleteAtSeparator(s, i, Fields(s[i + 1..], false, ""));
      } else {
        ContentsFrom(s, i + 1, if s[i] == '\"' then buf else buf + [s[i]]);
      }
    }
  }

  /** There is one field more than there are separators, and field `k` is the kept
      characters behind `k` separators, in order. */
  lemma FieldContents(s: string)
    requires Fields(s, false, "").Success?
    ensures var fs := Fields(s, false, "").value;
            && |fs| == SeparatorsBefore(s, |s|) + 1
            && forall k :: 0 <= k < |fs| ==> fs[k] == KeptIn(s, k, |s|)
  {
    assert s[0..] == s;
    ContentsFrom(s, 0, "");
  }

  lemma WithoutEmptyLast(s: string, fs: seq<string>)
    requires HoldFrom(s, 0, fs)
    ensures var (ws, n) := (DropEmptyLast(fs), SeparatorsBefore(s, |s|));
            && |ws| == (if KeptIn(s, n, |s|) == "" then n else n + 1)
            && forall k :: 0 <= k < |ws| ==> ws[k] == KeptIn(s, k, |s|)
  {
    assert fs[|fs| - 1] == KeptIn(s, SeparatorsBefore(s, |s|), |s|);
  }

  /** The words: the fields' characters, without a last word that would be empty. */
  lemma WordContents(s: string)
    requires Tokens(s).Success?
    ensures var (ws, n) := (Tokens(s).value, SeparatorsBefore(s, |s|));
            && |ws| == (if KeptIn(s, n, |s|) == "" then n else n + 1)
            && forall k :: 0 <= k < |ws| ==> ws[k] == KeptIn(s, k, |s|)
  {
    FieldContents(s);
    WithoutEmptyLast(s, Fields(s, false, "").value);
  }

  lemma {:induction false} CutAfter(a: string, b: string, inQuote: bool, buf: string)
    requires Fields(a, inQuote, buf).Success?
    ensures Fields(a + " " + b, inQuote, buf) == Prepend(Fields(a, inQuote, buf).value, Fields(b, false, ""))
    decreases |a|
  {
    var s := a + " " + b;
    if a == "" {
      assert s[1..] == b;
    } else if a[0] == '\\' {
      assert s[2..] == a[2..] + " " + b;
      CutAfter(a[2..], b, inQuote, buf + [a[1]]);
    } else {
      assert s[1..] == a[1..] + " " + b;
      if a[0] == '\"' {
        CutAfter(a[1..], b, !inQuote, buf);
      } else if a[0] == ' ' && !inQuote {
        CutAfter(a[1..], b, false, "");
        var fa := Fields(a[1..], false, "").value;
        assert forall fs: seq<string> {:trigger fa + fs} :: [buf] + (fa + fs) == [buf] + fa + fs;
      } else {
        CutAfter(a[1..], b, inQuote, buf + [a[0]]);
      }
    }
  }

  lemma {:induction false} PrefixLocal(s: string, n: nat, i: nat)
    requires i <= n <= |s|
    ensures BackslashRun(s[..n], i) == BackslashRun(s, i)
    ensures QuotesBefore(s[..n], i) == QuotesBefore(s, i)
  {
    if i > 0 {
      PrefixLocal(s, n, i - 1);
    }
  }

  lemma FinishLater(fa: seq<string>, r: Result<seq<string>>)
    requires r.Success? ==> |r.value| > 0
    ensures Finish(Prepend(fa, r)) == Prepend(fa, Finish(r))
  {
    if r.Success? {
      assert DropEmptyLast(fa + r.value) == fa + DropEmptyLast(r.value);
    }
  }

  lemma CutTokens(a: string, b: string)
    requires Fields(a, false, "").Success?
    ensures Fields(a + " " + b, false, "") == Prepend(Fields(a, false, "").value, Fields(b, false, ""))
    ensures Tokens(a + " " + b) == Prepend(Fields(a, false, "").value, Tokens(b))
  {
    CutAfter(a, b, false, "");
    FinishLater(Fields(a, false, "").value, Fields(b, false, ""));
  }

  lemma SeparatorEndsFields(s: string, i: nat)
    requires i < |s| && Separator(s, i)
    ensures s == s[..i] + " " + s[i + 1..]
    ensures Fields(s[..i], false, "").Success?
  {
    PrefixLocal(s, i, i);
    FailsExactlyWhen(s[..i]);
  }

  /** Cutting the input at any separator concatenates the fields of the two halves. */
  lemma SplitsAtSeparator(s: string, i: nat)
    requires i < |s| && Separator(s, i)
    ensures Fields(s[..i], false, "").Success?
    ensures Fields(s, false, "") == Prepend(Fields(s[..i], false, "").value, Fields(s[i + 1..], false, ""))
    ensures Tokens(s) == Prepend(Fields(s[..i], false, "").value, Tokens(s[i + 1..]))
  {
    SeparatorEndsFields(s, i);
    CutTokens(s[..i], s[i + 1..]);
  }

  // ----- Quoting and its inverse -----

  /** Escape the three characters the loop treats specially. */
  function Escape(w: string): string {
    if w == "" then ""
    else (if w[0] in {' ', '\"', '\\'} then ['\\', w[0]] else [w[0]]) + Escape(w[1..])
  }

  /** Between quotes a space needs no escape. */
  function EscapeInner(w: string): string {
    if w == "" then ""
    else (if w[0] in {'\"', '\\'} then ['\\', w[0]] else [w[0]]) + EscapeInner(w[1..])
  }

  function Wrap(w: string): string {
    "\"" + EscapeInner(w) + "\""
  }

  function Join(es: seq<string>): string {
    if es == [] then "" else if |es| == 1 then es[0] else es[0] + " " + Join(es[1..])
  }

  lemma {:induction false} EscapeIsOneField(w: string, buf: string)
    ensures Fields(Escape(w), false, buf) == Success([buf + w])
    decreases |w|
  {
    if w == "" {
      assert buf + w == buf;
    } else {
      var e := Escape(w);
      var k := if w[0] in {' ', '\"', '\\'} then 2 else 1;
      assert e[k..] == Escape(w[1..]);
      EscapeIsOneField(w[1..], buf + [w[0]]);
      assert buf + [w[0]] + w[1..] == buf + w;
    }
  }

  lemma {:induction false} WrapInnerIsOneField(w: string, buf: string)
    ensures Fields(EscapeInner(w) + "\"", true, buf) == Success([buf + w])
    decreases |w|
  {
    var e := EscapeInner(w) + "\"";
    if w == "" {
      assert e == "\"" && e[1..] == "";
      assert buf + w == buf;
    } else {
      var k := if w[0] in {'\"', '\\'} then 2 else 1;
      assert e[k..] == EscapeInner(w[1..]) + "\"";
      WrapInnerIsOneField(w[1..], buf + [w[0]]);
      assert buf + [w[0]] + w[1..] == buf + w;
    }
  }

  lemma QuotedIsOneField(w: string, e: string)
    requires e == Escape(w) || e == Wrap(w)
    ensures Fields(e, false, "") == Success([w])
  {
    assert "" + w == w;
    if e == Escape(w) {
      EscapeIsOneField(w, "");
    } else {
      WrapInnerIsOneField(w, "");
      assert e[1..] == EscapeInner(w) + "\"";
    }
  }

  lemma {:induction false} JoinFields(es: seq<string>, ws: seq<string>)
    requires |es| == |ws| > 0
    requires forall i :: 0 <= i < |es| ==> Fields(es[i], false, "") == Success([ws[i]])
    ensures Fields(Join(es), false, "") == Success(ws)
    decreases |es|
  {
    if |es| > 1 {
      JoinFields(es[1..], ws[1..]);
      CutAfter(es[0], Join(es[1..]), false, "");
      assert [ws[0]] + ws[1..] == ws;
    } else {
      assert ws == [ws[0]];
    }
  }

  /** Every word is escaped or wrapped. */
  predicate Quotes(ws: seq<string>, es: seq<string>) {
    |es| == |ws| && forall i :: 0 <= i < |ws| ==> es[i] == Escape(ws[i]) || es[i] == Wrap(ws[i])
  }

  lemma EachIsOneField(ws: seq<string>, es: seq<string>)
    requires Quotes(ws, es)
    ensures forall i :: 0 <= i < |es| ==> Fields(es[i], false, "") == Success([ws[i]])
  {
    forall i | 0 <= i < |es| ensures Fields(es[i], false, "") == Success([ws[i]]) {
      QuotedIsOneField(ws[i], es[i]);
    }
  }

  /** Any mixture of escaped and wrapped words, joined by single spaces, tokenizes
      back to the words, except that a last empty word is lost. */
  lemma TokenizeUndoesQuoting(ws: seq<string>, es: seq<string>)
    requires Quotes(ws, es)
    ensures Tokens(Join(es)) == Success(DropEmptyLast(ws))
    ensures Tokens(Join(es)) == Success(ws) <==> ws == [] || ws[|ws| - 1] != ""
  {
    if ws != [] {
      EachIsOneField(ws, es);
      JoinFields(es, ws);
    }
  }
}
