/**
 The two dump loops of `read_region`: flat counters over the configuration bytes
 that must produce nested groups. The base address registers begin at byte 16
 (section 6.2.5 of the PCI Local Bus Specification 3.0), four bytes each.
 */
module PciRegion {

  datatype Token = Byte(value: char) | Newline | Label(region: nat)

  function Bytes(config: string): (ts: seq<Token>)
    ensures |ts| == |config| && forall i :: 0 <= i < |config| ==> ts[i] == Byte(config[i])
  {
    seq(|config|, i requires 0 <= i < |config| => Byte(config[i]))
  }

  /** Rows of eight, each full row ended by a newline. */
  function Rows(config: string): seq<Token> {
    if |config| < 8 then Bytes(config) else Bytes(config[..8]) + [Newline] + Rows(config[8..])
  }

  /** Where each byte of the first dump stands, and each newline. */
  lemma {:induction false} ByteInRows(config: string, c: nat)
    requires c < |config|
    ensures c + c / 8 < |Rows(config)| && Rows(config)[c + c / 8] == Byte(config[c])
  {
    if c >= 8 {
      ByteInRows(config[8..], c - 8);
      assert c / 8 == (c - 8) / 8 + 1;
    }
  }

  lemma {:induction false} NewlineInRows(config: string, r: nat)
    requires 8 * r + 8 <= |config|
    ensures 9 * r + 8 < |Rows(config)| && Rows(config)[9 * r + 8] == Newline
    decreases r
  {
    if r > 0 {
      NewlineInRows(config[8..], r - 1);
    }
  }

  lemma {:induction false} LengthOfRows(config: string)
    ensures |Rows(config)| == |config| + |config| / 8
  {
    if |config| >= 8 {
      LengthOfRows(config[8..]);
    }
  }

  lemma {:induction false} RowsGrow(config: string, b: char)
    ensures Rows(config + [b]) == Rows(config) + [Byte(b)] + if |config| % 8 == 7 then [Newline] else []
    decreases |config|
  {
    var more := config + [b];
    if |config| >= 8 {
      assert more[..8] == config[..8] && more[8..] == config[8..] + [b];
      RowsGrow(config[8..], b);
    } else if |config| == 7 {
      assert more[..8] == more && more[8..] == [];
    }
  }

  /** Register `r` up to position `m`: its label and its bytes. */
  function Open(config: string, r: nat, m: nat): seq<Token>
    requires 16 + 4 * r <= m <= |config|
  {
    if m == 16 + 4 * r then [Label(r)] else Open(config, r, m - 1) + [Byte(config[m - 1])]
  }

  /** One register, as far as the configuration reaches. */
  function Group(config: string, r: nat): seq<Token>
    requires 15 + 4 * r < |config|
  {
    Open(config, r, Min(20 + 4 * r, |config|))
  }

  /** How many of `n` registers begin within the first `c` bytes. */
  function Begun(c: nat, n: int): nat {
    if n <= 0 || c <= 15 then 0 else Min((c - 12) / 4, n)
  }

  /** The lines of the second dump: one for each register that begins within the
      configuration, or a single empty one. */
  ghost predicate AreGroups(config: string, n: int, lines: seq<seq<Token>>) {
    if n <= 0 || |config| < 16 then lines == [[]]
    else && (forall r: nat :: r < |lines| <==> r < n && 15 + 4 * r < |config|)
         && forall r :: 0 <= r < |lines| ==> lines[r] == Group(config, r)
  }

  method ReadRegion(config: string, regionAmount: int) returns (dump: seq<Token>, lines: seq<seq<Token>>)
    ensures dump == Rows(config)
    ensures AreGroups(config, regionAmount, lines)
  {
    dump := DumpBytes(config);
    lines := DumpRegions(config, regionAmount);
  }

  /** The first loop: a counter that starts a new line after every eighth byte. */
  method DumpBytes(config: string) returns (dump: seq<Token>)
    ensures dump == Rows(config)
  {
    dump := [];
    var i := 1;
    assert config[..0] == [];
    for c := 0 to |config|
      invariant i == c % 8 + 1 && dump == Rows(config[..c])
    {
      assert config[..c + 1] == config[..c] + [config[c]];
      RowsGrow(config[..c], config[c]);
      dump := dump + [Byte(config[c])];
      i := i + 1;
      if i == 9 {
        dump := dump + [Newline];
        i := 1;
      }
    }
    assert config[..|config|] == config;
  }

  /** Append to the line being printed. */
  function Put(lines: seq<seq<Token>>, t: Token): seq<seq<Token>>
    requires lines != []
  {
    lines[|lines| - 1 := lines[|lines| - 1] + [t]]
  }

  /** The second loop: one counter of bytes and one of labels. The output is the list of
      printed lines; a newline begins the next one. */
  method DumpRegions(config: string, regionAmount: int) returns (lines: seq<seq<Token>>)
    ensures AreGroups(config, regionAmount, lines)
  {
    lines := [[]];
    var i, ra := 1, 0;
    for c := 0 to |config|
      invariant i == c + 1
      invariant Dumped(config, regionAmount, c, ra, lines)
    {
      if ra > 0 {
        FourthByte(c, ra);
      }
      i := i + 1;
      if i >= 18 && i <= 17 + regionAmount * 4 {
        lines := Put(lines, Byte(config[c]));
      }
      if (i - 17) % 4 == 0 && i <= 16 + regionAmount * 4 && i >= 18 {
        lines := lines + [[]];
      }
      if (i - 17) % 4 == 0 && i <= 16 + regionAmount * 4 && i >= 17 {
        lines := Put(lines, Label(ra));
        ra := ra + 1;
      }
    }
    DumpedToTheEnd(config, regionAmount, ra, lines);
  }

  lemma DumpedToTheEnd(config: string, n: int, ra: nat, lines: seq<seq<Token>>)
    requires Dumped(config, n, |config|, ra, lines)
    ensures AreGroups(config, n, lines)
  {
  }

  /** Before byte `c`: `ra` registers have begun, all but the last are complete, and the
      last is complete once all registers have been dumped. */
  ghost predicate Dumped(config: string, n: int, c: nat, ra: nat, lines: seq<seq<Token>>)
    requires c <= |config|
  {
    && ra == Begun(c, n)
    && if ra == 0 then lines == [[]]
       else && 12 + 4 * ra <= c && |lines| == ra
            && (forall r :: 0 <= r < ra - 1 ==> lines[r] == Group(config, r))
            && lines[ra - 1] == Open(config, ra - 1, Min(c, 16 + 4 * ra))
  }

  /** While register `ra - 1` is open, the dump is at its fourth byte when and only when
      the counter says so. */
  lemma FourthByte(c: nat, ra: nat)
    ensures 12 + 4 * ra <= c <= 15 + 4 * ra ==> ((c - 15) % 4 == 0 <==> c == 15 + 4 * ra)
  {
  }

  function Min(a: int, b: int): int { if a <= b then a else b }

  // ----- What the groups hold -----

  /** Each line is the label and the four bytes of its register, or those the configuration
      has. */
  lemma GroupHoldsRegister(config: string, r: nat)
    requires 15 + 4 * r < |config|
    ensures Group(config, r) == [Label(r)] + Bytes(config[16 + 4 * r..Min(20 + 4 * r, |config|)])
  {
    OpenHolds(config, r, Min(20 + 4 * r, |config|));
  }

  lemma {:induction false} OpenHolds(config: string, r: nat, m: nat)
    requires 16 + 4 * r <= m <= |config|
    ensures Open(config, r, m) == [Label(r)] + Bytes(config[16 + 4 * r..m])
  {
    if m > 16 + 4 * r {
      OpenHolds(config, r, m - 1);
      assert Bytes(config[16 + 4 * r..m]) == Bytes(config[16 + 4 * r..m - 1]) + [Byte(config[m - 1])];
    }
  }
}
