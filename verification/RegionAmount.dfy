/**
 Counting the `resourceN` files of a PCI device. The search loop has no bound of
 its own: it ends because decimal suffixes never repeat and the files are finitely
 many.
 */
module RegionAmount {

  /** C's `/` and `%`, which truncate towards zero, for the divisor 10. */
  function Quot10(n: int): int { if n >= 0 then n / 10 else -((-n) / 10) }
  function Rem10(n: int): (r: int)
    ensures -10 < r < 10
  {
    n - 10 * Quot10(n)
  }

  /** `n % 10 + '0'`; below '0' for a negative number. */
  function Digit(n: int): char { (Rem10(n) + '0' as int) as char }

  function Decimal(n: int): string
    decreases if n < 0 then -n else n
  {
    if Quot10(n) == 0 then [Digit(n)] else Decimal(Quot10(n)) + [Digit(n)]
  }

  /** Reading a suffix back, most significant digit first. */
  function ParseDecimal(s: string): int {
    if s == "" then 0 else 10 * ParseDecimal(s[..|s| - 1]) + (s[|s| - 1] as int - '0' as int)
  }

  lemma {:induction false} ParseInvertsDecimal(n: int)
    ensures ParseDecimal(Decimal(n)) == n
    decreases if n < 0 then -n else n
  {
    var s := Decimal(n);
    if Quot10(n) != 0 {
      ParseInvertsDecimal(Quot10(n));
      assert s[..|s| - 1] == Decimal(Quot10(n));
    } else {
      assert s[..0] == "";
    }
  }

  lemma DecimalIsInjective(m: int, n: int)
    requires Decimal(m) == Decimal(n)
    ensures m == n
  {
    ParseInvertsDecimal(m);
    ParseInvertsDecimal(n);
  }

  predicate IsDigit(c: char) { '0' <= c <= '9' }

  /** How a number is written: digits, the first of several not being '0'. */
  predicate Numeral(s: string, n: nat) {
    && s != "" && (forall i :: 0 <= i < |s| ==> IsDigit(s[i])) && (|s| > 1 ==> s[0] != '0')
    && ParseDecimal(s) == n
  }

  lemma {:induction false} DecimalIsNumeral(n: nat)
    ensures Numeral(Decimal(n), n)
    ensures n > 0 ==> Decimal(n)[0] != '0'
  {
    ParseInvertsDecimal(n);
    if n >= 10 {
      DecimalIsNumeral(n / 10);
      var front := Decimal(n / 10);
      assert Decimal(n) == front + [Digit(n)];
    }
  }

  /** For a negative number every digit is '0' less its value, and the first is not '0'. */
  lemma {:induction false} DecimalOfNegative(n: int)
    requires n < 0
    ensures var s := Decimal(n); s != "" && s[0] != '0' && forall i :: 0 <= i < |s| ==> '0' as int - 9 <= s[i] as int <= '0' as int
    decreases -n
  {
    if n <= -10 {
      DecimalOfNegative(Quot10(n));
      assert Decimal(n) == Decimal(Quot10(n)) + [Digit(n)];
    }
  }

  lemma {:induction false} LeadingDigit(s: string)
    requires s != "" && (forall i :: 0 <= i < |s| ==> IsDigit(s[i])) && s[0] != '0'
    ensures ParseDecimal(s) > 0
    decreases |s|
  {
    if |s| > 1 {
      LeadingDigit(s[..|s| - 1]);
    } else {
      assert s[..0] == "";
    }
  }

  /** A number is written in one way only, as `Decimal` does. */
  lemma {:induction false} NumeralIsDecimal(s: string, n: nat)
    requires Numeral(s, n)
    ensures s == Decimal(n)
    decreases |s|
  {
    var (front, d) := (s[..|s| - 1], s[|s| - 1] as int - '0' as int);
    assert s == front + [s[|s| - 1]];
    if front == "" {
      assert n == d;
    } else {
      LeadingDigit(front);
      NumeralIsDecimal(front, ParseDecimal(front));
      assert n == 10 * ParseDecimal(front) + d;
    }
  }

  /** `aaa`: the digits are put in front of a growing suffix. */
  method AppendDecimal(content: string, number: int) returns (path: string)
    ensures path == content + Decimal(number)
  {
    var temp, n := "", number;
    while true
      invariant Decimal(n) + temp == Decimal(number)
      decreases if n < 0 then -n else n
    {
      assert Decimal(n) == (if Quot10(n) == 0 then "" else Decimal(Quot10(n))) + [Digit(n)];
      assert Decimal(n) + temp == (if Quot10(n) == 0 then "" else Decimal(Quot10(n))) + ([Digit(n)] + temp);
      temp := [Digit(n)] + temp;
      n := Quot10(n);
      if n == 0 {
        return content + temp;
      }
    }
  }

  function PathOf(base: string, k: nat): string { base + Decimal(k) }

  lemma PathsDiffer(base: string, m: nat, n: nat)
    requires m != n
    ensures PathOf(base, m) != PathOf(base, n) && PathOf(base, m) != base
  {
    assert PathOf(base, m)[|base|..] == Decimal(m) && PathOf(base, n)[|base|..] == Decimal(n);
    if Decimal(m) == Decimal(n) {
      DecimalIsInjective(m, n);
    }
  }

  lemma AsNumerals(files: set<string>, base: string, amount: nat)
    requires PathOf(base, amount) !in files && forall k :: 0 <= k < amount ==> PathOf(base, k) in files
    ensures forall k: nat, s :: Numeral(s, k) && k <= amount ==> (base + s in files <==> k < amount)
  {
    forall k: nat, s | Numeral(s, k) ensures base + s == PathOf(base, k) {
      NumeralIsDecimal(s, k);
    }
  }

  const DEVICES := "/sys/bus/pci/devices/"

  /** The loop of `getPciDeviceRegionAmount` on an unchanging set of files: -1 without a
      `resource` file, else the least `k` for which `resourcek` does not exist, `k` being
      written in digits without leading zeros. */
  method GetPciDeviceRegionAmount(files: set<string>, deviceAddress: string) returns (amount: int)
    ensures var base := DEVICES + deviceAddress + "/resource";
            if base !in files then amount == -1
            else amount >= 0 && forall k: nat, s :: Numeral(s, k) && k <= amount ==> (base + s in files <==> k < amount)
  {
    var regionPath := DEVICES + deviceAddress + "/resource";
    var path := regionPath;
    var regionAmount := 0;
    ghost var untested := files;
    while path in files
      invariant regionAmount >= 0
      invariant path == if regionAmount == 0 then regionPath else PathOf(regionPath, regionAmount - 1)
      invariant regionAmount > 0 ==> regionPath in files
      invariant forall k :: 0 <= k < regionAmount - 1 ==> PathOf(regionPath, k) in files
      invariant untested <= files && (path in files ==> path in untested)
      invariant forall k :: regionAmount <= k ==> (PathOf(regionPath, k) in untested <==> PathOf(regionPath, k) in files)
      decreases untested
    {
      untested := untested - {path};
      forall k | regionAmount <= k ensures PathOf(regionPath, k) != path {
        PathsDiffer(regionPath, k, if regionAmount == 0 then k + 1 else regionAmount - 1);
      }
      path := AppendDecimal(regionPath, regionAmount);
      regionAmount := regionAmount + 1;
    }
    if regionAmount > 0 {
      AsNumerals(files, regionPath, regionAmount - 1);
    }
    return regionAmount - 1;
  }
}
