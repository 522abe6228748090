/** Base counting (01_dna/dna.py): a `collections.Counter` over the sequence,
    then the counts of A, C, G and T reported as one space-separated line. */
module Dna {

  /** The four reported bases, in their reporting order. */
  const Bases: string := "ACGT"

  /** `dict.get(key, 0)` on a character-count dictionary. */
  function Get(counts: map<char, nat>, key: char): (n: nat)
    ensures key in counts ==> n == counts[key]
    ensures key !in counts ==> n == 0
  {
    if key in counts then counts[key] else 0
  }

  /** `Counter(seq)`: one entry per distinct character of `s`, holding how
      often it occurs. Characters are compared exactly, so case matters. */
  function CountDnaBases(s: string): (counts: map<char, nat>)
    ensures forall c :: c in counts <==> c in s
    ensures forall c :: c in counts ==> counts[c] > 0
  {
    if s == [] then map[]
    else
      var p, c := s[..|s| - 1], s[|s| - 1];
      assert s == p + [c];
      CountDnaBases(p)[c := Get(CountDnaBases(p), c) + 1]
  }

  /** The counter holds a key exactly for the characters present, and the
      count looked up for any character is its multiplicity in `s`. */
  lemma {:induction false} CountDnaBasesMultiplicity(s: string, c: char)
    ensures Get(CountDnaBases(s), c) == multiset(s)[c]
    ensures c in CountDnaBases(s) <==> c in s
  {
    if s != [] {
      var p, x := s[..|s| - 1], s[|s| - 1];
      CountDnaBasesMultiplicity(p, c);
      assert s == p + [x];
    }
  }

  /** Counting distributes over concatenation. */
  lemma CountsAdditive(s: string, t: string, c: char)
    ensures Get(CountDnaBases(s + t), c) == Get(CountDnaBases(s), c) + Get(CountDnaBases(t), c)
  {
    CountDnaBasesMultiplicity(s + t, c);
    CountDnaBasesMultiplicity(s, c);
    CountDnaBasesMultiplicity(t, c);
  }

  /** Number of occurrences of the four canonical (upper-case) bases. */
  function CanonicalTotal(s: string): nat
  {
    multiset(s)['A'] + multiset(s)['C'] + multiset(s)['G'] + multiset(s)['T']
  }

  lemma {:induction false} CanonicalTotalBound(s: string)
    ensures CanonicalTotal(s) <= |s|
    ensures CanonicalTotal(s) == |s| <==> forall i :: 0 <= i < |s| ==> s[i] in Bases
  {
    if s != [] {
      var p, x := s[..|s| - 1], s[|s| - 1];
      CanonicalTotalBound(p);
      assert s == p + [x];
      assert CanonicalTotal(s) == CanonicalTotal(p) + (if x in Bases then 1 else 0);
      if forall i :: 0 <= i < |s| ==> s[i] in Bases {
        assert forall i :: 0 <= i < |p| ==> p[i] == s[i];
      }
      if CanonicalTotal(s) == |s| {
        forall i | 0 <= i < |s| ensures s[i] in Bases {
          if i < |p| { assert s[i] == p[i]; }
        }
      }
    }
  }

  /** The four reported counts never exceed the length of the sequence, and
      they add up to it exactly when every character is one of A, C, G, T. */
  lemma ReportedCountsBound(s: string)
    ensures var m := CountDnaBases(s);
      Get(m, 'A') + Get(m, 'C') + Get(m, 'G') + Get(m, 'T') <= |s|
    ensures var m := CountDnaBases(s);
      Get(m, 'A') + Get(m, 'C') + Get(m, 'G') + Get(m, 'T') == |s|
      <==> forall i :: 0 <= i < |s| ==> s[i] in Bases
  {
    CountDnaBasesMultiplicity(s, 'A');
    CountDnaBasesMultiplicity(s, 'C');
    CountDnaBasesMultiplicity(s, 'G');
    CountDnaBasesMultiplicity(s, 'T');
    CanonicalTotalBound(s);
  }

  predicate IsDigit(c: char)
  {
    '0' <= c <= '9'
  }

  predicate IsDecimal(s: string)
  {
    |s| > 0 && forall i :: 0 <= i < |s| ==> IsDigit(s[i])
  }

  /** `str(n)` for a non-negative integer: its decimal digits, without
      leading zeros. */
  function Decimal(n: nat): (r: string)
    ensures IsDecimal(r)
    ensures r[0] == '0' <==> n == 0
    ensures n == 0 ==> r == "0"
  {
    if n < 10 then [('0' as int + n) as char]
    else Decimal(n / 10) + [('0' as int + n % 10) as char]
  }

  function DigitValue(c: char): nat
    requires IsDigit(c)
  {
    c as int - '0' as int
  }

  /** Reads a string of decimal digits back as a number. */
  function ParseDecimal(s: string): nat
    requires forall i :: 0 <= i < |s| ==> IsDigit(s[i])
  {
    if s == [] then 0
    else ParseDecimal(s[..|s| - 1]) * 10 + DigitValue(s[|s| - 1])
  }

  lemma {:induction false} DecimalRoundTrip(n: nat)
    ensures ParseDecimal(Decimal(n)) == n
  {
    var r := Decimal(n);
    if n < 10 {
      assert r[..|r| - 1] == [];
    } else {
      DecimalRoundTrip(n / 10);
      assert r[..|r| - 1] == Decimal(n / 10);
    }
  }

  lemma DecimalHasNoSpace(n: nat)
    ensures ' ' !in Decimal(n)
  {
  }

  /** `' '.join(fields)`. */
  function Join(fields: seq<string>): string
  {
    if |fields| == 0 then ""
    else if |fields| == 1 then fields[0]
    else fields[0] + " " + Join(fields[1..])
  }

  /** `s.split(' ')`: the pieces between single spaces, empty ones included.
      It reads back what `Join` writes. */
  function Split(s: string): (fields: seq<string>)
    ensures |fields| > 0
  {
    if s == [] then [""]
    else if s[0] == ' ' then [""] + Split(s[1..])
    else
      var rest := Split(s[1..]);
      [[s[0]] + rest[0]] + rest[1..]
  }

  lemma {:induction false} SplitAfterWord(a: string, rest: string)
    requires ' ' !in a
    ensures Split(a + rest) == [a + Split(rest)[0]] + Split(rest)[1..]
  {
    if a == [] {
      assert a + rest == rest;
      var fields := Split(rest);
      assert a + fields[0] == fields[0];
      assert [fields[0]] + fields[1..] == fields;
    } else {
      SplitAfterWord(a[1..], rest);
      assert (a + rest)[1..] == a[1..] + rest;
      assert [a[0]] + (a[1..] + Split(rest)[0]) == a + Split(rest)[0];
    }
  }

  /** Splitting a joined line gives back the fields, provided none contains
      a space. */
  lemma {:induction false} SplitJoin(fields: seq<string>)
    requires |fields| > 0
    requires forall k :: 0 <= k < |fields| ==> ' ' !in fields[k]
    ensures Split(Join(fields)) == fields
  {
    if |fields| == 1 {
      SplitAfterWord(fields[0], "");
      assert fields[0] + "" == fields[0];
    } else {
      var tail := Join(fields[1..]);
      SplitJoin(fields[1..]);
      SplitAfterWord(fields[0], " " + tail);
      assert (" " + tail)[1..] == tail;
      assert Split(" " + tail) == [""] + fields[1..];
      assert Join(fields) == fields[0] + (" " + tail);
      assert fields[0] + "" == fields[0];
      assert fields == [fields[0]] + fields[1..];
    }
  }

  /** `_format_counts`: the counts of A, C, G and T (0 when absent) in
      decimal, joined by single spaces. */
  function FormatCounts(counts: map<char, nat>): (line: string)
    ensures Split(line) ==
      [Decimal(Get(counts, 'A')), Decimal(Get(counts, 'C')),
       Decimal(Get(counts, 'G')), Decimal(Get(counts, 'T'))]
  {
    var fields := [Decimal(Get(counts, 'A')), Decimal(Get(counts, 'C')),
                   Decimal(Get(counts, 'G')), Decimal(Get(counts, 'T'))];
    DecimalHasNoSpace(Get(counts, 'A'));
    DecimalHasNoSpace(Get(counts, 'C'));
    DecimalHasNoSpace(Get(counts, 'G'));
    DecimalHasNoSpace(Get(counts, 'T'));
    SplitJoin(fields);
    Join(fields)
  }

  /** The formatted line has exactly four decimal fields, which read back as
      the counts of A, C, G and T in that order. */
  lemma FormatCountsFields(counts: map<char, nat>)
    ensures var fields := Split(FormatCounts(counts));
      |fields| == 4 &&
      forall k :: 0 <= k < 4 ==> IsDecimal(fields[k]) && ParseDecimal(fields[k]) == Get(counts, Bases[k])
  {
    var fields := [Decimal(Get(counts, 'A')), Decimal(Get(counts, 'C')),
                   Decimal(Get(counts, 'G')), Decimal(Get(counts, 'T'))];
    forall k | 0 <= k < 4
      ensures ParseDecimal(fields[k]) == Get(counts, Bases[k])
    {
      DecimalRoundTrip(Get(counts, Bases[k]));
    }
  }

  /** `DNACounts.solve`: count the bases, then format them. The line's fields
      are the decimal multiplicities of A, C, G and T in `s`. */
  function Solve(s: string): (line: string)
    ensures Split(line) ==
      [Decimal(multiset(s)['A']), Decimal(multiset(s)['C']),
       Decimal(multiset(s)['G']), Decimal(multiset(s)['T'])]
  {
    CountDnaBasesMultiplicity(s, 'A');
    CountDnaBasesMultiplicity(s, 'C');
    CountDnaBasesMultiplicity(s, 'G');
    CountDnaBasesMultiplicity(s, 'T');
    FormatCounts(CountDnaBases(s))
  }

  /** The line reports, in the order A, C, G, T, the number of positions of
      `s` holding exactly that upper-case letter. */
  lemma SolveReportsCounts(s: string)
    ensures var fields := Split(Solve(s));
      |fields| == 4 &&
      forall k :: 0 <= k < 4 ==> IsDecimal(fields[k]) && ParseDecimal(fields[k]) == multiset(s)[Bases[k]]
  {
    FormatCountsFields(CountDnaBases(s));
    forall k | 0 <= k < 4 ensures Get(CountDnaBases(s), Bases[k]) == multiset(s)[Bases[k]] {
      CountDnaBasesMultiplicity(s, Bases[k]);
    }
  }

  /** A base that does not occur is reported as "0". */
  lemma AbsentBaseReportedAsZero(s: string, k: nat)
    requires k < 4 && Bases[k] !in s
    ensures |Split(Solve(s))| == 4 && Split(Solve(s))[k] == "0"
  {
    FormatCountsFields(CountDnaBases(s));
    CountDnaBasesMultiplicity(s, Bases[k]);
    assert Get(CountDnaBases(s), Bases[k]) == 0;
  }

  lemma SolveEmpty()
    ensures Solve("") == "0 0 0 0"
  {
  }
}
