/** GC content (05_gc/cgc.py): per record, the percentage of characters that
    are G or C in either case. */
module Gc {

  /** `base in 'GCgc'`. */
  predicate IsGc(base: char)
  {
    base in "GCgc"
  }

  /** Number of G, C, g and c characters in `dna`. */
  function GcCount(dna: string): nat
  {
    if dna == [] then 0
    else GcCount(dna[..|dna| - 1]) + (if IsGc(dna[|dna| - 1]) then 1 else 0)
  }

  /** `count_gc`: one pass over `dna`, incrementing the counter on each G/C. */
  method CountGc(dna: string) returns (gcCount: nat)
    ensures gcCount == GcCount(dna)
  {
    gcCount := 0;
    for i := 0 to |dna|
      invariant gcCount == GcCount(dna[..i])
    {
      assert dna[..i + 1][..i] == dna[..i];
      if IsGc(dna[i]) {
        gcCount := gcCount + 1;
      }
    }
    assert dna[..|dna|] == dna;
  }

  /** The count is the number of occurrences of exactly G, C, g and c;
      in particular the empty sequence has none. */
  lemma {:induction false} GcCountByBase(dna: string)
    ensures GcCount(dna) == multiset(dna)['G'] + multiset(dna)['C'] + multiset(dna)['g'] + multiset(dna)['c']
  {
    if dna != [] {
      var p, x := dna[..|dna| - 1], dna[|dna| - 1];
      GcCountByBase(p);
      assert dna == p + [x];
    }
  }

  /** The count is at most the length. It equals the length exactly when every
      character is G/C, and it is zero exactly when none is. */
  lemma {:induction false} GcCountBounds(dna: string)
    ensures GcCount(dna) <= |dna|
    ensures GcCount(dna) == |dna| <==> forall i :: 0 <= i < |dna| ==> IsGc(dna[i])
    ensures GcCount(dna) == 0 <==> forall i :: 0 <= i < |dna| ==> !IsGc(dna[i])
  {
    if dna != [] {
      var p := dna[..|dna| - 1];
      GcCountBounds(p);
      assert forall i :: 0 <= i < |p| ==> p[i] == dna[i];
    }
  }

  /** Counting is additive over concatenation. */
  lemma {:induction false} GcCountConcat(a: string, b: string)
    ensures GcCount(a + b) == GcCount(a) + GcCount(b)
  {
    if b != [] {
      var p := b[..|b| - 1];
      GcCountConcat(a, p);
      assert (a + b)[..|a + b| - 1] == a + p;
    } else {
      assert a + b == a;
    }
  }

  /** A computation that may fail the way Python's `/` does on a zero
      divisor. */
  datatype Result<T> = Ok(value: T) | ZeroDivisionError

  /** A percentage kept as the exact fraction `numerator / denominator`. */
  datatype Percent = Percent(numerator: nat, denominator: nat)
  {
    /** The value the fraction stands for. */
    function Value(): real
      requires denominator > 0
    {
      numerator as real / denominator as real
    }
  }

  /** `compute_percent_gc`: `100 * gc_count / len(dna)`, kept as an exact
      fraction rather than a floating-point value. */
  function ComputePercentGc(dna: string): (r: Result<Percent>)
    ensures r.Ok? <==> |dna| > 0
    ensures r.Ok? ==> r.value.numerator == 100 * (multiset(dna)['G'] + multiset(dna)['C'] + multiset(dna)['g'] + multiset(dna)['c'])
    ensures r.Ok? ==> r.value.denominator == |dna| && r.value.numerator <= 100 * r.value.denominator
  {
    GcCountByBase(dna);
    GcCountBounds(dna);
    if |dna| == 0 then ZeroDivisionError
    else Ok(Percent(100 * GcCount(dna), |dna|))
  }

  /** A defined percentage lies between 0 and 100: its numerator is at most
      100 times its (positive) denominator. */
  lemma PercentInRange(dna: string)
    requires |dna| > 0
    ensures var p := ComputePercentGc(dna).value;
      p.denominator > 0 && p.numerator <= 100 * p.denominator
  {
    GcCountBounds(dna);
  }

  /** A FASTA record once parsed: its identifier and its sequence. */
  datatype Record = Record(id: string, dna: string)

  /** `compute_fasta_records_percent_gc`: the dictionary comprehension
      `{record.id: compute_percent_gc(record.dna)}`. It is built in record
      order, so a later record with a repeated id overwrites an earlier one.
      The map is computed exactly when no record is empty; any empty
      sequence raises. */
  function ComputeRecordsPercentGc(records: seq<Record>): (r: Result<map<string, Percent>>)
    ensures r.Ok? <==> forall i :: 0 <= i < |records| ==> |records[i].dna| > 0
  {
    if records == [] then Ok(map[])
    else
      var p, last := records[..|records| - 1], records[|records| - 1];
      assert forall i :: 0 <= i < |p| ==> p[i] == records[i];
      match ComputeRecordsPercentGc(p)
      case ZeroDivisionError => ZeroDivisionError
      case Ok(percents) =>
        match ComputePercentGc(last.dna)
        case ZeroDivisionError => ZeroDivisionError
        case Ok(percent) => Ok(percents[last.id := percent])
  }

  /** The keys of the map are exactly the record ids. */
  lemma {:induction false} RecordsKeys(records: seq<Record>)
    requires ComputeRecordsPercentGc(records).Ok?
    ensures ComputeRecordsPercentGc(records).value.Keys == set i | 0 <= i < |records| :: records[i].id
  {
    if records != [] {
      var n := |records| - 1;
      var p := records[..n];
      RecordsKeys(p);
      var ids := set i | 0 <= i < |records| :: records[i].id;
      var before := set i | 0 <= i < n :: p[i].id;
      forall id ensures id in ids <==> id in before || id == records[n].id {
        if id in ids {
          var i :| 0 <= i < |records| && records[i].id == id;
          if i < n { assert p[i].id == id; }
        }
        if id in before {
          var i :| 0 <= i < n && p[i].id == id;
          assert records[i].id == id;
        }
      }
    }
  }

  /** When ids repeat, the last record carrying an id decides its value. */
  lemma {:induction false} RecordsLastWins(records: seq<Record>, i: nat)
    requires ComputeRecordsPercentGc(records).Ok?
    requires i < |records|
    requires forall j :: i < j < |records| ==> records[j].id != records[i].id
    ensures ComputePercentGc(records[i].dna).Ok?
    ensures records[i].id in ComputeRecordsPercentGc(records).value
    ensures ComputeRecordsPercentGc(records).value[records[i].id] == ComputePercentGc(records[i].dna).value
  {
    var n := |records| - 1;
    var p := records[..n];
    if i < n {
      assert p[i] == records[i];
      assert forall j :: i < j < n ==> p[j] == records[j];
      RecordsLastWins(p, i);
      assert records[n].id != records[i].id;
    }
  }

  /** Every percentage in the map lies between 0 and 100. */
  lemma {:induction false} RecordsPercentInRange(records: seq<Record>)
    requires ComputeRecordsPercentGc(records).Ok?
    ensures forall id :: id in ComputeRecordsPercentGc(records).value ==>
      var p := ComputeRecordsPercentGc(records).value[id];
      p.denominator > 0 && p.numerator <= 100 * p.denominator
  {
    if records != [] {
      var n := |records| - 1;
      RecordsPercentInRange(records[..n]);
      PercentInRange(records[n].dna);
    }
  }
}
