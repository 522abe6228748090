/** Reverse complement (03_revc/revc.py): reverse the sequence, then swap A
    with T and C with G through a translation table. */
module Revc {

  /** `dna[::-1]`. */
  function Reverse(dna: string): (r: string)
    ensures |r| == |dna|
    ensures forall i :: 0 <= i < |dna| ==> r[i] == dna[|dna| - 1 - i]
  {
    if dna == [] then [] else Reverse(dna[1..]) + [dna[0]]
  }

  /** `str.maketrans(from, to)`: the i-th character of `from` maps to the i-th
      character of `to`; a character listed twice keeps its last image. */
  function MakeTrans(from: string, to: string): (table: map<char, char>)
    requires |from| == |to|
    ensures forall c :: c in table <==> c in from
  {
    if from == [] then map[]
    else MakeTrans(from[..|from| - 1], to[..|to| - 1])[from[|from| - 1] := to[|to| - 1]]
  }

  /** `_generate_dna_complementation_table`: the table has an entry for each
      of A, T, C and G, mapping it to its complement. */
  function ComplementTable(): (table: map<char, char>)
    ensures table == map['A' := 'T', 'T' := 'A', 'C' := 'G', 'G' := 'C']
  {
    ComplementTableContents();
    MakeTrans("ATCG", "TAGC")
  }

  /** The base-by-base complement the table is meant to encode; any other
      character (lower case included) is its own image. */
  function ComplementBase(c: char): char
  {
    match c
    case 'A' => 'T'
    case 'T' => 'A'
    case 'C' => 'G'
    case 'G' => 'C'
    case _ => c
  }

  /** Adding one more pair to `maketrans`'s arguments adds (or overwrites)
      one entry. */
  lemma MakeTransSnoc(from: string, to: string, c: char, d: char)
    requires |from| == |to|
    ensures MakeTrans(from + [c], to + [d]) == MakeTrans(from, to)[c := d]
  {
  }

  /** `maketrans` maps each character of `from` to the character of `to` at
      the position of its last occurrence in `from`. */
  lemma {:induction false} MakeTransValues(from: string, to: string)
    requires |from| == |to|
    ensures forall i :: 0 <= i < |from| && from[i] !in from[i + 1..] ==> MakeTrans(from, to)[from[i]] == to[i]
  {
    if from != [] {
      var n := |from| - 1;
      MakeTransValues(from[..n], to[..n]);
      forall i | 0 <= i < |from| && from[i] !in from[i + 1..]
        ensures MakeTrans(from, to)[from[i]] == to[i]
      {
        if i < n {
          assert from[n] in from[i + 1..];
          assert from[..n][i + 1..] == from[i + 1..n];
        }
      }
    }
  }

  /** `maketrans('ATCG', 'TAGC')` maps exactly A, T, C, G, each to its
      complement. */
  lemma ComplementTableContents()
    ensures MakeTrans("ATCG", "TAGC") == map['A' := 'T', 'T' := 'A', 'C' := 'G', 'G' := 'C']
  {
    MakeTransSnoc("", "", 'A', 'T');
    MakeTransSnoc("A", "T", 'T', 'A');
    MakeTransSnoc("AT", "TA", 'C', 'G');
    MakeTransSnoc("ATC", "TAG", 'G', 'C');
    assert "" + ['A'] == "A" && "" + ['T'] == "T";
    assert "A" + ['T'] == "AT" && "T" + ['A'] == "TA";
    assert "AT" + ['C'] == "ATC" && "TA" + ['G'] == "TAG";
    assert "ATC" + ['G'] == "ATCG" && "TAG" + ['C'] == "TAGC";
  }

  /** The table is its own inverse. */
  lemma ComplementTableSelfInverse()
    ensures var table := ComplementTable();
      forall c :: c in table ==> table[c] in table && table[table[c]] == c
  {
  }

  /** `s.translate(table)`: characters with an entry are replaced, all others
      are kept. */
  function Translate(s: string, table: map<char, char>): (r: string)
    ensures |r| == |s|
    ensures forall i :: 0 <= i < |s| ==> r[i] == (if s[i] in table then table[s[i]] else s[i])
  {
    if s == [] then []
    else [if s[0] in table then table[s[0]] else s[0]] + Translate(s[1..], table)
  }

  /** `complement`: A, T, C, G are complemented position by position and
      every other character is left unchanged. */
  function Complement(dna: string): (r: string)
    ensures |r| == |dna|
    ensures forall i :: 0 <= i < |dna| ==> r[i] == ComplementBase(dna[i])
  {
    Translate(dna, ComplementTable())
  }

  lemma ReverseInvolution(dna: string)
    ensures Reverse(Reverse(dna)) == dna
  {
  }

  lemma ComplementInvolution(dna: string)
    ensures Complement(Complement(dna)) == dna
  {
  }

  /** `RevComp.solve`: reverse first, then complement. Position i of the
      answer is the complement of position |dna|-1-i of the input. */
  function Solve(dna: string): (r: string)
    ensures |r| == |dna|
    ensures forall i :: 0 <= i < |dna| ==> r[i] == ComplementBase(dna[|dna| - 1 - i])
  {
    Complement(Reverse(dna))
  }

  /** The reverse complement of the reverse complement is the input, for any
      string at all. */
  lemma SolveInvolution(dna: string)
    ensures Solve(Solve(dna)) == dna
  {
    ReverseComplementCommute(Solve(dna));
    ComplementInvolution(Reverse(dna));
    ReverseInvolution(dna);
  }

  /** Reversing and complementing commute, so the order chosen in `solve`
      does not matter. */
  lemma ReverseComplementCommute(dna: string)
    ensures Complement(Reverse(dna)) == Reverse(Complement(dna))
  {
    var reversed, complemented := Reverse(dna), Complement(dna);
    var left, right := Complement(reversed), Reverse(complemented);
    assert |left| == |dna| == |right|;
    forall i | 0 <= i < |dna| ensures left[i] == right[i] {
      var j := |dna| - 1 - i;
      assert left[i] == ComplementBase(reversed[i]) == ComplementBase(dna[j]);
      assert right[i] == complemented[j] == ComplementBase(dna[j]);
    }
  }
}
