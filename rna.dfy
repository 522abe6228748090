/** Transcription (02_rna/rna.py): DNA to RNA by replacing every upper-case
    `T` with `U`. */
module Rna {

  /** `dna.replace('T', 'U')`: each position holding `T` now holds `U`; every
      other character, lower-case `t` included, is kept. */
  function Transcribe(dna: string): (rna: string)
    ensures |rna| == |dna|
    ensures forall i :: 0 <= i < |dna| ==> rna[i] == (if dna[i] == 'T' then 'U' else dna[i])
  {
    if dna == [] then []
    else [if dna[0] == 'T' then 'U' else dna[0]] + Transcribe(dna[1..])
  }

  /** No upper-case `T` survives transcription. */
  lemma NoUpperCaseT(dna: string)
    ensures 'T' !in Transcribe(dna)
  {
  }

  /** Transcribing twice is the same as transcribing once. */
  lemma TranscribeIdempotent(dna: string)
    ensures Transcribe(Transcribe(dna)) == Transcribe(dna)
  {
  }

  /** Transcription works character by character, so it distributes over
      concatenation. */
  lemma TranscribeConcat(a: string, b: string)
    ensures Transcribe(a + b) == Transcribe(a) + Transcribe(b)
  {
  }

  /** The contents of a file as the concatenation of its pieces (lines). */
  function Concat(pieces: seq<string>): string
  {
    if pieces == [] then "" else pieces[0] + Concat(pieces[1..])
  }

  /** Transcribing a whole file equals transcribing each of its pieces and
      joining the results. */
  lemma {:induction false} TranscribePieces(pieces: seq<string>)
    ensures Transcribe(Concat(pieces)) ==
      Concat(seq(|pieces|, i requires 0 <= i < |pieces| => Transcribe(pieces[i])))
  {
    var done := seq(|pieces|, i requires 0 <= i < |pieces| => Transcribe(pieces[i]));
    if pieces != [] {
      TranscribePieces(pieces[1..]);
      TranscribeConcat(pieces[0], Concat(pieces[1..]));
      assert done[1..] == seq(|pieces[1..]|, i requires 0 <= i < |pieces[1..]| => Transcribe(pieces[1..][i]));
    }
  }

  /** The `Transcription` object: it holds the DNA read from one file. */
  datatype Transcription = Transcription(dna: string)
  {
    /** `solve`: the transcription of the stored DNA. */
    function Solve(): (rna: string)
      ensures rna == Transcribe(dna)
      ensures |rna| == |dna| && 'T' !in rna
    {
      NoUpperCaseT(dna);
      Transcribe(dna)
    }
  }
}
