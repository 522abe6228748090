# Bioinformatics exercises in Dafny

A Dafny model of six small sequence routines: base counting, DNA-to-RNA
transcription, reverse complement, the rabbit recurrence, GC content and
Hamming distance. Each has one module, and the modules share nothing:

| file | module | models |
|---|---|---|
| dna.dfy | `Dna` | `DNACounts`: a `Counter` over the sequence, reported as `"<A> <C> <G> <T>"` |
| rna.dfy | `Rna` | `Transcription`: `T` replaced by `U` |
| revc.dfy | `Revc` | `RevComp`: reverse, then translate through the table A↔T, C↔G |
| fib.dfy | `Fib` | `Fibonacci`: a two-term window slid in place, plus the argument range checks |
| gc.dfy | `Gc` | `CGC`: count of G/C/g/c, percentage, and the id → percentage map |
| hamm.dfy | `Hamm` | `Hamm.solve`: mismatches over `zip(seq1, seq2)` |

Strings are `seq<char>` and integers are unbounded, like Python's `int`.
Operations written as expressions become functions. The two counting loops
(`count_gc` and `Hamm.solve`) are methods with loop invariants, proved
against a recursive function. `Fibonacci` is a class: its window `fib_seq`
is a `seq<int>` field that each call reassigns (append, then drop the
oldest), and it keeps its value from one call to the next. Python
exceptions become result values: `UnboundLocalError` when
`calculate_fib_number` never enters its loop, and `ZeroDivisionError` for
an empty sequence in the GC percentage.

Three behaviours of the code that a reader might not expect are modelled as
written:
- `calculate_fib_number` raises `UnboundLocalError` when `generations <= 1`,
  although `get_args` accepts `generations == 1`: the loop body never runs,
  so `fib_num` is never bound.
- `Hamm.solve` compares only the first `min(len(seq1), len(seq2))`
  positions, because `zip` truncates. Trailing characters are not counted
  as mismatches.
- `CGC.solve` returns the whole id → percentage dictionary; it selects no
  maximum.

## Model

| member | source | states |
|---|---|---|
| `Dna.CountDnaBases` | 01_dna/dna.py:39-49 | `Counter(seq)` has a key exactly for each character occurring in the sequence, and every stored count is positive |
| `Dna.CountDnaBasesMultiplicity` | 01_dna/dna.py:39-49 | the counter has a key exactly for each character present. The count looked up for any character equals its number of occurrences in the sequence, case-sensitively |
| `Dna.CountsAdditive` | 01_dna/dna.py:47 | the count of a character in `s + t` is its count in `s` plus its count in `t` |
| `Dna.ReportedCountsBound` | 01_dna/dna.py:59-64 | the four reported counts add up to at most the length. They equal it exactly when every character is one of A, C, G, T |
| `Dna.Decimal` | 01_dna/dna.py:60-63 | `str(n)` is a non-empty string of digits whose first digit is 0 only for n = 0, and `str(0)` is exactly "0" |
| `Dna.DecimalRoundTrip` | 01_dna/dna.py:60-63 | reading the decimal string of a count gives back the count |
| `Dna.SplitJoin` | 01_dna/dna.py:66 | splitting a space-joined line on single spaces gives back the fields, when no field contains a space |
| `Dna.FormatCounts` | 01_dna/dna.py:51-66 | splitting the line on spaces gives exactly four fields: the decimal strings of the counts of A, C, G and T, in that order, with 0 for a missing key |
| `Dna.FormatCountsFields` | 01_dna/dna.py:51-66 | the line has exactly four decimal fields. In order they read back as the counts of A, C, G and T, with 0 for a missing key |
| `Dna.Solve` | 01_dna/dna.py:29-37 | the answer splits into exactly four fields: the decimal numbers of occurrences of A, C, G and T in the sequence, in that order |
| `Dna.SolveReportsCounts` | 01_dna/dna.py:29-37 | field k of the answer (k = 0..3) is a decimal string. It reads as the number of positions holding exactly the k-th letter of ACGT |
| `Dna.AbsentBaseReportedAsZero` | 01_dna/dna.py:60-63 | a base that does not occur is reported as "0" |
| `Dna.SolveEmpty` | 01_dna/dna.py:59-66 | the empty sequence gives "0 0 0 0" |
| `Rna.Transcribe` | 02_rna/rna.py:70-78 | the output has the input's length. Each `T` becomes `U`, and every other character, including `t`, is unchanged |
| `Rna.NoUpperCaseT` | 02_rna/rna.py:78 | no upper-case `T` remains after transcription |
| `Rna.TranscribeIdempotent` | 02_rna/rna.py:78 | transcribing twice gives the same result as transcribing once |
| `Rna.TranscribeConcat` | 02_rna/rna.py:78 | transcription distributes over concatenation |
| `Rna.TranscribePieces` | 02_rna/rna.py:19 | transcribing a whole file's contents equals transcribing each piece and joining the results |
| `Rna.Transcription.Solve` | 02_rna/rna.py:59-68 | `solve` returns the transcription of the stored DNA. It has the same length and contains no `T`. The stored DNA is a value and is never changed |
| `Revc.Reverse` | 03_revc/revc.py:62-70 | the reverse has the same length, and its position i holds input position \|s\|-1-i |
| `Revc.MakeTrans` | 03_revc/revc.py:60 | `str.maketrans(from, to)` has an entry exactly for each character of `from` |
| `Revc.MakeTransValues` | 03_revc/revc.py:60 | `str.maketrans(from, to)` maps each character of `from` to the character of `to` at the position of its last occurrence in `from` |
| `Revc.ComplementTableContents` | 03_revc/revc.py:60 | `maketrans('ATCG', 'TAGC')` maps A→T, T→A, C→G, G→C and nothing else |
| `Revc.ComplementTable` | 03_revc/revc.py:54-60 | the complementation table is exactly {A→T, T→A, C→G, G→C} |
| `Revc.ComplementTableSelfInverse` | 03_revc/revc.py:60 | the table is its own inverse: every image is again a key and maps back |
| `Revc.Translate` | 03_revc/revc.py:52 | `translate` keeps the length. A character with a table entry is replaced, and any other character passes through |
| `Revc.Complement` | 03_revc/revc.py:42-52 | complementing maps A↔T and C↔G position by position, and every other character (lower case too) is unchanged |
| `Revc.ReverseInvolution` | 03_revc/revc.py:70 | reversing twice gives back the input |
| `Revc.ComplementInvolution` | 03_revc/revc.py:42-60 | complementing twice gives back the input, for any string |
| `Revc.Solve` | 03_revc/revc.py:31-40 | the answer has the input's length, and its position i is the complement of input position \|s\|-1-i |
| `Revc.SolveInvolution` | 03_revc/revc.py:31-40 | the reverse complement of the reverse complement is the input, for every string |
| `Revc.ReverseComplementCommute` | 03_revc/revc.py:37-38 | reverse-then-complement equals complement-then-reverse |
| `Fib.CheckArgs` | 04_fib/fib.py:92-98 | the arguments are accepted exactly when 1 ≤ generations ≤ 40 and 1 ≤ litter ≤ 5. Generations is checked first |
| `Fib.Step` | 04_fib/fib.py:49-51 | append-then-popleft leaves a two-element window two elements long |
| `Fib.AdvanceFromSeed` | 04_fib/fib.py:27-51 | from [0, 1], k iterations leave the window [a(k), a(k+1)], where a(n+2) = litter·a(n) + a(n+1) |
| `Fib.AdvanceCompose` | 04_fib/fib.py:48-51 | j iterations followed by k more equal j + k iterations |
| `Fib.LitterOneIsFibonacci` | 04_fib/fib.py:49 | with litter 1 the sequence is the ordinary Fibonacci sequence |
| `Fib.FreshObjectResult` | 04_fib/fib.py:48-53 | on a fresh object with generations ≥ 2, the final window's newest term is a(generations) |
| `Fib.SecondCallContinues` | 04_fib/fib.py:38-53 | a second call resumes from the advanced window. Calls with g1 and then g2 generations end on a(g1 + g2 - 1) |
| `Fib.RabbitsSample` | 04_fib/fib.py:49 | five generations with litter 3 give 19 |
| `Fib.Fibonacci.constructor` | 04_fib/fib.py:20-27 | a new object stores its arguments and starts with the window [0, 1] |
| `Fib.Fibonacci.CalculateFibNumber` | 04_fib/fib.py:38-53 | the window stays two long and advances generations - 1 times (no times when generations ≤ 1). The result is its newest term, or `UnboundLocalError` when generations ≤ 1 |
| `Fib.Fibonacci.Solve` | 04_fib/fib.py:30-36 | `solve` is the same call made with the stored arguments |
| `Fib.TwoCallsOnOneObject` | 04_fib/fib.py:38-53 | on one object, two calls with 3 generations and litter 1 return 2 and then 5 |
| `Fib.OneGeneration` | 04_fib/fib.py:48-53 | a single generation ends in `UnboundLocalError` |
| `Gc.CountGc` | 05_gc/cgc.py:71-84 | the loop's counter ends equal to the G/C count of the whole sequence. After i characters it equals the count of the first i |
| `Gc.GcCountByBase` | 05_gc/cgc.py:79-84 | the count is the number of G, C, g and c occurrences and no others, so it is 0 for the empty sequence |
| `Gc.GcCountBounds` | 05_gc/cgc.py:79-84 | 0 ≤ count ≤ length. The count equals the length exactly when every character is G/C, and it is 0 exactly when none is |
| `Gc.GcCountConcat` | 05_gc/cgc.py:79-84 | the count is additive over concatenation |
| `Gc.ComputePercentGc` | 05_gc/cgc.py:57-68 | an empty sequence gives `ZeroDivisionError`. Otherwise the percentage is the fraction 100 × (number of G, C, g and c occurrences) / length, and it is at most 100 |
| `Gc.PercentInRange` | 05_gc/cgc.py:65-66 | a defined percentage lies in [0, 100]: its denominator is positive and its numerator is at most 100 times the denominator |
| `Gc.ComputeRecordsPercentGc` | 05_gc/cgc.py:43-54 | the map is produced exactly when no record's sequence is empty. Otherwise the result is `ZeroDivisionError` |
| `Gc.RecordsKeys` | 05_gc/cgc.py:52 | the map's keys are exactly the record ids |
| `Gc.RecordsLastWins` | 05_gc/cgc.py:52 | an id maps to the percentage of the last record carrying it |
| `Gc.RecordsPercentInRange` | 05_gc/cgc.py:52 | every value in the map lies in [0, 100], in the same fraction sense |
| `Hamm.Solve` | 06_hamm/hamm.py:28-39 | the loop's counter ends equal to the mismatch count over the zipped pairs. After k pairs it equals the count over the first k |
| `Hamm.DistanceCountsPositions` | 06_hamm/hamm.py:34-37 | the distance is the number of indices i < min(\|seq1\|, \|seq2\|) with seq1[i] ≠ seq2[i] |
| `Hamm.DistanceBound` | 06_hamm/hamm.py:34-37 | the distance is at most min(\|seq1\|, \|seq2\|) |
| `Hamm.DistanceZeroIff` | 06_hamm/hamm.py:35-36 | the distance is 0 exactly when the two strings agree on their common length |
| `Hamm.DistanceSelf` | 06_hamm/hamm.py:36 | every string is at distance 0 from itself |
| `Hamm.DistanceSymmetric` | 06_hamm/hamm.py:35-36 | the distance is symmetric |
| `Hamm.DistanceIgnoresTail` | 06_hamm/hamm.py:35 | cutting both strings to the shorter length does not change the distance |
| `Hamm.TrailingCharacterIgnored` | 06_hamm/hamm.py:35 | the distance from "A" to "AG" is 0 |
| `Hamm.CaseSensitive` | 06_hamm/hamm.py:36 | the distance from "a" to "A" is 1 |

## Left out

- Command-line parsing, `main` and printing are not modelled. In 04_fib/fib.py only the range checks of `get_args` are modelled, as `Fib.CheckArgs`. The argparse exit (`parser.error`) is not.
- Reading the sequence from a file when the argument names one (01_dna/dna.py:90-91, 03_revc/revc.py:99-100) is operating-system I/O.
- `InputOutput` (directory creation and output-path building) and the file-writing loop in 02_rna/rna.py are filesystem side effects. The text written for each file is `Rna.Transcription.Solve` of that file's contents (02_rna/rna.py:19). `Rna.TranscribePieces` gives the piecewise view: transcribing the whole text equals joining the transcriptions of its pieces.
- FASTA parsing by Biopython's `SeqIO.parse` is a foreign library. Records arrive already parsed, as a sequence of (id, sequence) pairs.
- `CGC.solve` passes the map from `compute_fasta_records_percent_gc` through unchanged, so it is not a separate member. Its `str` return annotation is wrong: it returns the dictionary.
- `Gc.ComputeRecordsPercentGc`: key order is not modelled. The Python dictionary keeps each id where it first occurs, and `main` prints it in that order. A Dafny `map` has no order, so the model states only which keys are present and which value each gets.
- `Gc.ComputePercentGc` keeps the percentage as the exact fraction (100 × count, length) rather than a rounded IEEE double, because floating point is not modelled. `Percent.Value` gives the real number it stands for. The bounds are stated on the fraction.
- The `DNACounts`, `RevComp` and `Transcription` objects only hold their input string. The first two are modelled as functions of that string. `Transcription` is modelled as a value whose `Solve` reads the stored string.
- 03_revc/reverse.py (random test-data generation) uses a random library and is not part of any exercise's logic.
