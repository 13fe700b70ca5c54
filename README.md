# splitfa in Dafny

splitfa cuts every sequence of a FASTA file into segments of random length. It writes each segment as a
FASTA record on standard output and, on standard error, as a synthetic exact-match alignment line in PAF
format. Consecutive segments alternate between the forward strand (`+`, the bases as they are) and the
reverse strand (`-`, the reverse complement). The label `name!start-end!strand` of each segment records
where it was cut, so the output can serve as ground truth when evaluating aligners.

This project models the core of that program (`src/main.rs`) and proves properties of the model:

- `nucleotide.dfy`, module `Nucleotide`: the byte-wise complement table and the reverse complement. Both
  are pure functions, as in the source.
- `placement.dfy`, module `Placement`: where the segments of one sequence go. This covers:
  - the single segment when the sequence is shorter than its first sampled length;
  - the sliding window `while start + seg <= total - seg`, advancing by `floor(step * seg)` and
    resampling the length after every window;
  - the tail segment;
  - the strand taken from the parity of the run-wide segment counter, which is never reset between
    sequences.

  `Loop` and `Record` state this placement as recursive functions. The lemmas about them are the
  properties the program relies on.
- `header.dfy`, module `Header`: the label `name!start-end!strand`, with decimal rendering and a parser
  that reads a label back.
- `alignment.dfy`, module `Alignment`: the FASTA record and the PAF line of one segment, column by column.
  The tail's quirk is kept: its residue-match and block-length columns carry the last sampled length, not
  the tail's own length.
- `splitter.dfy`, module `Splitter`: the imperative part, as methods with loops.
  - `SplitFasta` is the loop over the records.
  - `SplitRecord` is the body of that loop.
  - `SlideWindow` is the window loop, with one turn split into `NextWindow` (placement) and `Emit`
    (output).

  Each method is proved against the functions of `Placement` and `Alignment`. `Plan` is the output of
  the whole run; `PlanStrands` proves that strands alternate across the whole output.

Two things outside the program's control become parameters:

- The random generator: a `Draws` stream gives the k-th sampled length of the run. The generator is
  shared by all sequences, so `k` runs on from one sequence to the next. `SampleLength` is the
  `min + floor(x * (max - min))` formula for a draw `x` in the unit interval. `SampledDrawsAreValid`
  shows that lengths computed by it satisfy the validity predicate `Valid`, which every operation requires.
- The floating-point step: it is the rational `stepNum / stepDen`.

The code is followed throughout, with one exception: the guard of line 91 is read over the integers. So
where the source aborts on an underflow, the model ends the loop and emits the tail (see "## Findings").
For example, a sequence of length 10 split with lengths 4-4 and step 1 gives two segments, `[0,4)` and
the tail `[4,10)`, not three. After the first window the guard `4 + 4 <= 10 - 4` already fails, because
the loop always keeps room for one more length after the current window (`RecordExample`).

## Model

| member | source | states |
|---|---|---|
| Nucleotide.Complement | src/main.rs:18-32 | each of `a c g t u A C G T U` maps to its Watson-Crick DNA partner (`u`/`U` pair with adenine) in the same case; every other byte maps to `N` |
| Nucleotide.ComplementRange | src/main.rs:18-32 | every complement is a DNA base or `N` |
| Nucleotide.ComplementInvolution | src/main.rs:18-32 | complementing twice gives the byte back exactly when it is a DNA base or `N` (so `u` comes back as `t`, and an ambiguity code as `N`) |
| Nucleotide.RevComp | src/main.rs:46-56 | same length as the input; position `i` holds the complement of position `len - 1 - i` |
| Nucleotide.RevCompInvolution | src/main.rs:46-56 | reverse-complementing twice gives the sequence back if and only if every byte is a DNA base or `N` |
| Nucleotide.RevCompInvolutionOnDna | src/main.rs:46-56 | on sequences over `ACGTacgt` the reverse complement is its own inverse |
| Nucleotide.RevCompConcat | src/main.rs:46-56 | the reverse complement of `a + b` is that of `b` followed by that of `a` |
| Nucleotide.RevCompExample | src/main.rs:42 | `ACGTN` becomes `NACGT` |
| Nucleotide.RevCompCaseExample | src/main.rs:43 | `GaTtaCA` becomes `TGtaAtC`: case is kept base by base |
| Nucleotide.RevCompCollapsesUnrecognised | src/main.rs:30 | a stretch of bytes outside the table becomes a stretch of `N` of the same length |
| Nucleotide.RevCompAmbiguityExample | src/main.rs:46-56 | `AYn` becomes `NNT`: the ambiguity code `Y` and lower-case `n` both become `N` |
| Placement.StrandOf | src/main.rs:73 | `+` exactly when the segment counter is even |
| Placement.StrandAlternates | src/main.rs:63 | the counter starts at `+` and every increment flips the strand |
| Placement.SampleLength | src/main.rs:71 | the sampled length lies in `[min, max]`; a draw of 0 gives `min` and a draw of 1 gives `max` |
| Placement.SampledDrawsAreValid | src/main.rs:112 | every stream of lengths drawn with the sampling formula lies within the configured range |
| Placement.Advance | src/main.rs:110 | the window always advances by at least one position; a step of at most 1 advances by at most the length; a step of exactly 1 advances by the length |
| Placement.LoopGuard | src/main.rs:91 | the loop condition read over the integers: true exactly when `start + seg <= total - seg`, and then the window lies inside the sequence |
| Placement.GuardAsWritten | src/main.rs:91 | the condition as compiled, with an unsigned `total - seg`, aborts exactly when `seg > total` |
| Placement.GuardAgrees | src/main.rs:91 | when `seg <= total`, the compiled condition and the integer condition give the same answer |
| Placement.GuardUnderflowReachable | src/main.rs:91 | a resampled length larger than the sequence reaches the unsigned subtraction (counterexample below) |
| Placement.Loop | src/main.rs:91-113 | the window loop from a given start, draw and counter, as a recursive function: it has no contract of its own, and the `Loop*` lemmas below state its properties |
| Placement.ResumedStep | src/main.rs:91-113 | one turn of the window loop: the window at `start` is emitted, then the loop goes on from the advanced start with the next draw and the next counter |
| Placement.ResumedIsLoop | src/main.rs:91-113 | resuming the loop after segments already written appends exactly what the loop emits from that state and ends in the same state |
| Placement.LoopEndState | src/main.rs:91-113 | the loop consumes one draw and one count per segment, never moves back, and stops at the first draw whose length does not fit twice |
| Placement.LoopPieces | src/main.rs:91-105 | the i-th window is exactly as long as draw `k + i` and leaves room for one more such length before the end |
| Placement.LoopStrands | src/main.rs:92-108 | the i-th window carries the strand of counter `n + i` |
| Placement.LoopStartsBetween | src/main.rs:91-113 | every window starts between the loop's first and final positions |
| Placement.LoopEnds | src/main.rs:91-113 | the first window starts at the loop's start; the final position is the last window's start plus `Advance` of the last window's length |
| Placement.LoopChain | src/main.rs:110 | each next window starts at the previous one's start advanced by the step of the previous length |
| Placement.ChainedStartsIncrease | src/main.rs:110 | along such a chain, window starts strictly increase |
| Placement.LoopStartsIncrease | src/main.rs:91-113 | window starts strictly increase along the loop |
| Placement.Record | src/main.rs:64-135 | the segments of one sequence, with the next draw and counter: it has no contract of its own, and the `Record*` lemmas below state its properties |
| Placement.RecordFromWindow | src/main.rs:114-134 | after the loop, a tail `[start, total)` with the last sampled length is added exactly when the loop stopped short of the end |
| Placement.RecordShort | src/main.rs:72-89 | a sequence shorter than its first length becomes one segment `[0, total)` whose alignment reports the whole length; it uses one draw and one count |
| Placement.RecordTail | src/main.rs:114-134 | the tail runs from the loop's final position to the end and is shorter than twice the last sampled length; without a tail the segments are the loop's |
| Placement.RecordCount | src/main.rs:64-135 | one sequence yields at least one segment, advances the counter once per segment and uses at least one draw |
| Placement.RecordStrands | src/main.rs:73-133 | the i-th segment of a sequence carries the strand of counter `n + i` |
| Placement.RecordInside | src/main.rs:91-130 | every segment lies inside the sequence and is non-empty unless the sequence is; every segment but the last is exactly as long as its sampled length, which lies in the configured range |
| Placement.RecordStartsIncrease | src/main.rs:91-134 | segment starts strictly increase within a sequence |
| Placement.RecordCovers | src/main.rs:91-134 | with a step of at most 1 the segments leave no gap: the first starts at 0, each next one starts no later than the previous one ends, and the last ends at the end of the sequence; with a step of exactly 1 they tile it |
| Placement.RecordExample | src/main.rs:91-134 | length 10, lengths 4-4, step 1 gives `[0,4)` on `+` and the tail `[4,10)` on `-` |
| Header.Decimal | src/main.rs:92 | a number is written as a non-empty string of decimal digits in canonical form: a single digit exactly for numbers below 10, and a leading `0` only for 0 itself |
| Header.StrandSymbol | src/main.rs:73 | the strand is written `+` for the forward strand and `-` for the reverse strand |
| Header.Label | src/main.rs:92 | the label starts with the name followed by `!` and ends with `!` and the strand symbol, with at least one digit for each coordinate in between; `LabelRoundTrip` shows it determines name, coordinates and strand |
| Header.DecimalRoundTrip | src/main.rs:92 | reading a written number gives the number back |
| Header.LabelRoundTrip | src/main.rs:92 | every label `name!start-end!strand` reads back as its name, coordinates and strand, whatever `!`, `-` or digits the name holds |
| Header.LabelExample | src/main.rs:73 | segment `[0,10)` of `chr1` on `-` is labelled `chr1!0-10!-` |
| Alignment.Paf | src/main.rs:80-131 | the alignment line of any segment (the whole-sequence line of lines 80-86, the window line of lines 99-106 and the tail line of lines 124-131) claims a gap-free match without mismatches: query span `[0, len)` equals the cigar length and the target span, edit distance 0, mapping quality 60 |
| Alignment.Oriented | src/main.rs:93-97 | the bases as written on a strand: unchanged on `+`; on `-`, position `i` holds the complement of position `len - 1 - i` (the same on lines 74-78 and 118-122) |
| Alignment.Segment | src/main.rs:92-97 | the FASTA record holds exactly as many bases as the segment is long |
| Alignment.PafNameReadsBack | src/main.rs:99-104 | the query name of an alignment line reads back as its target name, target range and strand |
| Alignment.SegmentRecoversSource | src/main.rs:93-97 | orienting a record's bases back by its strand gives the source slice when the slice holds only DNA bases and `N` (on `+` it always does) |
| Alignment.RecordsAgree | src/main.rs:92-106 | a segment's FASTA record and alignment line carry the same label, base count and range; residue matches equal the query length exactly when the reported length is the segment's own length |
| Alignment.Segments | src/main.rs:92-97 | the FASTA records of a run of segments, one per segment, in order |
| Alignment.Pafs | src/main.rs:99-106 | the alignment lines of a run of segments, one per segment, in order |
| Alignment.TailReportsSampledLength | src/main.rs:124-131 | the tail `[4,10)` of a sequence of length 10 is reported with query length 6 but 4 residue matches in a block of 4 |
| Splitter.RecordOutput | src/main.rs:64-135 | one sequence yields as many FASTA records as alignment lines, one per count, and uses at least one draw |
| Splitter.Plan | src/main.rs:58-139 | the output of the whole run, record by record, with the generator and counter carried from one record to the next: it has no contract of its own, and `PlanStrands` states its properties |
| Splitter.RecordOutputStrands | src/main.rs:73-133 | within one sequence the i-th records carry the strand of counter `n + i`, and each FASTA header is the query name of its alignment line |
| Splitter.PlanStrands | src/main.rs:63 | over the whole run the j-th records carry the strand of counter `n + j`: the counter is never reset between sequences |
| Splitter.Emit | src/main.rs:92-106 | writing a segment appends its FASTA record and its alignment line, so the written output is that of the segments so far plus this one |
| Splitter.NextWindow | src/main.rs:91-112 | one turn emits the window `[start, start + seg)` on the counter's strand; the new state is the start advanced by `Advance` of the length, the next draw and its length, and the counter plus one; it moves strictly forward and keeps the loop on course towards the loop's specification |
| Splitter.SlideWindow | src/main.rs:91-113 | the window loop writes exactly the records of the segments `Loop` specifies and ends in `Loop`'s final state |
| Splitter.SplitRecord | src/main.rs:64-135 | one sequence writes exactly `RecordOutput`: the records of the segments `Record` specifies, and the next draw and counter |
| Splitter.SplitFasta | src/main.rs:58-139 | the whole run writes exactly `Plan`; FASTA records and alignment lines pair up; the j-th is on `+` exactly when `j` is even, and each FASTA header is the query name of its line |

## Left out

- Reading FASTA (`seq_io` reader, `full_seq`, `id`): the model starts from a sequence of records, each a name and its bases. The panics of `unwrap` on malformed input are not modelled.
- The command line (`main`, `clap`, parsing `min-max` and the step): the parameters are a `Config`.
- The random generator and the Beta(1.5, 15) distribution: the lengths are a supplied stream `Draws`, constrained only to lie in the configured range. `SampleLength` gives the formula for one draw.
- Floating point: the step is an exact rational, and a draw times the range is exact before it is truncated. The rounding of `f32` and `f64` products is not modelled.
- Text output: `println!`, `eprint!` and `str::from_utf8(...).unwrap()` become sequences of `FastaRecord` and `PafRecord` values. The PAF line is modelled field by field, not as tab-separated text.
- The `Result` return of `split_fasta` and the unused `BetaError`: the value returned is always `Ok`.
- The documentation comments above `revcomp` that come from another library: lines 36-37 and 44 do not hold for this table (`NaCgT` gives `AcGtN`, and ambiguity codes become `N`; see `RevCompCollapsesUnrecognised`).
- The commented-out pull-back of the tail start (line 115) and the commented-out PAF file output.
- Machine integers: positions and the segment counter are unbounded. An overflow of `start + seg_length` in 64 bits is not modelled. Neither is the overflow of the `i32` counter `num_seq` (line 63) after 2^31 segments: a debug build panics there, while a release build wraps and keeps the parity.
- Placement.Loop, Placement.LoopGuard: the guard of line 91 is evaluated over the integers. When a resampled length exceeds the sequence, the model ends the loop and emits the tail, where the source aborts on the unsigned subtraction (see "## Findings").
- Placement.ValidConfig: requires `min <= max`, because `seg_length_max - seg_length_min` underflows otherwise (line 59).
- Placement.ValidConfig: requires `stepNum * min >= stepDen`, which excludes configurations where a length in the range advances the window by 0 (a small or negative step, truncated to 0). There the source emits the next window at the same start, so `RecordStartsIncrease` does not hold for it. It loops forever only when every length drawn that fits advances by 0.

## Findings

| source | as written | input that shows it | evidently intended | confidence | as-written member | corrected member |
|---|---|---|---|---|---|---|
| src/main.rs:91 | the loop condition computes `total_length - seg_length` in `usize` after `seg_length` has been resampled at line 112. The first length is checked against the sequence (line 72); the resampled ones are not. A resampled length larger than the sequence underflows: a debug build panics, and a release build wraps around, enters the loop and panics on the out-of-range slice | a sequence of length 10, lengths 4-20, step 1, draws 0 and 7/16 (lengths 4 and 11): after the window `[0,4)`, evaluating `10 - 11` aborts | the loop ends, and the tail `[4,10)` is emitted | not executed | Placement.GuardAsWritten (shown by Placement.GuardUnderflowReachable) | Placement.LoopGuard |
