/** The splitting run over a whole FASTA file: each source sequence in file order, with the random
    generator's position and the segment counter carried from one sequence to the next. */
module Splitter {
  import opened Nucleotide
  import opened Placement
  import opened Alignment

  /** One record of the input file, as the FASTA reader delivers it. */
  datatype SourceRecord = SourceRecord(name: string, bases: seq<byte>)

  /** Everything written so far and the state carried forward: the next draw of the generator and the
      segment counter. */
  datatype Output = Output(fasta: seq<FastaRecord>, paf: seq<PafRecord>, next: nat, counter: nat)

  /** The output for one source sequence, starting at draw `k` with the counter at `n`. */
  function RecordOutput(c: Config, draws: Draws, name: string, bases: seq<byte>, k: nat, n: nat): (o: Output)
    requires Valid(c, draws)
    ensures |o.fasta| == |o.paf| == o.counter - n
    ensures k < o.next
  {
    var r := Record(c, draws, |bases|, k, n);
    RecordCount(c, draws, |bases|, k, n);
    RecordInside(c, draws, |bases|, k, n);
    Output(Segments(name, bases, r.pieces), Pafs(name, |bases|, r.pieces), r.next, r.counter)
  }

  /** The output for the records in order, starting at draw `k` with the counter at `n`. */
  function Plan(c: Config, draws: Draws, records: seq<SourceRecord>, k: nat, n: nat): (o: Output)
    requires Valid(c, draws)
  {
    if records == [] then Output([], [], k, n)
    else
      var before := Plan(c, draws, records[..|records| - 1], k, n);
      var last := records[|records| - 1];
      var o := RecordOutput(c, draws, last.name, last.bases, before.next, before.counter);
      Output(before.fasta + o.fasta, before.paf + o.paf, o.next, o.counter)
  }

  /** The j-th records written carry the strand of counter `n + j`, and each FASTA record carries the label
      of its alignment line. */
  predicate Alternating(fasta: seq<FastaRecord>, paf: seq<PafRecord>, n: nat)
  {
    && |fasta| == |paf|
    && forall j :: 0 <= j < |paf| ==> paf[j].strand == StrandOf(n + j) && fasta[j].header == paf[j].queryName
  }

  lemma AlternatingConcat(f1: seq<FastaRecord>, p1: seq<PafRecord>, f2: seq<FastaRecord>, p2: seq<PafRecord>, n: nat, m: nat)
    requires Alternating(f1, p1, n) && m == n + |p1| && Alternating(f2, p2, m)
    ensures Alternating(f1 + f2, p1 + p2, n)
  {
    var f, p := f1 + f2, p1 + p2;
    forall j | |p1| <= j < |p|
      ensures p[j].strand == StrandOf(n + j) && f[j].header == p[j].queryName
    {
      assert p[j] == p2[j - |p1|] && f[j] == f2[j - |p1|];
    }
  }

  /** Within one sequence the i-th segment carries the strand of counter `n + i`, and its two records
      carry the same label. */
  lemma RecordOutputStrands(c: Config, draws: Draws, name: string, bases: seq<byte>, k: nat, n: nat)
    requires Valid(c, draws)
    ensures var o := RecordOutput(c, draws, name, bases, k, n); Alternating(o.fasta, o.paf, n)
  {
    var r := Record(c, draws, |bases|, k, n);
    RecordInside(c, draws, |bases|, k, n);
    RecordStrands(c, draws, |bases|, k, n);
    forall i | 0 <= i < |r.pieces|
      ensures Paf(name, |bases|, r.pieces[i]).strand == StrandOf(n + i)
    {
      RecordsAgree(name, bases, r.pieces[i]);
    }
  }

  /** The segment counter is never reset between sequences: over the whole run the j-th segment written
      carries the strand of counter `n + j`, the counter ends advanced by the number of segments, and each
      FASTA record and its alignment line carry the same label. */
  lemma {:induction false} PlanStrands(c: Config, draws: Draws, records: seq<SourceRecord>, k: nat, n: nat)
    requires Valid(c, draws)
    ensures var o := Plan(c, draws, records, k, n);
      |o.paf| == o.counter - n && Alternating(o.fasta, o.paf, n)
    decreases |records|
  {
    if records != [] {
      var init := records[..|records| - 1];
      PlanStrands(c, draws, init, k, n);
      var before := Plan(c, draws, init, k, n);
      var last := records[|records| - 1];
      RecordOutputStrands(c, draws, last.name, last.bases, before.next, before.counter);
      var r := RecordOutput(c, draws, last.name, last.bases, before.next, before.counter);
      AlternatingConcat(before.fasta, before.paf, r.fasta, r.paf, n, before.counter);
    }
  }

  /** `fasta` and `paf` hold the records of exactly the segments `pieces`, which lie within `bases`. */
  ghost predicate Written(name: string, bases: seq<byte>, fasta: seq<FastaRecord>, paf: seq<PafRecord>,
                          pieces: seq<Piece>)
  {
    && (forall i :: 0 <= i < |pieces| ==> pieces[i].start <= pieces[i].end <= |bases|)
    && fasta == Segments(name, bases, pieces) && paf == Pafs(name, |bases|, pieces)
  }

  /** Write one segment: its FASTA record on the primary output and its alignment line on the other. */
  method Emit(name: string, bases: seq<byte>, fasta: seq<FastaRecord>, paf: seq<PafRecord>,
              ghost pieces: seq<Piece>, p: Piece)
    returns (fasta': seq<FastaRecord>, paf': seq<PafRecord>)
    requires Written(name, bases, fasta, paf, pieces) && p.start <= p.end <= |bases|
    ensures Written(name, bases, fasta', paf', pieces + [p])
  {
    SegmentsSnoc(name, bases, pieces, p);
    PafsSnoc(name, |bases|, pieces, p);
    fasta' := fasta + [Segment(name, bases, p)];
    paf' := paf + [Paf(name, |bases|, p)];
  }

  /** The window loop's own state: `segLength` is the length of the current draw `k`, and resuming from
      `start`, `k` and `n` after the windows `pieces` ends where the whole loop ends, `target`. */
  ghost predicate OnCourse(c: Config, draws: Draws, total: nat, target: LoopEnd, pieces: seq<Piece>,
                           start: nat, segLength: nat, k: nat, n: nat)
  {
    && Valid(c, draws)
    && segLength == draws(k)
    && Resumed(c, draws, total, start, k, n, pieces) == target
  }

  /** One turn keeps the loop on course. */
  lemma StayOnCourse(c: Config, draws: Draws, total: nat, target: LoopEnd, pieces: seq<Piece>,
                     start: nat, segLength: nat, k: nat, n: nat)
    requires OnCourse(c, draws, total, target, pieces, start, segLength, k, n)
    requires start + segLength <= total - segLength
    ensures OnCourse(c, draws, total, target, pieces + [Piece(start, start + segLength, StrandOf(n), segLength)],
                     start + Advance(c, segLength), draws(k + 1), k + 1, n + 1)
  {
    ResumedStep(c, draws, total, start, k, n, pieces);
  }

  /** The placement half of one turn of the window loop: the window `[start, start + segLength)` on the strand
      of the counter, then count it, advance by the step and draw the next length. */
  method NextWindow(c: Config, draws: Draws, total: nat, ghost target: LoopEnd, ghost pieces: seq<Piece>,
                    start: nat, segLength: nat, k: nat, n: nat)
    returns (p: Piece, start': nat, segLength': nat, k': nat, n': nat)
    requires OnCourse(c, draws, total, target, pieces, start, segLength, k, n)
    requires start + segLength <= total - segLength
    ensures p == Piece(start, start + segLength, StrandOf(n), segLength) && p.end <= total
    ensures start' == start + Advance(c, segLength) && k' == k + 1 && n' == n + 1 && segLength' == draws(k')
    ensures OnCourse(c, draws, total, target, pieces + [p], start', segLength', k', n')
    ensures start < start'
  {
    p := Piece(start, start + segLength, StrandOf(n), segLength);
    StayOnCourse(c, draws, total, target, pieces, start, segLength, k, n);
    start', k', n' := start + Advance(c, segLength), k + 1, n + 1;
    segLength' := draws(k');
  }

  /** The window loop of one source sequence: while another window of the current length leaves room for
      one more length, take a turn. It starts at position 0 with the length `seg0` of draw `k0` and writes
      exactly what the window loop specifies; it ends with the current length that of draw `k`. */
  method SlideWindow(c: Config, draws: Draws, name: string, bases: seq<byte>, seg0: nat, k0: nat, n0: nat)
    returns (fasta: seq<FastaRecord>, paf: seq<PafRecord>, start: nat, segLength: nat, k: nat, n: nat,
             ghost pieces: seq<Piece>)
    requires Valid(c, draws) && seg0 == draws(k0)
    ensures segLength == draws(k)
    ensures Loop(c, draws, |bases|, 0, k0, n0) == LoopEnd(pieces, start, k, n)
    ensures forall i :: 0 <= i < |pieces| ==> pieces[i].start <= pieces[i].end <= |bases|
    ensures fasta == Segments(name, bases, pieces) && paf == Pafs(name, |bases|, pieces)
  {
    ghost var target := Loop(c, draws, |bases|, 0, k0, n0);
    start, segLength, k, n := 0, seg0, k0, n0;
    fasta, paf, pieces := [], [], [];
    ResumedIsLoop(c, draws, |bases|, 0, k0, n0, []);
    assert [] + target.pieces == target.pieces;
    // Over the integers, so `|bases| - segLength` cannot underflow here.
    while start + segLength <= |bases| - segLength
      invariant OnCourse(c, draws, |bases|, target, pieces, start, segLength, k, n)
      invariant Written(name, bases, fasta, paf, pieces)
      decreases |bases| - start
    {
      var p;
      p, start, segLength, k, n := NextWindow(c, draws, |bases|, target, pieces, start, segLength, k, n);
      fasta, paf := Emit(name, bases, fasta, paf, pieces, p);
      pieces := pieces + [p];
    }
  }

  /** Having written the records of exactly the segments of a sequence is producing its `RecordOutput`. */
  lemma OutputOfRecord(c: Config, draws: Draws, name: string, bases: seq<byte>, k0: nat, n0: nat,
                       fasta: seq<FastaRecord>, paf: seq<PafRecord>, pieces: seq<Piece>, k: nat, n: nat)
    requires Valid(c, draws) && Record(c, draws, |bases|, k0, n0) == RecordEnd(pieces, k, n)
    requires Written(name, bases, fasta, paf, pieces)
    ensures Output(fasta, paf, k, n) == RecordOutput(c, draws, name, bases, k0, n0)
  {
  }

  /** One source sequence, as the body of the record loop does it: draw a length; emit the whole sequence if
      it is shorter; otherwise run the window loop and emit what it leaves as the tail, reporting the last
      sampled length in its alignment line. `k` is the generator's position and `n` the segment counter,
      both before and after. */
  method SplitRecord(c: Config, draws: Draws, name: string, bases: seq<byte>, k0: nat, n0: nat)
    returns (fasta: seq<FastaRecord>, paf: seq<PafRecord>, k: nat, n: nat)
    requires Valid(c, draws)
    ensures Output(fasta, paf, k, n) == RecordOutput(c, draws, name, bases, k0, n0)
  {
    var segLength := draws(k0);
    ghost var pieces: seq<Piece>;
    if |bases| < segLength {
      var p := Piece(0, |bases|, StrandOf(n0), |bases|);
      fasta, paf := Emit(name, bases, [], [], [], p);
      k, n, pieces := k0 + 1, n0 + 1, [p];
      RecordShort(c, draws, |bases|, k0, n0);
      assert [] + [p] == [p];
    } else {
      var start;
      fasta, paf, start, segLength, k, n, pieces := SlideWindow(c, draws, name, bases, segLength, k0, n0);
      RecordFromWindow(c, draws, |bases|, k0, n0, pieces, start, k, n);
      if start < |bases| {
        var p := Piece(start, |bases|, StrandOf(n), segLength);
        fasta, paf := Emit(name, bases, fasta, paf, pieces, p);
        n, pieces := n + 1, pieces + [p];
      }
      k := k + 1;
    }
    OutputOfRecord(c, draws, name, bases, k0, n0, fasta, paf, pieces, k, n);
  }

  /** The whole run: the records in file order, with the generator and the segment counter (starting at 0)
      shared by all of them. Strands alternate over the whole output, `+` first, and every FASTA record
      carries the label of its alignment line. */
  method SplitFasta(c: Config, draws: Draws, records: seq<SourceRecord>)
    returns (fasta: seq<FastaRecord>, paf: seq<PafRecord>)
    requires Valid(c, draws)
    ensures var o := Plan(c, draws, records, 0, 0); fasta == o.fasta && paf == o.paf
    ensures |fasta| == |paf|
    ensures forall j :: 0 <= j < |paf| ==> (paf[j].strand == Forward <==> j % 2 == 0)
    ensures Alternating(fasta, paf, 0)
  {
    var k, n := 0, 0;
    fasta, paf := [], [];
    var i := 0;
    while i < |records|
      invariant 0 <= i <= |records|
      invariant Plan(c, draws, records[..i], 0, 0) == Output(fasta, paf, k, n)
    {
      assert records[..i + 1][..i] == records[..i];
      var f, p;
      f, p, k, n := SplitRecord(c, draws, records[i].name, records[i].bases, k, n);
      fasta, paf := fasta + f, paf + p;
      i := i + 1;
    }
    assert records[..|records|] == records;
    PlanStrands(c, draws, records, 0, 0);
  }
}
