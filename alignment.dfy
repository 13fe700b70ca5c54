/** What is written for each segment: a two-line FASTA record on the primary output and a synthetic,
    exact-match PAF alignment line on the diagnostic output. */
module Alignment {
  import opened Nucleotide
  import opened Placement
  import opened Header

  /** The mapping quality every synthetic alignment claims. */
  const MappingQuality: nat := 60

  /** One PAF line, column by column, with its two tags: `NM:i:<editDistance>` and `cg:Z:<cigarMatches>=`. */
  datatype PafRecord = PafRecord(
    queryName: string, queryLength: nat, queryStart: nat, queryEnd: nat, strand: Strand,
    targetName: string, targetLength: nat, targetStart: nat, targetEnd: nat,
    residueMatches: nat, blockLength: nat, mappingQuality: nat,
    editDistance: nat, cigarMatches: nat)

  /** One segment on the primary output: the header line (without its `>`) and the bases line. */
  datatype FastaRecord = FastaRecord(header: string, bases: seq<byte>)

  /** The alignment line of segment `p` of the source sequence `name` of length `total`. It claims a
      gap-free match without mismatches: query span, target span and cigar agree, at mapping quality 60, and
      the query name is the segment's label. */
  function Paf(name: string, total: nat, p: Piece): (r: PafRecord)
    requires p.start <= p.end
    ensures r.queryStart == 0 && r.queryEnd == r.queryLength == r.cigarMatches
    ensures r.targetEnd - r.targetStart == r.queryLength
    ensures r.editDistance == 0 && r.mappingQuality == MappingQuality
  {
    PafRecord(Label(name, p.start, p.end, p.strand), p.end - p.start, 0, p.end - p.start, p.strand,
              name, total, p.start, p.end,
              p.blockLength, p.blockLength, MappingQuality,
              0, p.end - p.start)
  }

  /** The bases of `s` as written on strand `strand`. */
  function Oriented(s: seq<byte>, strand: Strand): (r: seq<byte>)
    ensures |r| == |s|
    ensures strand == Forward ==> r == s
    ensures strand == Reverse ==> forall i :: 0 <= i < |s| ==> r[i] == Complement(s[|s| - 1 - i])
  {
    if strand == Forward then s else RevComp(s)
  }

  /** The FASTA record of segment `p` of the source sequence `name` with bases `bases`: the segment's bases,
      reverse-complemented on the `-` strand, under the segment's label. */
  function Segment(name: string, bases: seq<byte>, p: Piece): (r: FastaRecord)
    requires p.start <= p.end <= |bases|
    ensures |r.bases| == p.end - p.start
  {
    FastaRecord(Label(name, p.start, p.end, p.strand), Oriented(bases[p.start..p.end], p.strand))
  }

  /** The query name of an alignment line reads back as its target name, target range and strand: the
      label carries the ground truth of where the segment was cut. */
  lemma PafNameReadsBack(name: string, total: nat, p: Piece)
    requires p.start <= p.end
    ensures var r := Paf(name, total, p);
      ParseLabel(r.queryName) == Labelled(Parsed(r.targetName, r.targetStart, r.targetEnd, r.strand))
  {
    LabelRoundTrip(name, p.start, p.end, p.strand);
  }

  /** Orienting a FASTA record's bases back by its strand gives the source slice whenever the slice holds only
      DNA bases and `N`; on `+` it always does. */
  lemma SegmentRecoversSource(name: string, bases: seq<byte>, p: Piece)
    requires p.start <= p.end <= |bases|
    requires p.strand == Reverse ==> forall i :: p.start <= i < p.end ==> IsStable(bases[i])
    ensures Oriented(Segment(name, bases, p).bases, p.strand) == bases[p.start..p.end]
  {
    if p.strand == Reverse {
      var s := bases[p.start..p.end];
      assert forall i :: 0 <= i < |s| ==> s[i] == bases[p.start + i];
      RevCompInvolution(s);
    }
  }

  /** A segment's two records describe it alike: same label, as many bases as the query length, and the
      target range is the segment; the match and block columns carry the reported length, which differs from
      the query length exactly when the piece reports another length (the tail). */
  lemma RecordsAgree(name: string, bases: seq<byte>, p: Piece)
    requires p.start <= p.end <= |bases|
    ensures var f, a := Segment(name, bases, p), Paf(name, |bases|, p);
      && f.header == a.queryName
      && |f.bases| == a.queryLength
      && a.targetName == name && a.targetLength == |bases|
      && a.targetStart == p.start && a.targetEnd == p.end && a.strand == p.strand
      && (a.residueMatches == a.queryLength <==> p.blockLength == p.end - p.start)
  {
  }

  /** The FASTA records of a run of segments, in order. */
  function Segments(name: string, bases: seq<byte>, ps: seq<Piece>): (r: seq<FastaRecord>)
    requires forall i :: 0 <= i < |ps| ==> ps[i].start <= ps[i].end <= |bases|
    ensures |r| == |ps|
    ensures forall i :: 0 <= i < |ps| ==> r[i] == Segment(name, bases, ps[i])
  {
    if ps == [] then []
    else
      var init := ps[..|ps| - 1];
      assert forall i :: 0 <= i < |init| ==> init[i] == ps[i];
      Segments(name, bases, init) + [Segment(name, bases, ps[|ps| - 1])]
  }

  /** The alignment lines of a run of segments, in order. */
  function Pafs(name: string, total: nat, ps: seq<Piece>): (r: seq<PafRecord>)
    requires forall i :: 0 <= i < |ps| ==> ps[i].start <= ps[i].end
    ensures |r| == |ps|
    ensures forall i :: 0 <= i < |ps| ==> r[i] == Paf(name, total, ps[i])
  {
    if ps == [] then []
    else
      var init := ps[..|ps| - 1];
      assert forall i :: 0 <= i < |init| ==> init[i] == ps[i];
      Pafs(name, total, init) + [Paf(name, total, ps[|ps| - 1])]
  }

  lemma SegmentsSnoc(name: string, bases: seq<byte>, ps: seq<Piece>, p: Piece)
    requires forall i :: 0 <= i < |ps| ==> ps[i].start <= ps[i].end <= |bases|
    requires p.start <= p.end <= |bases|
    ensures Segments(name, bases, ps + [p]) == Segments(name, bases, ps) + [Segment(name, bases, p)]
  {
    assert (ps + [p])[..|ps|] == ps;
  }

  lemma PafsSnoc(name: string, total: nat, ps: seq<Piece>, p: Piece)
    requires forall i :: 0 <= i < |ps| ==> ps[i].start <= ps[i].end
    requires p.start <= p.end
    ensures Pafs(name, total, ps + [p]) == Pafs(name, total, ps) + [Paf(name, total, p)]
  {
    assert (ps + [p])[..|ps|] == ps;
  }

  /** The tail's alignment line: the match and block columns report the last sampled length, not the
      tail's own length. A sequence of length 10 split with lengths 4-4 and step 1 ends with the tail
      `[4,10)`, whose line says query length 6 but 4 matching residues in a block of 4. */
  lemma TailReportsSampledLength(draws: Draws)
    requires Valid(Config(4, 4, 1, 1), draws)
    ensures var p := Record(Config(4, 4, 1, 1), draws, 10, 0, 0).pieces;
      var a := Paf("s", 10, p[1]);
      a.queryLength == 6 && a.cigarMatches == 6 && a.residueMatches == 4 && a.blockLength == 4
  {
    RecordExample(draws);
  }
}
