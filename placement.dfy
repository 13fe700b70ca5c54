/** Where the segments of one source sequence go: length sampling, the sliding window, the tail, and the
    strand of each emitted segment. Randomness is replaced by a stream of draws supplied by the caller, and the
    floating-point step by a rational one. */
module Placement {

  /** Orientation of an emitted segment: `+` keeps the bases, `-` reverse-complements them. */
  datatype Strand = Forward | Reverse

  /** The strand of the segment emitted while the run-wide segment counter reads `n`. */
  function StrandOf(n: nat): (s: Strand)
    ensures s == Forward <==> n % 2 == 0
  {
    if n % 2 == 0 then Forward else Reverse
  }

  /** The strands alternate, starting with `+`. */
  lemma StrandAlternates(n: nat)
    ensures StrandOf(0) == Forward
    ensures StrandOf(n + 1) != StrandOf(n)
  {
  }

  /** A number `num / den` in the unit interval: one value drawn from the skewed distribution. */
  datatype Fraction = Fraction(num: nat, den: nat)
  type UnitFraction = x: Fraction | 0 < x.den && x.num <= x.den witness Fraction(0, 1)


  /** The command-line parameters: the length range `min-max` and the step as the fraction
      `stepNum / stepDen` of the current length. */
  datatype Config = Config(minLength: nat, maxLength: nat, stepNum: nat, stepDen: nat)

  /** The range must not be inverted (its width is an unsigned subtraction), and the step must advance the
      window by at least one position for every length in the range (otherwise the window never moves). */
  predicate ValidConfig(c: Config)
  {
    c.minLength <= c.maxLength && 0 < c.stepDen && c.stepDen <= c.stepNum * c.minLength
  }

  lemma DivAtMost(a: nat, d: nat, m: nat)
    requires 0 < d && a <= d * m
    ensures a / d <= m
  {
  }

  lemma DivAtLeast(a: nat, d: nat, m: nat)
    requires 0 < d && d * m <= a
    ensures m <= a / d
  {
    var q, r := a / d, a % d;
    assert a == d * q + r && r < d;
    if q < m {
      MulMonotone(q + 1, m, d);
    }
  }

  lemma MulMonotone(a: nat, b: nat, w: nat)
    requires a <= b
    ensures a * w <= b * w
  {
  }

  /** One segment length: `min + floor(x * (max - min))` for a draw `x` in the unit interval. */
  function SampleLength(c: Config, x: UnitFraction): (r: nat)
    requires c.minLength <= c.maxLength
    ensures c.minLength <= r <= c.maxLength
    ensures x.num == 0 ==> r == c.minLength
    ensures x.num == x.den ==> r == c.maxLength
  {
    var w := c.maxLength - c.minLength;
    MulMonotone(x.num, x.den, w);
    DivAtMost(x.num * w, x.den, w);
    DivAtLeast(x.den * w, x.den, w);
    c.minLength + (x.num * w) / x.den
  }

  /** The lengths the sampler yields over the whole run, which shares one generator across all source
      sequences: `draws(k)` is the k-th length drawn. */
  type Draws = nat -> nat

  /** A configuration together with a sampler whose every length lies in the configured range, as every
      `SampleLength` does. */
  ghost predicate Valid(c: Config, draws: Draws)
  {
    ValidConfig(c) && forall k :: c.minLength <= draws(k) <= c.maxLength
  }

  /** Lengths computed by the formula from any stream of draws in the unit interval are valid. */
  lemma SampledDrawsAreValid(c: Config, xs: nat -> UnitFraction)
    requires ValidConfig(c)
    ensures Valid(c, k => SampleLength(c, xs(k)))
  {
    var draws: Draws := k => SampleLength(c, xs(k));
    forall k
      ensures c.minLength <= draws(k) <= c.maxLength
    {
      assert draws(k) == SampleLength(c, xs(k));
    }
  }

  lemma StepBounds(c: Config, seg: nat)
    requires ValidConfig(c) && c.minLength <= seg
    ensures 1 <= (c.stepNum * seg) / c.stepDen
    ensures c.stepNum <= c.stepDen ==> (c.stepNum * seg) / c.stepDen <= seg
    ensures c.stepNum == c.stepDen ==> (c.stepNum * seg) / c.stepDen == seg
  {
    MulMonotone(c.minLength, seg, c.stepNum);
    DivAtLeast(c.stepNum * seg, c.stepDen, 1);
    if c.stepNum <= c.stepDen {
      MulMonotone(c.stepNum, c.stepDen, seg);
      DivAtMost(c.stepNum * seg, c.stepDen, seg);
    }
    if c.stepNum == c.stepDen {
      DivAtLeast(c.stepNum * seg, c.stepDen, seg);
    }
  }

  /** How far the window moves after a segment of length `seg`: the step times the length, rounded down.
      It always moves; a step of at most one leaves no gap, and a step of exactly one moves by the whole
      length. */
  function Advance(c: Config, seg: nat): (r: nat)
    requires ValidConfig(c) && c.minLength <= seg
    ensures 1 <= r
    ensures c.stepNum <= c.stepDen ==> r <= seg
    ensures c.stepNum == c.stepDen ==> r == seg
  {
    StepBounds(c, seg);
    (c.stepNum * seg) / c.stepDen
  }

  /** The window loop's condition, `start + seg <= total - seg`, read over the integers: another window of
      the current length fits, leaving room for at least one more length after it. */
  function LoopGuard(start: nat, seg: nat, total: nat): (r: bool)
    ensures r <==> start + seg <= total as int - seg
    ensures r ==> start + seg <= total
  {
    start + 2 * seg <= total
  }

  /** What evaluating the guard does in the compiled program, where `total - seg` is an unsigned
      subtraction: it aborts when `seg` exceeds `total` (an overflow panic; a wrapped, release-build value
      instead lets the iteration run into an out-of-range slice, which panics as well). */
  datatype GuardOutcome = Aborts | Evaluates(holds: bool)

  function GuardAsWritten(start: nat, seg: nat, total: nat): (r: GuardOutcome)
    ensures r == Aborts <==> total < seg
  {
    if total < seg then Aborts else Evaluates(start + seg <= total - seg)
  }

  /** Where the two readings of the guard agree. */
  lemma GuardAgrees(start: nat, seg: nat, total: nat)
    requires seg <= total
    ensures GuardAsWritten(start, seg, total) == Evaluates(LoopGuard(start, seg, total))
  {
  }

  /** One emitted segment `[start, end)` with its strand and the value the alignment record reports as the
      number of matching residues and the block length. */
  datatype Piece = Piece(start: nat, end: nat, strand: Strand, blockLength: nat)

  /** The window loop's results: the segments it emitted, and its final `start`, draw index and counter. */
  datatype LoopEnd = LoopEnd(pieces: seq<Piece>, start: nat, draw: nat, counter: nat)

  /** The window loop from position `start`, with the current length taken from draw `k` and the segment
      counter at `n`. */
  function Loop(c: Config, draws: Draws, total: nat, start: nat, k: nat, n: nat): (l: LoopEnd)
    requires Valid(c, draws)
    decreases total - start
  {
    var seg := draws(k);
    if LoopGuard(start, seg, total) then
      var rest := Loop(c, draws, total, start + Advance(c, seg), k + 1, n + 1);
      rest.(pieces := [Piece(start, start + seg, StrandOf(n), seg)] + rest.pieces)
    else
      LoopEnd([], start, k, n)
  }

  /** The window loop resumed after it has already emitted `written`: the same loop, accumulating its
      segments after `written`. This is the form in which the loop's state is carried from one turn to the
      next. */
  function Resumed(c: Config, draws: Draws, total: nat, start: nat, k: nat, n: nat, written: seq<Piece>)
    : (l: LoopEnd)
    requires Valid(c, draws)
    decreases total - start
  {
    var seg := draws(k);
    if LoopGuard(start, seg, total) then
      Resumed(c, draws, total, start + Advance(c, seg), k + 1, n + 1,
              written + [Piece(start, start + seg, StrandOf(n), seg)])
    else
      LoopEnd(written, start, k, n)
  }

  /** One turn of the resumed loop: when the guard holds, the window at `start` is written and the loop goes on
      from the advanced start with the next draw and counter. */
  lemma ResumedStep(c: Config, draws: Draws, total: nat, start: nat, k: nat, n: nat, written: seq<Piece>)
    requires Valid(c, draws) && LoopGuard(start, draws(k), total)
    ensures Resumed(c, draws, total, start, k, n, written)
         == Resumed(c, draws, total, start + Advance(c, draws(k)), k + 1, n + 1,
                    written + [Piece(start, start + draws(k), StrandOf(n), draws(k))])
  {
  }

  /** Resuming after `written` emits `written` followed by exactly what the loop emits from that state, and
      ends in the same state. */
  lemma {:induction false} ResumedIsLoop(c: Config, draws: Draws, total: nat, start: nat, k: nat, n: nat,
                                         written: seq<Piece>)
    requires Valid(c, draws)
    ensures var l := Loop(c, draws, total, start, k, n);
      Resumed(c, draws, total, start, k, n, written) == l.(pieces := written + l.pieces)
    decreases total - start
  {
    var seg := draws(k);
    if LoopGuard(start, seg, total) {
      var p := Piece(start, start + seg, StrandOf(n), seg);
      ResumedIsLoop(c, draws, total, start + Advance(c, seg), k + 1, n + 1, written + [p]);
      var l := Loop(c, draws, total, start + Advance(c, seg), k + 1, n + 1);
      assert (written + [p]) + l.pieces == written + ([p] + l.pieces);
    } else {
      assert written + [] == written;
    }
  }

  /** The segments of one source sequence of length `total`, with the next draw index and the counter
      after it. */
  datatype RecordEnd = RecordEnd(pieces: seq<Piece>, next: nat, counter: nat)

  /** One source sequence: a sequence shorter than its first length is emitted whole; otherwise the window
      loop runs from 0 and whatever it leaves uncovered is emitted as one tail segment. */
  function Record(c: Config, draws: Draws, total: nat, k: nat, n: nat): (r: RecordEnd)
    requires Valid(c, draws)
  {
    var seg := draws(k);
    if total < seg then
      RecordEnd([Piece(0, total, StrandOf(n), total)], k + 1, n + 1)
    else
      var l := Loop(c, draws, total, 0, k, n);
      if l.start < total then
        RecordEnd(l.pieces + [Piece(l.start, total, StrandOf(l.counter), draws(l.draw))],
                  l.draw + 1, l.counter + 1)
      else
        RecordEnd(l.pieces, l.draw + 1, l.counter)
  }

  /** A sequence at least as long as its first length: the window loop's segments, then the tail if the loop
      left any of the sequence uncovered. */
  lemma RecordFromWindow(c: Config, draws: Draws, total: nat, k0: nat, n0: nat,
                         pieces: seq<Piece>, start: nat, k: nat, n: nat)
    requires Valid(c, draws) && draws(k0) <= total
    requires Loop(c, draws, total, 0, k0, n0) == LoopEnd(pieces, start, k, n)
    ensures Record(c, draws, total, k0, n0)
         == if start < total then RecordEnd(pieces + [Piece(start, total, StrandOf(n), draws(k))], k + 1, n + 1)
            else RecordEnd(pieces, k + 1, n)
  {
  }

  /** How the window loop ends: one segment per draw it consumed, the counter advanced once per segment,
      the window never moved backwards, and it stopped at the first draw whose length no longer fits twice. */
  lemma {:induction false} LoopEndState(c: Config, draws: Draws, total: nat, start: nat, k: nat, n: nat)
    requires Valid(c, draws)
    ensures var l := Loop(c, draws, total, start, k, n);
      && |l.pieces| == l.draw - k == l.counter - n
      && start <= l.start
      && !LoopGuard(l.start, draws(l.draw), total)
      && (|l.pieces| == 0 ==> l.start == start)
    decreases total - start
  {
    var seg := draws(k);
    if LoopGuard(start, seg, total) {
      LoopEndState(c, draws, total, start + Advance(c, seg), k + 1, n + 1);
    }
  }

  /** The i-th segment the window loop emits is exactly as long as draw `k + i` and leaves room for one more
      such length before `total`. */
  lemma {:induction false} LoopPieces(c: Config, draws: Draws, total: nat, start: nat, k: nat, n: nat)
    requires Valid(c, draws)
    ensures var l := Loop(c, draws, total, start, k, n);
      forall i :: 0 <= i < |l.pieces| ==>
        && l.pieces[i].blockLength == draws(k + i)
        && l.pieces[i].end == l.pieces[i].start + l.pieces[i].blockLength
        && l.pieces[i].end + l.pieces[i].blockLength <= total
    decreases total - start
  {
    var seg := draws(k);
    if LoopGuard(start, seg, total) {
      var s' := start + Advance(c, seg);
      LoopPieces(c, draws, total, s', k + 1, n + 1);
      LoopEndState(c, draws, total, s', k + 1, n + 1);
      var rest := Loop(c, draws, total, s', k + 1, n + 1);
      var l := Loop(c, draws, total, start, k, n);
      forall i | 1 <= i < |l.pieces|
        ensures l.pieces[i] == rest.pieces[i - 1]
      {
      }
    }
  }

  /** The i-th segment the window loop emits carries the strand of counter `n + i`. */
  lemma {:induction false} LoopStrands(c: Config, draws: Draws, total: nat, start: nat, k: nat, n: nat)
    requires Valid(c, draws)
    ensures var l := Loop(c, draws, total, start, k, n);
      forall i :: 0 <= i < |l.pieces| ==> l.pieces[i].strand == StrandOf(n + i)
    decreases total - start
  {
    var seg := draws(k);
    if LoopGuard(start, seg, total) {
      var s' := start + Advance(c, seg);
      LoopStrands(c, draws, total, s', k + 1, n + 1);
      LoopEndState(c, draws, total, s', k + 1, n + 1);
      var rest := Loop(c, draws, total, s', k + 1, n + 1);
      var l := Loop(c, draws, total, start, k, n);
      forall i | 1 <= i < |l.pieces|
        ensures l.pieces[i] == rest.pieces[i - 1]
      {
      }
    }
  }

  /** Every segment the window loop emits starts between the loop's first and final positions. */
  lemma {:induction false} LoopStartsBetween(c: Config, draws: Draws, total: nat, start: nat, k: nat, n: nat)
    requires Valid(c, draws)
    ensures var l := Loop(c, draws, total, start, k, n);
      forall i :: 0 <= i < |l.pieces| ==> start <= l.pieces[i].start < l.start
    decreases total - start
  {
    var seg := draws(k);
    if LoopGuard(start, seg, total) {
      var s' := start + Advance(c, seg);
      LoopStartsBetween(c, draws, total, s', k + 1, n + 1);
      LoopEndState(c, draws, total, s', k + 1, n + 1);
      var rest := Loop(c, draws, total, s', k + 1, n + 1);
      var l := Loop(c, draws, total, start, k, n);
      forall i | 1 <= i < |l.pieces|
        ensures l.pieces[i] == rest.pieces[i - 1]
      {
      }
    }
  }

  /** Segment `next` starts where the advance after segment `prev`, by `prev`'s length, ends. */
  predicate Follows(c: Config, prev: Piece, next: Piece)
  {
    ValidConfig(c) && c.minLength <= prev.blockLength && next.start == prev.start + Advance(c, prev.blockLength)
  }

  /** Each segment of `p` after the first follows the one before it. */
  predicate Chained(c: Config, p: seq<Piece>)
  {
    forall i :: 1 <= i < |p| ==> Follows(c, p[i - 1], p[i])
  }

  /** The window loop's first segment starts at `start`, and its final position is where the advance after
      its last segment ends. */
  lemma {:induction false} LoopEnds(c: Config, draws: Draws, total: nat, start: nat, k: nat, n: nat)
    requires Valid(c, draws)
    ensures var l := Loop(c, draws, total, start, k, n);
      |l.pieces| > 0 ==>
        var last := l.pieces[|l.pieces| - 1];
        && l.pieces[0].start == start
        && c.minLength <= last.blockLength
        && l.start == last.start + Advance(c, last.blockLength)
    decreases total - start
  {
    var seg := draws(k);
    if LoopGuard(start, seg, total) {
      var s' := start + Advance(c, seg);
      LoopEnds(c, draws, total, s', k + 1, n + 1);
      var rest := Loop(c, draws, total, s', k + 1, n + 1);
      var l := Loop(c, draws, total, start, k, n);
      if |rest.pieces| > 0 {
        assert l.pieces[|l.pieces| - 1] == rest.pieces[|rest.pieces| - 1];
      }
    }
  }

  /** Consecutive segments of the window loop: each next one starts where the advance after the previous
      one ends. */
  lemma {:induction false} LoopChain(c: Config, draws: Draws, total: nat, start: nat, k: nat, n: nat)
    requires Valid(c, draws)
    ensures Chained(c, Loop(c, draws, total, start, k, n).pieces)
    decreases total - start
  {
    var seg := draws(k);
    if LoopGuard(start, seg, total) {
      var s' := start + Advance(c, seg);
      LoopChain(c, draws, total, s', k + 1, n + 1);
      LoopEnds(c, draws, total, s', k + 1, n + 1);
      var rest := Loop(c, draws, total, s', k + 1, n + 1);
      var l := Loop(c, draws, total, start, k, n);
      forall i | 1 <= i < |l.pieces|
        ensures Follows(c, l.pieces[i - 1], l.pieces[i])
      {
        if i > 1 {
          assert l.pieces[i - 1] == rest.pieces[i - 2] && l.pieces[i] == rest.pieces[i - 1];
        }
      }
    }
  }

  /** Segment starts strictly increase along `p`. */
  predicate StartsIncrease(p: seq<Piece>)
  {
    forall i, j :: 0 <= i < j < |p| ==> p[i].start < p[j].start
  }

  /** Along a chain of segments the starts strictly increase, since every advance moves by at least one. */
  lemma {:induction false} ChainedStartsIncrease(c: Config, p: seq<Piece>)
    requires Chained(c, p)
    ensures StartsIncrease(p)
  {
    if |p| > 1 {
      var q := p[..|p| - 1];
      forall i | 1 <= i < |q|
        ensures Follows(c, q[i - 1], q[i])
      {
        assert q[i - 1] == p[i - 1] && q[i] == p[i];
      }
      ChainedStartsIncrease(c, q);
      forall i, j | 0 <= i < j < |p|
        ensures p[i].start < p[j].start
      {
        if j < |p| - 1 {
          assert p[i] == q[i] && p[j] == q[j];
        } else {
          assert Follows(c, p[j - 1], p[j]);
          if i < j - 1 {
            assert p[i] == q[i] && p[j - 1] == q[j - 1];
          }
        }
      }
    }
  }

  /** Segment starts strictly increase along the window loop. */
  lemma LoopStartsIncrease(c: Config, draws: Draws, total: nat, start: nat, k: nat, n: nat)
    requires Valid(c, draws)
    ensures StartsIncrease(Loop(c, draws, total, start, k, n).pieces)
  {
    LoopChain(c, draws, total, start, k, n);
    ChainedStartsIncrease(c, Loop(c, draws, total, start, k, n).pieces);
  }

  /** A sequence shorter than its first sampled length is emitted whole, as one segment whose alignment
      reports the whole length, and uses up one draw and one count. */
  lemma RecordShort(c: Config, draws: Draws, total: nat, k: nat, n: nat)
    requires Valid(c, draws) && total < draws(k)
    ensures Record(c, draws, total, k, n) == RecordEnd([Piece(0, total, StrandOf(n), total)], k + 1, n + 1)
  {
  }

  /** One sequence yields at least one segment, advances the counter once per segment and uses up at least
      one draw. */
  lemma RecordCount(c: Config, draws: Draws, total: nat, k: nat, n: nat)
    requires Valid(c, draws)
    ensures var r := Record(c, draws, total, k, n);
      1 <= |r.pieces| == r.counter - n && k < r.next
  {
    if draws(k) <= total {
      LoopEndState(c, draws, total, 0, k, n);
    }
  }

  /** The i-th segment of one sequence carries the strand of counter `n + i`. */
  lemma RecordStrands(c: Config, draws: Draws, total: nat, k: nat, n: nat)
    requires Valid(c, draws)
    ensures var r := Record(c, draws, total, k, n);
      forall i :: 0 <= i < |r.pieces| ==> r.pieces[i].strand == StrandOf(n + i)
  {
    if draws(k) <= total {
      var l := Loop(c, draws, total, 0, k, n);
      LoopEndState(c, draws, total, 0, k, n);
      LoopStrands(c, draws, total, 0, k, n);
      var r := Record(c, draws, total, k, n);
      if l.start < total {
        assert r.pieces == l.pieces + [Piece(l.start, total, StrandOf(l.counter), draws(l.draw))];
      }
    }
  }

  /** Every segment of one sequence lies inside it and is non-empty unless the sequence is; every segment but
      the last is exactly as long as its sampled length, which lies in the configured range. */
  lemma RecordInside(c: Config, draws: Draws, total: nat, k: nat, n: nat)
    requires Valid(c, draws)
    ensures var r := Record(c, draws, total, k, n);
      forall i :: 0 <= i < |r.pieces| ==>
        && r.pieces[i].start <= r.pieces[i].end <= total
        && (0 < total ==> r.pieces[i].start < r.pieces[i].end)
    ensures var r := Record(c, draws, total, k, n);
      forall i :: 0 <= i < |r.pieces| - 1 ==>
        && r.pieces[i].end == r.pieces[i].start + r.pieces[i].blockLength
        && c.minLength <= r.pieces[i].blockLength <= c.maxLength
  {
    if draws(k) <= total {
      var l := Loop(c, draws, total, 0, k, n);
      LoopEndState(c, draws, total, 0, k, n);
      LoopPieces(c, draws, total, 0, k, n);
      var r := Record(c, draws, total, k, n);
      if l.start < total {
        assert r.pieces == l.pieces + [Piece(l.start, total, StrandOf(l.counter), draws(l.draw))];
      }
    }
  }

  /** Segment starts strictly increase within one sequence. */
  lemma RecordStartsIncrease(c: Config, draws: Draws, total: nat, k: nat, n: nat)
    requires Valid(c, draws)
    ensures StartsIncrease(Record(c, draws, total, k, n).pieces)
  {
    if draws(k) <= total {
      var l := Loop(c, draws, total, 0, k, n);
      LoopEndState(c, draws, total, 0, k, n);
      LoopStartsBetween(c, draws, total, 0, k, n);
      LoopStartsIncrease(c, draws, total, 0, k, n);
      if l.start < total {
        StartsIncreaseSnoc(l.pieces, Piece(l.start, total, StrandOf(l.counter), draws(l.draw)));
      }
    }
  }

  lemma StartsIncreaseSnoc(r: seq<Piece>, x: Piece)
    requires StartsIncrease(r)
    requires forall i :: 0 <= i < |r| ==> r[i].start < x.start
    ensures StartsIncrease(r + [x])
  {
    var p := r + [x];
    forall i, j | 0 <= i < j < |p|
      ensures p[i].start < p[j].start
    {
      assert p[i] == r[i];
    }
  }

  /** The tail: when the window loop stops short of the end, one more segment runs from the loop's final
      position exactly to the end; it is shorter than twice the last sampled length, and its alignment
      reports that sampled length rather than its own. */
  lemma RecordTail(c: Config, draws: Draws, total: nat, k: nat, n: nat)
    requires Valid(c, draws) && draws(k) <= total
    ensures var l, r := Loop(c, draws, total, 0, k, n), Record(c, draws, total, k, n);
      && (l.start < total ==>
            && r.pieces == l.pieces + [Piece(l.start, total, StrandOf(l.counter), draws(l.draw))]
            && total - l.start < 2 * draws(l.draw))
      && (total <= l.start ==> r.pieces == l.pieces)
  {
    LoopEndState(c, draws, total, 0, k, n);
  }

  /** With a step of at most one the segments leave no gap: the first starts at 0, each next one starts
      no later than the previous one ends, and the last ends at the end of the sequence. With a step of
      exactly one they tile the sequence: each next one starts exactly where the previous one ends. */
  lemma RecordCovers(c: Config, draws: Draws, total: nat, k: nat, n: nat)
    requires Valid(c, draws) && c.stepNum <= c.stepDen
    ensures var p := Record(c, draws, total, k, n).pieces;
      && |p| > 0 && p[0].start == 0 && p[|p| - 1].end == total
      && (forall i :: 1 <= i < |p| ==> p[i].start <= p[i - 1].end)
      && (c.stepNum == c.stepDen ==> forall i :: 1 <= i < |p| ==> p[i].start == p[i - 1].end)
  {
    var seg := draws(k);
    if seg <= total {
      var l := Loop(c, draws, total, 0, k, n);
      LoopEndState(c, draws, total, 0, k, n);
      LoopPieces(c, draws, total, 0, k, n);
      LoopEnds(c, draws, total, 0, k, n);
      LoopChain(c, draws, total, 0, k, n);
      var m := |l.pieces|;
      if m > 0 {
        assert l.start <= l.pieces[m - 1].end;
      }
      assert l.start < total;
      var t := Piece(l.start, total, StrandOf(l.counter), draws(l.draw));
      var p := Record(c, draws, total, k, n).pieces;
      assert p == l.pieces + [t];
      forall i | 1 <= i < |p|
        ensures p[i].start <= p[i - 1].end
        ensures c.stepNum == c.stepDen ==> p[i].start == p[i - 1].end
      {
        assert p[i - 1] == l.pieces[i - 1];
      }
    }
  }

  /** A sequence of length 10 split with lengths 4-4 and step 1 gives `[0,4)` on `+` and the tail `[4,10)`
      on `-`: the loop already stops at 4 because a second window must leave room for a third length. */
  lemma RecordExample(draws: Draws)
    requires Valid(Config(4, 4, 1, 1), draws)
    ensures Record(Config(4, 4, 1, 1), draws, 10, 0, 0).pieces
         == [Piece(0, 4, Forward, 4), Piece(4, 10, Reverse, 4)]
  {
    var c := Config(4, 4, 1, 1);
    assert draws(0) == 4 && draws(1) == 4;
    assert Advance(c, 4) == 4;
    assert Loop(c, draws, 10, 4, 1, 1) == LoopEnd([], 4, 1, 1);
  }

  /** The guard's unsigned subtraction is reachable with a length larger than the sequence: with lengths
      4-20 and step 1, draws of 0 and 7/16 sample the lengths 4 and 11; the sequence of length 10 gets the
      window `[0,4)`, and the resampled length 11 makes `10 - 11` underflow, where the integer reading ends
      the loop and emits the tail `[4,10)`. */
  lemma GuardUnderflowReachable(draws: Draws)
    requires Valid(Config(4, 20, 1, 1), draws) && draws(0) == 4 && draws(1) == 11
    ensures SampleLength(Config(4, 20, 1, 1), Fraction(0, 1)) == 4
    ensures SampleLength(Config(4, 20, 1, 1), Fraction(7, 16)) == 11
    ensures var c := Config(4, 20, 1, 1);
      && Loop(c, draws, 10, 0, 0, 0) == LoopEnd([Piece(0, 4, Forward, 4)], 4, 1, 1)
      && GuardAsWritten(4, draws(1), 10) == Aborts
      && Record(c, draws, 10, 0, 0).pieces == [Piece(0, 4, Forward, 4), Piece(4, 10, Reverse, 11)]
  {
    var c := Config(4, 20, 1, 1);
    assert Advance(c, 4) == 4;
    assert Loop(c, draws, 10, 4, 1, 1) == LoopEnd([], 4, 1, 1);
  }
}
