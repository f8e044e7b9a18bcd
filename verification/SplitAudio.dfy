/**
 * Cutting an audio file into chunks that do not exceed a size limit
 * (backend/open_webui/routers/audio.py:1103-1143).  Times are milliseconds; the encoded size of an
 * interval is an arbitrary function of its ends.
 */
module SplitAudio {
  import opened Basics

  /** The encoded size of audio[start:end]. */
  type SizeOf = (nat, nat) -> nat

  datatype Span = Span(start: nat, end: nat)

  // ----- one chunk ---------------------------------------------------------------------------------

  /** Where a chunk ends: halved while too large and longer than five seconds. */
  function Shrink(size: SizeOf, maxBytes: nat, start: nat, end: nat): (cut: nat)
    requires start <= end
    ensures start <= cut <= end
    ensures size(start, cut) <= maxBytes || cut - start <= 5000
    ensures cut == end || cut - start >= 2500
    decreases end - start
  {
    if size(start, end) > maxBytes && end - start > 5000
    then Shrink(size, maxBytes, start, start + (end - start) / 2)
    else end
  }

  /** How often the chunk is encoded on the way. */
  function ShrinkExports(size: SizeOf, maxBytes: nat, start: nat, end: nat): nat
    requires start <= end
    decreases end - start
  {
    if size(start, end) > maxBytes && end - start > 5000
    then 1 + ShrinkExports(size, maxBytes, start, start + (end - start) / 2)
    else 1
  }

  /** How many halvings bring a length to five seconds or below. */
  function Halvings(length: nat): nat {
    if length <= 5000 then 0 else 1 + Halvings(length / 2)
  }

  lemma {:induction false} HalvingsGrow(a: nat, b: nat)
    requires a <= b
    ensures Halvings(a) <= Halvings(b)
    decreases b
  {
    if b > 5000 {
      HalvingsGrow(a / 2, b / 2);
    }
  }

  lemma {:induction false} ShrinkExportsBounded(size: SizeOf, maxBytes: nat, start: nat, end: nat)
    requires start <= end
    ensures 1 <= ShrinkExports(size, maxBytes, start, end) <= 1 + Halvings(end - start)
    decreases end - start
  {
    if end - start > 5000 {
      ShrinkExportsBounded(size, maxBytes, start, start + (end - start) / 2);
    }
  }

  // ----- all chunks --------------------------------------------------------------------------------

  /** The length first tried for each chunk. */
  function ApproxChunk(duration: nat, maxBytes: nat, fileSize: nat): (approx: nat)
    requires fileSize > 0
    ensures approx >= 1000
  {
    Max(duration * maxBytes / fileSize - 1000, 1000)
  }

  /**
   * A second past the first length is the longest whose share of the file, at its average rate, keeps
   * within the limit, unless that is less than two seconds.
   */
  lemma ApproxChunkIs(duration: nat, maxBytes: nat, fileSize: nat)
    requires fileSize > 0
    ensures var approx := ApproxChunk(duration, maxBytes, fileSize);
      && duration * maxBytes < (approx + 1001) * fileSize
      && (approx > 1000 ==> (approx + 1000) * fileSize <= duration * maxBytes)
  {
    var share, approx := duration * maxBytes / fileSize, ApproxChunk(duration, maxBytes, fileSize);
    assert share * fileSize <= duration * maxBytes < (share + 1) * fileSize;
    assert share + 1 <= approx + 1001;
    assert (share + 1) * fileSize <= (approx + 1001) * fileSize;
  }

  /** The chunks cut so far; when some chunk could not be made to fit, where it began and ended. */
  datatype Plan = Plan(spans: seq<Span>, stuck: Option<Span>, exports: nat)

  function Cut(size: SizeOf, maxBytes: nat, approx: nat, duration: nat, start: nat): nat
    requires approx > 0 && start < duration
  {
    Shrink(size, maxBytes, start, Min(start + approx, duration))
  }

  function PlanFrom(size: SizeOf, maxBytes: nat, approx: nat, duration: nat, start: nat): Plan
    requires approx > 0
    decreases duration - start
  {
    if start >= duration then Plan([], None, 0)
    else
      var end := Cut(size, maxBytes, approx, duration, start);
      var n := ShrinkExports(size, maxBytes, start, Min(start + approx, duration));
      if size(start, end) > maxBytes then Plan([], Some(Span(start, end)), n)
      else
        var rest := PlanFrom(size, maxBytes, approx, duration, end);
        Plan([Span(start, end)] + rest.spans, rest.stuck, n + rest.exports)
  }

  /** Consecutive non-empty intervals from `start` to `end`. */
  ghost predicate Tiles(spans: seq<Span>, start: nat, end: nat) {
    if spans == [] then start == end
    else spans[0].start == start && start < spans[0].end && Tiles(spans[1..], spans[0].end, end)
  }

  /** Where the chunks cut so far end. */
  ghost function Reached(plan: Plan, duration: nat): nat {
    if plan.stuck.Some? then plan.stuck.value.start else duration
  }

  /**
   * The chunks tile the audio in order without gap or overlap, up to its end or to the chunk that
   * could not be made to fit, and each of them fits.
   */
  lemma {:induction false} ChunksCover(size: SizeOf, maxBytes: nat, approx: nat, duration: nat, start: nat)
    requires approx > 0 && start <= duration
    ensures var plan := PlanFrom(size, maxBytes, approx, duration, start);
      && Tiles(plan.spans, start, Reached(plan, duration))
      && (forall i :: 0 <= i < |plan.spans| ==>
            plan.spans[i].start < plan.spans[i].end && size(plan.spans[i].start, plan.spans[i].end) <= maxBytes)
    decreases duration - start
  {
    if start < duration {
      ChunksCover(size, maxBytes, approx, duration, Cut(size, maxBytes, approx, duration, start));
    }
  }

  /** Splitting only gives up on an interval of at most five seconds that does not fit. */
  lemma {:induction false} StuckIsShort(size: SizeOf, maxBytes: nat, approx: nat, duration: nat, start: nat)
    requires approx > 0
    ensures var stuck := PlanFrom(size, maxBytes, approx, duration, start).stuck;
      stuck.Some? ==>
        && start <= stuck.value.start < stuck.value.end <= duration
        && stuck.value.end - stuck.value.start <= 5000
        && size(stuck.value.start, stuck.value.end) > maxBytes
    decreases duration - start
  {
    if start < duration {
      StuckIsShort(size, maxBytes, approx, duration, Cut(size, maxBytes, approx, duration, start));
    }
  }

  /** So it never gives up if every interval of at most five seconds fits. */
  lemma NeverStuck(size: SizeOf, maxBytes: nat, approx: nat, duration: nat)
    requires approx > 0
    requires forall s: nat, e: nat :: s < e <= duration && e - s <= 5000 ==> size(s, e) <= maxBytes
    ensures PlanFrom(size, maxBytes, approx, duration, 0).stuck.None?
  {
    StuckIsShort(size, maxBytes, approx, duration, 0);
  }

  // ----- exactly when splitting gives up -----------------------------------------------------------

  /** The ends the inner loop may try, whatever their sizes: halved until at most five seconds long. */
  function Tries(start: nat, end: nat): seq<nat>
    requires start <= end
    decreases end - start
  {
    [end] + if end - start > 5000 then Tries(start, start + (end - start) / 2) else []
  }

  ghost predicate NoneFits(size: SizeOf, maxBytes: nat, start: nat, ends: seq<nat>) {
    forall e :: e in ends ==> size(start, e) > maxBytes
  }

  /** The shortest chunk is too large exactly when every one that may be tried is. */
  lemma {:induction false} TooLargeIff(size: SizeOf, maxBytes: nat, start: nat, end: nat)
    requires start <= end
    ensures size(start, Shrink(size, maxBytes, start, end)) > maxBytes <==>
      NoneFits(size, maxBytes, start, Tries(start, end))
    decreases end - start
  {
    if end - start > 5000 {
      var half := start + (end - start) / 2;
      TooLargeIff(size, maxBytes, start, half);
      assert Tries(start, end) == [end] + Tries(start, half);
    }
  }

  /** Positions the cuts lead to, each chunk before them fitting. */
  ghost predicate CutsFrom(size: SizeOf, maxBytes: nat, approx: nat, duration: nat, start: nat, cuts: seq<nat>)
    requires approx > 0
  {
    && cuts != [] && cuts[0] == start
    && forall i :: 0 <= i < |cuts| - 1 ==> CutFits(size, maxBytes, approx, duration, cuts[i], cuts[i + 1])
  }

  predicate CutFits(size: SizeOf, maxBytes: nat, approx: nat, duration: nat, start: nat, end: nat)
    requires approx > 0
  {
    start < duration && end == Cut(size, maxBytes, approx, duration, start) && size(start, end) <= maxBytes
  }

  /** At this position no chunk that may be tried fits. */
  ghost predicate Blocked(size: SizeOf, maxBytes: nat, approx: nat, duration: nat, start: nat)
    requires approx > 0
  {
    start < duration && NoneFits(size, maxBytes, start, Tries(start, Min(start + approx, duration)))
  }

  ghost predicate BlockedAfter(size: SizeOf, maxBytes: nat, approx: nat, duration: nat, start: nat, cuts: seq<nat>)
    requires approx > 0
  {
    CutsFrom(size, maxBytes, approx, duration, start, cuts)
    && Blocked(size, maxBytes, approx, duration, cuts[|cuts| - 1])
  }

  lemma {:induction false} StuckCuts(size: SizeOf, maxBytes: nat, approx: nat, duration: nat, start: nat)
    returns (cuts: seq<nat>)
    requires approx > 0 && PlanFrom(size, maxBytes, approx, duration, start).stuck.Some?
    ensures BlockedAfter(size, maxBytes, approx, duration, start, cuts)
    ensures |cuts| == |PlanFrom(size, maxBytes, approx, duration, start).spans| + 1
    decreases duration - start
  {
    TooLargeIff(size, maxBytes, start, Min(start + approx, duration));
    var end := Cut(size, maxBytes, approx, duration, start);
    if size(start, end) > maxBytes {
      cuts := [start];
    } else {
      var rest := StuckCuts(size, maxBytes, approx, duration, end);
      cuts := [start] + rest;
      forall i | 0 <= i < |cuts| - 1 ensures CutFits(size, maxBytes, approx, duration, cuts[i], cuts[i + 1]) {
        if i > 0 {
          assert cuts[i] == rest[i - 1] && cuts[i + 1] == rest[i - 1 + 1];
        }
      }
    }
  }

  lemma {:induction false} CutsStick(size: SizeOf, maxBytes: nat, approx: nat, duration: nat, start: nat,
                                     cuts: seq<nat>)
    requires approx > 0 && BlockedAfter(size, maxBytes, approx, duration, start, cuts)
    ensures var plan := PlanFrom(size, maxBytes, approx, duration, start);
      plan.stuck.Some? && |cuts| == |plan.spans| + 1
    decreases |cuts|
  {
    if |cuts| == 1 {
      TooLargeIff(size, maxBytes, start, Min(start + approx, duration));
    } else {
      var rest := cuts[1..];
      assert CutFits(size, maxBytes, approx, duration, cuts[0], cuts[0 + 1]);
      forall i | 0 <= i < |rest| - 1 ensures CutFits(size, maxBytes, approx, duration, rest[i], rest[i + 1]) {
        assert rest[i] == cuts[i + 1] && rest[i + 1] == cuts[i + 1 + 1];
      }
      CutsStick(size, maxBytes, approx, duration, cuts[1], rest);
    }
  }

  /** The exports of one chunk are the lengths tried up to the one taken, none of which fits before it. */
  lemma {:induction false} ExportsCounted(size: SizeOf, maxBytes: nat, start: nat, end: nat)
    requires start <= end
    ensures var n, tried := ShrinkExports(size, maxBytes, start, end), Tries(start, end);
      && 0 < n <= |tried| && tried[n - 1] == Shrink(size, maxBytes, start, end)
      && (forall j :: 0 <= j < n - 1 ==> size(start, tried[j]) > maxBytes)
    decreases end - start
  {
    if size(start, end) > maxBytes && end - start > 5000 {
      ExportsCounted(size, maxBytes, start, start + (end - start) / 2);
    }
  }

  /**
   * Splitting gives up exactly when the cuts, each fitting, lead to a position at which no chunk that
   * may be tried fits; chunks were made before it exactly when that is not the beginning.
   */
  lemma GivesUpIff(size: SizeOf, maxBytes: nat, approx: nat, duration: nat)
    requires approx > 0
    ensures var plan := PlanFrom(size, maxBytes, approx, duration, 0);
      && (plan.stuck.Some? <==> exists cuts :: BlockedAfter(size, maxBytes, approx, duration, 0, cuts))
      && (plan.stuck.Some? && plan.spans != [] <==>
            exists cuts :: BlockedAfter(size, maxBytes, approx, duration, 0, cuts) && |cuts| > 1)
  {
    if PlanFrom(size, maxBytes, approx, duration, 0).stuck.Some? {
      var cuts := StuckCuts(size, maxBytes, approx, duration, 0);
    }
    forall cuts | BlockedAfter(size, maxBytes, approx, duration, 0, cuts)
      ensures var plan := PlanFrom(size, maxBytes, approx, duration, 0); plan.stuck.Some? && |cuts| == |plan.spans| + 1
    {
      CutsStick(size, maxBytes, approx, duration, 0, cuts);
    }
  }

  // ----- how many chunks ---------------------------------------------------------------------------

  /** The span ends the audio or lasts at least `least`. */
  predicate LongEnough(span: Span, duration: nat, least: nat) {
    span.end == duration || span.end - span.start >= least
  }

  lemma CutIsLong(size: SizeOf, maxBytes: nat, approx: nat, duration: nat, start: nat)
    requires approx > 0 && start < duration
    ensures var end := Cut(size, maxBytes, approx, duration, start);
      LongEnough(Span(start, end), duration, Min(approx, 2500))
  {
  }

  /** Every chunk that does not end the audio is at least min(approx, 2500) long. */
  lemma {:induction false} ChunksAreLong(size: SizeOf, maxBytes: nat, approx: nat, duration: nat, start: nat)
    requires approx > 0
    ensures forall span :: span in PlanFrom(size, maxBytes, approx, duration, start).spans ==>
      LongEnough(span, duration, Min(approx, 2500))
    decreases duration - start
  {
    if start < duration {
      CutIsLong(size, maxBytes, approx, duration, start);
      ChunksAreLong(size, maxBytes, approx, duration, Cut(size, maxBytes, approx, duration, start));
    }
  }

  lemma {:induction false} TilesOfLength(spans: seq<Span>, start: nat, end: nat, duration: nat, least: nat)
    requires Tiles(spans, start, end) && start <= end <= duration && spans != []
    requires forall span :: span in spans ==> LongEnough(span, duration, least)
    ensures start + least * (|spans| - 1) < end
  {
    if |spans| > 1 {
      var rest := spans[1..];
      assert rest[0] == spans[1] && spans[0] in spans;
      TilesEnd(rest, spans[0].end, end);
      TilesOfLength(rest, spans[0].end, end, duration, least);
      assert least * (|spans| - 1) == least + least * (|rest| - 1);
    }
  }

  lemma {:induction false} TilesEnd(spans: seq<Span>, start: nat, end: nat)
    requires Tiles(spans, start, end)
    ensures start <= end && (spans != [] ==> start < spans[0].end <= end)
  {
    if spans != [] {
      TilesEnd(spans[1..], spans[0].end, end);
    }
  }

  /** The chunks attempted: those kept, and the one that did not fit. */
  function Attempts(plan: Plan): nat { |plan.spans| + if plan.stuck.Some? then 1 else 0 }

  /** With every first length at least a second, the number of chunks is bounded by the duration. */
  lemma FewChunks(size: SizeOf, maxBytes: nat, approx: nat, duration: nat)
    requires approx >= 1000
    ensures var spans := PlanFrom(size, maxBytes, approx, duration, 0).spans;
      spans != [] ==> 1000 * (|spans| - 1) < duration
  {
    var plan := PlanFrom(size, maxBytes, approx, duration, 0);
    ChunksCover(size, maxBytes, approx, duration, 0);
    ChunksAreLong(size, maxBytes, approx, duration, 0);
    StuckIsShort(size, maxBytes, approx, duration, 0);
    if plan.spans != [] {
      TilesOfLength(plan.spans, 0, Reached(plan, duration), duration, 1000);
    }
  }

  lemma PlanStep(size: SizeOf, maxBytes: nat, approx: nat, duration: nat, start: nat)
    requires approx > 0 && start < duration
    ensures var plan := PlanFrom(size, maxBytes, approx, duration, start);
      var end := Cut(size, maxBytes, approx, duration, start);
      var rest := if size(start, end) > maxBytes then Plan([], None, 0)
                  else PlanFrom(size, maxBytes, approx, duration, end);
      && Attempts(plan) == 1 + Attempts(rest)
      && plan.exports == ShrinkExports(size, maxBytes, start, Min(start + approx, duration)) + rest.exports
  {
  }

  /** Each attempt encodes at most once more than the halvings of the first length tried. */
  lemma {:induction false} FewExports(size: SizeOf, maxBytes: nat, approx: nat, duration: nat, start: nat)
    requires approx > 0
    ensures PlanFrom(size, maxBytes, approx, duration, start).exports
      <= Attempts(PlanFrom(size, maxBytes, approx, duration, start)) * (1 + Halvings(approx))
    decreases duration - start
  {
    if start < duration {
      var first := Min(start + approx, duration);
      ShrinkExportsBounded(size, maxBytes, start, first);
      HalvingsGrow(first - start, approx);
      PlanStep(size, maxBytes, approx, duration, start);
      var end := Cut(size, maxBytes, approx, duration, start);
      var n, h := ShrinkExports(size, maxBytes, start, first), 1 + Halvings(approx);
      if size(start, end) > maxBytes {
        OneMore(n, 0, 0, h);
      } else {
        FewExports(size, maxBytes, approx, duration, end);
        var rest := PlanFrom(size, maxBytes, approx, duration, end);
        OneMore(n, rest.exports, Attempts(rest), h);
      }
    }
  }

  lemma OneMore(first: nat, rest: nat, n: nat, h: nat)
    requires first <= h && rest <= n * h
    ensures first + rest <= (1 + n) * h
  {
  }
}
