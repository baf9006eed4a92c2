/** Text extraction from legacy Office files: the long runs of text bytes. */
module PrintableRuns {
  import opened Bytes

  const MIN_RUN := 6
  const NEWLINE: byte := 10

  predicate IsText(b: byte) {
    32 <= b < 127 || b == 10 || b == 13 || b == 9
  }

  predicate AllText(s: seq<byte>) {
    forall i :: 0 <= i < |s| ==> IsText(s[i])
  }

  datatype Run = Run(from: nat, to: nat)

  /** Printable ASCII, or a tab, a line feed or a carriage return. */
  predicate IsPrintable(b: byte) {
    b as int in {9, 10, 13} || 32 <= b as int <= 126
  }

  /** A stretch of text bytes that cannot be extended on either side. */
  predicate MaximalRun(data: seq<byte>, r: Run) {
    && r.from < r.to <= |data|
    && (forall k :: r.from <= k < r.to ==> IsPrintable(data[k]))
    && (r.from > 0 ==> !IsPrintable(data[r.from - 1]))
    && (r.to < |data| ==> !IsPrintable(data[r.to]))
  }

  /** The end of the text that starts at i. */
  function TextEnd(data: seq<byte>, i: nat): (j: nat)
    requires i <= |data|
    ensures i <= j <= |data|
    ensures forall k :: i <= k < j ==> IsText(data[k])
    ensures j < |data| ==> !IsText(data[j])
    decreases |data| - i
  {
    if i < |data| && IsText(data[i]) then TextEnd(data, i + 1) else i
  }

  /** The long runs from position i on, in order. */
  function LongRuns(data: seq<byte>, i: nat): seq<Run>
    requires i <= |data|
    decreases |data| - i
  {
    if i == |data| then []
    else if !IsText(data[i]) then LongRuns(data, i + 1)
    else
      var j := TextEnd(data, i);
      (if j - i >= MIN_RUN then [Run(i, j)] else []) + LongRuns(data, j)
  }

  predicate InRange(data: seq<byte>, runs: seq<Run>) {
    forall r :: r in runs ==> r.from < r.to <= |data|
  }

  /** Each run, followed by a newline unless it reaches the end of the data. */
  function Render(data: seq<byte>, runs: seq<Run>): seq<byte>
    requires InRange(data, runs)
  {
    if runs == [] then []
    else
      data[runs[0].from..runs[0].to] + (if runs[0].to < |data| then [NEWLINE] else []) + Render(data, runs[1..])
  }

  /** Where the k-th run begins in what is rendered: the runs before it and their newlines come first. */
  function RenderedAt(data: seq<byte>, runs: seq<Run>, k: nat): (at: int)
    requires k <= |runs|
  {
    if k == 0 then 0
    else RenderedAt(data, runs, k - 1) + runs[k - 1].to - runs[k - 1].from + if runs[k - 1].to < |data| then 1 else 0
  }

  lemma {:induction false} RenderedShift(data: seq<byte>, runs: seq<Run>, k: nat)
    requires runs != [] && k < |runs|
    ensures RenderedAt(data, runs, k + 1)
         == runs[0].to - runs[0].from + (if runs[0].to < |data| then 1 else 0) + RenderedAt(data, runs[1..], k)
  {
    if k == 0 {
    } else {
      RenderedShift(data, runs, k - 1);
    }
  }

  /** At this place the output has the run's bytes, and a line feed after them unless the run reaches the end of the data. */
  predicate PlacedAt(data: seq<byte>, out: seq<byte>, r: Run, at: int) {
    && r.from <= r.to <= |data| && 0 <= at && at + r.to - r.from <= |out|
    && out[at..at + r.to - r.from] == data[r.from..r.to]
    && (r.to < |data| ==> at + r.to - r.from < |out| && out[at + r.to - r.from] == 10)
  }

  lemma PlacedBehind(data: seq<byte>, first: seq<byte>, rest: seq<byte>, r: Run, at: int)
    requires PlacedAt(data, rest, r, at)
    ensures PlacedAt(data, first + rest, r, |first| + at)
  {
    assert (first + rest)[|first| + at..|first| + at + r.to - r.from] == rest[at..at + r.to - r.from];
  }

  lemma RenderUnfolds(data: seq<byte>, runs: seq<Run>)
    requires InRange(data, runs) && runs != []
    ensures InRange(data, runs[1..]) && runs[0].from < runs[0].to <= |data|
    ensures var first := data[runs[0].from..runs[0].to] + if runs[0].to < |data| then [NEWLINE] else [];
      Render(data, runs) == first + Render(data, runs[1..])
  {
    assert runs[0] in runs;
  }

  lemma PlacedFirst(data: seq<byte>, r: Run, rest: seq<byte>)
    requires r.from < r.to <= |data|
    ensures PlacedAt(data, data[r.from..r.to] + (if r.to < |data| then [NEWLINE] else []) + rest, r, 0)
  {
    var out := data[r.from..r.to] + (if r.to < |data| then [NEWLINE] else []) + rest;
    assert out[0..r.to - r.from] == data[r.from..r.to];
  }

  lemma NothingRendered(data: seq<byte>, runs: seq<Run>)
    ensures RenderedAt(data, runs, 0) == 0 && Render(data, []) == []
  {
  }

  /** What is rendered, run by run. */
  lemma {:induction false} RenderExactly(data: seq<byte>, runs: seq<Run>, k: nat)
    requires InRange(data, runs) && k <= |runs|
    ensures k == |runs| ==> RenderedAt(data, runs, k) == |Render(data, runs)|
    ensures k < |runs| ==> PlacedAt(data, Render(data, runs), runs[k], RenderedAt(data, runs, k))
    decreases |runs|
  {
    hide Render, RenderedAt, PlacedAt, InRange;
    NothingRendered(data, runs);
    if runs == [] {
    } else {
      RenderUnfolds(data, runs);
      var r, rest := runs[0], Render(data, runs[1..]);
      var first := data[r.from..r.to] + if r.to < |data| then [NEWLINE] else [];
      PlacedFirst(data, r, rest);
      if k > 0 {
        RenderExactly(data, runs[1..], k - 1);
        RenderedShift(data, runs, k - 1);
        assert k < |runs| ==> runs[1..][k - 1] == runs[k];
        if k < |runs| { PlacedBehind(data, first, rest, runs[k], RenderedAt(data, runs[1..], k - 1)); }
      }
    }
  }

  function Extracted(data: seq<byte>): seq<byte> {
    LongRunsInRange(data, 0);
    Render(data, LongRuns(data, 0))
  }

  lemma {:induction false} LongRunsInRange(data: seq<byte>, i: nat)
    requires i <= |data|
    ensures InRange(data, LongRuns(data, i))
    decreases |data| - i
  {
    if i == |data| {
    } else {
      if !IsText(data[i]) { LongRunsInRange(data, i + 1); }
      else { LongRunsInRange(data, TextEnd(data, i)); }
    }
  }

  /** The long runs are exactly the maximal runs of at least six bytes. */
  lemma {:induction false} LongRunsAreMaximalRuns(data: seq<byte>, i: nat)
    requires i <= |data| && (i > 0 && i < |data| ==> !IsText(data[i - 1]) || !IsText(data[i]))
    ensures forall r :: r in LongRuns(data, i) <==> i <= r.from && MaximalRun(data, r) && r.to - r.from >= 6
    decreases |data| - i
  {
    if i == |data| {
    } else {
      if !IsText(data[i]) {
        LongRunsAreMaximalRuns(data, i + 1);
      } else {
        var j := TextEnd(data, i);
        LongRunsAreMaximalRuns(data, j);
        forall r | MaximalRun(data, r) && i <= r.from < j ensures r == Run(i, j) {
        }
      }
    }
  }

  /** They come from left to right and do not overlap. */
  lemma {:induction false} LongRunsOrdered(data: seq<byte>, i: nat)
    requires i <= |data|
    ensures forall m :: 0 <= m < |LongRuns(data, i)| ==> i <= LongRuns(data, i)[m].from < LongRuns(data, i)[m].to
    ensures forall m, n :: 0 <= m < n < |LongRuns(data, i)| ==> LongRuns(data, i)[m].to <= LongRuns(data, i)[n].from
    decreases |data| - i
  {
    if i == |data| {
    } else {
      if !IsText(data[i]) {
        LongRunsOrdered(data, i + 1);
      } else {
        LongRunsOrdered(data, TextEnd(data, i));
      }
    }
  }

  lemma {:induction false} TextEndFrom(data: seq<byte>, i: nat, j: nat)
    requires i <= j <= |data| && (forall k :: i <= k < j ==> IsText(data[k])) && (j < |data| ==> !IsText(data[j]))
    ensures TextEnd(data, i) == j
    decreases j - i
  {
    if i == j {
    } else {
      TextEndFrom(data, i + 1, j);
    }
  }

  /** What is rendered from position i on. */
  function RenderFrom(data: seq<byte>, i: nat): seq<byte>
    requires i <= |data|
  {
    LongRunsInRange(data, i);
    Render(data, LongRuns(data, i))
  }

  /** The long runs from the start of a stretch of text that ends at i. */
  lemma StretchThenRest(data: seq<byte>, start: nat, i: nat)
    requires start <= i <= |data| && (forall k :: start <= k < i ==> IsText(data[k]))
    requires i < |data| ==> !IsText(data[i])
    ensures LongRuns(data, start)
         == (if i - start >= MIN_RUN then [Run(start, i)] else []) + if i < |data| then LongRuns(data, i + 1) else []
  {
    if start < i {
      TextEndFrom(data, start, i);
      assert LongRuns(data, i) == if i < |data| then LongRuns(data, i + 1) else [];
    }
  }

  /** Closing the run of text that started at `start`, at a byte that is not text or at the end. */
  lemma RunCloses(data: seq<byte>, start: nat, i: nat)
    requires start <= i <= |data| && (forall k :: start <= k < i ==> IsText(data[k]))
    requires i < |data| ==> !IsText(data[i])
    ensures RenderFrom(data, start)
         == (if i - start >= MIN_RUN then data[start..i] + (if i < |data| then [NEWLINE] else []) else [])
            + (if i < |data| then RenderFrom(data, i + 1) else [])
  {
    StretchThenRest(data, start, i);
    LongRunsInRange(data, start);
    if i < |data| { LongRunsInRange(data, i + 1); }
    hide LongRuns, IsText;
    var runs, rest := LongRuns(data, start), if i < |data| then LongRuns(data, i + 1) else [];
    assert Render(data, rest) == if i < |data| then RenderFrom(data, i + 1) else [];
    if i - start >= MIN_RUN {
      RenderUnfolds(data, runs);
      assert runs[0] == Run(start, i) && runs[1..] == rest;
    } else {
      assert runs == rest;
    }
  }

  lemma StartsAtZero(data: seq<byte>)
    ensures Extracted(data) == RenderFrom(data, 0)
  {
  }

  method ExtractLegacyOffice(data: seq<byte>) returns (sb: seq<byte>)
    ensures sb == Extracted(data)
  {
    hide RenderFrom, LongRuns, MaximalRun, Render, TextEnd, PlacedAt, RenderedAt;
    sb := [];
    var run: seq<byte> := [];
    assert Extracted(data) == RenderFrom(data, 0) by { StartsAtZero(data); }
    hide Extracted;
    for i := 0 to |data|
      invariant |run| <= i && run == data[i - |run|..i] && AllText(run)
      invariant sb + RenderFrom(data, i - |run|) == Extracted(data)
    {
      var b := data[i];
      if IsText(b) {
        run := run + [b];
      } else {
        ghost var start := i - |run|;
        assert forall k :: start <= k < i ==> data[k] == run[k - start];
        RunCloses(data, start, i);
        if |run| >= MIN_RUN {
          sb := sb + run;
          sb := sb + [NEWLINE];
        }
        run := [];
      }
    }
    ghost var start := |data| - |run|;
    assert forall k :: start <= k < |data| ==> data[k] == run[k - start];
    RunCloses(data, start, |data|);
    if |run| >= MIN_RUN {
      sb := sb + run;
    }
  }

  /** Nothing but text comes out, and what comes out is either nothing or long enough to be a run of its own. */
  lemma {:induction false} RenderIsText(data: seq<byte>, runs: seq<Run>)
    requires InRange(data, runs)
    requires forall r :: r in runs ==> MaximalRun(data, r) && r.to - r.from >= MIN_RUN
    ensures AllText(Render(data, runs))
    ensures runs != [] ==> |Render(data, runs)| >= MIN_RUN
  {
    if runs == [] {
    } else {
      assert runs[0] in runs;
      RenderIsText(data, runs[1..]);
      assert IsText(NEWLINE);
      assert AllText(data[runs[0].from..runs[0].to]);
    }
  }

  /** Text that is long enough is its own extraction. */
  lemma TextIsKept(s: seq<byte>)
    requires AllText(s) && (s == [] || |s| >= MIN_RUN)
    ensures Extracted(s) == s
  {
    RunCloses(s, 0, |s|);
    assert s[0..|s|] == s;
  }

  lemma ExtractionIdempotent(data: seq<byte>)
    ensures Extracted(Extracted(data)) == Extracted(data)
  {
    LongRunsInRange(data, 0);
    LongRunsAreMaximalRuns(data, 0);
    RenderIsText(data, LongRuns(data, 0));
    TextIsKept(Extracted(data));
  }
}
