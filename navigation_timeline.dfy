/**
 * The stack timeline that Navigation's `cleanStacks` getter builds, defined
 * independently of the loop that builds it.
 *
 * A buff history is a list of buffs, each with its own chain of stack changes.
 * The chains are keyed by the buff's start (a later buff with the same start
 * replaces an earlier one) and visited by ascending start. Walking all changes
 * in that order, a change is kept unless it comes less than MS_BUFFER ms after
 * the start of the interval that is open at that moment. The kept changes,
 * after a seed at stack level 0 at fight start, cut the fight into contiguous
 * intervals in creation order; the timeline groups them by stack level.
 */
module NavigationTimeline {
  import opened Wrappers
  import opened ObjectKeys

  /** Minimum spacing, in ms, between two recorded stack transitions. */
  const MS_BUFFER: int := 100

  /** One entry of a buff's `stackHistory`: `{ stacks, timestamp }`. */
  datatype StackChange = StackChange(timestamp: int, stacks: nat)

  /** One entry of the combatant's buff history for the small buff. */
  datatype Buff = Buff(start: nat, stackHistory: seq<StackChange>)

  /** `{ start, end, duration }`; `end` and `duration` are `null` while the interval is open. */
  datatype Interval = Interval(start: int, end: Option<int>, duration: Option<int>)

  /** The `cleanStacks` object: stack level -> its intervals, oldest first. */
  type StackTimeline = map<nat, seq<Interval>>

  /** An interval together with the stack level it belongs to. */
  datatype Segment = Segment(level: nat, interval: Interval)

  /** The interval from `start` to `end`, its duration `end - start` when it is closed. */
  function Span(start: int, end: Option<int>): Interval {
    Interval(start, end, if end.Some? then Some(end.value - start) else None)
  }

  function OpenAt(t: int): Interval {
    Span(t, None)
  }

  /** The newest entry of a non-empty list: `list[list.length - 1]`. */
  function Newest<T>(list: seq<T>): T
    requires list != []
  {
    list[|list| - 1]
  }

  /** `cleanStacks[level]`, with a missing level read as no intervals. */
  function Lookup(timeline: StackTimeline, level: nat): seq<Interval> {
    if level in timeline then timeline[level] else []
  }

  /** `isBuggedStackChange`: the change comes too soon after `previousTime`. */
  predicate IsBuggedStackChange(previousTime: int, currentTime: int): (r: bool)
    ensures r <==> currentTime - previousTime < MS_BUFFER
    ensures currentTime < previousTime ==> r
  {
    previousTime > currentTime - MS_BUFFER
  }

  // ---------------------------------------------------------------------------
  // From the buff history to one sequence of stack changes

  /** The `buffStacks` object: buff start -> stack chain, the last buff with a given start winning. */
  function ChainsByStart(history: seq<Buff>): (chains: map<nat, seq<StackChange>>)
    ensures |chains| <= |history|
  {
    if history == [] then map[]
    else
      var buff := history[|history| - 1];
      ChainsByStart(history[..|history| - 1])[buff.start := buff.stackHistory]
  }

  /** The keys of `buffStacks` are exactly the buff starts of the history. */
  lemma {:induction false} ChainsByStartKeys(history: seq<Buff>)
    ensures forall i :: 0 <= i < |history| ==> history[i].start in ChainsByStart(history)
    ensures forall s :: s in ChainsByStart(history) ==> exists i :: 0 <= i < |history| && history[i].start == s
  {
    if history != [] {
      var n := |history| - 1;
      var front := history[..n];
      ChainsByStartKeys(front);
      forall i | 0 <= i < n ensures history[i].start in ChainsByStart(history) {
        assert front[i] == history[i];
      }
      forall s | s in ChainsByStart(history) ensures exists i :: 0 <= i < |history| && history[i].start == s {
        if s != history[n].start {
          var i :| 0 <= i < |front| && front[i].start == s;
          assert history[i] == front[i];
        }
      }
    }
  }

  /** Each start maps to the stack history of the last buff with that start. */
  lemma {:induction false} ChainsByStartLastWins(history: seq<Buff>, i: nat)
    requires i < |history| && LastWithItsStart(history, i)
    ensures history[i].start in ChainsByStart(history)
    ensures ChainsByStart(history)[history[i].start] == history[i].stackHistory
  {
    var n := |history| - 1;
    if i < n {
      LastWithItsStartInFront(history, i);
      ChainsByStartLastWins(history[..n], i);
    }
  }

  lemma LastWithItsStartInFront(history: seq<Buff>, i: nat)
    requires i < |history| - 1 && LastWithItsStart(history, i)
    ensures var front := history[..|history| - 1];
            front[i] == history[i] && history[|history| - 1].start != history[i].start && LastWithItsStart(front, i)
  {
    var front := history[..|history| - 1];
    forall j | i < j < |front| ensures front[j].start != front[i].start {
      assert front[j] == history[j];
    }
  }

  /** No later buff of the history has the same start as buff `i`. */
  ghost predicate LastWithItsStart(history: seq<Buff>, i: nat)
    requires i < |history|
  {
    forall j :: i < j < |history| ==> history[j].start != history[i].start
  }

  /** The chains named by `starts`, one after the other. */
  function Concat(chains: map<nat, seq<StackChange>>, starts: seq<nat>): seq<StackChange>
    requires forall i :: 0 <= i < |starts| ==> starts[i] in chains
  {
    if starts == [] then []
    else Concat(chains, starts[..|starts| - 1]) + chains[starts[|starts| - 1]]
  }

  /** Every stack change `cleanStacks` walks, in the order it walks them. */
  function StackChanges(history: seq<Buff>): seq<StackChange> {
    var chains := ChainsByStart(history);
    Concat(chains, SortedKeys(chains.Keys))
  }

  // ---------------------------------------------------------------------------
  // Reference definition of the timeline

  /**
   * The transitions that survive the debounce filter, in order, after the
   * seed at level 0 and fight start.
   */
  function Transitions(changes: seq<StackChange>, fightStart: int): (ts: seq<StackChange>)
    ensures |ts| >= 1 && ts[0] == StackChange(fightStart, 0)
  {
    if changes == [] then [StackChange(fightStart, 0)]
    else
      var kept := Transitions(changes[..|changes| - 1], fightStart);
      var change := changes[|changes| - 1];
      if IsBuggedStackChange(kept[|kept| - 1].timestamp, change.timestamp) then kept
      else kept + [change]
  }

  /**
   * The intervals in creation order: each transition's interval ends where
   * the next one starts, and the last one ends at `final` (open when None).
   */
  function Segments(ts: seq<StackChange>, final: Option<int>): seq<Segment> {
    seq(|ts|, k requires 0 <= k < |ts| =>
      Segment(ts[k].stacks, Span(ts[k].timestamp, if k + 1 < |ts| then Some(ts[k + 1].timestamp) else final)))
  }

  /** Groups segments by level, keeping their order within each level. */
  function ByLevel(segs: seq<Segment>): StackTimeline {
    if segs == [] then map[]
    else
      var timeline := ByLevel(segs[..|segs| - 1]);
      var seg := segs[|segs| - 1];
      timeline[seg.level := Lookup(timeline, seg.level) + [seg.interval]]
  }

  /** The map while `cleanStacks` is still walking: the newest interval is open. */
  function OpenTimeline(changes: seq<StackChange>, fightStart: int): StackTimeline {
    ByLevel(Segments(Transitions(changes, fightStart), None))
  }

  /** The level of the newest kept transition: `lastHandledStack`. */
  function LastLevel(changes: seq<StackChange>, fightStart: int): nat {
    var ts := Transitions(changes, fightStart);
    ts[|ts| - 1].stacks
  }

  /** The map once the newest interval is closed at fight end. */
  function ClosedTimeline(changes: seq<StackChange>, fightStart: int, fightEnd: int): StackTimeline {
    ByLevel(Segments(Transitions(changes, fightStart), Some(fightEnd)))
  }

  /** What `cleanStacks` returns. */
  function Timeline(history: seq<Buff>, fightStart: int, fightEnd: int): StackTimeline {
    ClosedTimeline(StackChanges(history), fightStart, fightEnd)
  }

  /**
   * Sum of the intervals' durations, each weighted by its stack level when
   * `weighted`; a `null` duration adds nothing (as `x + null` does).
   */
  function SegmentDurations(segs: seq<Segment>, weighted: bool): int {
    if segs == [] then 0
    else
      var seg := segs[|segs| - 1];
      var d := DurationOrZero(seg.interval);
      SegmentDurations(segs[..|segs| - 1], weighted) + if weighted then d * seg.level else d
  }

  /** The intervals of the segments at `level`, in creation order. */
  function IntervalsAt(segs: seq<Segment>, level: nat): seq<Interval> {
    if segs == [] then []
    else
      var seg := segs[|segs| - 1];
      IntervalsAt(segs[..|segs| - 1], level) + if seg.level == level then [seg.interval] else []
  }

  function DurationOrZero(iv: Interval): int {
    if iv.duration.Some? then iv.duration.value else 0
  }

  /** How many of the segments are at `level`. */
  function CountAtLevel(segs: seq<Segment>, level: nat): nat {
    if segs == [] then 0
    else CountAtLevel(segs[..|segs| - 1], level) + if segs[|segs| - 1].level == level then 1 else 0
  }

  /**
   * The state `cleanStacks` keeps while walking: every level present has at
   * least one interval, every interval's duration agrees with its end, and
   * exactly one interval is open: the newest one of `lastHandledStack`.
   */
  ghost predicate OneOpen(timeline: StackTimeline, lastHandledStack: nat) {
    && lastHandledStack in timeline
    && (forall l :: l in timeline ==> timeline[l] != [])
    && (forall l, k :: l in timeline && 0 <= k < |timeline[l]| ==>
          timeline[l][k] == Span(timeline[l][k].start, timeline[l][k].end))
    && (forall l, k :: l in timeline && 0 <= k < |timeline[l]| ==>
          (timeline[l][k].end.None? <==> l == lastHandledStack && k == |timeline[l]| - 1))
  }

  // ---------------------------------------------------------------------------
  // Lemmas about the kept transitions

  lemma TransitionsSnoc(changes: seq<StackChange>, change: StackChange, fightStart: int)
    ensures var ts := Transitions(changes, fightStart);
            Transitions(changes + [change], fightStart)
            == if IsBuggedStackChange(ts[|ts| - 1].timestamp, change.timestamp) then ts else ts + [change]
  {
    assert (changes + [change])[..|changes|] == changes;
  }

  /** Kept transitions are at least MS_BUFFER ms apart, so they strictly increase. */
  lemma {:induction false} TransitionsSpaced(changes: seq<StackChange>, fightStart: int)
    ensures var ts := Transitions(changes, fightStart);
            forall k :: 0 < k < |ts| ==> ts[k - 1].timestamp + MS_BUFFER <= ts[k].timestamp
  {
    if changes != [] {
      var prefix := changes[..|changes| - 1];
      var change := changes[|changes| - 1];
      TransitionsSpaced(prefix, fightStart);
      var kept := Transitions(prefix, fightStart);
      assert changes == prefix + [change];
      TransitionsSnoc(prefix, change, fightStart);
      if !IsBuggedStackChange(kept[|kept| - 1].timestamp, change.timestamp) {
        var ts := kept + [change];
        forall k | 0 < k < |ts| ensures ts[k - 1].timestamp + MS_BUFFER <= ts[k].timestamp {
          if k < |kept| { assert ts[k - 1] == kept[k - 1] && ts[k] == kept[k]; }
        }
      }
    }
  }

  /** Every kept transition after the seed is one of the changes walked. */
  lemma {:induction false} TransitionsFromChanges(changes: seq<StackChange>, fightStart: int)
    ensures var ts := Transitions(changes, fightStart);
            |ts| <= |changes| + 1 && forall k :: 0 < k < |ts| ==> ts[k] in changes
  {
    if changes != [] {
      var prefix := changes[..|changes| - 1];
      TransitionsFromChanges(prefix, fightStart);
      var ts := Transitions(prefix, fightStart);
      forall k | 0 < k < |ts| ensures ts[k] in changes {
        assert ts[k] in prefix;
      }
    }
  }

  /** A change dropped by the debounce filter leaves the kept transitions as they were. */
  lemma DroppedChangeIsNoBoundary(changes: seq<StackChange>, change: StackChange, fightStart: int)
    requires var ts := Transitions(changes, fightStart);
             change.timestamp < ts[|ts| - 1].timestamp + MS_BUFFER
    ensures Transitions(changes + [change], fightStart) == Transitions(changes, fightStart)
  {
    var ts := Transitions(changes, fightStart);
    assert IsBuggedStackChange(ts[|ts| - 1].timestamp, change.timestamp);
    TransitionsSnoc(changes, change, fightStart);
  }

  // ---------------------------------------------------------------------------
  // Lemmas about the creation-order segments

  /** Closing the open segment at `t` and opening one for `change` is what keeping `change` does. */
  lemma SegmentsSnoc(ts: seq<StackChange>, change: StackChange, final: Option<int>)
    requires ts != []
    ensures Segments(ts + [change], final)
            == Segments(ts, Some(change.timestamp)) + [Segment(change.stacks, Span(change.timestamp, final))]
  {
  }

  /** The last segment is the only one that depends on the final end. */
  lemma SegmentsReend(ts: seq<StackChange>, final: Option<int>, final': Option<int>)
    requires ts != []
    ensures var segs := Segments(ts, final);
            Segments(ts, final') == segs[..|segs| - 1] + [Segment(segs[|segs| - 1].level, Span(segs[|segs| - 1].interval.start, final'))]
  {
  }

  /**
   * The closed segments tile the fight: the first starts at fight start, each
   * ends where the next starts, the last ends at fight end, and every duration
   * is end minus start.
   */
  lemma SegmentsTile(changes: seq<StackChange>, fightStart: int, fightEnd: int)
    ensures var segs := Segments(Transitions(changes, fightStart), Some(fightEnd));
            && |segs| >= 1
            && segs[0].interval.start == fightStart
            && segs[0].level == 0
            && (forall k :: 0 <= k < |segs| - 1 ==> segs[k].interval.end == Some(segs[k + 1].interval.start))
            && segs[|segs| - 1].interval.end == Some(fightEnd)
            && (forall k :: 0 <= k < |segs| ==> IsClosedSpan(segs[k].interval))
  {
    var ts := Transitions(changes, fightStart);
    SegmentsClosed(ts, fightEnd);
    var segs := Segments(ts, Some(fightEnd));
    assert segs[0] == Segment(ts[0].stacks, Span(ts[0].timestamp, if 1 < |ts| then Some(ts[1].timestamp) else Some(fightEnd)));
  }

  /** Once an end is given, every segment is a closed span. */
  lemma SegmentsClosed(ts: seq<StackChange>, fightEnd: int)
    ensures var segs := Segments(ts, Some(fightEnd));
            |segs| == |ts| && forall k :: 0 <= k < |segs| ==> IsClosedSpan(segs[k].interval)
  {
    var segs := Segments(ts, Some(fightEnd));
    forall k | 0 <= k < |segs| ensures IsClosedSpan(segs[k].interval) {
      assert segs[k].interval == Span(ts[k].timestamp, if k + 1 < |ts| then Some(ts[k + 1].timestamp) else Some(fightEnd));
    }
  }

  /** The durations of the closed segments telescope to `fightEnd` minus the first start. */
  lemma {:induction false} SegmentDurationsTelescope(ts: seq<StackChange>, fightEnd: int)
    requires ts != []
    ensures SegmentDurations(Segments(ts, Some(fightEnd)), false) == fightEnd - ts[0].timestamp
    decreases |ts|
  {
    if |ts| > 1 {
      var front := ts[..|ts| - 1];
      var change := ts[|ts| - 1];
      assert ts == front + [change];
      SegmentsSnoc(front, change, Some(fightEnd));
      var segs := Segments(ts, Some(fightEnd));
      assert segs[..|segs| - 1] == Segments(front, Some(change.timestamp));
      SegmentDurationsTelescope(front, change.timestamp);
    }
  }

  /** Every interval but the last lasts at least MS_BUFFER ms. */
  lemma IntervalsOutlastBuffer(changes: seq<StackChange>, fightStart: int, fightEnd: int)
    ensures var segs := Segments(Transitions(changes, fightStart), Some(fightEnd));
            forall k :: 0 <= k < |segs| - 1 ==> segs[k].interval.duration.value >= MS_BUFFER
  {
    TransitionsSpaced(changes, fightStart);
  }

  // ---------------------------------------------------------------------------
  // Lemmas about grouping by level

  lemma ByLevelSnoc(segs: seq<Segment>, seg: Segment)
    ensures ByLevel(segs + [seg]) == ByLevel(segs)[seg.level := Lookup(ByLevel(segs), seg.level) + [seg.interval]]
  {
    assert (segs + [seg])[..|segs|] == segs;
  }

  /** The newest segment is the newest interval of its level. */
  lemma ByLevelLast(segs: seq<Segment>)
    requires segs != []
    ensures var seg := segs[|segs| - 1];
            var timeline := ByLevel(segs);
            seg.level in timeline && timeline[seg.level] != []
            && timeline[seg.level][|timeline[seg.level]| - 1] == seg.interval
  {
  }

  /** Replacing the newest segment by one of the same level replaces only the newest interval of that level. */
  lemma ByLevelReplaceLast(segs: seq<Segment>, iv: Interval)
    requires segs != []
    ensures var seg := segs[|segs| - 1];
            var timeline := ByLevel(segs);
            var list := timeline[seg.level];
            ByLevel(segs[..|segs| - 1] + [Segment(seg.level, iv)])
            == timeline[seg.level := list[..|list| - 1] + [iv]]
  {
    var front := segs[..|segs| - 1];
    var seg := segs[|segs| - 1];
    assert segs == front + [seg];
    ByLevelSnoc(front, seg);
    ByLevelSnoc(front, Segment(seg.level, iv));
    var list := Lookup(ByLevel(front), seg.level) + [seg.interval];
    assert list[..|list| - 1] == Lookup(ByLevel(front), seg.level);
  }

  /** The levels present are exactly the levels of the segments, and none of them is empty. */
  lemma {:induction false} ByLevelKeys(segs: seq<Segment>)
    ensures ByLevel(segs).Keys == set i | 0 <= i < |segs| :: segs[i].level
    ensures forall l :: l in ByLevel(segs) ==> ByLevel(segs)[l] != []
  {
    if segs != [] {
      var front := segs[..|segs| - 1];
      ByLevelKeys(front);
      var levels := set i | 0 <= i < |segs| :: segs[i].level;
      var frontLevels := set i | 0 <= i < |front| :: front[i].level;
      assert levels == frontLevels + {segs[|segs| - 1].level} by {
        forall l | l in levels ensures l in frontLevels + {segs[|segs| - 1].level} {
          var i :| 0 <= i < |segs| && segs[i].level == l;
          if i < |front| { assert front[i].level == l; }
        }
        forall l | l in frontLevels ensures l in levels {
          var i :| 0 <= i < |front| && front[i].level == l;
          assert segs[i].level == l;
        }
      }
    }
  }

  /** No merging: each level holds one interval per segment at that level. */
  lemma {:induction false} ByLevelCounts(segs: seq<Segment>, level: nat)
    ensures |Lookup(ByLevel(segs), level)| == CountAtLevel(segs, level)
  {
    if segs != [] {
      ByLevelCounts(segs[..|segs| - 1], level);
    }
  }

  /** Every interval in the grouped map is the interval of a segment at that level. */
  lemma {:induction false} ByLevelElements(segs: seq<Segment>)
    ensures forall l, k :: l in ByLevel(segs) && 0 <= k < |ByLevel(segs)[l]| ==> Segment(l, ByLevel(segs)[l][k]) in segs
  {
    if segs != [] {
      var front := segs[..|segs| - 1];
      var seg := segs[|segs| - 1];
      ByLevelElements(front);
      var previous := ByLevel(front);
      var timeline := ByLevel(segs);
      forall l: nat, k: int | l in timeline && 0 <= k < |timeline[l]|
        ensures Segment(l, timeline[l][k]) in segs
      {
        if l == seg.level && k == |timeline[l]| - 1 {
          assert timeline[l][k] == seg.interval;
        } else {
          assert l in previous && k < |previous[l]| && timeline[l][k] == previous[l][k];
          assert Segment(l, previous[l][k]) in front;
        }
      }
    }
  }

  /** Each level's list is exactly the intervals of the segments at that level, in creation order. */
  lemma {:induction false} ByLevelIsFilter(segs: seq<Segment>, level: nat)
    ensures Lookup(ByLevel(segs), level) == IntervalsAt(segs, level)
  {
    if segs != [] {
      var front := segs[..|segs| - 1];
      ByLevelIsFilter(front, level);
      assert segs == front + [segs[|segs| - 1]];
      ByLevelSnoc(front, segs[|segs| - 1]);
    }
  }

  /** Every segment at `level` has its interval among IntervalsAt(segs, level). */
  lemma {:induction false} IntervalsAtHasSegments(segs: seq<Segment>, level: nat)
    ensures forall k :: 0 <= k < |segs| && segs[k].level == level ==> segs[k].interval in IntervalsAt(segs, level)
  {
    if segs != [] {
      var front := segs[..|segs| - 1];
      IntervalsAtHasSegments(front, level);
      forall k | 0 <= k < |segs| && segs[k].level == level ensures segs[k].interval in IntervalsAt(segs, level) {
        if k < |front| {
          assert front[k] == segs[k];
        }
      }
    }
  }

  /** The converse of ByLevelElements: every segment is listed under its level. */
  lemma ByLevelListsEverySegment(segs: seq<Segment>)
    ensures forall k :: 0 <= k < |segs| ==>
              segs[k].level in ByLevel(segs) && segs[k].interval in ByLevel(segs)[segs[k].level]
  {
    forall k | 0 <= k < |segs|
      ensures segs[k].level in ByLevel(segs) && segs[k].interval in ByLevel(segs)[segs[k].level]
    {
      var level := segs[k].level;
      ByLevelIsFilter(segs, level);
      IntervalsAtHasSegments(segs, level);
    }
  }

  // ---------------------------------------------------------------------------
  // What the finished timeline guarantees

  /** With no stack changes the timeline is one level-0 interval spanning the fight. */
  lemma EmptyHistoryTimeline(history: seq<Buff>, fightStart: int, fightEnd: int)
    requires forall i :: 0 <= i < |history| ==> history[i].stackHistory == []
    ensures Timeline(history, fightStart, fightEnd)
            == map[0 := [Interval(fightStart, Some(fightEnd), Some(fightEnd - fightStart))]]
  {
    NoChangesInEmptyChains(history);
    var iv := Interval(fightStart, Some(fightEnd), Some(fightEnd - fightStart));
    var segs := Segments(Transitions([], fightStart), Some(fightEnd));
    assert segs == [Segment(0, iv)];
    assert segs[..0] == [];
    assert ByLevel(segs) == map[][0 := [] + [iv]];
    assert [] + [iv] == [iv];
    assert map[][0 := [iv]] == map[0 := [iv]];
    assert ClosedTimeline([], fightStart, fightEnd) == ByLevel(segs);
    assert Timeline(history, fightStart, fightEnd) == ClosedTimeline(StackChanges(history), fightStart, fightEnd);
  }

  lemma NoChangesInEmptyChains(history: seq<Buff>)
    requires forall i :: 0 <= i < |history| ==> history[i].stackHistory == []
    ensures StackChanges(history) == []
  {
    var chains := ChainsByStart(history);
    ChainsByStartKeys(history);
    forall s | s in chains ensures chains[s] == [] {
      var i :| 0 <= i < |history| && history[i].start == s;
      var j := LastWithStart(history, i);
      ChainsByStartLastWins(history, j);
    }
    ConcatEmpty(chains, SortedKeys(chains.Keys));
  }

  lemma {:induction false} LastWithStart(history: seq<Buff>, i: nat) returns (j: nat)
    requires i < |history|
    ensures i <= j < |history| && history[j].start == history[i].start && LastWithItsStart(history, j)
    decreases |history| - i
  {
    if exists k :: i < k < |history| && history[k].start == history[i].start {
      var k :| i < k < |history| && history[k].start == history[i].start;
      j := LastWithStart(history, k);
    } else {
      j := i;
    }
  }

  lemma {:induction false} ConcatEmpty(chains: map<nat, seq<StackChange>>, starts: seq<nat>)
    requires forall i :: 0 <= i < |starts| ==> starts[i] in chains
    requires forall s :: s in chains ==> chains[s] == []
    ensures Concat(chains, starts) == []
  {
    if starts != [] {
      ConcatEmpty(chains, starts[..|starts| - 1]);
    }
  }

  /** A change is in the concatenation exactly when it is in one of the named chains. */
  lemma {:induction false} ConcatMember(chains: map<nat, seq<StackChange>>, starts: seq<nat>, c: StackChange)
    requires forall i :: 0 <= i < |starts| ==> starts[i] in chains
    ensures c in Concat(chains, starts) <==> exists k :: 0 <= k < |starts| && c in chains[starts[k]]
  {
    if starts != [] {
      var n := |starts| - 1;
      var front := starts[..n];
      ConcatMember(chains, front, c);
      if exists k :: 0 <= k < n && c in chains[front[k]] {
        var k :| 0 <= k < n && c in chains[front[k]];
        assert starts[k] == front[k];
      }
      if exists k :: 0 <= k < |starts| && c in chains[starts[k]] {
        var k :| 0 <= k < |starts| && c in chains[starts[k]];
        if k < n {
          assert front[k] == starts[k];
        }
      }
    }
  }

  /**
   * The walk visits exactly the stack changes of the buffs that no later buff
   * with the same start replaces.
   */
  lemma StackChangesWalked(history: seq<Buff>, c: StackChange)
    ensures c in StackChanges(history)
            <==> exists i :: 0 <= i < |history| && LastWithItsStart(history, i) && c in history[i].stackHistory
  {
    var chains := ChainsByStart(history);
    var starts := SortedKeys(chains.Keys);
    ConcatMember(chains, starts, c);
    ChainsByStartKeys(history);
    if c in StackChanges(history) {
      var k :| 0 <= k < |starts| && c in chains[starts[k]];
      var i :| 0 <= i < |history| && history[i].start == starts[k];
      var j := LastWithStart(history, i);
      ChainsByStartLastWins(history, j);
      assert c in history[j].stackHistory;
    }
    if exists i :: 0 <= i < |history| && LastWithItsStart(history, i) && c in history[i].stackHistory {
      var i :| 0 <= i < |history| && LastWithItsStart(history, i) && c in history[i].stackHistory;
      ChainsByStartLastWins(history, i);
      var s := history[i].start;
      assert s in starts;
      var k :| 0 <= k < |starts| && starts[k] == s;
      assert c in chains[starts[k]];
    }
  }

  /** A closed interval whose duration is its end minus its start. */
  predicate IsClosedSpan(iv: Interval) {
    iv.end.Some? && iv.duration == Some(iv.end.value - iv.start)
  }

  lemma {:induction false} ByLevelClosed(segs: seq<Segment>)
    requires forall i :: 0 <= i < |segs| ==> IsClosedSpan(segs[i].interval)
    ensures forall l, k :: l in ByLevel(segs) && 0 <= k < |ByLevel(segs)[l]| ==> IsClosedSpan(ByLevel(segs)[l][k])
  {
    if segs != [] {
      ByLevelClosed(segs[..|segs| - 1]);
    }
  }

  /**
   * Once finished, every interval is closed, its duration is end minus start,
   * every level present has at least one interval, and level 0 is present.
   */
  lemma TimelineClosed(changes: seq<StackChange>, fightStart: int, fightEnd: int)
    ensures var timeline := ClosedTimeline(changes, fightStart, fightEnd);
            && 0 in timeline
            && (forall l :: l in timeline ==> timeline[l] != [])
            && (forall l, k :: l in timeline && 0 <= k < |timeline[l]| ==> IsClosedSpan(timeline[l][k]))
  {
    var ts := Transitions(changes, fightStart);
    var segs := Segments(ts, Some(fightEnd));
    SegmentsClosed(ts, fightEnd);
    ByLevelKeys(segs);
    assert 0 in set i | 0 <= i < |segs| :: segs[i].level by {
      assert segs[0].level == ts[0].stacks == 0;
    }
    ByLevelClosed(segs);
  }

  /** The number of intervals at each level is the number of kept transitions to that level. */
  lemma TimelineIntervalCounts(changes: seq<StackChange>, fightStart: int, fightEnd: int, level: nat)
    ensures var ts := Transitions(changes, fightStart);
            |Lookup(ClosedTimeline(changes, fightStart, fightEnd), level)| == CountAtLevel(Segments(ts, Some(fightEnd)), level)
  {
    var ts := Transitions(changes, fightStart);
    ByLevelCounts(Segments(ts, Some(fightEnd)), level);
  }

  /**
   * The finished timeline lists, under each level, exactly the intervals of
   * the transitions to that level, in creation order; with SegmentsTile, the
   * intervals of all levels together tile the fight.
   */
  /** Each level of the finished timeline lists exactly the intervals created at that level, oldest first. */
  lemma TimelineLists(changes: seq<StackChange>, fightStart: int, fightEnd: int, level: nat)
    ensures Lookup(ClosedTimeline(changes, fightStart, fightEnd), level)
            == IntervalsAt(Segments(Transitions(changes, fightStart), Some(fightEnd)), level)
  {
    ByLevelIsFilter(Segments(Transitions(changes, fightStart), Some(fightEnd)), level);
  }
}
