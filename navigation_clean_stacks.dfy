/**
 * The `cleanStacks` getter of Navigation.js as the loop it is: a map from
 * stack level to interval lists, updated one stack change at a time, then the
 * open interval closed at fight end. The result is proved equal to the
 * reference timeline of NavigationTimeline.
 */
module NavigationCleanStacks {
  import opened Wrappers
  import opened ObjectKeys
  import opened NavigationTimeline

  /** The newest interval of `lastHandledStack` exists and the change comes too soon after its start. */
  predicate Dropped(cleanStacks: StackTimeline, lastHandledStack: nat, change: StackChange) {
    && lastHandledStack in cleanStacks
    && cleanStacks[lastHandledStack] != []
    && IsBuggedStackChange(Newest(cleanStacks[lastHandledStack]).start, change.timestamp)
  }

  /** `if (lastOccurrence.end === null) { end = t; duration = end - start }`. */
  function CloseIfOpen(iv: Interval, t: int): Interval {
    if iv.end.None? then Span(iv.start, Some(t)) else iv
  }

  /**
   * What keeping a change at `t` to `level` does to the map: the newest
   * interval of `last` is closed at `t` if it was open, one open interval
   * starting at `t` is appended to `level`, and no other interval changes.
   */
  ghost predicate KeptUpdate(cleanStacks: StackTimeline, last: nat, t: int, level: nat, next: StackTimeline) {
    && next.Keys == cleanStacks.Keys + {level}
    && |next[level]| == |Lookup(cleanStacks, level)| + 1
    && Newest(next[level]) == OpenAt(t)
    && (forall l :: l in cleanStacks && l != level ==> |next[l]| == |cleanStacks[l]|)
    && (forall l, k :: l in cleanStacks && 0 <= k < |cleanStacks[l]| ==>
          k < |next[l]| &&
          next[l][k] == if l == last && k == |cleanStacks[l]| - 1 then CloseIfOpen(cleanStacks[l][k], t) else cleanStacks[l][k])
  }

  /**
   * The body of the inner `forEach`: handles one stack change. A dropped
   * change leaves the map and `lastHandledStack` as they were; a kept one
   * closes the open interval and opens a new one at the change's level, even
   * when that level is the one just closed.
   */
  method HandleStackChange(cleanStacks: StackTimeline, lastHandledStack: nat, change: StackChange)
    returns (next: StackTimeline, nextLast: nat)
    requires lastHandledStack in cleanStacks ==> cleanStacks[lastHandledStack] != []
    ensures Dropped(cleanStacks, lastHandledStack, change) ==> next == cleanStacks && nextLast == lastHandledStack
    ensures !Dropped(cleanStacks, lastHandledStack, change) ==>
              && nextLast == change.stacks
              && KeptUpdate(cleanStacks, lastHandledStack, change.timestamp, change.stacks, next)
    ensures OneOpen(cleanStacks, lastHandledStack) ==> OneOpen(next, nextLast)
  {
    next, nextLast := cleanStacks, lastHandledStack;
    if lastHandledStack in cleanStacks {
      var previousStack := cleanStacks[lastHandledStack];
      var lastOccurrence := previousStack[|previousStack| - 1];
      if IsBuggedStackChange(lastOccurrence.start, change.timestamp) {
        return;
      }
      if lastOccurrence.end.None? {
        next := next[lastHandledStack := previousStack[..|previousStack| - 1] + [Span(lastOccurrence.start, Some(change.timestamp))]];
      }
    }
    next := next[change.stacks := Lookup(next, change.stacks) + [OpenAt(change.timestamp)]];
    nextLast := change.stacks;
  }

  /**
   * `stackChain.forEach(...)`: hands every change of one chain, in order, to
   * HandleStackChange. `handled` is every change walked before this chain.
   */
  method HandleStackChain(cleanStacks: StackTimeline, lastHandledStack: nat, stackChain: seq<StackChange>,
                          ghost handled: seq<StackChange>, ghost fightStart: int)
    returns (next: StackTimeline, nextLast: nat)
    requires OneOpen(cleanStacks, lastHandledStack)
    requires cleanStacks == OpenTimeline(handled, fightStart) && lastHandledStack == LastLevel(handled, fightStart)
    ensures OneOpen(next, nextLast)
    ensures next == OpenTimeline(handled + stackChain, fightStart)
    ensures nextLast == LastLevel(handled + stackChain, fightStart)
  {
    next, nextLast := cleanStacks, lastHandledStack;
    var i := 0;
    ghost var walked := handled;
    while i < |stackChain|
      invariant 0 <= i <= |stackChain|
      invariant walked == handled + stackChain[..i]
      invariant OneOpen(next, nextLast)
      invariant next == OpenTimeline(walked, fightStart)
      invariant nextLast == LastLevel(walked, fightStart)
    {
      ghost var before, lastBefore := next, nextLast;
      next, nextLast := HandleStackChange(next, nextLast, stackChain[i]);
      StepMatches(walked, fightStart, stackChain[i], before, lastBefore, next, nextLast);
      assert stackChain[..i + 1] == stackChain[..i] + [stackChain[i]];
      walked := walked + [stackChain[i]];
      i := i + 1;
    }
    assert stackChain[..i] == stackChain;
  }

  /**
   * `Object.values(buffStacks).forEach(...)`: hands the chains, by ascending
   * buff start, to HandleStackChain, starting from the seeded map.
   */
  method HandleStackChains(cleanStacks: StackTimeline, lastHandledStack: nat,
                           buffStacks: map<nat, seq<StackChange>>, starts: seq<nat>, ghost fightStart: int)
    returns (next: StackTimeline, nextLast: nat)
    requires forall i :: 0 <= i < |starts| ==> starts[i] in buffStacks
    requires OneOpen(cleanStacks, lastHandledStack)
    requires cleanStacks == OpenTimeline([], fightStart) && lastHandledStack == LastLevel([], fightStart)
    ensures OneOpen(next, nextLast)
    ensures next == OpenTimeline(Concat(buffStacks, starts), fightStart)
    ensures nextLast == LastLevel(Concat(buffStacks, starts), fightStart)
  {
    next, nextLast := cleanStacks, lastHandledStack;
    ghost var handled: seq<StackChange> := [];
    var j := 0;
    while j < |starts|
      invariant 0 <= j <= |starts|
      invariant handled == Concat(buffStacks, starts[..j])
      invariant OneOpen(next, nextLast)
      invariant next == OpenTimeline(handled, fightStart)
      invariant nextLast == LastLevel(handled, fightStart)
    {
      var stackChain := buffStacks[starts[j]];
      next, nextLast := HandleStackChain(next, nextLast, stackChain, handled, fightStart);
      assert starts[..j + 1][..j] == starts[..j];
      handled := handled + stackChain;
      j := j + 1;
    }
    assert starts[..j] == starts;
  }

  /**
   * The `cleanStacks` getter: seeds level 0 with an interval open at fight
   * start, walks every stack change of every chain (chains by ascending buff
   * start), then closes the open interval at fight end.
   */
  method CleanStacks(history: seq<Buff>, fightStart: int, fightEnd: int) returns (cleanStacks: StackTimeline)
    ensures cleanStacks == Timeline(history, fightStart, fightEnd)
  {
    cleanStacks := map[0 := [OpenAt(fightStart)]];
    var lastHandledStack: nat := 0;
    SeedMatches(fightStart);

    var buffStacks := ChainsByStart(history);
    var starts := SortedKeys(buffStacks.Keys);
    cleanStacks, lastHandledStack := HandleStackChains(cleanStacks, lastHandledStack, buffStacks, starts, fightStart);

    ghost var handled := Concat(buffStacks, starts);
    FinalCloseMatches(handled, fightStart, fightEnd);
    cleanStacks := CloseOpenInterval(cleanStacks, lastHandledStack, fightEnd);
    TimelineUnfold(history, fightStart, fightEnd);
  }

  /**
   * The step after the loops: the newest interval of `lastHandledStack`, if
   * it is still open, is closed at fight end. Starting from the walking
   * state, every interval is closed afterwards.
   */
  method CloseOpenInterval(cleanStacks: StackTimeline, lastHandledStack: nat, fightEnd: int)
    returns (closed: StackTimeline)
    requires lastHandledStack in cleanStacks ==> cleanStacks[lastHandledStack] != []
    ensures lastHandledStack in cleanStacks && Newest(cleanStacks[lastHandledStack]).end.None? ==>
              var list := cleanStacks[lastHandledStack];
              closed == cleanStacks[lastHandledStack := list[..|list| - 1] + [Span(Newest(list).start, Some(fightEnd))]]
    ensures !(lastHandledStack in cleanStacks && Newest(cleanStacks[lastHandledStack]).end.None?) ==> closed == cleanStacks
    ensures OneOpen(cleanStacks, lastHandledStack) ==>
              && closed.Keys == cleanStacks.Keys
              && forall l, k :: l in closed && 0 <= k < |closed[l]| ==> IsClosedSpan(closed[l][k])
  {
    closed := cleanStacks;
    if lastHandledStack in cleanStacks {
      var previousStack := cleanStacks[lastHandledStack];
      var lastOccurrence := previousStack[|previousStack| - 1];
      if lastOccurrence.end.None? {
        closed := closed[lastHandledStack := previousStack[..|previousStack| - 1] + [Span(lastOccurrence.start, Some(fightEnd))]];
      }
    }
  }

  lemma TimelineUnfold(history: seq<Buff>, fightStart: int, fightEnd: int)
    ensures var chains := ChainsByStart(history);
            Timeline(history, fightStart, fightEnd) == ClosedTimeline(Concat(chains, SortedKeys(chains.Keys)), fightStart, fightEnd)
  {
  }

  // ---------------------------------------------------------------------------
  // Proof that the loop builds the reference timeline

  lemma SeedMatches(fightStart: int)
    ensures OneOpen(map[0 := [OpenAt(fightStart)]], 0)
    ensures map[0 := [OpenAt(fightStart)]] == OpenTimeline([], fightStart)
    ensures LastLevel([], fightStart) == 0
  {
    var segs := Segments(Transitions([], fightStart), None);
    assert segs == [Segment(0, OpenAt(fightStart))];
    assert segs[..0] == [];
    assert [] + [OpenAt(fightStart)] == [OpenAt(fightStart)];
    assert map[][0 := [OpenAt(fightStart)]] == map[0 := [OpenAt(fightStart)]];
    assert OpenTimeline([], fightStart) == ByLevel(segs);
  }

  /** The newest interval of the last level in the reference map is the open one of the newest transition. */
  lemma OpenTimelineNewest(changes: seq<StackChange>, fightStart: int)
    ensures var timeline := OpenTimeline(changes, fightStart);
            var ts := Transitions(changes, fightStart);
            var last := LastLevel(changes, fightStart);
            last in timeline && timeline[last] != [] && Newest(timeline[last]) == OpenAt(Newest(ts).timestamp)
  {
    ByLevelLast(Segments(Transitions(changes, fightStart), None));
  }

  /** One call of HandleStackChange on the reference state gives the reference state of one more change. */
  lemma StepMatches(changes: seq<StackChange>, fightStart: int, change: StackChange,
                    cleanStacks: StackTimeline, last: nat, next: StackTimeline, nextLast: nat)
    requires cleanStacks == OpenTimeline(changes, fightStart) && last == LastLevel(changes, fightStart)
    requires Dropped(cleanStacks, last, change) ==> next == cleanStacks && nextLast == last
    requires !Dropped(cleanStacks, last, change) ==>
               nextLast == change.stacks && KeptUpdate(cleanStacks, last, change.timestamp, change.stacks, next)
    ensures next == OpenTimeline(changes + [change], fightStart)
    ensures nextLast == LastLevel(changes + [change], fightStart)
  {
    var ts := Transitions(changes, fightStart);
    OpenTimelineNewest(changes, fightStart);
    TransitionsSnoc(changes, change, fightStart);
    if !Dropped(cleanStacks, last, change) {
      KeptMatches(changes, fightStart, change, next);
    }
  }

  lemma KeptMatches(changes: seq<StackChange>, fightStart: int, change: StackChange, next: StackTimeline)
    requires var ts := Transitions(changes, fightStart);
             !IsBuggedStackChange(Newest(ts).timestamp, change.timestamp)
    requires KeptUpdate(OpenTimeline(changes, fightStart), LastLevel(changes, fightStart), change.timestamp, change.stacks, next)
    ensures next == OpenTimeline(changes + [change], fightStart)
  {
    var cleanStacks := OpenTimeline(changes, fightStart);
    var last := LastLevel(changes, fightStart);
    OpenTimelineNewest(changes, fightStart);
    OpenTimelineKept(changes, fightStart, change);
    KeptUpdateDetermines(cleanStacks, last, change.timestamp, change.stacks, next);
  }

  /** Keeping a change closes the newest interval of the reference map and appends an open one. */
  lemma OpenTimelineKept(changes: seq<StackChange>, fightStart: int, change: StackChange)
    requires var ts := Transitions(changes, fightStart);
             !IsBuggedStackChange(Newest(ts).timestamp, change.timestamp)
    ensures var timeline := OpenTimeline(changes, fightStart);
            var last := LastLevel(changes, fightStart);
            var t := change.timestamp;
            && last in timeline && timeline[last] != []
            && var closed := timeline[last := timeline[last][..|timeline[last]| - 1] + [CloseIfOpen(Newest(timeline[last]), t)]];
               OpenTimeline(changes + [change], fightStart)
               == closed[change.stacks := Lookup(closed, change.stacks) + [OpenAt(t)]]
  {
    var ts := Transitions(changes, fightStart);
    var timeline := OpenTimeline(changes, fightStart);
    var last := LastLevel(changes, fightStart);
    var t := change.timestamp;
    TransitionsSnoc(changes, change, fightStart);
    assert Transitions(changes + [change], fightStart) == ts + [change];
    OpenTimelineNewest(changes, fightStart);
    var list := timeline[last];
    var segs := Segments(ts, None);
    var closedSpan := Span(Newest(ts).timestamp, Some(t));
    assert CloseIfOpen(Newest(list), t) == closedSpan;
    SegmentsSnoc(ts, change, None);
    assert Segments(ts + [change], None) == Segments(ts, Some(t)) + [Segment(change.stacks, OpenAt(t))];
    SegmentsReend(ts, None, Some(t));
    assert Segments(ts, Some(t)) == segs[..|segs| - 1] + [Segment(last, closedSpan)];
    ByLevelReplaceLast(segs, closedSpan);
    var closed := timeline[last := list[..|list| - 1] + [closedSpan]];
    assert ByLevel(Segments(ts, Some(t))) == closed;
    ByLevelSnoc(Segments(ts, Some(t)), Segment(change.stacks, OpenAt(t)));
  }

  /** KeptUpdate leaves exactly one possible next map. */
  lemma KeptUpdateDetermines(cleanStacks: StackTimeline, last: nat, t: int, level: nat, next: StackTimeline)
    requires last in cleanStacks && cleanStacks[last] != []
    requires KeptUpdate(cleanStacks, last, t, level, next)
    ensures var list := cleanStacks[last];
            var closed := cleanStacks[last := list[..|list| - 1] + [CloseIfOpen(Newest(list), t)]];
            next == closed[level := Lookup(closed, level) + [OpenAt(t)]]
  {
    var list := cleanStacks[last];
    var closed := cleanStacks[last := list[..|list| - 1] + [CloseIfOpen(Newest(list), t)]];
    var expected := closed[level := Lookup(closed, level) + [OpenAt(t)]];
    assert next.Keys == expected.Keys;
    forall l | l in expected ensures next[l] == expected[l] {
      assert |next[l]| == |expected[l]|;
      forall k | 0 <= k < |next[l]| ensures next[l][k] == expected[l][k] {
        if l == level && k == |next[l]| - 1 {
          assert next[l][k] == Newest(next[l]);
        } else {
          assert l in cleanStacks && k < |cleanStacks[l]|;
        }
      }
    }
  }

  /** Closing the open interval at fight end turns the reference map into the finished timeline. */
  lemma FinalCloseMatches(changes: seq<StackChange>, fightStart: int, fightEnd: int)
    ensures var timeline := OpenTimeline(changes, fightStart);
            var last := LastLevel(changes, fightStart);
            && last in timeline && timeline[last] != [] && Newest(timeline[last]).end.None?
            && timeline[last := timeline[last][..|timeline[last]| - 1] + [Span(Newest(timeline[last]).start, Some(fightEnd))]]
               == ClosedTimeline(changes, fightStart, fightEnd)
  {
    var ts := Transitions(changes, fightStart);
    OpenTimelineNewest(changes, fightStart);
    var segs := Segments(ts, None);
    SegmentsReend(ts, None, Some(fightEnd));
    ByLevelReplaceLast(segs, Span(Newest(ts).timestamp, Some(fightEnd)));
  }
}
