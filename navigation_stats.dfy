/**
 * What Navigation.js derives from the stack timeline and the gear: the
 * duration-weighted stat sum behind `averageStat`, the time column of the
 * stack table (level 0 corrected by the max-stack buff's uptime), and whether
 * a weapon slot carries the tracked enchant.
 */
module NavigationStats {
  import opened Wrappers
  import opened ObjectKeys
  import opened NavigationTimeline

  /** Gear slots that can hold the enchant: main hand and off hand. */
  const MAIN_HAND: int := 15
  const OFF_HAND: int := 16

  /** A gear item; only its permanent enchant id matters here. */
  datatype Item = Item(permanentEnchant: Option<int>)

  // ---------------------------------------------------------------------------
  // Sums over the timeline

  /**
   * `intervals.map(e => e.duration).reduce((total, current) => total + current)`:
   * a `null` duration adds nothing.
   */
  function TotalStackDuration(intervals: seq<Interval>): int {
    if intervals == [] then 0
    else TotalStackDuration(intervals[..|intervals| - 1]) + DurationOrZero(Newest(intervals))
  }

  /** The per-level quantity that a sum over the levels adds up. */
  datatype Column =
    | Weighted                   // level * duration: the `smallBuffDuration` reduce of averageStat
    | Plain                      // duration
    | TableTime(maxUptime: int)  // the table's time cell: level 0 loses the max-stack buff's uptime

  function Cell(timeline: StackTimeline, level: nat, column: Column): int
    requires level in timeline
  {
    var total := TotalStackDuration(timeline[level]);
    match column
    case Weighted => total * level
    case Plain => total
    case TableTime(maxUptime) => if level == 0 then total - maxUptime else total
  }

  /** The sum of `column` over `levels`, visited in ascending order as `Object.keys` does. */
  function ColumnSum(timeline: StackTimeline, levels: set<nat>, column: Column): int
    requires levels <= timeline.Keys
    decreases levels
  {
    if levels == {} then 0
    else
      var level := MinKey(levels);
      Cell(timeline, level, column) + ColumnSum(timeline, levels - {level}, column)
  }

  /**
   * The numerator of `averageStat`: `statPerStack` for every stack held,
   * weighted by time, plus `statAtMax` for the max-stack buff's uptime.
   */
  function AverageStatNumerator(timeline: StackTimeline, maxStackBuffUptime: int, statPerStack: int, statAtMax: int): (numerator: int)
    ensures (forall l :: l in timeline ==> TotalStackDuration(timeline[l]) >= 0)
            && maxStackBuffUptime >= 0 && statPerStack >= 0 && statAtMax >= 0
            ==> numerator >= 0
  {
    var weighted := ColumnSum(timeline, timeline.Keys, Weighted);
    WeightedSumNonNegative(timeline, timeline.Keys);
    assert weighted >= 0 && statPerStack >= 0 ==> weighted * statPerStack >= 0;
    assert maxStackBuffUptime >= 0 && statAtMax >= 0 ==> maxStackBuffUptime * statAtMax >= 0;
    weighted * statPerStack + maxStackBuffUptime * statAtMax
  }

  // ---------------------------------------------------------------------------
  // Lemmas about sums over the levels

  /** Any level of the set can be split off the sum, not only the smallest. */
  lemma {:induction false} ColumnSumSplit(timeline: StackTimeline, levels: set<nat>, column: Column, level: nat)
    requires levels <= timeline.Keys && level in levels
    ensures ColumnSum(timeline, levels, column) == Cell(timeline, level, column) + ColumnSum(timeline, levels - {level}, column)
    decreases levels
  {
    var least := MinKey(levels);
    if least != level {
      ColumnSumSplit(timeline, levels - {least}, column, level);
      assert levels - {least} - {level} == levels - {level} - {least};
      var rest := levels - {level};
      assert least in rest;
      assert MinKey(rest) in levels && MinKey(rest) <= least;
    }
  }

  /** The sum only reads the levels it sums. */
  lemma {:induction false} ColumnSumFrame(timeline: StackTimeline, other: StackTimeline, levels: set<nat>, column: Column)
    requires levels <= timeline.Keys && levels <= other.Keys
    requires forall l :: l in levels ==> timeline[l] == other[l]
    ensures ColumnSum(timeline, levels, column) == ColumnSum(other, levels, column)
    decreases levels
  {
    if levels != {} {
      ColumnSumFrame(timeline, other, levels - {MinKey(levels)}, column);
    }
  }

  /** With no negative level total, the weighted sum is not negative. */
  lemma {:induction false} WeightedSumNonNegative(timeline: StackTimeline, levels: set<nat>)
    requires levels <= timeline.Keys
    ensures (forall l :: l in levels ==> TotalStackDuration(timeline[l]) >= 0) ==> ColumnSum(timeline, levels, Weighted) >= 0
    decreases levels
  {
    if levels != {} {
      WeightedSumNonNegative(timeline, levels - {MinKey(levels)});
    }
  }

  lemma {:induction false} TotalStackDurationSnoc(intervals: seq<Interval>, iv: Interval)
    ensures TotalStackDuration(intervals + [iv]) == TotalStackDuration(intervals) + DurationOrZero(iv)
  {
    assert (intervals + [iv])[..|intervals|] == intervals;
  }

  /** Replacing one level's intervals changes the sum by the change in that level's cell. */
  lemma ColumnSumUpdate(previous: StackTimeline, level: nat, intervals: seq<Interval>, column: Column)
    ensures var timeline := previous[level := intervals];
            ColumnSum(timeline, timeline.Keys, column) + (if level in previous then Cell(previous, level, column) else 0)
            == ColumnSum(previous, previous.Keys, column) + Cell(timeline, level, column)
  {
    var timeline := previous[level := intervals];
    var rest := previous.Keys - {level};
    ColumnSumFrame(timeline, previous, rest, column);
    ColumnSumSplit(timeline, timeline.Keys, column, level);
    assert timeline.Keys - {level} == rest;
    if level in previous {
      ColumnSumSplit(previous, previous.Keys, column, level);
    } else {
      assert rest == previous.Keys;
    }
  }

  /** Appending a segment's interval to its level adds the segment's term to that level's cell. */
  lemma CellSnoc(previous: StackTimeline, seg: Segment, column: Column)
    requires !column.TableTime?
    ensures var timeline := previous[seg.level := Lookup(previous, seg.level) + [seg.interval]];
            Cell(timeline, seg.level, column)
            == (if seg.level in previous then Cell(previous, seg.level, column) else 0)
               + if column.Weighted? then DurationOrZero(seg.interval) * seg.level else DurationOrZero(seg.interval)
  {
    var before := Lookup(previous, seg.level);
    TotalStackDurationSnoc(before, seg.interval);
    assert TotalStackDuration([]) == 0;
    var d := DurationOrZero(seg.interval);
    if column.Weighted? {
      assert (TotalStackDuration(before) + d) * seg.level == TotalStackDuration(before) * seg.level + d * seg.level;
    }
  }

  /** Grouping by level does not change the weighted or the plain sum of the durations. */
  lemma {:induction false} ByLevelColumnSum(segs: seq<Segment>, column: Column)
    requires !column.TableTime?
    ensures ColumnSum(ByLevel(segs), ByLevel(segs).Keys, column) == SegmentDurations(segs, column.Weighted?)
  {
    if segs != [] {
      var front := segs[..|segs| - 1];
      var seg := Newest(segs);
      var previous := ByLevel(front);
      ByLevelColumnSum(front, column);
      assert segs == front + [seg];
      ByLevelSnoc(front, seg);
      ColumnSumUpdate(previous, seg.level, Lookup(previous, seg.level) + [seg.interval], column);
      CellSnoc(previous, seg, column);
    }
  }

  // ---------------------------------------------------------------------------
  // What the derived numbers guarantee

  /**
   * The averageStat numerator is `statPerStack` times the sum, over the
   * intervals in creation order, of stack level times duration, plus
   * `statAtMax` times the max-stack buff's uptime.
   */
  lemma AverageStatBySegments(changes: seq<StackChange>, fightStart: int, fightEnd: int,
                              maxStackBuffUptime: int, statPerStack: int, statAtMax: int)
    ensures var segs := Segments(Transitions(changes, fightStart), Some(fightEnd));
            AverageStatNumerator(ClosedTimeline(changes, fightStart, fightEnd), maxStackBuffUptime, statPerStack, statAtMax)
            == SegmentDurations(segs, true) * statPerStack + maxStackBuffUptime * statAtMax
  {
    ByLevelColumnSum(Segments(Transitions(changes, fightStart), Some(fightEnd)), Weighted);
  }

  /** Level 0 adds nothing to averageStat, whatever its intervals are. */
  lemma LevelZeroAddsNothing(timeline: StackTimeline, intervals: seq<Interval>,
                             maxStackBuffUptime: int, statPerStack: int, statAtMax: int)
    requires 0 in timeline
    ensures AverageStatNumerator(timeline[0 := intervals], maxStackBuffUptime, statPerStack, statAtMax)
            == AverageStatNumerator(timeline, maxStackBuffUptime, statPerStack, statAtMax)
  {
    var other := timeline[0 := intervals];
    assert other.Keys == timeline.Keys;
    ColumnSumSplit(timeline, timeline.Keys, Weighted, 0);
    ColumnSumSplit(other, other.Keys, Weighted, 0);
    ColumnSumFrame(timeline, other, timeline.Keys - {0}, Weighted);
  }

  /** The durations of all levels add up to the length of the fight. */
  lemma TimelineCoversFight(changes: seq<StackChange>, fightStart: int, fightEnd: int)
    ensures var timeline := ClosedTimeline(changes, fightStart, fightEnd);
            ColumnSum(timeline, timeline.Keys, Plain) == fightEnd - fightStart
  {
    var ts := Transitions(changes, fightStart);
    var segs := Segments(ts, Some(fightEnd));
    ByLevelColumnSum(segs, Plain);
    SegmentDurationsTelescope(ts, fightEnd);
  }

  /**
   * The stack table's time column, level 0 corrected by the max-stack buff's
   * uptime, plus the max row's time, adds up to the length of the fight.
   */
  lemma StackTableCoversFight(changes: seq<StackChange>, fightStart: int, fightEnd: int, maxStackBuffUptime: int)
    ensures var timeline := ClosedTimeline(changes, fightStart, fightEnd);
            ColumnSum(timeline, timeline.Keys, TableTime(maxStackBuffUptime)) + maxStackBuffUptime == fightEnd - fightStart
  {
    var timeline := ClosedTimeline(changes, fightStart, fightEnd);
    TimelineCoversFight(changes, fightStart, fightEnd);
    TimelineClosed(changes, fightStart, fightEnd);
    TableTimeIsPlainMinusUptime(timeline, timeline.Keys, maxStackBuffUptime);
  }

  lemma {:induction false} TableTimeIsPlainMinusUptime(timeline: StackTimeline, levels: set<nat>, maxStackBuffUptime: int)
    requires levels <= timeline.Keys
    ensures ColumnSum(timeline, levels, TableTime(maxStackBuffUptime))
            == ColumnSum(timeline, levels, Plain) - if 0 in levels then maxStackBuffUptime else 0
    decreases levels
  {
    if levels != {} {
      TableTimeIsPlainMinusUptime(timeline, levels - {MinKey(levels)}, maxStackBuffUptime);
    }
  }

  // ---------------------------------------------------------------------------
  // The tracked enchant on the weapon slots

  /** `getEnchantableGear`: the item in each enchantable slot, None where the slot is empty. */
  function GetEnchantableGear(gear: map<int, Item>): (items: map<int, Option<Item>>)
    ensures items.Keys == {MAIN_HAND, OFF_HAND}
    ensures forall slot :: slot in items ==> (items[slot].Some? <==> slot in gear)
    ensures forall slot :: slot in items && slot in gear ==> items[slot].value == gear[slot]
  {
    map slot | slot in {MAIN_HAND, OFF_HAND} :: if slot in gear then Some(gear[slot]) else None
  }

  /** `itemHasTrackedEnchant`: there is an item and its permanent enchant is the tracked one. */
  predicate ItemHasTrackedEnchant(item: Option<Item>, enchantId: int): (r: bool)
    ensures r <==> item == Some(Item(Some(enchantId)))
  {
    item.Some? && item.value.permanentEnchant == Some(enchantId)
  }

  /** `Array.prototype.some` with ItemHasTrackedEnchant. */
  function AnyHasTrackedEnchant(items: seq<Option<Item>>, enchantId: int): (r: bool)
    ensures r <==> exists i :: 0 <= i < |items| && ItemHasTrackedEnchant(items[i], enchantId)
  {
    if items == [] then false
    else ItemHasTrackedEnchant(items[0], enchantId) || AnyHasTrackedEnchant(items[1..], enchantId)
  }

  /** `hasTrackedEnchant`: main hand or off hand carries the tracked enchant. */
  function HasTrackedEnchant(gear: map<int, Item>, enchantId: int): (r: bool)
    ensures r <==> ((MAIN_HAND in gear && gear[MAIN_HAND].permanentEnchant == Some(enchantId))
                    || (OFF_HAND in gear && gear[OFF_HAND].permanentEnchant == Some(enchantId)))
  {
    var items := GetEnchantableGear(gear);
    var values := [items[MAIN_HAND], items[OFF_HAND]];
    assert items[MAIN_HAND] == if MAIN_HAND in gear then Some(gear[MAIN_HAND]) else None;
    assert items[OFF_HAND] == if OFF_HAND in gear then Some(gear[OFF_HAND]) else None;
    assert AnyHasTrackedEnchant(values, enchantId)
           <==> ItemHasTrackedEnchant(values[0], enchantId) || ItemHasTrackedEnchant(values[1], enchantId);
    AnyHasTrackedEnchant(values, enchantId)
  }

  /** Only the weapon slots decide whether the enchant is tracked. */
  lemma HasTrackedEnchantReadsWeaponSlotsOnly(gear: map<int, Item>, other: map<int, Item>, enchantId: int)
    requires forall slot :: slot in {MAIN_HAND, OFF_HAND} ==>
               (slot in gear <==> slot in other) && (slot in gear ==> gear[slot] == other[slot])
    ensures HasTrackedEnchant(gear, enchantId) == HasTrackedEnchant(other, enchantId)
  {
    assert MAIN_HAND in {MAIN_HAND, OFF_HAND} && OFF_HAND in {MAIN_HAND, OFF_HAND};
  }
}
