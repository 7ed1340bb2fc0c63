# Navigation enchants and Vigilant's Bloodshaper, modelled in Dafny

This project models two analyzers of WoWAnalyzer, a combat-log analysis tool
for World of Warcraft.

**Navigation.** The Battle for Azeroth "Navigation" weapon enchants grant a
stacking buff. The analyzer checks whether the player's main hand (slot 15) or
off hand (slot 16) carries the tracked enchant. It then rebuilds a timeline of
the buff's stack levels from the combatant's buff history:

- The timeline is a map from stack level to a list of `{start, end, duration}`
  intervals.
- A stack change less than `MS_BUFFER` = 100 ms after the start of the open
  interval is treated as a logging artefact and dropped.
- Every other change closes the open interval and opens a new one at its
  level.
- At fight end the last open interval is closed.

From the timeline the analyzer derives the numerator of the average stat gained
and the time column of its stack table.

**Vigilant's Bloodshaper.** This Uldir trinket analyzer counts the player's
Volatile Blood Explosion hits and adds up their damage, absorbed damage
included.

Modules:

- `Wrappers`: `Option`, which stands for JavaScript's `null`/`undefined`.
- `ObjectKeys`: the ascending order in which JavaScript enumerates the
  integer keys of an object.
- `NavigationTimeline`: the data model (stack changes, buffs, intervals, the
  stack timeline). It also holds a reference definition of the timeline: the
  debounced transitions, the segments they delimit and their grouping by
  level. The lemmas about the reference definition live here too.
- `NavigationCleanStacks`: the `cleanStacks` getter as the loop it is. The
  getter is proved equal to the reference definition.
- `NavigationStats`: the `averageStat` sum, the stack table's time column and
  the tracked-enchant check.
- `Uldir`: the `VigilantsBloodshaper` analyzer as a class whose damage handler
  updates its counters in place.

The lemmas of `NavigationTimeline` and `NavigationStats` are stated over
`ClosedTimeline(changes, ...)`. The result of `CleanStacks(history, ...)` is
`Timeline(history, ...)`, which is `ClosedTimeline(StackChanges(history), ...)`.
So every lemma applies to the getter's result.

## Model

| member | source | states |
|---|---|---|
| NavigationTimeline.IsBuggedStackChange | src/parser/shared/modules/items/bfa/enchants/Navigation.js:48-50 | A change is bugged exactly when it comes less than MS_BUFFER (100) ms after the previous time. In particular, a change timestamped before the previous time is always bugged. |
| NavigationTimeline.ChainsByStart | src/parser/shared/modules/items/bfa/enchants/Navigation.js:64-67 | There is at most one chain per buff of the history. |
| NavigationTimeline.ChainsByStartKeys | src/parser/shared/modules/items/bfa/enchants/Navigation.js:64-67 | The keys are exactly the buff starts of the history. |
| NavigationTimeline.ChainsByStartLastWins | src/parser/shared/modules/items/bfa/enchants/Navigation.js:64-67 | A later buff with the same start overwrites an earlier one: each start maps to the stack history of the last buff with that start. |
| NavigationTimeline.StackChangesWalked | src/parser/shared/modules/items/bfa/enchants/Navigation.js:64-70 | A stack change is walked exactly when it belongs to the stack history of a buff that no later buff with the same start replaces. |
| ObjectKeys.SortedKeys | src/parser/shared/modules/items/bfa/enchants/Navigation.js:69 | The buff starts are enumerated once each, in strictly ascending order, as `Object.values` does for integer keys. |
| ObjectKeys.MinKey | src/parser/shared/modules/items/bfa/enchants/Navigation.js:69 | The first key enumerated is in the set and is no larger than any other key. |
| NavigationTimeline.Transitions | src/parser/shared/modules/items/bfa/enchants/Navigation.js:53-62 | The kept transitions start with the seed: level 0 at fight start. |
| NavigationTimeline.TransitionsSpaced | src/parser/shared/modules/items/bfa/enchants/Navigation.js:76-78 | Consecutive kept transitions are at least MS_BUFFER ms apart. |
| NavigationTimeline.TransitionsFromChanges | src/parser/shared/modules/items/bfa/enchants/Navigation.js:69-96 | Every kept transition after the seed is one of the walked stack changes. There are at most as many kept transitions after the seed as walked changes. |
| NavigationTimeline.DroppedChangeIsNoBoundary | src/parser/shared/modules/items/bfa/enchants/Navigation.js:76-78 | A change bugged relative to the newest kept transition leaves the transitions unchanged. |
| NavigationTimeline.SegmentsTile | src/parser/shared/modules/items/bfa/enchants/Navigation.js:80-107 | In creation order, the intervals start at fight start at level 0. Each interval ends where the next starts. The last ends at fight end. Each is closed with duration end - start. |
| NavigationTimeline.SegmentDurationsTelescope | src/parser/shared/modules/items/bfa/enchants/Navigation.js:80-107 | The durations of the intervals, in creation order, add up to fight end minus the first start. |
| NavigationTimeline.IntervalsOutlastBuffer | src/parser/shared/modules/items/bfa/enchants/Navigation.js:76-83 | Every interval except the final one lasts at least MS_BUFFER ms. |
| NavigationTimeline.ByLevelKeys | src/parser/shared/modules/items/bfa/enchants/Navigation.js:86-96 | The keys of the map are exactly the levels of the kept transitions. No key maps to an empty list. |
| NavigationTimeline.ByLevelCounts | src/parser/shared/modules/items/bfa/enchants/Navigation.js:86-96 | Each level holds exactly one interval per transition to that level. |
| NavigationTimeline.ByLevelElements | src/parser/shared/modules/items/bfa/enchants/Navigation.js:86-96 | Every interval listed under a level was created by a transition to that level. |
| NavigationTimeline.ByLevelIsFilter | src/parser/shared/modules/items/bfa/enchants/Navigation.js:86-96 | The list under a level is exactly the intervals created at that level, in creation order, and a missing level reads as no intervals. |
| NavigationTimeline.IntervalsAtHasSegments | src/parser/shared/modules/items/bfa/enchants/Navigation.js:86-96 | Every interval created at a level is among that level's intervals. |
| NavigationTimeline.ByLevelListsEverySegment | src/parser/shared/modules/items/bfa/enchants/Navigation.js:86-96 | Every created interval is listed under its own level, which is a key of the map. |
| NavigationTimeline.TimelineLists | src/parser/shared/modules/items/bfa/enchants/Navigation.js:80-107 | In the finished timeline, each level's list is exactly the intervals that the kept transitions and the final close create at that level, in creation order. |
| NavigationTimeline.TimelineIntervalCounts | src/parser/shared/modules/items/bfa/enchants/Navigation.js:86-96 | Repeated changes to the same level are not merged: a level's list is as long as the number of kept transitions to it. |
| NavigationTimeline.TimelineClosed | src/parser/shared/modules/items/bfa/enchants/Navigation.js:100-107 | After the final close, level 0 is present, every list is non-empty, and every interval is closed with duration end - start. |
| NavigationTimeline.EmptyHistoryTimeline | src/parser/shared/modules/items/bfa/enchants/Navigation.js:52-110 | With no stack changes, the result is exactly one level-0 interval from fight start to fight end. |
| NavigationCleanStacks.HandleStackChange | src/parser/shared/modules/items/bfa/enchants/Navigation.js:70-97 | A dropped change leaves the map and lastHandledStack unchanged. A kept change closes the newest interval of lastHandledStack if it is open, and appends one open interval at the change's level. It leaves every other interval as it was, and moves lastHandledStack to the change's level. Exactly one open interval, the newest of lastHandledStack, is preserved. |
| NavigationCleanStacks.HandleStackChain | src/parser/shared/modules/items/bfa/enchants/Navigation.js:70-97 | After walking a chain, the map and lastHandledStack are the reference timeline, still open, of all changes walked so far. |
| NavigationCleanStacks.HandleStackChains | src/parser/shared/modules/items/bfa/enchants/Navigation.js:69-98 | After walking the chains by ascending buff start, the map is the open reference timeline of their concatenation. |
| NavigationCleanStacks.CloseOpenInterval | src/parser/shared/modules/items/bfa/enchants/Navigation.js:100-107 | The open interval, if any, is closed at fight end and nothing else changes. Starting from a single open interval, every interval is closed afterwards. |
| NavigationCleanStacks.CleanStacks | src/parser/shared/modules/items/bfa/enchants/Navigation.js:52-110 | The getter's result equals the reference timeline of the buff history, so every lemma above holds of it. |
| NavigationStats.TotalStackDurationSnoc | src/parser/shared/modules/items/bfa/enchants/Navigation.js:121-123 | A level's total duration grows by exactly the duration of the interval appended to it. |
| NavigationStats.WeightedSumNonNegative | src/parser/shared/modules/items/bfa/enchants/Navigation.js:120-126 | If no level's total duration is negative, the sum of level × total duration is not negative. |
| NavigationStats.AverageStatNumerator | src/parser/shared/modules/items/bfa/enchants/Navigation.js:117-129 | With non-negative level totals, max-stack uptime and stat values, the averageStat numerator is not negative. |
| NavigationStats.AverageStatBySegments | src/parser/shared/modules/items/bfa/enchants/Navigation.js:117-129 | The averageStat numerator equals statPerStack times the sum over all intervals of level × duration, plus statAtMax times the max-stack uptime. |
| NavigationStats.LevelZeroAddsNothing | src/parser/shared/modules/items/bfa/enchants/Navigation.js:120-126 | Replacing the level-0 intervals by anything leaves the averageStat numerator unchanged. |
| NavigationStats.ColumnSumSplit | src/parser/shared/modules/items/bfa/enchants/Navigation.js:120-126 | The sum over the levels does not depend on their enumeration order: any level can be split off. |
| NavigationStats.ByLevelColumnSum | src/parser/shared/modules/items/bfa/enchants/Navigation.js:120-126 | Summing per level and then over the levels gives the same total as summing over the intervals in creation order, both weighted by level and unweighted. |
| NavigationStats.TimelineCoversFight | src/parser/shared/modules/items/bfa/enchants/Navigation.js:100-107 | The durations of all levels add up to fight end minus fight start. |
| NavigationStats.StackTableCoversFight | src/parser/shared/modules/items/bfa/enchants/Navigation.js:158-179 | The table's time column, with level 0 reduced by the max-stack uptime, plus the max row's time, adds up to the fight length. |
| NavigationStats.TableTimeIsPlainMinusUptime | src/parser/shared/modules/items/bfa/enchants/Navigation.js:163-165 | Only the level-0 row is corrected, by exactly the max-stack uptime. |
| NavigationStats.GetEnchantableGear | src/parser/shared/modules/items/bfa/enchants/Navigation.js:30-35 | The result has exactly slots 15 and 16. Each holds the item in that slot, or nothing. |
| NavigationStats.ItemHasTrackedEnchant | src/parser/shared/modules/items/bfa/enchants/Navigation.js:36-38 | An item has the tracked enchant exactly when it exists and its permanent enchant is the tracked id. |
| NavigationStats.AnyHasTrackedEnchant | src/parser/shared/modules/items/bfa/enchants/Navigation.js:36-41 | True exactly when some enchantable item exists and has the tracked permanent enchant. |
| NavigationStats.HasTrackedEnchant | src/parser/shared/modules/items/bfa/enchants/Navigation.js:39-46 | The enchant is tracked exactly when the main hand or the off hand carries it. |
| NavigationStats.HasTrackedEnchantReadsWeaponSlotsOnly | src/parser/shared/modules/items/bfa/enchants/Navigation.js:19-22 | Gear outside slots 15 and 16 never affects the result. |
| Uldir.AbsorbedOrZero | src/parser/shared/modules/items/bfa/raids/uldir/VigilantsBloodshaper.js:28 | The absorb counts as 0 exactly when it is missing or zero; otherwise it counts as the absorbed amount. |
| Uldir.HitDamage | src/parser/shared/modules/items/bfa/raids/uldir/VigilantsBloodshaper.js:28 | A hit is credited its amount when nothing was absorbed, and its amount plus the absorb otherwise. |
| Uldir.Explosions | src/parser/shared/modules/items/bfa/raids/uldir/VigilantsBloodshaper.js:25-27 | No more events are counted than were seen. |
| Uldir.ExplosionsMatch | src/parser/shared/modules/items/bfa/raids/uldir/VigilantsBloodshaper.js:26-27 | Every counted event carries the blood explosion's id. |
| Uldir.ExplosionsAreEvents | src/parser/shared/modules/items/bfa/raids/uldir/VigilantsBloodshaper.js:25-27 | Every counted event is one of the events seen. |
| Uldir.ExplosionsSnoc | src/parser/shared/modules/items/bfa/raids/uldir/VigilantsBloodshaper.js:25-31 | One more event is added to the counted events exactly when its ability is the blood explosion. |
| Uldir.VigilantsBloodshaper.constructor | src/parser/shared/modules/items/bfa/raids/uldir/VigilantsBloodshaper.js:17-23 | Both counters start at zero, and the analyzer is active exactly when the trinket is worn. |
| Uldir.VigilantsBloodshaper.OnByPlayerDamage | src/parser/shared/modules/items/bfa/raids/uldir/VigilantsBloodshaper.js:25-31 | A blood explosion adds one hit and amount + absorbed (a missing absorb counting 0) to damage. Any other ability changes neither counter. After every event, hits is the number of blood explosions seen and damage is the sum of their damage. |
| Uldir.ExplosionsAppend | src/parser/shared/modules/items/bfa/raids/uldir/VigilantsBloodshaper.js:25-31 | Counting over two batches of events equals counting each batch and concatenating. |
| Uldir.TotalDamageAppend | src/parser/shared/modules/items/bfa/raids/uldir/VigilantsBloodshaper.js:28 | Damage adds up across batches of hits. |
| Uldir.HitsCountExplosionEvents | src/parser/shared/modules/items/bfa/raids/uldir/VigilantsBloodshaper.js:27-29 | The hit count equals the number of positions in the event sequence whose ability is the blood explosion. |
| Uldir.OtherSpellsIgnored | src/parser/shared/modules/items/bfa/raids/uldir/VigilantsBloodshaper.js:26-27 | Events of other abilities, however many, change nothing that is counted. |
| Uldir.DamageMonotone | src/parser/shared/modules/items/bfa/raids/uldir/VigilantsBloodshaper.js:28 | With non-negative amounts and absorbs, the credited damage never decreases as events arrive. |

## Left out

- The `item()` methods of both analyzers render React components (statistic box, table, tooltip). Only the arithmetic of the table's time column is modelled.
- The final division by `fightDuration`, `.toFixed(0)` and the duration and percentage formatting are floating-point display work. The model stops at the integer numerator of `averageStat` and the integer time cells.
- `selectedCombatant.getBuffHistory`, `getBuffUptime`, `_getGearItemBySlotId` and `hasTrinket` call into the combatant model, which is not part of this model. Their results are parameters: the buff history, `maxStackBuffUptime`, the gear map and `hasTrinket`.
- The spell, item and enchant ids and the per-subclass static configuration (`enchantId`, `smallBuffId`, `bigBuffId`, `statPerStack`, `statAtMax`) are parameters. The defaults 50 and 600 are not fixed in the model.
- The Analyzer base class and its event dispatch are framework code. `OnByPlayerDamage` is called once per damage event.
- The Navigation constructor's `this.active = this.hasTrackedEnchant()` is covered by `HasTrackedEnchant`. There is no class around the Navigation getters, because they read but never update the analyzer's fields.
- src/parser/warlock/destruction/CHANGELOG.js is a list of dated changelog entries without logic.
- Buff starts are natural numbers. A JavaScript object enumerates negative or very large (≥ 2^32 - 1) keys after the array-index keys, in insertion order, and that order is not modelled.
- The intervals are values. The getter updates `lastOccurrence.end`/`duration` in place through a reference into the list. The model replaces the list's last element, which has the same observable effect because no other reference to the interval exists.
- `reduce` without an initial value throws on an empty list. No level of the timeline ever maps to an empty list (`ByLevelKeys`, `TimelineClosed`), so the error path does not arise and is not modelled. A `null` duration, which does not occur after the final close, adds 0.
- `event.absorbed || 0` also maps a `NaN` absorb to 0. The model represents the absorb as an optional integer, so `NaN` does not arise; a missing absorb and an absorb of 0 both count 0 (`AbsorbedOrZero`).
- Damage amounts and counters are unbounded integers. JavaScript's double precision above 2^53 is not modelled.
- The durations add up to fight end minus fight start unconditionally (`TimelineCoversFight`). When the last kept change falls after fight end, the final interval's duration is negative, as in the source.
