# Beat step sequencer: a verified model

`script.js` is a browser drum machine. It has three instrument lanes (hihat,
snare, kick, in that order) of sixteen steps each. The play button starts and
stops a timer, and each timer tick highlights the current column, plays the
active cells in it and, when the metronome is on, a click on each quarter note.
The index then moves to the next step of the bar. Clicking a cell toggles it,
plays its lane and re-runs a pattern matcher. The matcher decorates the cells of
every lane that contains all the steps of a known rhythm ("Four on the floor",
"Trésillo"), and lists the rhythms found, one per id.

The model has six modules:

- `Lanes`: the grid shape, the board of `active` flags, and toggling a cell.
- `Patterns`: the pattern table and the lanes a pattern is checked against.
  It covers lane matching (the `every` test), the found list, one entry per
  matching lane, and the classes each cell is decorated with.
- `Display`: the `Map`-based dedup of `updatePatternDisplay`.
- `Sounds`: what a tick plays. It gives the sounds of one column, the
  metronome click for a step, and the steps and clicks of successive ticks.
- `App`: the page's global state as a class `Sequencer`. The grid is a 3×16
  `array2` of cells, each with its `active` and `playing` flags and its pattern
  classes. The class also holds the step index, the running flag (the timer),
  the metronome switch, the loaded samples, the sounds started so far and the
  listed patterns. The DOM event handlers are methods that update this state in
  place, loops included. `Valid()` says that the decorations and the listed
  patterns are what the matcher computes from the current grid, and every
  handler keeps it.
- `Wrappers`: `Option`, for the pattern's nullable `inst`.

The model keeps these behaviours of script.js:

- matching is subset inclusion only, and other active cells in the lane do not
  matter;
- a pattern with no steps matches every lane in its scope (`every` over an
  empty list is true);
- the play button keeps the step index when it starts playback;
- an `inst` of `null` or `""` (both falsy) checks every lane;
- the dedup keeps ids in first-occurrence order, but each entry holds the
  *last* pattern with that id, because `Map.set` on a known key replaces the
  value in place.

## Model

| member | source | states |
|---|---|---|
| Lanes.Toggle | script.js:100-101 | toggling flips exactly one cell's `active` flag; every other cell is unchanged |
| Lanes.ToggleTwice | script.js:101 | toggling a cell twice gives the board back |
| Patterns.PatternTableWellFormed | script.js:55-72 | the two patterns have in-range, non-empty steps, distinct ids and distinct classes |
| Patterns.InScope | script.js:171-173 | the lanes a pattern is checked against: the lane named by a non-empty `inst`, every lane otherwise; used by Patterns.MatchingLanes |
| Patterns.LaneMatches | script.js:177-179 | every listed step is active in the lane; Patterns.LaneMatchesIsSubset proves it is subset inclusion |
| Patterns.LaneMatchesIsSubset | script.js:177-179 | a lane matches iff the pattern's offsets are a subset of the lane's active offsets |
| Patterns.LaneMatchesMonotone | script.js:177-179 | activating more cells never breaks a match |
| Patterns.MissingStepBreaksMatch | script.js:177-179 | a lane with one of the pattern's offsets inactive does not match |
| Patterns.MatchingLanes | script.js:171-181 | the matching lanes are exactly the in-scope lanes whose cells at all offsets are active, in grid order with no duplicates |
| Patterns.SatisfiedIffSomeLane | script.js:171-182 | a pattern is satisfied iff at least one lane matches it |
| Patterns.Found | script.js:169-183 | the found list, each pattern pushed once per matching lane in table order; characterised by Patterns.FoundMultiplicity and Patterns.FoundMembership |
| Patterns.FoundMultiplicity | script.js:169-183 | a pattern occurs in the found list once per matching lane, for each time it is in the table |
| Patterns.FoundMembership | script.js:169-183 | a pattern is in the found list iff it is in the table and some lane in its scope matches it |
| Patterns.FoundFromTable | script.js:169-182 | every found pattern comes from the table |
| Patterns.Marks | script.js:184-187 | the classes a cell is decorated with; characterised by Patterns.MarksSpec and Patterns.MarkedIff |
| Patterns.MarksSpec | script.js:184-187 | a cell carries a class iff a pattern with that class lists the cell's offset and matches in the cell's lane |
| Patterns.MarksWithinClasses | script.js:164-186 | a cell only ever carries classes of the table |
| Patterns.MarkedIff | script.js:184-187 | with one class per pattern, a cell carries pattern k's class iff its offset is one of k's steps and its lane matches k |
| Patterns.NoActiveCellMatchesNothing | script.js:177-187 | with no active cell, no pattern that has a step is found and no cell is decorated |
| Patterns.EmptyBoardMatchesNothing | script.js:92-98 | on the grid as built, nothing is found and no cell is decorated |
| Display.IndexOf | script.js:142-144 | the index of the first entry that has the id |
| Display.LastIndexOf | script.js:142-144 | the index of the last entry that has the id |
| Display.Insert | script.js:142-144 | `Map.set` replaces the entry of a known id in place, and appends a new id at the end |
| Display.Uniques | script.js:142-144 | the dedup by id; characterised by Display.UniquesIds, UniquesDistinct, UniquesFirstOccurrenceOrder and UniquesLastValue |
| Display.UniquesIds | script.js:142-144 | the listed ids are exactly the ids of the found list |
| Display.UniquesDistinct | script.js:142-144 | each id is listed at most once |
| Display.UniquesFirstOccurrenceOrder | script.js:142-144 | ids are listed in the order of their first occurrence in the found list |
| Display.UniquesLastValue | script.js:142-144 | each listed entry is the last pattern in the found list with that id |
| Display.UniquesAppendRepeat | script.js:142-144 | pushing a new id m times lists it once, at the end, when m > 0 |
| Display.DisplayedAreSatisfied | script.js:169-192 | with distinct ids, the listed patterns are the satisfied patterns, in table order |
| Sounds.PlaySound | script.js:199-201 | an instrument's hit, or nothing while its buffer is absent; used by Sounds.ColumnSoundsSpec |
| Sounds.ClickFor | script.js:225-227 | the click for a step: strong at 0, soft at 4, 8 and 12; characterised by Sounds.ClickForQuarterNotes |
| Sounds.Metronome | script.js:224-235 | the metronome branch of a tick; given in closed form by Sounds.MetronomeSpec |
| Sounds.ClickForQuarterNotes | script.js:226-227 | within the bar, the metronome picks a click iff the step is a multiple of 4, and the strong one iff the step is 0 |
| Sounds.MetronomeSpec | script.js:224-235 | with the metronome on, a tick clicks on quarter notes (strong on step 0, soft otherwise) if that click is loaded; switched off, it never clicks |
| Sounds.ColumnSounds | script.js:215-221 | the hits of one column in lane order; characterised by Sounds.ColumnSoundsOrdered and Sounds.ColumnSoundsSpec |
| Sounds.TickSounds | script.js:213-235 | everything one tick plays: the column's hits, then the click; App.Sequencer.Tick's output is this |
| Sounds.ColumnSoundsOrdered | script.js:215-221 | a column plays only instrument hits, in strictly increasing lane order |
| Sounds.ColumnSoundsSpec | script.js:199-201 | a column plays a lane's instrument iff its cell is active and its sample is loaded, once per lane, in lane order |
| Sounds.StepsFrom | script.js:237 | the steps successive ticks play from a start step; Sounds.StepsFromAt shows they are all in the bar and none is skipped |
| Sounds.StepsFromAt | script.js:237 | successive ticks from step s visit (s + k) mod 16: in range, with no step skipped |
| Sounds.StepsFromSplit | script.js:237 | m + n ticks are m ticks followed by n ticks from where those left off |
| Sounds.MetronomeOffIsSilent | script.js:224 | with the metronome off, any run of ticks clicks nothing |
| Sounds.BeatClicks | script.js:226-227 | the four ticks of a beat click once, on the beat's first step |
| Sounds.ClicksFromBeat | script.js:224-237 | the ticks from beat q to the end of the bar click once per remaining beat |
| Sounds.BarClicks | script.js:224-237 | one bar from step 0 clicks strong, soft, soft, soft |
| Sounds.BarRotation | script.js:237 | a bar of ticks from any step is the bar from 0, rotated |
| Sounds.AnyBarClicks | script.js:224-237 | any sixteen successive ticks click once strong and three times soft |
| Sounds.StepAfter | script.js:237 | the step n ticks reach from step s; Sounds.StepAfterMod shows it is (s + n) mod 16 |
| Sounds.StepAfterMod | script.js:237 | n ticks from step s end at step (s + n) mod 16 |
| Sounds.RunSounds | script.js:212-238 | everything n successive ticks play from a step, tick by tick; App.Sequencer.Run's output is this, and Sounds.RunClicks gives its clicks |
| Sounds.RunSoundsAfter | script.js:212-238 | a run of n ticks plays its first tick, then the run of n - 1 ticks from the next step |
| Sounds.TickClicks | script.js:215-235 | the only clicks of one tick are the metronome's: the column only adds hits |
| Sounds.RunClicks | script.js:215-235 | the clicks heard over a run of ticks are the metronome clicks of its steps, since column sounds are all hits |
| Sounds.RunBarClicks | script.js:212-238 | sixteen ticks with the metronome on and both clicks loaded sound one strong and three soft clicks, whatever the grid |
| Sounds.RunSilentWhenOff | script.js:224 | with the metronome off, a run of ticks sounds no click |
| App.Sequencer.constructor | script.js:16-19 | the page as loaded: an empty grid, step 0, stopped, metronome off, nothing loaded, played or listed, and the invariant holds |
| App.Load | script.js:55-112 | the page built with the script's own pattern table |
| App.Sequencer.SoundLoaded | script.js:31-35 | an instrument sample becomes available |
| App.Sequencer.ClickLoaded | script.js:37-43 | a metronome sample becomes available |
| App.Sequencer.Play | script.js:199-206 | `play` starts the instrument's one-shot, or does nothing while its buffer is absent |
| App.Sequencer.UpdatePatternDisplay | script.js:139-144 | the listed patterns are the dedup of the found list |
| App.Sequencer.ClearPatternClasses | script.js:162-167 | every pattern class is removed from every cell, and nothing else changes |
| App.Sequencer.DecorateLane | script.js:184-187 | the pattern's class is added to exactly its steps in lane r |
| App.Sequencer.CheckLane | script.js:175-188 | the callback reports whether lane r is in scope and matches, and decorates the lane only then |
| App.Sequencer.PushIf | script.js:181-182 | the pattern is pushed when the lane matches |
| App.Sequencer.ApplyPattern | script.js:169-190 | one pattern's pass pushes it once per matching lane and decorates exactly the matching lanes at its steps |
| App.Sequencer.CheckPatterns | script.js:159-193 | stale classes are gone; a cell carries pattern k's class iff its offset is one of k's steps and its lane matches; the list is the satisfied patterns; `active` and `playing` are untouched |
| App.Sequencer.ClearPlaying | script.js:213 | every `playing` flag is cleared and nothing else changes |
| App.Sequencer.PlayColumn | script.js:215-222 | the current column is highlighted, and its active, loaded lanes are played in lane order |
| App.Sequencer.PlayMetronome | script.js:224-235 | the metronome click for the current step is played when on and loaded |
| App.Sequencer.PlayStep | script.js:213-235 | exactly the current column is highlighted, and the column's sounds and the click are played |
| App.Sequencer.Tick | script.js:212-238 | only while the timer runs: the index moves to (index + 1) mod 16; a cell is `playing` iff it is in the pre-tick column; no `active` flag or decoration changes; the output grows by that column's sounds and the click |
| App.Sequencer.Advance | script.js:212-238 | the part of Tick's contract that a run of ticks relies on: the index moves on, the `active` flags stay, the output grows by the tick's sounds |
| App.Sequencer.Run | script.js:256 | n timer firings while running from step `start` over grid `board`: the index reaches StepAfter(start, n), which Sounds.StepAfterMod shows is (start + n) mod 16; no `active` flag changes; the output grows by RunSounds(board, start, n), the sounds of the n visited steps |
| App.Sequencer.ClickCell | script.js:100-104 | exactly the clicked cell is toggled and its lane's sound is played; the decorations and the list are recomputed; highlights are kept |
| App.Sequencer.PressPlay | script.js:244-257 | the running flag flips and the step index is kept |
| App.Sequencer.ToggleMetronome | script.js:259-262 | the metronome switch flips |
| App.PressPlayTwice | script.js:246-256 | two presses of the play button restore the running flag and keep the step index |

## Left out

- Sample loading (`fetch`, `arrayBuffer`, `decodeAudioData`, `Promise.all`) is asynchronous browser I/O. Only its effect is modelled: `SoundLoaded` and `ClickLoaded` add a name to the set of decoded buffers.
- The Web Audio calls (`createBufferSource`, `connect`, `start`) become one `Sound` event appended to `output`.
- DOM construction and styling are presentation only: row labels, the `groupStart` class, the time row, colours, the display's `innerHTML` and the text of the metronome button.
- `step.dataset.patterns` is written but never read, so it is not modelled.
- The timer is only the running flag. `setInterval`, `clearInterval` and the floating-point interval from the unvalidated tempo field are not modelled. A tick is a call of `Tick`, which requires the flag to be set, and `Run` stands for several firings in a row.
- `audioCtx.resume()` and the keyboard handler's pad highlight with its `setTimeout` are browser plumbing with no effect on the modelled state. The commented-out keyboard handler is not code.
- A pad click is `play(inst)`, so `App.Sequencer.Play` covers it.
- Pattern steps outside 0..15 would make `row[idx]` undefined and throw. The model requires every step to be in range (`WellFormedTable`), and the script's table meets that.
- App.Sequencer.constructor: takes the pattern table as a parameter, and `App.Load` instantiates it with the script's table. The invariant is proved for any table with in-range steps and distinct ids and classes, and two more conditions. First, every pattern must have a step. The page does not run the matcher at load, so a pattern with no steps, which matches every lane, would already be due on the display that the page shows empty. Second, pattern classes must differ from `active` and `playing`. The script keeps all three kinds of class in one class list, so a pattern class named `active` or `playing` would change a cell's state there. The model keeps them in separate fields of a cell and cannot show that interaction. The script's table meets both conditions.
