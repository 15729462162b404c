/**
  The sequencer's global state and its event handlers: the step grid, the
  step index, the running (timer set) flag, the metronome switch, the sounds
  loaded so far, the sounds started so far and the pattern list on display.
*/
module App {
  import opened Lanes
  import opened Patterns
  import opened Display
  import opened Sounds

  /** One step element of the grid: its `active` and `playing` classes and the
      pattern classes it carries. */
  datatype Cell = Cell(active: bool, playing: bool, marks: set<string>)

  class Sequencer {
    /** Row r is lane LaneNames[r]; column i is step i. */
    var grid: array2<Cell>
    var stepIndex: int
    /** A playback timer is set. */
    var running: bool
    var metronomeOn: bool
    /** Instruments whose sample has been decoded into `buffers`. */
    var loaded: set<string>
    /** Metronome clicks whose sample has been decoded into `metronomeBuffers`. */
    var clicksLoaded: set<Accent>
    /** Every one-shot started on the audio context, oldest first. */
    var output: seq<Sound>
    /** The patterns listed under the grid. */
    var displayed: seq<Pattern>
    /** The pattern definitions `checkPatterns` scans. */
    const table: seq<Pattern>

    /** Three lanes of sixteen cells, an index inside the bar, and only pattern
        classes on the cells. */
    ghost predicate Shaped()
      reads this, grid
    {
      grid.Length0 == |LaneNames| && grid.Length1 == StepCount && 0 <= stepIndex < StepCount &&
      WellFormedTable(table) && DistinctIds(table) && DistinctClasses(table) &&
      forall r, i :: 0 <= r < |LaneNames| && 0 <= i < StepCount ==> grid[r, i].marks <= Classes(table)
    }

    /** The `active` flags of the grid. */
    function Board(): (b: Board)
      reads this`grid, grid
      requires grid.Length0 == |LaneNames| && grid.Length1 == StepCount
      ensures WellFormedBoard(b)
      ensures forall r, i :: 0 <= r < |LaneNames| && 0 <= i < StepCount ==> b[r][i] == grid[r, i].active
    {
      var g := grid;
      seq(|LaneNames|, r requires 0 <= r < g.Length0 reads g =>
        seq(StepCount, i requires 0 <= i < g.Length1 reads g => g[r, i].active))
    }

    /** The pattern classes of every cell. */
    ghost function Marking(): (m: seq<seq<set<string>>>)
      reads this`grid, grid
      requires grid.Length0 == |LaneNames| && grid.Length1 == StepCount
      ensures |m| == |LaneNames| && forall r :: 0 <= r < |LaneNames| ==> |m[r]| == StepCount
      ensures forall r, i :: 0 <= r < |LaneNames| && 0 <= i < StepCount ==> m[r][i] == grid[r, i].marks
    {
      var g := grid;
      seq(|LaneNames|, r requires 0 <= r < g.Length0 reads g =>
        seq(StepCount, i requires 0 <= i < g.Length1 reads g => g[r, i].marks))
    }

    /** The decorations and the pattern list reflect the current grid. */
    ghost predicate Valid()
      reads this, grid
    {
      Shaped() &&
      Marking() == MarksBoard(table, Board()) &&
      displayed == Uniques(Found(table, Board()))
    }

    /** The page as loaded with the pattern definitions `patterns`: an empty
        grid, playback stopped, the metronome off, no sample decoded yet and no
        pattern listed. */
    constructor (patterns: seq<Pattern>)
      requires WellFormedTable(patterns) && DistinctIds(patterns) && DistinctClasses(patterns)
      requires forall k :: 0 <= k < |patterns| ==> patterns[k].steps != []
      ensures Valid() && fresh(grid)
      ensures table == patterns
      ensures Board() == EmptyBoard()
      ensures forall r, i :: 0 <= r < |LaneNames| && 0 <= i < StepCount ==> grid[r, i] == Cell(false, false, {})
      ensures stepIndex == 0 && !running && !metronomeOn
      ensures loaded == {} && clicksLoaded == {} && output == [] && displayed == []
    {
      grid := new Cell[|LaneNames|, StepCount]((_, _) => Cell(false, false, {}));
      stepIndex := 0;
      running := false;
      metronomeOn := false;
      loaded := {};
      clicksLoaded := {};
      output := [];
      displayed := [];
      table := patterns;
      new;
      SameCells(Board(), EmptyBoard());
      EmptyBoardMatchesNothing(table);
      SameCells(Marking(), MarksBoard(table, EmptyBoard()));
    }

    /** An instrument's sample finishes decoding and is stored under its name. */
    method SoundLoaded(name: string)
      requires Valid()
      modifies this`loaded
      ensures Valid()
      ensures loaded == old(loaded) + {name}
    {
      loaded := loaded + {name};
    }

    /** A metronome sample finishes decoding and is stored under its accent. */
    method ClickLoaded(accent: Accent)
      requires Valid()
      modifies this`clicksLoaded
      ensures Valid()
      ensures clicksLoaded == old(clicksLoaded) + {accent}
    {
      clicksLoaded := clicksLoaded + {accent};
    }

    /** Playing an instrument, also what a pad click does: starts the instrument's
        one-shot, or does nothing while its buffer is absent. */
    method Play(inst: string)
      modifies this`output
      ensures output == old(output) + PlaySound(inst, loaded)
    {
      if inst !in loaded {
        return;
      }
      output := output + [Hit(inst)];
    }

    /** `updatePatternDisplay`: lists the found patterns, one per id. */
    method UpdatePatternDisplay(validPatterns: seq<Pattern>)
      modifies this`displayed
      ensures displayed == Uniques(validPatterns)
    {
      displayed := Uniques(validPatterns);
    }

    /** The first loop of `checkPatterns`: removes every pattern class from every cell. */
    method ClearPatternClasses()
      requires Shaped()
      modifies grid
      ensures forall r, i :: 0 <= r < |LaneNames| && 0 <= i < StepCount ==>
                grid[r, i] == old(grid[r, i]).(marks := {})
    {
      var classes := Classes(table);
      for r := 0 to |LaneNames|
        invariant forall rr, ii :: 0 <= rr < |LaneNames| && 0 <= ii < StepCount ==>
                    grid[rr, ii] == if rr < r then old(grid[rr, ii]).(marks := {}) else old(grid[rr, ii])
      {
        for i := 0 to StepCount
          invariant forall rr, ii :: 0 <= rr < |LaneNames| && 0 <= ii < StepCount ==>
                      grid[rr, ii] == if rr < r || (rr == r && ii < i) then old(grid[rr, ii]).(marks := {})
                                      else old(grid[rr, ii])
        {
          grid[r, i] := grid[r, i].(marks := grid[r, i].marks - classes);
        }
      }
    }

    /** Adds the pattern's class to the cells of lane r at each of the pattern's steps. */
    method DecorateLane(pattern: Pattern, r: nat)
      requires grid.Length0 == |LaneNames| && grid.Length1 == StepCount
      requires StepsInRange(pattern) && r < |LaneNames|
      modifies grid
      ensures forall rr, ii :: 0 <= rr < |LaneNames| && 0 <= ii < StepCount ==>
                grid[rr, ii] == old(grid[rr, ii]).(marks := old(grid[rr, ii]).marks +
                  if rr == r && ii in pattern.steps then {pattern.cssClass} else {})
    {
      for j := 0 to |pattern.steps|
        invariant forall rr, ii :: 0 <= rr < |LaneNames| && 0 <= ii < StepCount ==>
                    grid[rr, ii] == old(grid[rr, ii]).(marks := old(grid[rr, ii]).marks +
                      if rr == r && ii in pattern.steps[..j] then {pattern.cssClass} else {})
      {
        var idx := pattern.steps[j];
        assert pattern.steps[..j + 1] == pattern.steps[..j] + [idx];
        grid[r, idx] := grid[r, idx].(marks := grid[r, idx].marks + {pattern.cssClass});
      }
      assert pattern.steps[..|pattern.steps|] == pattern.steps;
    }

    /** The `rows.forEach` callback of `checkPatterns` for lane r: when the
        lane is in the pattern's scope and matches, the pattern is pushed and the
        lane's cells at the pattern's steps are decorated. */
    method CheckLane(pattern: Pattern, board: Board, r: nat) returns (hit: bool)
      requires grid.Length0 == |LaneNames| && grid.Length1 == StepCount
      requires WellFormedBoard(board) && StepsInRange(pattern) && r < |LaneNames|
      modifies grid
      ensures hit == LaneHit(pattern, board, r)
      ensures forall rr, ii :: 0 <= rr < |LaneNames| && 0 <= ii < StepCount ==>
                grid[rr, ii] == old(grid[rr, ii]).(marks := old(grid[rr, ii]).marks +
                  if rr == r && ii in pattern.steps && hit then {pattern.cssClass} else {})
    {
      hit := false;
      if InScope(pattern, r) {
        if LaneMatches(pattern.steps, board[r]) {
          hit := true;
          DecorateLane(pattern, r);
        }
      }
    }

    /** Appends the pattern to the found list when lane r matches it. */
    static method PushIf(pattern: Pattern, board: Board, r: nat, hit: bool, pushed: seq<Pattern>) returns (pushed': seq<Pattern>)
      requires WellFormedBoard(board) && StepsInRange(pattern) && r < |LaneNames|
      requires hit == LaneHit(pattern, board, r)
      requires pushed == Repeat(pattern, |MatchingLanes(pattern, board, r)|)
      ensures pushed' == Repeat(pattern, |MatchingLanes(pattern, board, r + 1)|)
    {
      pushed' := pushed;
      if hit {
        RepeatSnoc(pattern, |pushed|);
        pushed' := pushed + [pattern];
      }
    }

    /** One pattern's pass of `checkPatterns` over the lanes: the pattern is
        pushed once per matching lane and the cells of those lanes at the
        pattern's steps are decorated. */
    method ApplyPattern(pattern: Pattern, board: Board) returns (pushed: seq<Pattern>)
      requires grid.Length0 == |LaneNames| && grid.Length1 == StepCount
      requires WellFormedBoard(board) && StepsInRange(pattern)
      modifies grid
      ensures pushed == Repeat(pattern, |MatchingLanes(pattern, board, |LaneNames|)|)
      ensures forall rr, ii :: 0 <= rr < |LaneNames| && 0 <= ii < StepCount ==>
                grid[rr, ii] == old(grid[rr, ii]).(marks := old(grid[rr, ii]).marks +
                  if ii in pattern.steps && LaneHit(pattern, board, rr) then {pattern.cssClass} else {})
    {
      pushed := [];
      for r := 0 to |LaneNames|
        invariant pushed == Repeat(pattern, |MatchingLanes(pattern, board, r)|)
        invariant forall rr, ii :: 0 <= rr < |LaneNames| && 0 <= ii < StepCount ==>
                    grid[rr, ii] == old(grid[rr, ii]).(marks := old(grid[rr, ii]).marks +
                      if rr < r && ii in pattern.steps && LaneHit(pattern, board, rr) then {pattern.cssClass} else {})
      {
        var hit := CheckLane(pattern, board, r);
        pushed := PushIf(pattern, board, r, hit, pushed);
      }
    }

    /** `checkPatterns`: clears every pattern decoration, decorates the cells of
        every matching lane and lists the patterns found. */
    method CheckPatterns()
      requires Shaped()
      modifies this`displayed, grid
      ensures Valid()
      ensures forall r, i :: 0 <= r < |LaneNames| && 0 <= i < StepCount ==>
                grid[r, i].active == old(grid[r, i].active) && grid[r, i].playing == old(grid[r, i].playing)
      ensures Board() == old(Board())
      ensures displayed == SatisfiedPatterns(table, Board())
      ensures forall r, i, k :: 0 <= r < |LaneNames| && 0 <= i < StepCount && 0 <= k < |table| ==>
                (table[k].cssClass in grid[r, i].marks <==>
                 i in table[k].steps && LaneHit(table[k], Board(), r))
    {
      var board := Board();
      ClearPatternClasses();
      var validPatterns: seq<Pattern> := [];
      for k := 0 to |table|
        invariant validPatterns == Found(table[..k], board)
        invariant forall rr, ii :: 0 <= rr < |LaneNames| && 0 <= ii < StepCount ==>
                    grid[rr, ii] == old(grid[rr, ii]).(marks := Marks(table[..k], board, rr, ii))
      {
        var pattern := table[k];
        var pushed := ApplyPattern(pattern, board);
        validPatterns := validPatterns + pushed;
        assert table[..k + 1][..k] == table[..k] && table[..k + 1][k] == pattern;
      }
      assert table[..|table|] == table;
      SameCells(Board(), board);
      UpdatePatternDisplay(validPatterns);
      DisplayedAreSatisfied(table, board);
      forall r, i, k | 0 <= r < |LaneNames| && 0 <= i < StepCount && 0 <= k < |table|
        ensures table[k].cssClass in grid[r, i].marks <==>
                i in table[k].steps && LaneHit(table[k], board, r)
      {
        MarkedIff(table, board, r, i, k);
      }
      forall r, i | 0 <= r < |LaneNames| && 0 <= i < StepCount ensures grid[r, i].marks <= Classes(table) {
        MarksWithinClasses(table, board, r, i);
      }
      SameCells(Marking(), MarksBoard(table, board));
    }

    /** Removes the highlight from every cell of the grid. */
    method ClearPlaying()
      requires grid.Length0 == |LaneNames| && grid.Length1 == StepCount
      modifies grid
      ensures forall r, i :: 0 <= r < |LaneNames| && 0 <= i < StepCount ==>
                grid[r, i] == old(grid[r, i]).(playing := false)
    {
      for r := 0 to |LaneNames|
        invariant forall rr, ii :: 0 <= rr < |LaneNames| && 0 <= ii < StepCount ==>
                    grid[rr, ii] == if rr < r then old(grid[rr, ii]).(playing := false) else old(grid[rr, ii])
      {
        for i := 0 to StepCount
          invariant forall rr, ii :: 0 <= rr < |LaneNames| && 0 <= ii < StepCount ==>
                      grid[rr, ii] == if rr < r || (rr == r && ii < i) then old(grid[rr, ii]).(playing := false)
                                      else old(grid[rr, ii])
        {
          grid[r, i] := grid[r, i].(playing := false);
        }
      }
    }

    /** The `grid.forEach` loop of `tick`: highlights the cell of each lane at
        the current step and plays the lanes whose cell there is active. */
    method PlayColumn()
      requires grid.Length0 == |LaneNames| && grid.Length1 == StepCount && 0 <= stepIndex < StepCount
      modifies this`output, grid
      ensures forall r, i :: 0 <= r < |LaneNames| && 0 <= i < StepCount ==>
                grid[r, i] == old(grid[r, i]).(playing := old(grid[r, i]).playing || i == stepIndex)
      ensures output == old(output) + ColumnSounds(old(Board()), stepIndex, loaded, |LaneNames|)
    {
      ghost var board := Board();
      for r := 0 to |LaneNames|
        invariant forall rr, ii :: 0 <= rr < |LaneNames| && 0 <= ii < StepCount ==>
                    grid[rr, ii] == old(grid[rr, ii]).(playing := old(grid[rr, ii]).playing || (rr < r && ii == stepIndex))
        invariant output == old(output) + ColumnSounds(board, stepIndex, loaded, r)
      {
        var step := grid[r, stepIndex];
        grid[r, stepIndex] := step.(playing := true);
        if step.active {
          Play(LaneNames[r]);
        }
      }
    }

    /** The metronome branch of `tick`. */
    method PlayMetronome()
      modifies this`output
      ensures output == old(output) + Metronome(metronomeOn, stepIndex, clicksLoaded)
    {
      if metronomeOn {
        var click := ClickFor(stepIndex);
        if click.Some? && click.value in clicksLoaded {
          output := output + [Click(click.value)];
        }
      }
    }

    /** The body of `tick` before the step index moves: highlights the current
        column alone and plays its active cells and the metronome click. */
    method PlayStep()
      requires grid.Length0 == |LaneNames| && grid.Length1 == StepCount && 0 <= stepIndex < StepCount
      modifies this`output, grid
      ensures forall r, i :: 0 <= r < |LaneNames| && 0 <= i < StepCount ==>
                grid[r, i] == old(grid[r, i]).(playing := i == stepIndex)
      ensures output == old(output) + TickSounds(old(Board()), stepIndex, metronomeOn, loaded, clicksLoaded)
    {
      ghost var board := Board();
      ClearPlaying();
      SameCells(Board(), board);
      PlayColumn();
      ghost var column := output;
      PlayMetronome();
      assert output == column + Metronome(metronomeOn, stepIndex, clicksLoaded);
    }

    /** `tick`: highlights the current column alone, plays its active cells and
        the metronome click for the step, then moves to the next step of the bar. */
    method Tick()
      requires Valid() && running
      modifies this`stepIndex, this`output, grid
      ensures Valid()
      ensures stepIndex == (old(stepIndex) + 1) % StepCount
      ensures forall r, i :: 0 <= r < |LaneNames| && 0 <= i < StepCount ==>
                grid[r, i] == old(grid[r, i]).(playing := i == old(stepIndex))
      ensures Board() == old(Board())
      ensures output == old(output) + TickSounds(old(Board()), old(stepIndex), metronomeOn, loaded, clicksLoaded)
    {
      ghost var board := Board();
      PlayStep();
      SameCells(Board(), board);
      SameCells(Marking(), old(Marking()));
      stepIndex := (stepIndex + 1) % StepCount;
      ValidKept();
    }

    /** One firing of the timer, as seen by a run of them. */
    method Advance()
      requires Valid() && running
      modifies this`stepIndex, this`output, grid
      ensures Valid()
      ensures stepIndex == (old(stepIndex) + 1) % StepCount
      ensures Board() == old(Board())
      ensures output == old(output) + TickSounds(old(Board()), old(stepIndex), metronomeOn, loaded, clicksLoaded)
    {
      Tick();
    }

    /** The timer firing n times while playback runs over the grid `board`,
        from step `start`. */
    method Run(n: nat, ghost board: Board, ghost start: int)
      requires Valid() && running && Board() == board && stepIndex == start && 0 <= start < StepCount
      modifies this`stepIndex, this`output, grid
      ensures Valid()
      ensures stepIndex == StepAfter(start, n)
      ensures Board() == board
      ensures output == old(output) + RunSounds(board, start, n, metronomeOn, loaded, clicksLoaded)
      decreases n
    {
      if n > 0 {
        ghost var before := output;
        Advance();
        ghost var middle := output;
        Run(n - 1, board, (start + 1) % StepCount);
        RunSoundsAfter(before, middle, output, board, start, n, metronomeOn, loaded, clicksLoaded);
      }
    }

    /** What `Valid` depends on is the shape, the `active` flags, the pattern
        classes and the pattern list. */
    twostate lemma ValidKept()
      requires old(Valid()) && Shaped() && old(grid) == grid
      requires Board() == old(Board()) && Marking() == old(Marking()) && displayed == old(displayed)
      ensures Valid()
    {
    }

    /** A click on cell (r, i): toggles its `active` class, plays its lane and
        re-runs `checkPatterns`. */
    method ClickCell(r: nat, i: nat)
      requires Valid() && r < |LaneNames| && i < StepCount
      modifies this`output, this`displayed, grid
      ensures Valid()
      ensures Board() == Toggle(old(Board()), r, i)
      ensures forall rr, ii :: 0 <= rr < |LaneNames| && 0 <= ii < StepCount ==>
                grid[rr, ii].playing == old(grid[rr, ii].playing)
      ensures output == old(output) + PlaySound(LaneNames[r], loaded)
      ensures displayed == SatisfiedPatterns(table, Board())
    {
      ghost var before := Board();
      grid[r, i] := grid[r, i].(active := !grid[r, i].active);
      SameCells(Board(), Toggle(before, r, i));
      Play(LaneNames[r]);
      CheckPatterns();
    }

    /** The play button: stops a running timer, or starts one; the step index
        is kept either way. */
    method PressPlay()
      requires Valid()
      modifies this`running
      ensures Valid()
      ensures running == !old(running)
      ensures stepIndex == old(stepIndex)
    {
      if running {
        running := false;
        return;
      }
      running := true;
    }

    /** The metronome button. */
    method ToggleMetronome()
      requires Valid()
      modifies this`metronomeOn
      ensures Valid()
      ensures metronomeOn == !old(metronomeOn)
    {
      metronomeOn := !metronomeOn;
    }
  }

  /** Two presses of the play button leave playback as it was. */
  method PressPlayTwice(s: Sequencer)
    requires s.Valid()
    modifies s`running
    ensures s.Valid()
    ensures s.running == old(s.running) && s.stepIndex == old(s.stepIndex)
  {
    s.PressPlay();
    s.PressPlay();
  }

  /** The page with the script's own two patterns. */
  method Load() returns (s: Sequencer)
    ensures fresh(s) && fresh(s.grid) && s.Valid() && s.table == PatternTable
    ensures s.Board() == EmptyBoard() && s.stepIndex == 0 && !s.running && !s.metronomeOn
    ensures s.loaded == {} && s.clicksLoaded == {} && s.output == [] && s.displayed == []
  {
    PatternTableWellFormed();
    s := new Sequencer(PatternTable);
  }
}
