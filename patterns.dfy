/**
  The pattern table and the matcher behind `checkPatterns`: which lanes a
  pattern is checked against, when a lane matches, which patterns are found
  (once per matching lane) and which cells carry a pattern's decoration.
*/
module Patterns {
  import opened Wrappers
  import opened Lanes

  /** A rhythmic template. `inst == None` (or an empty name) checks every lane;
      the display colour is presentation only and is not modelled. */
  datatype Pattern = Pattern(id: string, name: string, inst: Option<string>, steps: seq<int>, cssClass: string)

  /** The patterns the widget recognises, in declaration order. */
  const PatternTable: seq<Pattern> := [
    Pattern("fourfloor", "Four on the floor", Some("kick"), [0, 4, 8, 12], "pattern-fourfloor"),
    Pattern("tresillo", "Trésillo", None, [0, 3, 6, 10], "pattern-tresillo")
  ]

  /** Every listed step names a cell of a lane (the source indexes `row[idx]` with it). */
  predicate StepsInRange(p: Pattern)
  {
    forall k :: 0 <= k < |p.steps| ==> 0 <= p.steps[k] < StepCount
  }

  predicate WellFormedTable(table: seq<Pattern>)
  {
    forall k :: 0 <= k < |table| ==> StepsInRange(table[k])
  }

  predicate DistinctIds(ps: seq<Pattern>)
  {
    forall a, c :: 0 <= a < c < |ps| ==> ps[a].id != ps[c].id
  }

  predicate DistinctClasses(ps: seq<Pattern>)
  {
    forall a, c :: 0 <= a < c < |ps| ==> ps[a].cssClass != ps[c].cssClass
  }

  lemma PatternTableWellFormed()
    ensures WellFormedTable(PatternTable)
    ensures DistinctIds(PatternTable) && DistinctClasses(PatternTable)
    ensures forall k :: 0 <= k < |PatternTable| ==> PatternTable[k].steps != []
  {
  }

  /** The lanes `checkPatterns` looks at: with a truthy `inst`, the lanes of that
      name; with `null` (or the falsy empty name), every lane. */
  predicate InScope(p: Pattern, r: nat)
    requires r < |LaneNames|
  {
    match p.inst
    case None => true
    case Some(s) => s == "" || s == LaneNames[r]
  }

  /** Every step of the list is an active cell of the lane. */
  predicate LaneMatches(steps: seq<int>, lane: seq<bool>)
    requires forall k :: 0 <= k < |steps| ==> 0 <= steps[k] < |lane|
  {
    steps == [] || (lane[steps[0]] && LaneMatches(steps[1..], lane))
  }

  /** The offsets that are active in a lane. */
  ghost function ActiveSet(lane: seq<bool>): set<int>
  {
    set i | 0 <= i < |lane| && lane[i]
  }

  /** Matching is subset inclusion: the pattern's offsets are among the lane's active offsets. */
  lemma {:induction false} LaneMatchesIsSubset(steps: seq<int>, lane: seq<bool>)
    requires forall k :: 0 <= k < |steps| ==> 0 <= steps[k] < |lane|
    ensures LaneMatches(steps, lane) <==> (set k | k in steps) <= ActiveSet(lane)
  {
    if steps != [] {
      LaneMatchesIsSubset(steps[1..], lane);
      assert (set k | k in steps) == {steps[0]} + (set k | k in steps[1..]);
    }
  }

  /** Extra active cells never break a match. */
  lemma LaneMatchesMonotone(steps: seq<int>, lane: seq<bool>, lane': seq<bool>)
    requires forall k :: 0 <= k < |steps| ==> 0 <= steps[k] < |lane|
    requires |lane'| == |lane|
    requires forall i :: 0 <= i < |lane| && lane[i] ==> lane'[i]
    ensures LaneMatches(steps, lane) ==> LaneMatches(steps, lane')
  {
    LaneMatchesIsSubset(steps, lane);
    LaneMatchesIsSubset(steps, lane');
  }

  /** A lane with one of the pattern's offsets inactive does not match. */
  lemma MissingStepBreaksMatch(steps: seq<int>, lane: seq<bool>, s: int)
    requires forall k :: 0 <= k < |steps| ==> 0 <= steps[k] < |lane|
    requires s in steps && 0 <= s < |lane| && !lane[s]
    ensures !LaneMatches(steps, lane)
  {
    LaneMatchesIsSubset(steps, lane);
  }

  /** Lane `r` is in the pattern's scope and matches it. */
  predicate LaneHit(p: Pattern, b: Board, r: nat)
    requires WellFormedBoard(b) && StepsInRange(p) && r < |LaneNames|
  {
    InScope(p, r) && LaneMatches(p.steps, b[r])
  }

  /** Some lane in the pattern's scope matches it. */
  predicate Satisfied(p: Pattern, b: Board)
    requires WellFormedBoard(b) && StepsInRange(p)
  {
    exists r :: 0 <= r < |LaneNames| && LaneHit(p, b, r)
  }

  /** The matching lanes among the first `n`, in grid order. */
  function MatchingLanes(p: Pattern, b: Board, n: nat): (ml: seq<nat>)
    requires WellFormedBoard(b) && StepsInRange(p) && n <= |LaneNames|
    ensures forall r: int :: r in ml <==> 0 <= r < n && LaneHit(p, b, r)
    ensures forall a :: 0 <= a < |ml| ==> ml[a] < n
    ensures forall a, c :: 0 <= a < c < |ml| ==> ml[a] < ml[c]
  {
    if n == 0 then []
    else MatchingLanes(p, b, n - 1) + (if LaneHit(p, b, n - 1) then [n - 1] else [])
  }

  lemma SatisfiedIffSomeLane(p: Pattern, b: Board)
    requires WellFormedBoard(b) && StepsInRange(p)
    ensures Satisfied(p, b) <==> |MatchingLanes(p, b, |LaneNames|)| > 0
  {
    var ml := MatchingLanes(p, b, |LaneNames|);
    if |ml| > 0 {
      assert ml[0] in ml;
    }
  }

  function Repeat(p: Pattern, m: nat): (s: seq<Pattern>)
    ensures |s| == m && forall k :: 0 <= k < m ==> s[k] == p
  {
    seq(m, _ => p)
  }

  lemma RepeatSnoc(p: Pattern, m: nat)
    ensures Repeat(p, m + 1) == Repeat(p, m) + [p]
  {
  }

  /** The list `checkPatterns` builds: for each pattern in table order, the
      pattern once per matching lane. */
  function Found(table: seq<Pattern>, b: Board): seq<Pattern>
    requires WellFormedBoard(b) && WellFormedTable(table)
  {
    if table == [] then []
    else
      var last := table[|table| - 1];
      Found(table[..|table| - 1], b) + Repeat(last, |MatchingLanes(last, b, |LaneNames|)|)
  }

  lemma {:induction false} RepeatCount(p: Pattern, m: nat, q: Pattern)
    ensures multiset(Repeat(p, m))[q] == if p == q then m else 0
  {
    if m > 0 {
      RepeatCount(p, m - 1, q);
      assert Repeat(p, m) == Repeat(p, m - 1) + [p];
    }
  }

  /** A pattern is found once per matching lane, for each time it appears in the table. */
  lemma {:induction false} FoundMultiplicity(table: seq<Pattern>, b: Board, p: Pattern)
    requires WellFormedBoard(b) && WellFormedTable(table) && StepsInRange(p)
    ensures multiset(Found(table, b))[p] == multiset(table)[p] * |MatchingLanes(p, b, |LaneNames|)|
  {
    var m := |MatchingLanes(p, b, |LaneNames|)|;
    if table == [] {
      assert multiset(table)[p] == 0;
    } else {
      var n := |table|;
      var t, last := table[..n - 1], table[n - 1];
      assert table == t + [last];
      var ml := |MatchingLanes(last, b, |LaneNames|)|;
      assert Found(table, b) == Found(t, b) + Repeat(last, ml);
      FoundMultiplicity(t, b, p);
      RepeatCount(last, ml, p);
      var c := multiset(t)[p];
      assert multiset(Found(table, b))[p] == c * m + (if last == p then m else 0);
      assert multiset(table)[p] == c + (if last == p then 1 else 0);
      SuccTimes(c, m);
    }
  }

  lemma SuccTimes(c: nat, m: nat)
    ensures (c + 1) * m == c * m + m
  {
  }

  /** A pattern is in the found list iff it is in the table and some lane in its scope matches it. */
  lemma FoundMembership(table: seq<Pattern>, b: Board, p: Pattern)
    requires WellFormedBoard(b) && WellFormedTable(table) && StepsInRange(p)
    ensures p in Found(table, b) <==> p in table && Satisfied(p, b)
  {
    FoundMultiplicity(table, b, p);
    SatisfiedIffSomeLane(p, b);
    var c, m := multiset(table)[p], |MatchingLanes(p, b, |LaneNames|)|;
    PositiveProduct(c, m);
    assert p in Found(table, b) <==> multiset(Found(table, b))[p] > 0;
    assert p in table <==> c > 0;
  }

  lemma PositiveProduct(c: nat, m: nat)
    ensures c * m > 0 <==> c > 0 && m > 0
  {
    if c > 0 {
      SuccTimes(c - 1, m);
    }
  }

  /** Every pattern of the found list comes from the table. */
  lemma {:induction false} FoundFromTable(table: seq<Pattern>, b: Board)
    requires WellFormedBoard(b) && WellFormedTable(table)
    ensures forall p :: p in Found(table, b) ==> p in table
  {
    if table != [] {
      var n := |table|;
      var t, last := table[..n - 1], table[n - 1];
      FoundFromTable(t, b);
      var m := |MatchingLanes(last, b, |LaneNames|)|;
      assert Found(table, b) == Found(t, b) + Repeat(last, m);
      forall p | p in Found(table, b) ensures p in table {
        if p in Found(t, b) {
          var k :| 0 <= k < |t| && t[k] == p;
          assert table[k] == p;
        } else {
          assert p in Repeat(last, m);
          assert table[n - 1] == p;
        }
      }
    }
  }

  /** The decoration classes `checkPatterns` adds to cell (r, i). */
  function Marks(table: seq<Pattern>, b: Board, r: nat, i: int): set<string>
    requires WellFormedBoard(b) && WellFormedTable(table) && r < |LaneNames|
  {
    if table == [] then {}
    else
      var last := table[|table| - 1];
      Marks(table[..|table| - 1], b, r, i) +
        (if i in last.steps && LaneHit(last, b, r) then {last.cssClass} else {})
  }

  /** The decoration classes of every cell. */
  ghost function MarksBoard(table: seq<Pattern>, b: Board): (m: seq<seq<set<string>>>)
    requires WellFormedBoard(b) && WellFormedTable(table)
    ensures |m| == |LaneNames| && forall r :: 0 <= r < |LaneNames| ==> |m[r]| == StepCount
    ensures forall r, i :: 0 <= r < |LaneNames| && 0 <= i < StepCount ==> m[r][i] == Marks(table, b, r, i)
  {
    seq(|LaneNames|, r requires 0 <= r < |LaneNames| => seq(StepCount, i => Marks(table, b, r, i)))
  }

  /** Every decoration class of the table. */
  function Classes(table: seq<Pattern>): set<string>
  {
    set k | 0 <= k < |table| :: table[k].cssClass
  }

  /** A cell carries a class iff some pattern with that class lists the cell's
      offset and matches in the cell's lane. */
  lemma {:induction false} MarksSpec(table: seq<Pattern>, b: Board, r: nat, i: int, c: string)
    requires WellFormedBoard(b) && WellFormedTable(table) && r < |LaneNames|
    ensures c in Marks(table, b, r, i) <==>
              exists k :: 0 <= k < |table| && table[k].cssClass == c && i in table[k].steps && LaneHit(table[k], b, r)
  {
    if table != [] {
      var n := |table|;
      var t := table[..n - 1];
      MarksSpec(t, b, r, i, c);
      if c in Marks(t, b, r, i) {
        var k :| 0 <= k < |t| && t[k].cssClass == c && i in t[k].steps && LaneHit(t[k], b, r);
        assert table[k] == t[k];
      }
      if exists k :: 0 <= k < n && table[k].cssClass == c && i in table[k].steps && LaneHit(table[k], b, r) {
        var k :| 0 <= k < n && table[k].cssClass == c && i in table[k].steps && LaneHit(table[k], b, r);
        if k < n - 1 {
          assert t[k] == table[k];
        }
      }
    }
  }

  lemma MarksWithinClasses(table: seq<Pattern>, b: Board, r: nat, i: int)
    requires WellFormedBoard(b) && WellFormedTable(table) && r < |LaneNames|
    ensures Marks(table, b, r, i) <= Classes(table)
  {
    forall c | c in Marks(table, b, r, i) ensures c in Classes(table) {
      MarksSpec(table, b, r, i, c);
    }
  }

  /** With one class per pattern: a cell carries pattern k's decoration iff its
      offset is one of the pattern's steps and its lane is a matching lane. */
  lemma MarkedIff(table: seq<Pattern>, b: Board, r: nat, i: int, k: nat)
    requires WellFormedBoard(b) && WellFormedTable(table) && DistinctClasses(table)
    requires r < |LaneNames| && k < |table|
    ensures table[k].cssClass in Marks(table, b, r, i) <==> i in table[k].steps && LaneHit(table[k], b, r)
  {
    MarksSpec(table, b, r, i, table[k].cssClass);
  }

  lemma {:induction false} NoHitNoLanes(p: Pattern, b: Board, n: nat)
    requires WellFormedBoard(b) && StepsInRange(p) && n <= |LaneNames|
    requires forall r :: 0 <= r < n ==> !LaneHit(p, b, r)
    ensures MatchingLanes(p, b, n) == []
  {
    if n > 0 {
      NoHitNoLanes(p, b, n - 1);
    }
  }

  /** On a board with no active cell, no pattern with at least one step is
      found and no cell is decorated (the grid as it is built is such a board). */
  lemma {:induction false} NoActiveCellMatchesNothing(table: seq<Pattern>, b: Board, r: nat, i: int)
    requires WellFormedBoard(b) && WellFormedTable(table) && r < |LaneNames|
    requires forall rr, ii :: 0 <= rr < |LaneNames| && 0 <= ii < StepCount ==> !b[rr][ii]
    requires forall k :: 0 <= k < |table| ==> table[k].steps != []
    ensures Found(table, b) == []
    ensures Marks(table, b, r, i) == {}
  {
    if table != [] {
      var n := |table|;
      var t, last := table[..n - 1], table[n - 1];
      NoActiveCellMatchesNothing(t, b, r, i);
      forall rr | 0 <= rr < |LaneNames| ensures !LaneHit(last, b, rr) {
        MissingStepBreaksMatch(last.steps, b[rr], last.steps[0]);
      }
      NoHitNoLanes(last, b, |LaneNames|);
    }
  }

  /** On a grid with no active cell no pattern with a step is found and no
      cell is decorated. */
  lemma EmptyBoardMatchesNothing(table: seq<Pattern>)
    requires WellFormedTable(table)
    requires forall k :: 0 <= k < |table| ==> table[k].steps != []
    ensures Found(table, EmptyBoard()) == []
    ensures forall r, i :: 0 <= r < |LaneNames| && 0 <= i < StepCount ==> MarksBoard(table, EmptyBoard())[r][i] == {}
  {
    var b := EmptyBoard();
    forall r, i | 0 <= r < |LaneNames| && 0 <= i < StepCount ensures MarksBoard(table, b)[r][i] == {} {
      NoActiveCellMatchesNothing(table, b, r, i);
    }
    NoActiveCellMatchesNothing(table, b, 0, 0);
  }
}
