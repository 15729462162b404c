/**
  What a tick plays: a one-shot per active cell of the current column (in lane
  order, skipping lanes whose buffer is not loaded) and the metronome click
  chosen for the step. Audio output is modelled as a list of sound events.
*/
module Sounds {
  import opened Wrappers
  import opened Lanes

  datatype Accent = Strong | Soft

  /** A one-shot started on the audio context. */
  datatype Sound = Hit(inst: string) | Click(accent: Accent)

  /** Playing an instrument: its one-shot, or nothing while its buffer is absent. */
  function PlaySound(inst: string, loaded: set<string>): seq<Sound>
  {
    if inst in loaded then [Hit(inst)] else []
  }

  /** The metronome click the source picks for a step. */
  function ClickFor(step: int): Option<Accent>
  {
    if step == 0 then Some(Strong)
    else if step in [4, 8, 12] then Some(Soft)
    else None
  }

  /** Within the bar, the metronome clicks on every quarter note and accents the first. */
  lemma ClickForQuarterNotes(step: int)
    requires 0 <= step < StepCount
    ensures ClickFor(step).Some? <==> step % 4 == 0
    ensures ClickFor(step) == Some(Strong) <==> step == 0
  {
    if step % 4 == 0 {
      var q := step / 4;
      assert step == 4 * q && 0 <= q < 4;
    }
  }

  /** The metronome branch of `tick`: nothing when switched off or when the
      click's buffer is absent. */
  function Metronome(on: bool, step: int, clicksLoaded: set<Accent>): (s: seq<Sound>)
  {
    if !on then []
    else match ClickFor(step)
      case Some(a) => if a in clicksLoaded then [Click(a)] else []
      case None => []
  }

  /** Within the bar, a tick with the metronome on clicks on each quarter note,
      strong on the downbeat and soft on the others, when that click is loaded. */
  lemma MetronomeSpec(on: bool, step: int, clicksLoaded: set<Accent>)
    requires 0 <= step < StepCount
    ensures var accent := if step == 0 then Strong else Soft;
      Metronome(on, step, clicksLoaded) ==
        if on && step % 4 == 0 && accent in clicksLoaded then [Click(accent)] else []
  {
    ClickForQuarterNotes(step);
  }

  /** The position of a lane name in the grid. */
  function LaneIndex(name: string): (r: nat)
    requires name in LaneNames
    ensures r < |LaneNames| && LaneNames[r] == name
  {
    if name == LaneNames[0] then 0 else if name == LaneNames[1] then 1 else 2
  }

  /** The one-shots of column `col` over the first `n` lanes. */
  function ColumnSounds(b: Board, col: nat, loaded: set<string>, n: nat): seq<Sound>
    requires WellFormedBoard(b) && col < StepCount && n <= |LaneNames|
  {
    if n == 0 then []
    else ColumnSounds(b, col, loaded, n - 1) + (if b[n - 1][col] then PlaySound(LaneNames[n - 1], loaded) else [])
  }

  /** Every sound is a hit of one of the first n lanes. */
  predicate HitsBelow(s: seq<Sound>, n: nat)
  {
    forall k :: 0 <= k < |s| ==> s[k].Hit? && s[k].inst in LaneNames && LaneIndex(s[k].inst) < n
  }

  /** The hits come in strictly increasing lane order. */
  predicate InLaneOrder(s: seq<Sound>)
    requires HitsBelow(s, |LaneNames|)
  {
    forall a, c :: 0 <= a < c < |s| ==> LaneIndex(s[a].inst) < LaneIndex(s[c].inst)
  }

  /** A column plays only hits of the lanes it has looked at, in lane order. */
  lemma {:induction false} ColumnSoundsOrdered(b: Board, col: nat, loaded: set<string>, n: nat)
    requires WellFormedBoard(b) && col < StepCount && n <= |LaneNames|
    ensures HitsBelow(ColumnSounds(b, col, loaded, n), n)
    ensures InLaneOrder(ColumnSounds(b, col, loaded, n))
  {
    if n > 0 {
      ColumnSoundsOrdered(b, col, loaded, n - 1);
      var s0 := ColumnSounds(b, col, loaded, n - 1);
      var last := if b[n - 1][col] then PlaySound(LaneNames[n - 1], loaded) else [];
      var s := s0 + last;
      assert ColumnSounds(b, col, loaded, n) == s;
      assert LaneIndex(LaneNames[n - 1]) == n - 1;
      forall k | 0 <= k < |s| ensures s[k].Hit? && s[k].inst in LaneNames && LaneIndex(s[k].inst) < n {
        if k >= |s0| {
          assert s[k] == last[k - |s0|] == Hit(LaneNames[n - 1]);
        } else {
          assert s[k] == s0[k];
        }
      }
      forall a, c | 0 <= a < c < |s| ensures LaneIndex(s[a].inst) < LaneIndex(s[c].inst) {
        if c >= |s0| {
          assert s[c] == last[c - |s0|] && s[a] == s0[a];
        }
      }
    }
  }

  /** A column plays exactly its active lanes whose sample is loaded, each once,
      in lane order. */
  lemma {:induction false} ColumnSoundsSpec(b: Board, col: nat, loaded: set<string>, n: nat)
    requires WellFormedBoard(b) && col < StepCount && n <= |LaneNames|
    ensures HitsBelow(ColumnSounds(b, col, loaded, n), n)
    ensures InLaneOrder(ColumnSounds(b, col, loaded, n))
    ensures forall r :: 0 <= r < n ==>
              (Hit(LaneNames[r]) in ColumnSounds(b, col, loaded, n) <==> b[r][col] && LaneNames[r] in loaded)
  {
    ColumnSoundsOrdered(b, col, loaded, n);
    if n > 0 {
      ColumnSoundsSpec(b, col, loaded, n - 1);
      var s0 := ColumnSounds(b, col, loaded, n - 1);
      var last := if b[n - 1][col] then PlaySound(LaneNames[n - 1], loaded) else [];
      assert ColumnSounds(b, col, loaded, n) == s0 + last;
      forall r | 0 <= r < n
        ensures Hit(LaneNames[r]) in s0 + last <==> b[r][col] && LaneNames[r] in loaded
      {
        assert LaneIndex(LaneNames[r]) == r;
        if r == n - 1 {
          assert Hit(LaneNames[r]) !in s0;
        } else {
          assert Hit(LaneNames[r]) !in last;
        }
      }
    }
  }

  /** Everything one tick at `step` plays. */
  function TickSounds(b: Board, step: nat, on: bool, loaded: set<string>, clicksLoaded: set<Accent>): seq<Sound>
    requires WellFormedBoard(b) && step < StepCount
  {
    ColumnSounds(b, step, loaded, |LaneNames|) + Metronome(on, step, clicksLoaded)
  }

  /** The step indexes `n` successive ticks play, starting from `s`. */
  function StepsFrom(s: int, n: nat): seq<int>
    decreases n
  {
    if n == 0 then [] else [s] + StepsFrom((s + 1) % StepCount, n - 1)
  }

  /** Ticks visit s, s+1, ... modulo 16: no step is skipped and every index is in range. */
  lemma {:induction false} StepsFromAt(s: int, n: nat)
    requires 0 <= s < StepCount
    ensures |StepsFrom(s, n)| == n
    ensures forall k :: 0 <= k < n ==> StepsFrom(s, n)[k] == (s + k) % StepCount
    decreases n
  {
    if n > 0 {
      var s' := (s + 1) % StepCount;
      StepsFromAt(s', n - 1);
      forall k | 1 <= k < n ensures StepsFrom(s, n)[k] == (s + k) % StepCount {
        assert StepsFrom(s, n)[k] == StepsFrom(s', n - 1)[k - 1];
        if s + 1 == StepCount {
          assert (s' + k - 1) % StepCount == (s + k) % StepCount by {
            assert s' == 0 && s + k == StepCount + (k - 1);
          }
        }
      }
    }
  }

  /** The metronome clicks of successive ticks at the given steps. */
  function ClicksAlong(steps: seq<int>, on: bool, clicksLoaded: set<Accent>): seq<Sound>
  {
    if steps == [] then [] else Metronome(on, steps[0], clicksLoaded) + ClicksAlong(steps[1..], on, clicksLoaded)
  }

  lemma {:induction false} ClicksAlongAppend(xs: seq<int>, ys: seq<int>, on: bool, clicksLoaded: set<Accent>)
    ensures ClicksAlong(xs + ys, on, clicksLoaded) == ClicksAlong(xs, on, clicksLoaded) + ClicksAlong(ys, on, clicksLoaded)
  {
    if xs == [] {
      assert xs + ys == ys;
    } else {
      assert (xs + ys)[1..] == xs[1..] + ys;
      ClicksAlongAppend(xs[1..], ys, on, clicksLoaded);
    }
  }

  /** With the metronome off nothing ever clicks. */
  lemma {:induction false} MetronomeOffIsSilent(steps: seq<int>, clicksLoaded: set<Accent>)
    ensures ClicksAlong(steps, false, clicksLoaded) == []
  {
    if steps != [] {
      MetronomeOffIsSilent(steps[1..], clicksLoaded);
    }
  }

  lemma AppendAssoc<T>(a: seq<T>, b: seq<T>, c: seq<T>)
    ensures a + (b + c) == (a + b) + c
  {
  }

  lemma SmallMod(x: int)
    requires 0 <= x < StepCount
    ensures x % StepCount == x
  {
  }

  /** Adding a bar to a step does not move it within the bar. */
  lemma ModPeriod(x: nat)
    ensures (x + StepCount) % StepCount == x % StepCount
  {
    var q, r := x / StepCount, x % StepCount;
    assert x + StepCount == (q + 1) * StepCount + r;
  }

  /** One tick then m - 1 more ends where m ticks do. */
  lemma NextShift(s: int, m: nat)
    requires 0 <= s < StepCount && 1 <= m
    ensures ((s + 1) % StepCount + (m - 1)) % StepCount == (s + m) % StepCount
  {
    if s + 1 == StepCount {
      ModPeriod(m - 1);
    } else {
      SmallMod(s + 1);
    }
  }

  /** Ticking m + n times is ticking m times, then n times from where that left off. */
  lemma {:induction false} StepsFromSplit(s: int, m: nat, n: nat)
    requires 0 <= s < StepCount
    ensures StepsFrom(s, m + n) == StepsFrom(s, m) + StepsFrom((s + m) % StepCount, n)
    decreases m
  {
    if m == 0 {
      SmallMod(s);
      assert StepsFrom(s, m) == [];
    } else {
      var s' := (s + 1) % StepCount;
      StepsFromSplit(s', m - 1, n);
      NextShift(s, m);
      var xs, ys := StepsFrom(s', m - 1), StepsFrom((s + m) % StepCount, n);
      assert StepsFrom(s, m + n) == [s] + (xs + ys);
      assert StepsFrom(s, m) == [s] + xs;
      AppendAssoc([s], xs, ys);
    }
  }

  /** Steps that the metronome never clicks on contribute no clicks. */
  lemma {:induction false} ClicksAlongSilent(steps: seq<int>, clicksLoaded: set<Accent>)
    requires forall k :: 0 <= k < |steps| ==> ClickFor(steps[k]).None?
    ensures ClicksAlong(steps, true, clicksLoaded) == []
  {
    if steps != [] {
      ClicksAlongSilent(steps[1..], clicksLoaded);
    }
  }

  /** The four ticks of beat q click once, on the beat's first step. */
  lemma BeatClicks(q: int, clicksLoaded: set<Accent>)
    requires 0 <= q < 4
    ensures ClicksAlong(StepsFrom(4 * q, 4), true, clicksLoaded) == Metronome(true, 4 * q, clicksLoaded)
  {
    var a := 4 * q;
    SmallMod(a + 1);
    SmallMod(a + 2);
    SmallMod(a + 3);
    var r1, r2, r3 := StepsFrom(a + 1, 3), StepsFrom(a + 2, 2), StepsFrom(a + 3, 1);
    assert StepsFrom(a, 4) == [a] + r1;
    assert r1 == [a + 1] + r2;
    assert r2 == [a + 2] + r3;
    assert r3 == [a + 3] + StepsFrom((a + 4) % StepCount, 0);
    assert ClicksAlong(r3, true, clicksLoaded) == [];
    assert ClicksAlong(r2, true, clicksLoaded) == [];
    assert ClicksAlong(r1, true, clicksLoaded) == [];
    assert ClicksAlong(StepsFrom(a, 4), true, clicksLoaded) == Metronome(true, a, clicksLoaded) + [];
  }

  /** The clicks expected from beat q to the end of the bar: strong on the first
      beat, soft on the others. */
  function BeatsFrom(q: nat): seq<Sound>
    decreases 4 - q
  {
    if q >= 4 then [] else [Click(if q == 0 then Strong else Soft)] + BeatsFrom(q + 1)
  }

  /** The rest of the bar from beat q is beat q, then the rest from beat q + 1. */
  lemma BarFromBeat(q: nat)
    requires q < 4
    ensures StepsFrom(4 * q, StepCount - 4 * q) == StepsFrom(4 * q, 4) + StepsFrom(4 * (q + 1), StepCount - 4 * (q + 1))
  {
    StepsFromSplit(4 * q, 4, StepCount - 4 * q - 4);
    if q < 3 {
      SmallMod(4 * q + 4);
    } else {
      assert StepsFrom((4 * q + 4) % StepCount, 0) == [] == StepsFrom(4 * (q + 1), 0);
    }
  }

  /** The clicks from beat q to the end of the bar are beat q's click, then
      those from beat q + 1. */
  lemma BeatStep(q: nat)
    requires q < 4
    ensures ClicksAlong(StepsFrom(4 * q, StepCount - 4 * q), true, {Strong, Soft})
            == [Click(if q == 0 then Strong else Soft)] + ClicksAlong(StepsFrom(4 * (q + 1), StepCount - 4 * (q + 1)), true, {Strong, Soft})
  {
    var cl := {Strong, Soft};
    BarFromBeat(q);
    ClicksAlongAppend(StepsFrom(4 * q, 4), StepsFrom(4 * (q + 1), StepCount - 4 * (q + 1)), true, cl);
    BeatClicks(q, cl);
    assert Metronome(true, 4 * q, cl) == [Click(if q == 0 then Strong else Soft)];
  }

  /** The clicks of the bar from beat q to its end, with both clicks loaded. */
  lemma {:induction false} ClicksFromBeat(q: nat)
    requires q <= 4
    ensures ClicksAlong(StepsFrom(4 * q, StepCount - 4 * q), true, {Strong, Soft}) == BeatsFrom(q)
    decreases 4 - q
  {
    if q < 4 {
      BeatStep(q);
      ClicksFromBeat(q + 1);
    } else {
      assert StepsFrom(4 * q, StepCount - 4 * q) == [];
    }
  }

  /** One enabled bar from step 0, with both clicks loaded, clicks strong, soft, soft, soft. */
  lemma BarClicks()
    ensures ClicksAlong(StepsFrom(0, StepCount), true, {Strong, Soft})
            == [Click(Strong), Click(Soft), Click(Soft), Click(Soft)]
  {
    ClicksFromBeat(0);
    assert BeatsFrom(0) == [Click(Strong)] + BeatsFrom(1);
    assert BeatsFrom(1) == [Click(Soft)] + BeatsFrom(2);
    assert BeatsFrom(2) == [Click(Soft)] + BeatsFrom(3);
    assert BeatsFrom(3) == [Click(Soft)] + BeatsFrom(4);
  }

  /** A bar of ticks from step s is the bar from 0 rotated by s. */
  lemma BarRotation(s: int)
    requires 0 <= s < StepCount
    ensures StepsFrom(s, StepCount) == StepsFrom(s, StepCount - s) + StepsFrom(0, s)
    ensures StepsFrom(0, StepCount) == StepsFrom(0, s) + StepsFrom(s, StepCount - s)
  {
    var m := StepCount - s;
    assert (s + m) % StepCount == 0;
    assert (0 + s) % StepCount == s;
    assert m + s == StepCount;
    StepsFromSplit(s, m, s);
    StepsFromSplit(0, s, m);
  }

  /** Any sixteen successive enabled ticks click once strong and three times soft. */
  lemma AnyBarClicks(s: int)
    requires 0 <= s < StepCount
    ensures multiset(ClicksAlong(StepsFrom(s, StepCount), true, {Strong, Soft}))
            == multiset{Click(Strong), Click(Soft), Click(Soft), Click(Soft)}
  {
    var cl := {Strong, Soft};
    BarRotation(s);
    BarClicks();
    var x, y := StepsFrom(s, StepCount - s), StepsFrom(0, s);
    ClicksAlongAppend(x, y, true, cl);
    ClicksAlongAppend(y, x, true, cl);
  }

  /** The step n successive ticks reach from step s. */
  function StepAfter(s: int, n: nat): int
    decreases n
  {
    if n == 0 then s else StepAfter((s + 1) % StepCount, n - 1)
  }

  /** Ticks advance the step index modulo the bar length. */
  lemma {:induction false} StepAfterMod(s: int, n: nat)
    requires 0 <= s < StepCount
    ensures StepAfter(s, n) == (s + n) % StepCount
    decreases n
  {
    if n == 0 {
      SmallMod(s);
    } else {
      StepAfterMod((s + 1) % StepCount, n - 1);
      NextShift(s, n);
    }
  }

  /** Everything n successive ticks play, starting from step s. */
  function RunSounds(b: Board, s: int, n: nat, on: bool, loaded: set<string>, clicksLoaded: set<Accent>): seq<Sound>
    requires WellFormedBoard(b) && 0 <= s < StepCount
    decreases n
  {
    if n == 0 then []
    else TickSounds(b, s, on, loaded, clicksLoaded) + RunSounds(b, (s + 1) % StepCount, n - 1, on, loaded, clicksLoaded)
  }

  /** The sounds of a run are those of its first tick followed by those of the
      remaining ticks. */
  lemma RunSoundsAfter(before: seq<Sound>, middle: seq<Sound>, after: seq<Sound>, b: Board, s: int, n: nat,
                       on: bool, loaded: set<string>, clicksLoaded: set<Accent>)
    requires WellFormedBoard(b) && 0 <= s < StepCount && n > 0
    requires middle == before + TickSounds(b, s, on, loaded, clicksLoaded)
    requires after == middle + RunSounds(b, (s + 1) % StepCount, n - 1, on, loaded, clicksLoaded)
    ensures after == before + RunSounds(b, s, n, on, loaded, clicksLoaded)
  {
    assert RunSounds(b, s, n, on, loaded, clicksLoaded)
        == TickSounds(b, s, on, loaded, clicksLoaded) + RunSounds(b, (s + 1) % StepCount, n - 1, on, loaded, clicksLoaded);
  }

  /** The metronome clicks of a stream of sounds, in order. */
  function ClicksOf(s: seq<Sound>): seq<Sound>
  {
    if s == [] then [] else (if s[0].Click? then [s[0]] else []) + ClicksOf(s[1..])
  }

  lemma {:induction false} ClicksOfAppend(s: seq<Sound>, t: seq<Sound>)
    ensures ClicksOf(s + t) == ClicksOf(s) + ClicksOf(t)
  {
    if s == [] {
      assert s + t == t;
    } else {
      var u := s + t;
      var head := if s[0].Click? then [s[0]] else [];
      assert u[0] == s[0];
      assert u[1..] == s[1..] + t;
      ClicksOfAppend(s[1..], t);
      assert ClicksOf(u) == head + (ClicksOf(s[1..]) + ClicksOf(t));
      assert ClicksOf(s) == head + ClicksOf(s[1..]);
      AppendAssoc(head, ClicksOf(s[1..]), ClicksOf(t));
    }
  }

  lemma {:induction false} ClicksOfHits(s: seq<Sound>)
    requires forall k :: 0 <= k < |s| ==> s[k].Hit?
    ensures ClicksOf(s) == []
  {
    if s != [] {
      ClicksOfHits(s[1..]);
    }
  }

  /** The only clicks of a tick are the metronome's. */
  lemma TickClicks(b: Board, s: nat, on: bool, loaded: set<string>, clicksLoaded: set<Accent>)
    requires WellFormedBoard(b) && s < StepCount
    ensures ClicksOf(TickSounds(b, s, on, loaded, clicksLoaded)) == Metronome(on, s, clicksLoaded)
  {
    var col := ColumnSounds(b, s, loaded, |LaneNames|);
    var click := Metronome(on, s, clicksLoaded);
    ColumnSoundsOrdered(b, s, loaded, |LaneNames|);
    ClicksOfHits(col);
    assert ClicksOf(click) == click;
    ClicksOfAppend(col, click);
  }

  /** The clicks heard over a run of ticks are the metronome clicks of its steps:
      the instrument hits of the columns add none. */
  lemma {:induction false} RunClicks(b: Board, s: int, n: nat, on: bool, loaded: set<string>, clicksLoaded: set<Accent>)
    requires WellFormedBoard(b) && 0 <= s < StepCount
    ensures ClicksOf(RunSounds(b, s, n, on, loaded, clicksLoaded)) == ClicksAlong(StepsFrom(s, n), on, clicksLoaded)
    decreases n
  {
    if n > 0 {
      var s' := (s + 1) % StepCount;
      var tick := TickSounds(b, s, on, loaded, clicksLoaded);
      var rest := RunSounds(b, s', n - 1, on, loaded, clicksLoaded);
      RunClicks(b, s', n - 1, on, loaded, clicksLoaded);
      TickClicks(b, s, on, loaded, clicksLoaded);
      ClicksOfAppend(tick, rest);
      var steps := StepsFrom(s, n);
      assert steps[0] == s && steps[1..] == StepsFrom(s', n - 1);
    }
  }

  /** Sixteen successive ticks with the metronome on and both clicks loaded
      sound one strong and three soft clicks, whatever the grid holds. */
  lemma RunBarClicks(b: Board, s: int, loaded: set<string>)
    requires WellFormedBoard(b) && 0 <= s < StepCount
    ensures multiset(ClicksOf(RunSounds(b, s, StepCount, true, loaded, {Strong, Soft})))
            == multiset{Click(Strong), Click(Soft), Click(Soft), Click(Soft)}
  {
    RunClicks(b, s, StepCount, true, loaded, {Strong, Soft});
    AnyBarClicks(s);
  }

  /** With the metronome off, a run of ticks sounds no click. */
  lemma RunSilentWhenOff(b: Board, s: int, n: nat, loaded: set<string>, clicksLoaded: set<Accent>)
    requires WellFormedBoard(b) && 0 <= s < StepCount
    ensures ClicksOf(RunSounds(b, s, n, false, loaded, clicksLoaded)) == []
  {
    RunClicks(b, s, n, false, loaded, clicksLoaded);
    MetronomeOffIsSilent(StepsFrom(s, n), clicksLoaded);
  }
}
