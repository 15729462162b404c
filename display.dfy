/**
  The dedup step of `updatePatternDisplay`: the found list is put through a
  JavaScript `Map` keyed by pattern id and its values are read back. `Map.set`
  on a known key replaces the value in place, so ids come out in order of first
  occurrence, each carrying the last pattern seen with that id.
*/
module Display {
  import opened Lanes
  import opened Patterns

  function Ids(ps: seq<Pattern>): set<string>
  {
    set p | p in ps :: p.id
  }

  lemma IdsAppend(ps: seq<Pattern>, x: Pattern)
    ensures Ids(ps + [x]) == Ids(ps) + {x.id}
  {
    assert forall p :: p in ps + [x] <==> p in ps || p == x;
  }

  /** Replacing an entry by one with the same id keeps the ids. */
  lemma IdsUpdate(u: seq<Pattern>, k: nat, x: Pattern)
    requires k < |u| && u[k].id == x.id
    ensures Ids(u[k := x]) == Ids(u)
  {
    forall q: Pattern | q in u[k := x] ensures q.id in Ids(u) {
      var j :| 0 <= j < |u| && u[k := x][j] == q;
      assert u[j] in u;
    }
    forall q: Pattern | q in u ensures q.id in Ids(u[k := x]) {
      var j :| 0 <= j < |u| && u[j] == q;
      assert u[k := x][j] in u[k := x];
    }
  }

  /** The first position holding the id. */
  function IndexOf(ps: seq<Pattern>, id: string): (k: nat)
    requires id in Ids(ps)
    ensures k < |ps| && ps[k].id == id
    ensures forall j :: 0 <= j < k ==> ps[j].id != id
  {
    if ps[0].id == id then 0
    else
      assert id in Ids(ps[1..]) by {
        var p :| p in ps && p.id == id;
        var j :| 0 <= j < |ps| && ps[j] == p;
        assert ps[1..][j - 1] == p;
      }
      IndexOf(ps[1..], id) + 1
  }

  /** The last position holding the id. */
  function LastIndexOf(ps: seq<Pattern>, id: string): (k: nat)
    requires id in Ids(ps)
    ensures k < |ps| && ps[k].id == id
    ensures forall j :: k < j < |ps| ==> ps[j].id != id
  {
    var n := |ps|;
    if ps[n - 1].id == id then n - 1
    else
      assert id in Ids(ps[..n - 1]) by {
        var p :| p in ps && p.id == id;
        var j :| 0 <= j < n && ps[j] == p;
        assert ps[..n - 1][j] == p;
      }
      LastIndexOf(ps[..n - 1], id)
  }

  /** Setting a pattern under its id in the map, whose entries are kept in insertion order. */
  function Insert(entries: seq<Pattern>, p: Pattern): (r: seq<Pattern>)
    ensures p.id in Ids(entries) ==> r == entries[IndexOf(entries, p.id) := p]
    ensures p.id !in Ids(entries) ==> r == entries + [p]
  {
    if entries == [] then [p]
    else if entries[0].id == p.id then [p] + entries[1..]
    else
      assert p.id in Ids(entries) <==> p.id in Ids(entries[1..]) by {
        assert entries == [entries[0]] + entries[1..];
        assert forall q :: q in entries <==> q == entries[0] || q in entries[1..];
      }
      [entries[0]] + Insert(entries[1..], p)
  }

  /** The values of a map filled with each pattern of `ps` under its id, in turn. */
  function Uniques(ps: seq<Pattern>): seq<Pattern>
  {
    if ps == [] then [] else Insert(Uniques(ps[..|ps| - 1]), ps[|ps| - 1])
  }

  lemma UniquesSnoc(t: seq<Pattern>, x: Pattern)
    ensures Uniques(t + [x]) == Insert(Uniques(t), x)
  {
    var s := t + [x];
    assert s[..|s| - 1] == t;
  }

  /** The displayed list names exactly the ids of the found list. */
  lemma {:induction false} UniquesIds(ps: seq<Pattern>)
    ensures Ids(Uniques(ps)) == Ids(ps)
  {
    if ps != [] {
      var n := |ps|;
      var t, x := ps[..n - 1], ps[n - 1];
      assert ps == t + [x];
      UniquesIds(t);
      IdsAppend(t, x);
      var u := Uniques(t);
      if x.id in Ids(u) {
        IdsUpdate(u, IndexOf(u, x.id), x);
      } else {
        IdsAppend(u, x);
      }
    }
  }

  /** Each id is displayed at most once. */
  lemma {:induction false} UniquesDistinct(ps: seq<Pattern>)
    ensures DistinctIds(Uniques(ps))
  {
    if ps != [] {
      var n := |ps|;
      var t, x := ps[..n - 1], ps[n - 1];
      UniquesDistinct(t);
      var u := Uniques(t);
      assert Uniques(ps) == Insert(u, x);
      if x.id in Ids(u) {
        var k := IndexOf(u, x.id);
        assert forall a :: 0 <= a < |u| ==> u[k := x][a].id == u[a].id;
      } else {
        forall a | 0 <= a < |u| ensures (u + [x])[a].id != x.id {
          assert u[a] in u;
        }
      }
    }
  }

  lemma IndexOfAppend(ps: seq<Pattern>, x: Pattern, id: string)
    requires id in Ids(ps + [x])
    ensures id in Ids(ps) ==> IndexOf(ps + [x], id) == IndexOf(ps, id)
    ensures id !in Ids(ps) ==> IndexOf(ps + [x], id) == |ps|
  {
    IdsAppend(ps, x);
    var k := IndexOf(ps + [x], id);
    if id in Ids(ps) {
      var k0 := IndexOf(ps, id);
      assert (ps + [x])[k0] == ps[k0];
      assert k <= k0;
      assert ps[k] == (ps + [x])[k];
    }
  }

  /** `u` names the ids of `ps`, ordered by their first occurrence in `ps`. */
  predicate FirstOccurrenceOrder(ps: seq<Pattern>, u: seq<Pattern>)
  {
    Ids(u) == Ids(ps) &&
    forall a, c :: 0 <= a < c < |u| ==> IndexOf(ps, u[a].id) < IndexOf(ps, u[c].id)
  }

  /** The positions in `t + [x]` of the first occurrences of the ids of `t`. */
  lemma IndexOfKept(t: seq<Pattern>, x: Pattern, u: seq<Pattern>)
    requires Ids(u) == Ids(t)
    ensures forall a :: 0 <= a < |u| ==> u[a].id in Ids(t) && IndexOf(t + [x], u[a].id) == IndexOf(t, u[a].id)
  {
    IdsAppend(t, x);
    forall a | 0 <= a < |u| ensures u[a].id in Ids(t) && IndexOf(t + [x], u[a].id) == IndexOf(t, u[a].id) {
      assert u[a] in u;
      IndexOfAppend(t, x, u[a].id);
    }
  }

  /** Replacing the entry of an id already listed keeps the order. */
  lemma ReplaceKeepsOrder(t: seq<Pattern>, x: Pattern, u: seq<Pattern>)
    requires FirstOccurrenceOrder(t, u) && x.id in Ids(u)
    ensures FirstOccurrenceOrder(t + [x], u[IndexOf(u, x.id) := x])
  {
    var k := IndexOf(u, x.id);
    var u' := u[k := x];
    IndexOfKept(t, x, u);
    IdsAppend(t, x);
    IdsUpdate(u, k, x);
    forall a, c | 0 <= a < c < |u'|
      ensures IndexOf(t + [x], u'[a].id) < IndexOf(t + [x], u'[c].id)
    {
      assert u'[a].id == u[a].id && u'[c].id == u[c].id;
      assert IndexOf(t + [x], u'[a].id) == IndexOf(t, u[a].id);
      assert IndexOf(t + [x], u'[c].id) == IndexOf(t, u[c].id);
    }
    assert Ids(u') == Ids(t + [x]);
  }

  /** Appending an entry for a new id keeps the order. */
  lemma AppendKeepsOrder(t: seq<Pattern>, x: Pattern, u: seq<Pattern>)
    requires FirstOccurrenceOrder(t, u) && x.id !in Ids(u)
    ensures FirstOccurrenceOrder(t + [x], u + [x])
  {
    var u' := u + [x];
    IndexOfKept(t, x, u);
    IdsAppend(t, x);
    IdsAppend(u, x);
    IndexOfAppend(t, x, x.id);
    forall a, c | 0 <= a < c < |u'|
      ensures IndexOf(t + [x], u'[a].id) < IndexOf(t + [x], u'[c].id)
    {
      assert u'[a] == u[a];
      assert IndexOf(t, u[a].id) < |t|;
    }
  }

  lemma FirstOccurrenceOrderStep(t: seq<Pattern>, x: Pattern, u: seq<Pattern>)
    requires FirstOccurrenceOrder(t, u)
    ensures FirstOccurrenceOrder(t + [x], Insert(u, x))
  {
    if x.id in Ids(u) {
      ReplaceKeepsOrder(t, x, u);
    } else {
      AppendKeepsOrder(t, x, u);
    }
  }

  /** Ids are displayed in the order of their first occurrence in the found list. */
  lemma {:induction false} UniquesFirstOccurrenceOrder(ps: seq<Pattern>)
    ensures FirstOccurrenceOrder(ps, Uniques(ps))
  {
    if ps != [] {
      var n := |ps|;
      var t, x := ps[..n - 1], ps[n - 1];
      assert ps == t + [x];
      UniquesFirstOccurrenceOrder(t);
      FirstOccurrenceOrderStep(t, x, Uniques(t));
      UniquesSnoc(t, x);
    }
  }

  lemma LastIndexOfAppend(ps: seq<Pattern>, x: Pattern, id: string)
    requires id in Ids(ps + [x])
    ensures id == x.id ==> LastIndexOf(ps + [x], id) == |ps|
    ensures id != x.id ==> id in Ids(ps) && LastIndexOf(ps + [x], id) == LastIndexOf(ps, id)
  {
    IdsAppend(ps, x);
    assert (ps + [x])[..|ps|] == ps;
  }

  /** One `Map.set` keeps every entry equal to the last pattern seen with its id. */
  lemma LastValueStep(t: seq<Pattern>, x: Pattern, u: seq<Pattern>)
    requires Ids(u) == Ids(t) && DistinctIds(u)
    requires forall a :: 0 <= a < |u| ==> u[a].id in Ids(t) && u[a] == t[LastIndexOf(t, u[a].id)]
    ensures Ids(Insert(u, x)) == Ids(t + [x])
    ensures forall a :: 0 <= a < |Insert(u, x)| ==>
              Insert(u, x)[a].id in Ids(t + [x]) &&
              Insert(u, x)[a] == (t + [x])[LastIndexOf(t + [x], Insert(u, x)[a].id)]
  {
    var ps, u' := t + [x], Insert(u, x);
    IdsAppend(t, x);
    if x.id in Ids(u) {
      var k := IndexOf(u, x.id);
      IdsUpdate(u, k, x);
      forall a | 0 <= a < |u'| ensures u'[a].id in Ids(ps) && u'[a] == ps[LastIndexOf(ps, u'[a].id)] {
        assert u'[a] in u';
        LastIndexOfAppend(t, x, u'[a].id);
        if a != k {
          assert u'[a] == u[a] && u[a].id != x.id;
        }
      }
    } else {
      IdsAppend(u, x);
      forall a | 0 <= a < |u'| ensures u'[a].id in Ids(ps) && u'[a] == ps[LastIndexOf(ps, u'[a].id)] {
        assert u'[a] in u';
        LastIndexOfAppend(t, x, u'[a].id);
        if a < |u| {
          assert u'[a] == u[a] && u[a] in u;
        }
      }
    }
  }

  /** Each displayed entry is the last pattern of the found list with its id. */
  lemma {:induction false} UniquesLastValue(ps: seq<Pattern>)
    ensures var u := Uniques(ps);
      Ids(u) == Ids(ps) &&
      forall a :: 0 <= a < |u| ==> u[a].id in Ids(ps) && u[a] == ps[LastIndexOf(ps, u[a].id)]
  {
    UniquesIds(ps);
    if ps != [] {
      var n := |ps|;
      var t, x := ps[..n - 1], ps[n - 1];
      assert ps == t + [x];
      UniquesLastValue(t);
      UniquesDistinct(t);
      LastValueStep(t, x, Uniques(t));
      UniquesSnoc(t, x);
    }
  }

  /** The patterns of the table that are satisfied, in table order. */
  function SatisfiedPatterns(table: seq<Pattern>, b: Board): seq<Pattern>
    requires WellFormedBoard(b) && WellFormedTable(table)
  {
    if table == [] then []
    else
      var last := table[|table| - 1];
      SatisfiedPatterns(table[..|table| - 1], b) + (if Satisfied(last, b) then [last] else [])
  }

  lemma {:induction false} UniquesAppendRepeat(a: seq<Pattern>, p: Pattern, m: nat)
    requires p.id !in Ids(a)
    ensures Uniques(a + Repeat(p, m)) == Uniques(a) + (if m > 0 then [p] else [])
  {
    UniquesIds(a);
    var u := Uniques(a);
    if m == 0 {
      assert a + Repeat(p, m) == a;
    } else {
      var s0 := a + Repeat(p, m - 1);
      assert Repeat(p, m) == Repeat(p, m - 1) + [p];
      assert a + Repeat(p, m) == s0 + [p];
      UniquesSnoc(s0, p);
      UniquesAppendRepeat(a, p, m - 1);
      if m == 1 {
        assert Uniques(s0) == u;
        assert p.id !in Ids(u);
        assert Insert(u, p) == u + [p];
      } else {
        assert Uniques(s0) == u + [p];
        IdsAppend(u, p);
        IndexOfAppend(u, p, p.id);
        assert IndexOf(u + [p], p.id) == |u|;
        assert Insert(u + [p], p) == (u + [p])[|u| := p];
        assert (u + [p])[|u| := p] == u + [p];
      }
    }
  }

  /** With distinct ids in the table, the displayed list is exactly the satisfied
      patterns, each once, in table order. */
  lemma {:induction false} DisplayedAreSatisfied(table: seq<Pattern>, b: Board)
    requires WellFormedBoard(b) && WellFormedTable(table) && DistinctIds(table)
    ensures Uniques(Found(table, b)) == SatisfiedPatterns(table, b)
  {
    if table != [] {
      var n := |table|;
      var t, last := table[..n - 1], table[n - 1];
      DisplayedAreSatisfied(t, b);
      FoundFromTable(t, b);
      assert last.id !in Ids(Found(t, b));
      var m := |MatchingLanes(last, b, |LaneNames|)|;
      UniquesAppendRepeat(Found(t, b), last, m);
      SatisfiedIffSomeLane(last, b);
    }
  }
}
