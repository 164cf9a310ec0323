/** A sentence of the inference engine's knowledge: a set of cells and the number of mines
    among them. */
module Sentences {
  import opened Field

  /** What a sentence says: its cells and its count. `Sentence.__eq__` compares exactly these,
      and `known_mines` and `known_safes` read nothing else. */
  datatype Fact = Fact(cells: set<Cell>, count: int)
  {
    /** `known_mines`: all of the cells when there are as many mines as cells, none otherwise. */
    function KnownMines(): (r: set<Cell>)
      ensures r <= cells
      ensures r != {} ==> r == cells && |cells| == count
      ensures |cells| == count ==> r == cells
    {
      if |cells| == count then cells else {}
    }

    /** `known_safes`: all of the cells when there are no mines among them, none otherwise. */
    function KnownSafes(): (r: set<Cell>)
      ensures r <= cells
      ensures r != {} ==> r == cells && count == 0
      ensures count == 0 ==> r == cells
    {
      if count == 0 then cells else {}
    }

    /** What `mark_mine` leaves: without the cell, and one mine fewer if the cell was there. */
    function WithoutMine(cell: Cell): (r: Fact)
      ensures r.cells == cells - {cell}
      ensures r.count - |r.cells| == count - |cells|
    {
      if cell in cells then Fact(cells - {cell}, count - 1) else this
    }

    /** What `mark_safe` leaves: without the cell, the count unchanged. */
    function WithoutSafe(cell: Cell): Fact
    {
      Fact(cells - {cell}, count)
    }

    /** What marking every cell of `safe` leaves. */
    function WithoutSafes(safe: set<Cell>): Fact
    {
      Fact(cells - safe, count)
    }

    /** What marking every cell of `mine` leaves: each one the sentence held takes a mine away. */
    function WithoutMines(mine: set<Cell>): Fact
    {
      Fact(cells - mine, count - |cells * mine|)
    }

    /** The sentence the subset rule derives from this one and `other`: `s1.cells - s2.cells`
        and `s1.count - s2.count`. */
    function Minus(other: Fact): Fact
    {
      Fact(cells - other.cells, count - other.count)
    }
  }

  /** The sentence is true of the mine layout `truth`. */
  ghost predicate TrueOf(f: Fact, truth: set<Cell>)
  {
    |f.cells * truth| == f.count
  }

  class Sentence {
    var cells: set<Cell>
    var count: int

    constructor (cells: set<Cell>, count: int)
      ensures Value() == Fact(cells, count)
    {
      this.cells := cells;
      this.count := count;
    }

    /** The value `__eq__` compares. */
    function Value(): Fact
      reads this
    {
      Fact(cells, count)
    }

    /** `__eq__`: the same cells and the same count. */
    predicate Equals(other: Sentence)
      reads this, other
    {
      cells == other.cells && count == other.count
    }

    /** `mark_mine`: a cell known to be a mine leaves the sentence and takes one mine with it. */
    method MarkMine(cell: Cell)
      modifies this
      ensures Value() == old(Value()).WithoutMine(cell)
    {
      if cell in cells {
        cells := cells - {cell};
        count := count - 1;
      }
    }

    /** `mark_safe`: a cell known to be safe leaves the sentence; the count stays. */
    method MarkSafe(cell: Cell)
      modifies this
      ensures Value() == old(Value()).WithoutSafe(cell)
    {
      if cell in cells {
        cells := cells - {cell};
      }
    }
  }

  /** `for sentence in self.knowledge: sentence.mark_mine(cell)`. A sentence listed twice is
      marked twice, which changes nothing the second time. */
  method MarkMineInEach(ks: seq<Sentence>, cell: Cell)
    modifies ks
    ensures forall k :: 0 <= k < |ks| ==> ks[k].Value() == old(ks[k].Value()).WithoutMine(cell)
  {
    ghost var marked: set<Sentence> := {};
    for k := 0 to |ks|
      invariant forall j :: 0 <= j < k ==> ks[j] in marked
      invariant forall s :: s in ks ==>
        s.Value() == if s in marked then old(s.Value()).WithoutMine(cell) else old(s.Value())
    {
      MarkingMineTwice(old(ks[k].Value()), cell);
      ks[k].MarkMine(cell);
      marked := marked + {ks[k]};
    }
  }

  /** `for sentence in self.knowledge: sentence.mark_safe(cell)`. */
  method MarkSafeInEach(ks: seq<Sentence>, cell: Cell)
    modifies ks
    ensures forall k :: 0 <= k < |ks| ==> ks[k].Value() == old(ks[k].Value()).WithoutSafe(cell)
  {
    ghost var marked: set<Sentence> := {};
    for k := 0 to |ks|
      invariant forall j :: 0 <= j < k ==> ks[j] in marked
      invariant forall s :: s in ks ==>
        s.Value() == if s in marked then old(s.Value()).WithoutSafe(cell) else old(s.Value())
    {
      MarkingSafeTwice(old(ks[k].Value()), cell);
      ks[k].MarkSafe(cell);
      marked := marked + {ks[k]};
    }
  }

  /** The values of a list of sentences, position by position. */
  function Facts(ks: seq<Sentence>): (fs: seq<Fact>)
    reads ks
    ensures |fs| == |ks| && forall k :: 0 <= k < |ks| ==> fs[k] == ks[k].Value()
  {
    seq(|ks|, k requires 0 <= k < |ks| reads ks => ks[k].Value())
  }

  /** Python's `s in knowledge`, which compares with `__eq__`, is membership of the value among
      the values of the list. */
  lemma InIsEquality(ks: seq<Sentence>, s: Sentence)
    ensures s.Value() in Facts(ks) <==> exists k :: 0 <= k < |ks| && s.Equals(ks[k])
  {
    if s.Value() in Facts(ks) {
      var k :| 0 <= k < |ks| && Facts(ks)[k] == s.Value();
      assert s.Equals(ks[k]);
    }
  }

  /** Every cell `known_mines` reports is a mine of any layout the sentence is true of. */
  lemma KnownMinesAreMines(f: Fact, truth: set<Cell>)
    requires TrueOf(f, truth)
    ensures f.KnownMines() <= truth
  {
    if |f.cells| == f.count {
      SubsetOfSameSize(f.cells * truth, f.cells);
    }
  }

  /** No cell `known_safes` reports is a mine of a layout the sentence is true of. */
  lemma KnownSafesAreSafe(f: Fact, truth: set<Cell>)
    requires TrueOf(f, truth)
    ensures f.KnownSafes() !! truth
  {
    if f.count == 0 {
      assert |f.cells * truth| == 0;
      forall c | c in f.cells
        ensures c !in truth
      {
        assert c !in f.cells * truth;
      }
    }
  }

  /** A set has subsets of every size up to its own. */
  lemma {:induction false} SubsetOfSize(a: set<Cell>, n: nat)
    requires n <= |a|
    ensures exists b :: b <= a && |b| == n
  {
    if n > 0 {
      var x :| x in a;
      SubsetOfSize(a - {x}, n - 1);
      var b :| b <= a - {x} && |b| == n - 1;
      assert b + {x} <= a && |b + {x}| == n;
    } else {
      assert {} <= a;
    }
  }

  /** `known_mines` misses nothing: a cell it leaves out is safe in some layout the sentence is
      true of, whenever the sentence can be true at all. */
  lemma OnlyKnownMinesAreCertain(f: Fact, c: Cell)
    requires 0 <= f.count <= |f.cells|
    requires c in f.cells && c !in f.KnownMines()
    ensures exists truth :: TrueOf(f, truth) && c !in truth
  {
    SubsetOfSize(f.cells - {c}, f.count);
    var b :| b <= f.cells - {c} && |b| == f.count;
    assert f.cells * b == b;
    assert TrueOf(f, b) && c !in b;
  }

  /** `known_safes` misses nothing: a cell it leaves out is a mine in some layout the sentence
      is true of, whenever the sentence can be true at all. */
  lemma OnlyKnownSafesAreCertain(f: Fact, c: Cell)
    requires 0 <= f.count <= |f.cells|
    requires c in f.cells && c !in f.KnownSafes()
    ensures exists truth :: TrueOf(f, truth) && c in truth
  {
    SubsetOfSize(f.cells - {c}, f.count - 1);
    var b :| b <= f.cells - {c} && |b| == f.count - 1;
    var truth := b + {c};
    assert f.cells * truth == truth;
    assert TrueOf(f, truth) && c in truth;
  }

  /** Marking a cell that is a mine of `truth` keeps a sentence exactly as true as it was. */
  lemma MarkingAMineKeepsTruth(f: Fact, c: Cell, truth: set<Cell>)
    requires c in truth
    ensures TrueOf(f.WithoutMine(c), truth) <==> TrueOf(f, truth)
  {
    if c in f.cells {
      assert f.cells * truth == (f.cells - {c}) * truth + {c};
    }
  }

  /** Marking a cell that is safe in `truth` keeps a sentence exactly as true as it was. */
  lemma MarkingASafeKeepsTruth(f: Fact, c: Cell, truth: set<Cell>)
    requires c !in truth
    ensures TrueOf(f.WithoutSafe(c), truth) <==> TrueOf(f, truth)
  {
    assert (f.cells - {c}) * truth == f.cells * truth;
  }

  /** Marking cells that are all safe in `truth` keeps a sentence exactly as true as it was. */
  lemma MarkingSafesKeepsTruth(f: Fact, safe: set<Cell>, truth: set<Cell>)
    requires safe !! truth
    ensures TrueOf(f.WithoutSafes(safe), truth) <==> TrueOf(f, truth)
  {
    assert (f.cells - safe) * truth == f.cells * truth;
  }

  /** Marking cells that are all mines of `truth` keeps a sentence exactly as true as it was. */
  lemma MarkingMinesKeepsTruth(f: Fact, mine: set<Cell>, truth: set<Cell>)
    requires mine <= truth
    ensures TrueOf(f.WithoutMines(mine), truth) <==> TrueOf(f, truth)
  {
    assert f.cells * truth == (f.cells - mine) * truth + f.cells * mine;
    assert (f.cells - mine) * truth !! f.cells * mine;
  }

  /** Marking the safe cells one at a time, in any order, comes to marking them all at once. */
  lemma OneMoreSafe(f: Fact, done: set<Cell>, c: Cell)
    ensures f.WithoutSafes(done).WithoutSafe(c) == f.WithoutSafes(done + {c})
  {
    assert f.cells - done - {c} == f.cells - (done + {c});
  }

  /** Marking the mines one at a time, in any order, comes to marking them all at once. */
  lemma OneMoreMine(f: Fact, done: set<Cell>, c: Cell)
    ensures f.WithoutMines(done).WithoutMine(c) == f.WithoutMines(done + {c})
  {
    var g := f.WithoutMines(done);
    assert g.cells - {c} == f.cells - (done + {c});
    if c in g.cells {
      assert f.cells * (done + {c}) == f.cells * done + {c};
      assert c !in f.cells * done;
      assert |f.cells * (done + {c})| == |f.cells * done| + 1;
    } else {
      assert f.cells * (done + {c}) == f.cells * done;
    }
  }

  /** Marking one mine is marking the set holding just that cell. */
  lemma MarkingOneMine(f: Fact, c: Cell)
    ensures f.WithoutMines({c}) == f.WithoutMine(c)
  {
    if c in f.cells {
      assert f.cells * {c} == {c};
    } else {
      assert f.cells * {c} == {};
    }
    assert f.cells - {c} == f.cells - {c};
  }

  /** Marking the same mine a second time changes nothing. */
  lemma MarkingMineTwice(f: Fact, c: Cell)
    ensures f.WithoutMine(c).WithoutMine(c) == f.WithoutMine(c)
  {
    assert f.cells - {c} - {c} == f.cells - {c};
  }

  /** Marking the same safe cell a second time changes nothing. */
  lemma MarkingSafeTwice(f: Fact, c: Cell)
    ensures f.WithoutSafe(c).WithoutSafe(c) == f.WithoutSafe(c)
  {
    assert f.cells - {c} - {c} == f.cells - {c};
  }

  /** Marking no cells changes nothing. */
  lemma MarkingNothing(f: Fact)
    ensures f.WithoutSafes({}) == f && f.WithoutMines({}) == f
  {
    assert f.cells - {} == f.cells;
    assert f.cells * {} == {};
  }

  /** The subset rule is sound: when one true sentence's cells lie within another's, their
      difference is true as well. */
  lemma DifferenceKeepsTruth(p: Fact, q: Fact, truth: set<Cell>)
    requires q.cells <= p.cells && TrueOf(p, truth) && TrueOf(q, truth)
    ensures TrueOf(p.Minus(q), truth)
  {
    assert p.cells * truth == (p.cells - q.cells) * truth + q.cells * truth;
    assert (p.cells - q.cells) * truth !! q.cells * truth;
  }

  /** The sentence built from an observation (the neighbours not yet known safe or mine, holding
      the observed count less the neighbours already known to be mines) is true of a layout the
      known cells agree with exactly when the count is that layout's number of mines around. */
  lemma ObservationIsTrue(neighbours: set<Cell>, count: int, safes: set<Cell>, mines: set<Cell>, truth: set<Cell>)
    requires mines <= truth && safes !! truth
    ensures TrueOf(Fact(neighbours - safes - mines, count - |neighbours * mines|), truth) <==> count == |neighbours * truth|
  {
    var unknown := neighbours - safes - mines;
    assert neighbours * truth == unknown * truth + neighbours * mines;
    assert unknown * truth !! neighbours * mines;
  }
}
