/** The inference engine: the cells it knows to be safe or mines, and the sentences it has
    learnt, kept up to date by marking cells and by the subset rule. */
module Inference {
  import opened Wrappers
  import opened Field
  import opened Sentences

  /** The subset rule has nothing left to add for `q` inside `p`: when `q`'s cells lie within
      `p`'s and the difference has cells, the difference is already among `fs`. */
  ghost predicate SubsetDone(fs: seq<Fact>, p: Fact, q: Fact)
  {
    q.cells <= p.cells && p.cells - q.cells != {} ==> p.Minus(q) in fs
  }

  /** The subset rule is done for the sentences at positions a and b, taken either way round. */
  ghost predicate PairDone(fs: seq<Fact>, a: int, b: int)
    requires 0 <= a < |fs| && 0 <= b < |fs|
  {
    SubsetDone(fs, fs[a], fs[b]) && SubsetDone(fs, fs[b], fs[a])
  }

  /** The outer loop of the subset rule has finished its first n rows. */
  ghost predicate RowsDone(fs: seq<Fact>, n: int)
  {
    forall a, b :: 0 <= b <= a < n && a < |fs| ==> PairDone(fs, a, b)
  }

  /** The inner loop of the subset rule has finished the first n columns of row i. */
  ghost predicate RowDone(fs: seq<Fact>, i: int, n: int)
  {
    forall b :: 0 <= b < n && b < |fs| && 0 <= i < |fs| ==> PairDone(fs, i, b)
  }

  /** The subset rule has nothing left to add anywhere in `fs`. */
  ghost predicate Closed(fs: seq<Fact>)
  {
    forall a, b :: 0 <= a < |fs| && 0 <= b < |fs| ==> SubsetDone(fs, fs[a], fs[b])
  }

  /** Every sentence of `fs` is true of the mine layout `truth`. */
  ghost predicate AllTrue(fs: seq<Fact>, truth: set<Cell>)
  {
    forall k :: 0 <= k < |fs| ==> TrueOf(fs[k], truth)
  }

  /** No sentence of `fs` holds a cell of `known`. */
  ghost predicate Reduced(fs: seq<Fact>, known: set<Cell>)
  {
    forall k :: 0 <= k < |fs| ==> fs[k].cells !! known
  }

  /** Sentence k of `fs` is one the subset rule may append: it has cells, no sentence before it
      is equal to it, and it is the difference of two earlier sentences one of which lies
      within the other. */
  ghost predicate Derived(fs: seq<Fact>, k: int)
    requires 0 <= k < |fs|
  {
    fs[k].cells != {}
    && fs[k] !in fs[..k]
    && exists a, b :: 0 <= a < k && 0 <= b < k && fs[b].cells <= fs[a].cells && fs[k] == fs[a].Minus(fs[b])
  }

  /** Every sentence from position `start` on was appended by the subset rule. */
  ghost predicate AllDerived(fs: seq<Fact>, start: int)
  {
    forall k :: 0 <= start <= k < |fs| ==> Derived(fs, k)
  }

  /** The state `add_knowledge` stops in: every sentence has cells, none reveals a safe cell or
      a mine, and the subset rule has nothing left to add. */
  ghost predicate Settled(fs: seq<Fact>)
  {
    Closed(fs)
    && forall k :: 0 <= k < |fs| ==> fs[k].cells != {} && fs[k].KnownSafes() == {} && fs[k].KnownMines() == {}
  }

  /** Appending sentences never undoes what the subset rule has done. */
  lemma SubsetDoneGrows(fs: seq<Fact>, longer: seq<Fact>, p: Fact, q: Fact)
    requires fs <= longer && SubsetDone(fs, p, q)
    ensures SubsetDone(longer, p, q)
  {
    if q.cells <= p.cells && p.cells - q.cells != {} {
      var k :| 0 <= k < |fs| && fs[k] == p.Minus(q);
      assert longer[k] == fs[k];
    }
  }

  lemma RowsGrow(fs: seq<Fact>, longer: seq<Fact>, n: int)
    requires fs <= longer && n <= |fs| && RowsDone(fs, n)
    ensures RowsDone(longer, n)
  {
    forall a, b | 0 <= b <= a < n && a < |longer|
      ensures PairDone(longer, a, b)
    {
      assert PairDone(fs, a, b);
      SubsetDoneGrows(fs, longer, fs[a], fs[b]);
      SubsetDoneGrows(fs, longer, fs[b], fs[a]);
    }
  }

  lemma RowGrows(fs: seq<Fact>, longer: seq<Fact>, i: int, n: int)
    requires fs <= longer && 0 <= i < |fs| && n <= |fs| && RowDone(fs, i, n)
    ensures RowDone(longer, i, n)
  {
    forall b | 0 <= b < n && b < |longer|
      ensures PairDone(longer, i, b)
    {
      assert PairDone(fs, i, b);
      SubsetDoneGrows(fs, longer, fs[i], fs[b]);
      SubsetDoneGrows(fs, longer, fs[b], fs[i]);
    }
  }

  /** Whether a sentence was derived depends only on the sentences up to it. */
  lemma AllDerivedGrows(fs: seq<Fact>, longer: seq<Fact>, start: int)
    requires fs <= longer && AllDerived(fs, start) && AllDerived(longer, |fs|)
    ensures AllDerived(longer, start)
  {
    forall k | 0 <= start <= k < |fs|
      ensures Derived(longer, k)
    {
      assert Derived(fs, k);
      assert longer[..k] == fs[..k];
      var a, b :| 0 <= a < k && 0 <= b < k && fs[b].cells <= fs[a].cells && fs[k] == fs[a].Minus(fs[b]);
      assert longer[a] == fs[a] && longer[b] == fs[b] && longer[k] == fs[k];
    }
  }

  /** `after` is `before` with the cells of `safe` marked safe in every sentence. */
  ghost predicate SafesMarked(before: seq<Fact>, after: seq<Fact>, safe: set<Cell>)
  {
    |after| == |before| && forall k :: 0 <= k < |before| ==> after[k] == before[k].WithoutSafes(safe)
  }

  /** `after` is `before` with the cells of `mine` marked as mines in every sentence. */
  ghost predicate MinesMarked(before: seq<Fact>, after: seq<Fact>, mine: set<Cell>)
  {
    |after| == |before| && forall k :: 0 <= k < |before| ==> after[k] == before[k].WithoutMines(mine)
  }

  /** Marking cells safe one at a time, in any order, comes to marking them all at once. */
  lemma SafesMarkedStep(fs: seq<Fact>, mid: seq<Fact>, after: seq<Fact>, done: set<Cell>, c: Cell)
    requires SafesMarked(fs, mid, done) && SafesMarked(mid, after, {c})
    ensures SafesMarked(fs, after, done + {c})
  {
    forall k | 0 <= k < |fs|
      ensures after[k] == fs[k].WithoutSafes(done + {c})
    {
      assert fs[k].cells - done - {c} == fs[k].cells - (done + {c});
    }
  }

  /** Marking mines one at a time, in any order, comes to marking them all at once. */
  lemma MinesMarkedStep(fs: seq<Fact>, mid: seq<Fact>, after: seq<Fact>, done: set<Cell>, c: Cell)
    requires MinesMarked(fs, mid, done) && MinesMarked(mid, after, {c})
    ensures MinesMarked(fs, after, done + {c})
  {
    forall k | 0 <= k < |fs|
      ensures after[k] == fs[k].WithoutMines(done + {c})
    {
      MarkingOneMine(mid[k], c);
      OneMoreMine(fs[k], done, c);
    }
  }

  /** Marking nothing changes nothing. */
  lemma NothingMarked(fs: seq<Fact>)
    ensures SafesMarked(fs, fs, {}) && MinesMarked(fs, fs, {})
  {
    forall k | 0 <= k < |fs|
      ensures fs[k] == fs[k].WithoutSafes({}) && fs[k] == fs[k].WithoutMines({})
    {
      MarkingNothing(fs[k]);
    }
  }

  /** Marking mines keeps the sentences reduced, now also by the mines, and true of any layout
      the mines belong to. */
  lemma MarkedMinesKeep(fs: seq<Fact>, marked: seq<Fact>, cells: set<Cell>, known: set<Cell>, truth: set<Cell>)
    requires MinesMarked(fs, marked, cells)
    ensures Reduced(fs, known) ==> Reduced(marked, known + cells)
    ensures AllTrue(fs, truth) && cells <= truth ==> AllTrue(marked, truth)
  {
    if AllTrue(fs, truth) && cells <= truth {
      forall k | 0 <= k < |fs|
        ensures TrueOf(marked[k], truth)
      {
        MarkingMinesKeepsTruth(fs[k], cells, truth);
      }
    }
  }

  /** Marking safe cells keeps the sentences reduced, now also by those cells, and true of any
      layout they are safe in. */
  lemma MarkedSafesKeep(fs: seq<Fact>, marked: seq<Fact>, cells: set<Cell>, known: set<Cell>, truth: set<Cell>)
    requires SafesMarked(fs, marked, cells)
    ensures Reduced(fs, known) ==> Reduced(marked, known + cells)
    ensures AllTrue(fs, truth) && cells !! truth ==> AllTrue(marked, truth)
  {
    if AllTrue(fs, truth) && cells !! truth {
      forall k | 0 <= k < |fs|
        ensures TrueOf(marked[k], truth)
      {
        MarkingSafesKeepsTruth(fs[k], cells, truth);
      }
    }
  }

  /** `[s for s in knowledge if s.cells]`, on the sentences' values. */
  function WithCells(fs: seq<Fact>): (r: seq<Fact>)
    ensures forall f :: f in r <==> f in fs && f.cells != {}
  {
    if fs == [] then []
    else
      assert fs == fs[..|fs| - 1] + [fs[|fs| - 1]];
      WithCells(fs[..|fs| - 1]) + (if fs[|fs| - 1].cells != {} then [fs[|fs| - 1]] else [])
  }

  /** The sentences without cells are the only ones the subset rule's differences never need,
      so dropping them keeps the rule closed, and keeps every sentence true and reduced. */
  lemma WithCellsKeeps(fs: seq<Fact>, truth: set<Cell>, known: set<Cell>)
    ensures Closed(fs) ==> Closed(WithCells(fs))
    ensures AllTrue(fs, truth) ==> AllTrue(WithCells(fs), truth)
    ensures Reduced(fs, known) ==> Reduced(WithCells(fs), known)
  {
    var r := WithCells(fs);
    if Closed(fs) {
      forall a, b | 0 <= a < |r| && 0 <= b < |r|
        ensures SubsetDone(r, r[a], r[b])
      {
        assert r[a] in fs && r[b] in fs;
        var a', b' :| 0 <= a' < |fs| && fs[a'] == r[a] && 0 <= b' < |fs| && fs[b'] == r[b];
        assert SubsetDone(fs, fs[a'], fs[b']);
      }
    }
    if AllTrue(fs, truth) {
      forall k | 0 <= k < |r|
        ensures TrueOf(r[k], truth)
      {
        assert r[k] in fs;
      }
    }
    if Reduced(fs, known) {
      forall k | 0 <= k < |r|
        ensures r[k].cells !! known
      {
        assert r[k] in fs;
      }
    }
  }

  /** Dropping the sentences without cells from a closed knowledge base in which no sentence
      reveals anything leaves it settled. */
  lemma WithCellsSettles(fs: seq<Fact>)
    requires Closed(fs) && Quiet(fs)
    ensures Settled(WithCells(fs))
  {
    var r := WithCells(fs);
    assert Closed(r) by {
      WithCellsKeeps(fs, {}, {});
    }
    forall k | 0 <= k < |r|
      ensures r[k].cells != {} && r[k].KnownSafes() == {} && r[k].KnownMines() == {}
    {
      assert r[k] in fs;
      var j :| 0 <= j < |fs| && fs[j] == r[k];
      assert fs[j].KnownSafes() == {} && fs[j].KnownMines() == {};
    }
  }

  /** `[s for s in knowledge if s.cells]`: the sentence objects that still have cells, in order. */
  function NonEmpty(ks: seq<Sentence>): (r: seq<Sentence>)
    reads ks
    ensures forall k :: 0 <= k < |r| ==> r[k] in ks
  {
    if ks == [] then []
    else NonEmpty(ks[..|ks| - 1]) + (if ks[|ks| - 1].cells != {} then [ks[|ks| - 1]] else [])
  }

  /** The sentences `NonEmpty` keeps say, in order, what `WithCells` keeps of their values. */
  lemma {:induction false} NonEmptyFacts(ks: seq<Sentence>)
    ensures Facts(NonEmpty(ks)) == WithCells(Facts(ks))
    decreases |ks|
  {
    if ks != [] {
      var init, last := ks[..|ks| - 1], ks[|ks| - 1];
      var kept := if last.cells != {} then [last] else [];
      calc {
        Facts(NonEmpty(ks));
        Facts(NonEmpty(init) + kept);
        { FactsConcat(NonEmpty(init), kept); }
        Facts(NonEmpty(init)) + Facts(kept);
        { NonEmptyFacts(init); }
        WithCells(Facts(init)) + Facts(kept);
        { assert Facts(ks)[..|ks| - 1] == Facts(init);
          assert Facts(kept) == if Facts(ks)[|ks| - 1].cells != {} then [Facts(ks)[|ks| - 1]] else []; }
        WithCells(Facts(ks));
      }
    }
  }

  /** The values of two lists joined are the values of each, joined. */
  lemma FactsConcat(ks: seq<Sentence>, more: seq<Sentence>)
    ensures Facts(ks + more) == Facts(ks) + Facts(more)
  {
    var l, r := Facts(ks + more), Facts(ks) + Facts(more);
    assert |l| == |r|;
    forall k | 0 <= k < |l|
      ensures l[k] == r[k]
    {
      if k < |ks| {
        assert (ks + more)[k] == ks[k];
      } else {
        assert (ks + more)[k] == more[k - |ks|];
      }
    }
  }

  /** `after` is `before` with sentences appended by the subset rule. */
  ghost predicate Grows(before: seq<Fact>, after: seq<Fact>)
  {
    before <= after && AllDerived(after, |before|)
  }

  /** Growth by the subset rule, twice over, is growth by the subset rule. */
  lemma GrowsTwice(fs: seq<Fact>, mid: seq<Fact>, after: seq<Fact>)
    requires Grows(fs, mid) && Grows(mid, after)
    ensures Grows(fs, after)
  {
    AllDerivedGrows(mid, after, |fs|);
  }

  /** The first n sentences after growth are true of any layout the sentences before it are
      true of. */
  lemma {:induction false} TrueUpTo(fs: seq<Fact>, after: seq<Fact>, truth: set<Cell>, n: nat)
    requires Grows(fs, after) && AllTrue(fs, truth) && n <= |after|
    ensures forall k :: 0 <= k < n ==> TrueOf(after[k], truth)
    decreases n
  {
    if n > 0 {
      TrueUpTo(fs, after, truth, n - 1);
      var k := n - 1;
      assert TrueOf(after[k], truth) by {
        if k < |fs| {
          assert after[k] == fs[k];
        } else {
          assert Derived(after, k);
          var a, b :| 0 <= a < k && 0 <= b < k && after[b].cells <= after[a].cells && after[k] == after[a].Minus(after[b]);
          assert TrueOf(after[a], truth) && TrueOf(after[b], truth);
          DifferenceKeepsTruth(after[a], after[b], truth);
        }
      }
    }
  }

  /** The first n sentences after growth hold no cell of a set the sentences before it avoid. */
  lemma {:induction false} ReducedUpTo(fs: seq<Fact>, after: seq<Fact>, known: set<Cell>, n: nat)
    requires Grows(fs, after) && Reduced(fs, known) && n <= |after|
    ensures forall k :: 0 <= k < n ==> after[k].cells !! known
    decreases n
  {
    if n > 0 {
      ReducedUpTo(fs, after, known, n - 1);
      var k := n - 1;
      assert after[k].cells !! known by {
        if k < |fs| {
          assert after[k] == fs[k];
        } else {
          assert Derived(after, k);
          var a, b :| 0 <= a < k && 0 <= b < k && after[b].cells <= after[a].cells && after[k] == after[a].Minus(after[b]);
          assert after[a].cells !! known && after[k].cells <= after[a].cells;
        }
      }
    }
  }

  /** The subset rule only appends consequences: what the sentences before it are true of,
      the sentences it appends are true of as well, and they hold no cell the earlier ones
      did not. */
  lemma GrowthKeeps(fs: seq<Fact>, after: seq<Fact>, truth: set<Cell>, known: set<Cell>)
    requires Grows(fs, after)
    ensures AllTrue(fs, truth) ==> AllTrue(after, truth)
    ensures Reduced(fs, known) ==> Reduced(after, known)
  {
    if AllTrue(fs, truth) {
      TrueUpTo(fs, after, truth, |after|);
    }
    if Reduced(fs, known) {
      ReducedUpTo(fs, after, known, |after|);
    }
  }

  /** No sentence of `fs` reveals a safe cell or a mine. */
  ghost predicate Quiet(fs: seq<Fact>)
  {
    forall k :: 0 <= k < |fs| ==> fs[k].KnownSafes() == {} && fs[k].KnownMines() == {}
  }

  /** The union of the safe cells the sentences of `fs` reveal: a pass's `new_safes`. */
  function RevealedSafes(fs: seq<Fact>): (r: set<Cell>)
    ensures forall c :: c in r <==> exists k :: 0 <= k < |fs| && c in fs[k].KnownSafes()
  {
    if fs == [] then {}
    else
      var init := fs[..|fs| - 1];
      assert forall k :: 0 <= k < |init| ==> init[k] == fs[k];
      RevealedSafes(init) + fs[|fs| - 1].KnownSafes()
  }

  /** The union of the mines the sentences of `fs` reveal: a pass's `new_mines`. */
  function RevealedMines(fs: seq<Fact>): (r: set<Cell>)
    ensures forall c :: c in r <==> exists k :: 0 <= k < |fs| && c in fs[k].KnownMines()
  {
    if fs == [] then {}
    else
      var init := fs[..|fs| - 1];
      assert forall k :: 0 <= k < |init| ==> init[k] == fs[k];
      RevealedMines(init) + fs[|fs| - 1].KnownMines()
  }

  /** What the sentences of a true knowledge base reveal is right. */
  lemma RevealedAreRight(fs: seq<Fact>, truth: set<Cell>)
    requires AllTrue(fs, truth)
    ensures RevealedSafes(fs) !! truth && RevealedMines(fs) <= truth
  {
    forall c | c in RevealedSafes(fs)
      ensures c !in truth
    {
      var k :| 0 <= k < |fs| && c in fs[k].KnownSafes();
      KnownSafesAreSafe(fs[k], truth);
    }
    forall c | c in RevealedMines(fs)
      ensures c in truth
    {
      var k :| 0 <= k < |fs| && c in fs[k].KnownMines();
      KnownMinesAreMines(fs[k], truth);
    }
  }

  /** A pass reveals something exactly when some sentence is not quiet. */
  lemma RevealedIffNotQuiet(fs: seq<Fact>)
    ensures Quiet(fs) <==> RevealedSafes(fs) == {} && RevealedMines(fs) == {}
  {
    if !Quiet(fs) {
      var k :| 0 <= k < |fs| && !(fs[k].KnownSafes() == {} && fs[k].KnownMines() == {});
      if fs[k].KnownSafes() != {} {
        var c :| c in fs[k].KnownSafes();
        assert c in RevealedSafes(fs);
      } else {
        var c :| c in fs[k].KnownMines();
        assert c in RevealedMines(fs);
      }
    }
  }

  /** Moving one cell from the cells still to do to the cells done. */
  lemma TakeOne(base: set<Cell>, cells: set<Cell>, todo: set<Cell>, c: Cell)
    requires c in todo && todo <= cells
    ensures cells - todo + {c} == cells - (todo - {c})
    ensures base + (cells - todo) + {c} == base + (cells - (todo - {c}))
  {
  }

  /** Unions may be taken in any grouping. */
  lemma Regroup(a: set<Cell>, b: set<Cell>, c: set<Cell>, d: set<Cell>)
    ensures a + b + c + d == (a + c) + (b + d)
  {
  }

  /** Unions associate. */
  lemma UnionAssociates(a: set<Cell>, b: set<Cell>, c: set<Cell>)
    ensures a + b + c == a + (b + c)
  {
  }

  /** A prefix as long as the whole is the whole. */
  lemma PrefixOfSameLength<T>(a: seq<T>, b: seq<T>)
    requires a <= b && |a| == |b|
    ensures a == b
  {
  }

  /** Two lists of sentences equal position by position are equal. */
  lemma SamePointwise(a: seq<Fact>, b: seq<Fact>)
    requires |a| == |b| && forall k :: 0 <= k < |a| ==> a[k] == b[k]
    ensures a == b
  {
  }

  /** Marking what a pass reveals, safe cells first: the sentences stay reduced, now also by
      the revealed cells, and stay true of a layout they were true of; when nothing was
      revealed, nothing changes. */
  lemma MarkingRevealedKeeps(fs: seq<Fact>, mid: seq<Fact>, after: seq<Fact>, safes: set<Cell>, mines: set<Cell>, truth: set<Cell>)
    requires SafesMarked(fs, mid, RevealedSafes(fs)) && MinesMarked(mid, after, RevealedMines(fs))
    ensures Reduced(fs, safes + mines) ==> Reduced(after, (safes + RevealedSafes(fs)) + (mines + RevealedMines(fs)))
    ensures AllTrue(fs, truth) ==> AllTrue(after, truth) && RevealedSafes(fs) !! truth && RevealedMines(fs) <= truth
    ensures Quiet(fs) ==> after == fs
  {
    var safe, mine, known := RevealedSafes(fs), RevealedMines(fs), safes + mines;
    assert Reduced(fs, known) ==> Reduced(after, (safes + safe) + (mines + mine)) by {
      MarkedSafesKeep(fs, mid, safe, known, truth);
      MarkedMinesKeep(mid, after, mine, known + safe, truth);
      Regroup(safes, mines, safe, mine);
    }
    assert AllTrue(fs, truth) ==> AllTrue(after, truth) && safe !! truth && mine <= truth by {
      if AllTrue(fs, truth) {
        RevealedAreRight(fs, truth);
        MarkedSafesKeep(fs, mid, safe, known, truth);
        MarkedMinesKeep(mid, after, mine, known + safe, truth);
      }
    }
    assert Quiet(fs) ==> after == fs by {
      if Quiet(fs) {
        RevealedIffNotQuiet(fs);
        assert safe == {} && mine == {};
        forall k | 0 <= k < |fs|
          ensures after[k] == fs[k]
        {
          assert mid[k] == fs[k].WithoutSafes({});
          assert after[k] == mid[k].WithoutMines({});
          MarkingNothing(fs[k]);
          MarkingNothing(mid[k]);
        }
        SamePointwise(after, fs);
      }
    }
  }

  /** Appending a sentence that holds no known cell keeps the knowledge reduced, and appending
      a true one keeps it true. */
  lemma AppendKeeps(fs: seq<Fact>, f: Fact, truth: set<Cell>, known: set<Cell>)
    ensures Reduced(fs, known) && f.cells !! known ==> Reduced(fs + [f], known)
    ensures AllTrue(fs, truth) && TrueOf(f, truth) ==> AllTrue(fs + [f], truth)
  {
    var l := fs + [f];
    assert forall k :: 0 <= k < |fs| ==> l[k] == fs[k];
    assert l[|fs|] == f;
  }

  /** The knowledge `(fs, safes, mines)` agrees with the mine layout `layout`: the known mines
      are mines of it, the known safe cells are not, and every sentence is true of it. */
  ghost predicate Consistent(fs: seq<Fact>, safes: set<Cell>, mines: set<Cell>, layout: set<Cell>)
  {
    mines <= layout && safes !! layout && AllTrue(fs, layout)
  }

  /** The knowledge `(fs', safes', mines')` forgets nothing of `(fs, safes, mines)`: every layout
      the later knowledge agrees with, the earlier knowledge agrees with too. */
  ghost predicate LosesNothing(fs: seq<Fact>, safes: set<Cell>, mines: set<Cell>,
                               fs': seq<Fact>, safes': set<Cell>, mines': set<Cell>)
  {
    forall layout :: Consistent(fs', safes', mines', layout) ==> Consistent(fs, safes, mines, layout)
  }

  /** After the safe cell `cell` showed `count` mines among its neighbours `neighbours`, the
      knowledge `(fs', safes', mines')` agrees only with layouts that the knowledge before,
      `(fs, safes, mines)`, agrees with and in which `cell` is safe with `count` mines around. */
  ghost predicate Observed(fs: seq<Fact>, safes: set<Cell>, mines: set<Cell>,
                           fs': seq<Fact>, safes': set<Cell>, mines': set<Cell>,
                           cell: Cell, count: int, neighbours: set<Cell>)
  {
    forall layout :: Consistent(fs', safes', mines', layout) ==>
      Consistent(fs, safes, mines, layout) && cell !in layout && count == |neighbours * layout|
  }

  /** `fs'` is what the start of `add_knowledge` makes of the sentences `fs` on observing `count`
      mines around the safe cell `cell`: `cell` marked safe in each, then the sentence of the
      neighbours not yet known, with the count less the neighbours known to be mines. */
  ghost predicate AfterObservation(fs: seq<Fact>, safes: set<Cell>, mines: set<Cell>, fs': seq<Fact>,
                                   cell: Cell, count: int, neighbours: set<Cell>)
  {
    |fs'| == |fs| + 1 && SafesMarked(fs, fs'[..|fs|], {cell})
    && fs'[|fs|] == Fact(neighbours - (safes + {cell}) - mines, count - |neighbours * mines|)
  }

  /** Forgetting nothing, twice over, is forgetting nothing. */
  lemma LosesNothingTwice(fs: seq<Fact>, safes: set<Cell>, mines: set<Cell>,
                          fs': seq<Fact>, safes': set<Cell>, mines': set<Cell>,
                          fs'': seq<Fact>, safes'': set<Cell>, mines'': set<Cell>)
    requires LosesNothing(fs, safes, mines, fs', safes', mines')
    requires LosesNothing(fs', safes', mines', fs'', safes'', mines'')
    ensures LosesNothing(fs, safes, mines, fs'', safes'', mines'')
  {
    forall layout | Consistent(fs'', safes'', mines'', layout)
      ensures Consistent(fs, safes, mines, layout)
    {
      assert Consistent(fs', safes', mines', layout);
    }
  }

  /** What an observation pins down stays pinned down by knowledge that forgets nothing. */
  lemma ObservedThenLosesNothing(fs: seq<Fact>, safes: set<Cell>, mines: set<Cell>,
                                 fs': seq<Fact>, safes': set<Cell>, mines': set<Cell>,
                                 fs'': seq<Fact>, safes'': set<Cell>, mines'': set<Cell>,
                                 cell: Cell, count: int, neighbours: set<Cell>)
    requires Observed(fs, safes, mines, fs', safes', mines', cell, count, neighbours)
    requires LosesNothing(fs', safes', mines', fs'', safes'', mines'')
    ensures Observed(fs, safes, mines, fs'', safes'', mines'', cell, count, neighbours)
  {
    forall layout | Consistent(fs'', safes'', mines'', layout)
      ensures Consistent(fs, safes, mines, layout) && cell !in layout && count == |neighbours * layout|
    {
      assert Consistent(fs', safes', mines', layout);
    }
  }

  /** `fs` with the cells of `safe` marked safe and then those of `mine` marked as mines, in
      every sentence. */
  function MarkedFacts(fs: seq<Fact>, safe: set<Cell>, mine: set<Cell>): (r: seq<Fact>)
    ensures |r| == |fs|
  {
    seq(|fs|, k requires 0 <= k < |fs| => fs[k].WithoutSafes(safe).WithoutMines(mine))
  }

  /** Marking safe cells and then mines, one set after the other, is `MarkedFacts`. */
  lemma MarkedInTurn(fs: seq<Fact>, mid: seq<Fact>, after: seq<Fact>, safe: set<Cell>, mine: set<Cell>)
    requires SafesMarked(fs, mid, safe) && MinesMarked(mid, after, mine)
    ensures after == MarkedFacts(fs, safe, mine)
  {
    SamePointwise(after, MarkedFacts(fs, safe, mine));
  }

  /** Marking cells as safe and as mines, while adding them to the known safe cells and mines,
      forgets nothing: a sentence so marked is true of a layout the new known cells agree with
      exactly when the sentence was. */
  lemma MarkingLosesNothing(fs: seq<Fact>, safes: set<Cell>, mines: set<Cell>, safe: set<Cell>, mine: set<Cell>)
    ensures LosesNothing(fs, safes, mines, MarkedFacts(fs, safe, mine), safes + safe, mines + mine)
  {
    var after := MarkedFacts(fs, safe, mine);
    forall layout | Consistent(after, safes + safe, mines + mine, layout)
      ensures Consistent(fs, safes, mines, layout)
    {
      forall k | 0 <= k < |fs|
        ensures TrueOf(fs[k], layout)
      {
        assert TrueOf(after[k], layout);
        MarkingSafesKeepsTruth(fs[k], safe, layout);
        MarkingMinesKeepsTruth(fs[k].WithoutSafes(safe), mine, layout);
      }
    }
  }

  /** Appending sentences forgets nothing: the earlier ones are still there. */
  lemma GrowthLosesNothing(fs: seq<Fact>, after: seq<Fact>, safes: set<Cell>, mines: set<Cell>)
    requires fs <= after
    ensures LosesNothing(fs, safes, mines, after, safes, mines)
  {
    forall layout | Consistent(after, safes, mines, layout)
      ensures Consistent(fs, safes, mines, layout)
    {
      forall k | 0 <= k < |fs|
        ensures TrueOf(fs[k], layout)
      {
        assert after[k] == fs[k];
      }
    }
  }

  /** Dropping the sentences without cells from sentences true of some layout forgets nothing:
      such a sentence then has count 0, which every layout satisfies. */
  lemma DroppingLosesNothing(fs: seq<Fact>, safes: set<Cell>, mines: set<Cell>, truth: set<Cell>)
    requires AllTrue(fs, truth)
    ensures LosesNothing(fs, safes, mines, WithCells(fs), safes, mines)
  {
    var r := WithCells(fs);
    forall layout | Consistent(r, safes, mines, layout)
      ensures Consistent(fs, safes, mines, layout)
    {
      forall k | 0 <= k < |fs|
        ensures TrueOf(fs[k], layout)
      {
        if fs[k].cells == {} {
          assert fs[k].cells * truth == {} && fs[k].cells * layout == {};
        } else {
          assert fs[k] in r;
          var j :| 0 <= j < |r| && r[j] == fs[k];
          assert TrueOf(r[j], layout);
        }
      }
    }
  }

  /** The sentences a step of `add_knowledge` gives after its observation of `cell`: the old ones
      with `cell` marked safe, then the sentence of the observation. They and the known cells,
      now with `cell` safe, agree only with layouts the old knowledge agrees with and in which
      `cell` is safe with `count` mines around. */
  lemma ObservationLosesNothing(fs: seq<Fact>, mid: seq<Fact>, safes: set<Cell>, mines: set<Cell>,
                                cell: Cell, count: int, neighbours: set<Cell>)
    requires SafesMarked(fs, mid, {cell})
    ensures Observed(fs, safes, mines,
                     mid + [Fact(neighbours - (safes + {cell}) - mines, count - |neighbours * mines|)], safes + {cell}, mines,
                     cell, count, neighbours)
  {
    var f := Fact(neighbours - (safes + {cell}) - mines, count - |neighbours * mines|);
    var after := mid + [f];
    forall layout | Consistent(after, safes + {cell}, mines, layout)
      ensures Consistent(fs, safes, mines, layout) && cell !in layout && count == |neighbours * layout|
    {
      assert TrueOf(after[|mid|], layout);
      ObservationIsTrue(neighbours, count, safes + {cell}, mines, layout);
      forall k | 0 <= k < |fs|
        ensures TrueOf(fs[k], layout)
      {
        assert TrueOf(after[k], layout);
        MarkingSafesKeepsTruth(fs[k], {cell}, layout);
      }
    }
  }

  /** `after` is what one pass of `add_knowledge` makes of the sentences `before`, through
      `grown`: what `before` reveals is marked, safe cells first; the subset rule appends
      consequences, giving `grown`; and the sentences without cells are dropped. */
  ghost predicate PassWith(before: seq<Fact>, grown: seq<Fact>, after: seq<Fact>)
  {
    Grows(MarkedFacts(before, RevealedSafes(before), RevealedMines(before)), grown) && after == WithCells(grown)
  }

  /** A pass from `before` whose subset rule left `grown` changed something, the condition
      under which Python's loop goes on: some sentence revealed a cell, or a sentence was
      appended. */
  ghost predicate Changed(before: seq<Fact>, grown: seq<Fact>)
  {
    !Quiet(before) || |before| < |grown|
  }

  /** A run of passes: `states[n]` are the sentences before pass n and `states[n + 1]` those
      after it, `grown[n]` those its subset rule left. */
  ghost predicate Trace(states: seq<seq<Fact>>, grown: seq<seq<Fact>>)
  {
    |states| == |grown| + 1 && forall n :: 0 <= n < |grown| ==> PassWith(states[n], grown[n], states[n + 1])
  }

  /** Every pass of the run completed its subset rule and changed something, so the loop went on. */
  ghost predicate Busy(states: seq<seq<Fact>>, grown: seq<seq<Fact>>)
  {
    |grown| <= |states| && forall n :: 0 <= n < |grown| ==> Closed(grown[n]) && Changed(states[n], grown[n])
  }

  /** The fuel a run of passes spends: one unit per pass and one per sentence its subset rule
      appends. */
  ghost function Spent(states: seq<seq<Fact>>, grown: seq<seq<Fact>>): int
    requires |grown| <= |states|
    decreases |grown|
  {
    if grown == [] then 0
    else
      var n := |grown| - 1;
      Spent(states, grown[..n]) + 1 + |grown[n]| - |states[n]|
  }

  /** The fuel spent depends only on the states the passes started from. */
  lemma {:induction false} SpentPrefix(states: seq<seq<Fact>>, more: seq<seq<Fact>>, grown: seq<seq<Fact>>)
    requires |grown| <= |states|
    ensures Spent(states + more, grown) == Spent(states, grown)
    decreases |grown|
  {
    if grown != [] {
      var n := |grown| - 1;
      SpentPrefix(states, more, grown[..n]);
      assert (states + more)[n] == states[n];
    }
  }

  /** The safe cells the first `n` passes of a run reveal: the loop marks each of them safe. */
  ghost function SafesAlong(states: seq<seq<Fact>>, n: nat): set<Cell>
    requires n <= |states|
  {
    if n == 0 then {} else SafesAlong(states, n - 1) + RevealedSafes(states[n - 1])
  }

  /** The mines the first `n` passes of a run reveal: the loop marks each of them a mine. */
  ghost function MinesAlong(states: seq<seq<Fact>>, n: nat): set<Cell>
    requires n <= |states|
  {
    if n == 0 then {} else MinesAlong(states, n - 1) + RevealedMines(states[n - 1])
  }

  /** What the first `n` passes reveal depends only on the states they started from. */
  lemma {:induction false} AlongPrefix(states: seq<seq<Fact>>, more: seq<seq<Fact>>, n: nat)
    requires n <= |states|
    ensures SafesAlong(states + more, n) == SafesAlong(states, n)
    ensures MinesAlong(states + more, n) == MinesAlong(states, n)
  {
    if n > 0 {
      AlongPrefix(states, more, n - 1);
      assert (states + more)[n - 1] == states[n - 1];
    }
  }

  /** One more pass adds what the state it started from reveals. */
  lemma AlongExtends(states: seq<seq<Fact>>, n: nat, after: seq<Fact>)
    requires n < |states|
    ensures SafesAlong(states + [after], n + 1) == SafesAlong(states, n) + RevealedSafes(states[n])
    ensures MinesAlong(states + [after], n + 1) == MinesAlong(states, n) + RevealedMines(states[n])
  {
    AlongPrefix(states, [after], n);
    assert (states + [after])[n] == states[n];
  }

  /** One more pass extends the run: the trace, its spending, and the passes that went on. */
  lemma TraceExtends(states: seq<seq<Fact>>, grown: seq<seq<Fact>>, g: seq<Fact>, after: seq<Fact>)
    requires Trace(states, grown) && PassWith(states[|grown|], g, after)
    ensures Trace(states + [after], grown + [g])
    ensures Spent(states + [after], grown + [g]) == Spent(states, grown) + 1 + |g| - |states[|grown|]|
    ensures Busy(states, grown) ==> Busy(states + [after], grown)
    ensures Busy(states, grown) && Closed(g) && Changed(states[|grown|], g) ==> Busy(states + [after], grown + [g])
  {
    var states', grown' := states + [after], grown + [g];
    forall n | 0 <= n < |grown'|
      ensures PassWith(states'[n], grown'[n], states'[n + 1])
    {
      if n < |grown| {
        assert states'[n] == states[n] && states'[n + 1] == states[n + 1] && grown'[n] == grown[n];
      } else {
        assert states'[n] == states[|grown|] && states'[n + 1] == after && grown'[n] == g;
      }
    }
    assert grown'[..|grown|] == grown;
    SpentPrefix(states, [after], grown);
  }

  /** A pass over sentences true of some layout forgets nothing. */
  lemma PassLosesNothing(fs: seq<Fact>, safes: set<Cell>, mines: set<Cell>, grown: seq<Fact>, truth: set<Cell>)
    requires Grows(MarkedFacts(fs, RevealedSafes(fs), RevealedMines(fs)), grown) && AllTrue(grown, truth)
    ensures LosesNothing(fs, safes, mines, WithCells(grown), safes + RevealedSafes(fs), mines + RevealedMines(fs))
  {
    var safe, mine := RevealedSafes(fs), RevealedMines(fs);
    var marked := MarkedFacts(fs, safe, mine);
    MarkingLosesNothing(fs, safes, mines, safe, mine);
    GrowthLosesNothing(marked, grown, safes + safe, mines + mine);
    DroppingLosesNothing(grown, safes + safe, mines + mine, truth);
    LosesNothingTwice(fs, safes, mines, marked, safes + safe, mines + mine, grown, safes + safe, mines + mine);
    LosesNothingTwice(fs, safes, mines, grown, safes + safe, mines + mine, WithCells(grown), safes + safe, mines + mine);
  }

  /** Marking a mine keeps the sentences reduced by the known cells, now with the mine. */
  lemma MarkedMineTidy(fs: seq<Fact>, after: seq<Fact>, safes: set<Cell>, mines: set<Cell>, cell: Cell)
    requires MinesMarked(fs, after, {cell})
    ensures Reduced(fs, safes + mines) ==> Reduced(after, safes + (mines + {cell}))
  {
    MarkedMinesKeep(fs, after, {cell}, safes + mines, {});
    assert safes + mines + {cell} == safes + (mines + {cell});
  }

  /** Marking a safe cell keeps the sentences reduced by the known cells, now with that cell. */
  lemma MarkedSafeTidy(fs: seq<Fact>, after: seq<Fact>, safes: set<Cell>, mines: set<Cell>, cell: Cell)
    requires SafesMarked(fs, after, {cell})
    ensures Reduced(fs, safes + mines) ==> Reduced(after, (safes + {cell}) + mines)
  {
    MarkedSafesKeep(fs, after, {cell}, safes + mines, {});
    assert safes + mines + {cell} == (safes + {cell}) + mines;
  }

  class MinesweeperAI {
    const height: nat
    const width: nat
    var movesMade: set<Cell>
    var mines: set<Cell>
    var safes: set<Cell>
    var knowledge: seq<Sentence>

    /** No sentence still holds a cell already known to be safe or a mine. */
    ghost predicate Tidy()
      reads this, knowledge
    {
      Reduced(Facts(knowledge), safes + mines)
    }

    /** What every operation keeps: each move made is known to be safe, and the sentences are tidy. */
    ghost predicate Valid()
      reads this, knowledge
    {
      movesMade <= safes && Tidy()
    }

    /** The engine's knowledge is correct for the mine layout `truth`. */
    ghost predicate Agrees(truth: set<Cell>)
      reads this, knowledge
    {
      Consistent(Facts(knowledge), safes, mines, truth)
    }

    /** `__init__`: nothing known yet. */
    constructor (height: nat, width: nat)
      ensures Valid()
      ensures this.height == height && this.width == width
      ensures movesMade == {} && mines == {} && safes == {} && knowledge == []
    {
      this.height := height;
      this.width := width;
      movesMade := {};
      mines := {};
      safes := {};
      knowledge := [];
    }

    /** `mark_mine`: the cell joins the mines and every sentence marks it. A sentence listed
        twice would be marked twice, which changes nothing the second time. */
    method MarkMine(cell: Cell)
      modifies this, knowledge
      ensures mines == old(mines) + {cell}
      ensures safes == old(safes) && movesMade == old(movesMade) && knowledge == old(knowledge)
      ensures MinesMarked(old(Facts(knowledge)), Facts(knowledge), {cell})
      ensures old(Valid()) ==> Valid()
    {
      ghost var fs := Facts(knowledge);
      mines := mines + {cell};
      MarkMineInEach(knowledge, cell);
      forall k | 0 <= k < |knowledge|
        ensures Facts(knowledge)[k] == fs[k].WithoutMines({cell})
      {
        MarkingOneMine(fs[k], cell);
      }
      MarkedMineTidy(fs, Facts(knowledge), safes, old(mines), cell);
    }

    /** `mark_safe`: the cell joins the safe cells and every sentence marks it. */
    method MarkSafe(cell: Cell)
      modifies this, knowledge
      ensures safes == old(safes) + {cell}
      ensures mines == old(mines) && movesMade == old(movesMade) && knowledge == old(knowledge)
      ensures SafesMarked(old(Facts(knowledge)), Facts(knowledge), {cell})
      ensures old(Valid()) ==> Valid()
    {
      ghost var fs := Facts(knowledge);
      safes := safes + {cell};
      MarkSafeInEach(knowledge, cell);
      MarkedSafeTidy(fs, Facts(knowledge), old(safes), mines, cell);
    }

    /** The neighbours of `cell`, collected by the loop over the 3x3 window around it. */
    method NeighbourCells(cell: Cell) returns (neighbours: set<Cell>)
      ensures neighbours == Neighbours(cell, height, width)
    {
      neighbours := {};
      for i := cell.0 - 1 to cell.0 + 2
        invariant forall c :: c in neighbours <==> IsNeighbour(cell, c, height, width) && c.0 < i
      {
        for j := cell.1 - 1 to cell.1 + 2
          invariant forall c :: c in neighbours <==> IsNeighbour(cell, c, height, width) && Before(c, i, j)
        {
          SeenOneMore(cell, height, width, neighbours, i, j);
          if (i, j) != cell && 0 <= i < height && 0 <= j < width {
            neighbours := neighbours + {(i, j)};
          }
        }
      }
      NeighboursMembers(cell, height, width);
    }

    /** `self.knowledge.append(Sentence(...))` for a sentence saying `f`. */
    method Append(f: Fact) returns (s: Sentence)
      modifies this
      ensures fresh(s) && knowledge == old(knowledge) + [s] && s.Value() == f
      ensures Facts(knowledge) == old(Facts(knowledge)) + [f]
      ensures safes == old(safes) && mines == old(mines) && movesMade == old(movesMade)
    {
      s := new Sentence(f.cells, f.count);
      ghost var before := knowledge;
      knowledge := knowledge + [s];
      assert knowledge[..|before|] == before;
    }

    /** The sentence an observation adds: the neighbours not yet known safe or mine, with the
        observed count less the neighbours already known to be mines. */
    method RecordObservation(cell: Cell, count: int) returns (s0: Sentence)
      modifies this
      ensures fresh(s0) && knowledge == old(knowledge) + [s0]
      ensures s0.Value() == Fact(Neighbours(cell, height, width) - safes - mines, count - |Neighbours(cell, height, width) * mines|)
      ensures Facts(knowledge) == old(Facts(knowledge)) +
        [Fact(Neighbours(cell, height, width) - safes - mines, count - |Neighbours(cell, height, width) * mines|)]
      ensures safes == old(safes) && mines == old(mines) && movesMade == old(movesMade)
    {
      var neighbours := NeighbourCells(cell);
      var known := neighbours * mines;
      var unknown := neighbours - safes - mines;
      s0 := Append(Fact(unknown, count - |known|));
    }

    /** The loop collecting what the sentences reveal: the union of their known safes and the
        union of their known mines. */
    method CollectKnown() returns (newSafes: set<Cell>, newMines: set<Cell>)
      ensures newSafes == RevealedSafes(Facts(knowledge)) && newMines == RevealedMines(Facts(knowledge))
    {
      ghost var fs := Facts(knowledge);
      newSafes, newMines := {}, {};
      for n := 0 to |knowledge|
        invariant newSafes == RevealedSafes(fs[..n]) && newMines == RevealedMines(fs[..n])
      {
        assert fs[..n + 1][..n] == fs[..n];
        newSafes := newSafes + knowledge[n].Value().KnownSafes();
        newMines := newMines + knowledge[n].Value().KnownMines();
      }
      assert fs[..|knowledge|] == fs;
    }

    /** `for c in new_safes: self.mark_safe(c)`, in whatever order the set is iterated. */
    method MarkAllSafe(cells: set<Cell>)
      modifies this, knowledge
      ensures safes == old(safes) + cells
      ensures mines == old(mines) && movesMade == old(movesMade) && knowledge == old(knowledge)
      ensures SafesMarked(old(Facts(knowledge)), Facts(knowledge), cells)
    {
      ghost var fs := Facts(knowledge);
      NothingMarked(fs);
      var todo := cells;
      assert cells - todo == {};
      while todo != {}
        invariant todo <= cells
        invariant safes == old(safes) + (cells - todo)
        invariant mines == old(mines) && movesMade == old(movesMade) && knowledge == old(knowledge)
        invariant SafesMarked(fs, Facts(knowledge), cells - todo)
        decreases todo
      {
        var c :| c in todo;
        ghost var mid := Facts(knowledge);
        MarkSafe(c);
        TakeOne(old(safes), cells, todo, c);
        SafesMarkedStep(fs, mid, Facts(knowledge), cells - todo, c);
        todo := todo - {c};
      }
    }

    /** `for c in new_mines: self.mark_mine(c)`: each sentence loses the mines it held and as
        many from its count. */
    method MarkAllMines(cells: set<Cell>)
      modifies this, knowledge
      ensures mines == old(mines) + cells
      ensures safes == old(safes) && movesMade == old(movesMade) && knowledge == old(knowledge)
      ensures MinesMarked(old(Facts(knowledge)), Facts(knowledge), cells)
    {
      ghost var fs := Facts(knowledge);
      NothingMarked(fs);
      var todo := cells;
      assert cells - todo == {};
      while todo != {}
        invariant todo <= cells
        invariant mines == old(mines) + (cells - todo)
        invariant safes == old(safes) && movesMade == old(movesMade) && knowledge == old(knowledge)
        invariant MinesMarked(fs, Facts(knowledge), cells - todo)
        decreases todo
      {
        var c :| c in todo;
        ghost var mid := Facts(knowledge);
        MarkMine(c);
        TakeOne(old(mines), cells, todo, c);
        MinesMarkedStep(fs, mid, Facts(knowledge), cells - todo, c);
        todo := todo - {c};
      }
    }

    /** The first half of a pass of `add_knowledge`: collect what the sentences reveal and mark
        it, safe cells first. `delta` says whether anything was revealed. */
    method MarkRevealed(ghost truth: set<Cell>) returns (delta: bool)
      requires Valid()
      modifies this, knowledge
      ensures Valid()
      ensures movesMade == old(movesMade) && knowledge == old(knowledge)
      ensures safes == old(safes) + RevealedSafes(old(Facts(knowledge)))
      ensures mines == old(mines) + RevealedMines(old(Facts(knowledge)))
      ensures delta <==> !Quiet(old(Facts(knowledge)))
      ensures Facts(knowledge) == MarkedFacts(old(Facts(knowledge)), RevealedSafes(old(Facts(knowledge))), RevealedMines(old(Facts(knowledge))))
      ensures !delta ==> Facts(knowledge) == old(Facts(knowledge))
      ensures old(Agrees(truth)) ==> Agrees(truth)
    {
      ghost var fs := Facts(knowledge);
      var newSafes, newMines := CollectKnown();
      assert newSafes == RevealedSafes(fs) && newMines == RevealedMines(fs);
      delta := newSafes != {} || newMines != {};
      RevealedIffNotQuiet(fs);
      MarkAllSafe(newSafes);
      ghost var mid := Facts(knowledge);
      MarkAllMines(newMines);
      MarkingRevealedKeeps(fs, mid, Facts(knowledge), old(safes), old(mines), truth);
      MarkedInTurn(fs, mid, Facts(knowledge), newSafes, newMines);
    }

    /** One step of the subset rule for sentence j lying within sentence i: the difference is
        appended when it has cells and no equal sentence is known, if the budget allows. */
    method Derive(i: int, j: int, budget: nat) returns (exhausted: bool, left: nat)
      requires 0 <= i < |knowledge| && 0 <= j < |knowledge|
      requires knowledge[j].cells <= knowledge[i].cells
      modifies this
      ensures safes == old(safes) && mines == old(mines) && movesMade == old(movesMade)
      ensures old(knowledge) <= knowledge && forall k :: |old(knowledge)| <= k < |knowledge| ==> fresh(knowledge[k])
      ensures Grows(old(Facts(knowledge)), Facts(knowledge))
      ensures left + |knowledge| == budget + |old(knowledge)|
      ensures exhausted ==> left == 0
      ensures !exhausted ==> SubsetDone(Facts(knowledge), old(Facts(knowledge))[i], old(Facts(knowledge))[j])
      ensures var d := old(Facts(knowledge))[i].Minus(old(Facts(knowledge))[j]);
              var isNew := d.cells != {} && d !in old(Facts(knowledge));
              (exhausted <==> isNew && budget == 0) &&
              Facts(knowledge) == if isNew && budget > 0 then old(Facts(knowledge)) + [d] else old(Facts(knowledge))
      ensures exhausted ==> knowledge == old(knowledge)
    {
      ghost var fs := Facts(knowledge);
      exhausted, left := false, budget;
      var s3 := knowledge[i].Value().Minus(knowledge[j].Value());
      if s3.cells != {} && s3 !in Facts(knowledge) {
        if budget == 0 {
          exhausted := true;
          return;
        }
        var s := Append(s3);
        left := budget - 1;
        assert Derived(Facts(knowledge), |fs|) by {
          assert Facts(knowledge)[..|fs|] == fs;
          assert Facts(knowledge)[i] == fs[i] && Facts(knowledge)[j] == fs[j];
        }
      }
    }

    /** The body of the inner loop of the subset rule, for `s1` at position i and `s2` at
        position j. Python skips `s1 is s2`; the difference of a sentence and itself has no
        cells, so the skip changes nothing. */
    method VisitPair(i: int, j: int, budget: nat) returns (exhausted: bool, left: nat)
      requires 0 <= i < |knowledge| && 0 <= j < |knowledge|
      modifies this
      ensures safes == old(safes) && mines == old(mines) && movesMade == old(movesMade)
      ensures old(knowledge) <= knowledge && forall k :: |old(knowledge)| <= k < |knowledge| ==> fresh(knowledge[k])
      ensures Grows(old(Facts(knowledge)), Facts(knowledge))
      ensures left + |knowledge| == budget + |old(knowledge)|
      ensures exhausted ==> left == 0
      ensures !exhausted ==> PairDone(Facts(knowledge), i, j)
      ensures exhausted ==> budget == 0 && knowledge == old(knowledge)
      ensures Facts(knowledge) == old(Facts(knowledge))
           || Facts(knowledge) == old(Facts(knowledge)) + [old(Facts(knowledge))[i].Minus(old(Facts(knowledge))[j])]
           || Facts(knowledge) == old(Facts(knowledge)) + [old(Facts(knowledge))[j].Minus(old(Facts(knowledge))[i])]
    {
      var s1, s2 := knowledge[i], knowledge[j];
      exhausted, left := false, budget;
      if s1 == s2 {
      } else if s2.cells <= s1.cells {
        exhausted, left := Derive(i, j, left);
      } else if s1.cells <= s2.cells {
        exhausted, left := Derive(j, i, left);
      }
    }

    /** One pass of the inner loop of the subset rule, over the growing knowledge base, for the
        sentence at position i. */
    method VisitRow(i: int, budget: nat) returns (exhausted: bool, left: nat)
      requires 0 <= i < |knowledge| && RowsDone(Facts(knowledge), i)
      modifies this
      ensures safes == old(safes) && mines == old(mines) && movesMade == old(movesMade)
      ensures old(knowledge) <= knowledge && forall k :: |old(knowledge)| <= k < |knowledge| ==> fresh(knowledge[k])
      ensures Grows(old(Facts(knowledge)), Facts(knowledge))
      ensures left + |knowledge| == budget + |old(knowledge)|
      ensures exhausted ==> left == 0
      ensures RowsDone(Facts(knowledge), i)
      ensures !exhausted ==> RowDone(Facts(knowledge), i, |knowledge|)
    {
      ghost var fs0 := Facts(knowledge);
      exhausted, left := false, budget;
      var j := 0;
      while j < |knowledge|
        invariant 0 <= j <= |knowledge| && |old(knowledge)| <= |knowledge|
        invariant safes == old(safes) && mines == old(mines) && movesMade == old(movesMade)
        invariant old(knowledge) <= knowledge && forall k :: |old(knowledge)| <= k < |knowledge| ==> fresh(knowledge[k])
        invariant Grows(fs0, Facts(knowledge))
        invariant left + |knowledge| == budget + |old(knowledge)|
        invariant RowsDone(Facts(knowledge), i) && RowDone(Facts(knowledge), i, j)
        decreases left, |knowledge| - j
      {
        ghost var fs := Facts(knowledge);
        exhausted, left := VisitPair(i, j, left);
        assert Grows(fs0, Facts(knowledge)) && RowsDone(Facts(knowledge), i) && RowDone(Facts(knowledge), i, j) by {
          GrowsTwice(fs0, fs, Facts(knowledge));
          RowsGrow(fs, Facts(knowledge), i);
          RowGrows(fs, Facts(knowledge), i, j);
        }
        if exhausted {
          return;
        }
        j := j + 1;
      }
    }

    /** The nested loops of the subset rule over the growing knowledge base (`for s1 in ...: for
        s2 in ...`); they stop early only when the budget runs out. */
    method SubsetRule(budget: nat) returns (appended: bool, complete: bool, left: nat)
      modifies this
      ensures safes == old(safes) && mines == old(mines) && movesMade == old(movesMade)
      ensures old(knowledge) <= knowledge && forall k :: |old(knowledge)| <= k < |knowledge| ==> fresh(knowledge[k])
      ensures Grows(old(Facts(knowledge)), Facts(knowledge))
      ensures appended <==> |old(knowledge)| < |knowledge|
      ensures left + |knowledge| == budget + |old(knowledge)|
      ensures complete ==> Closed(Facts(knowledge))
      ensures !complete ==> left == 0
    {
      ghost var fs0 := Facts(knowledge);
      var start := |knowledge|;
      complete, left := true, budget;
      var i := 0;
      while i < |knowledge|
        invariant 0 <= i <= |knowledge| && start == |old(knowledge)| <= |knowledge|
        invariant safes == old(safes) && mines == old(mines) && movesMade == old(movesMade)
        invariant old(knowledge) <= knowledge && forall k :: start <= k < |knowledge| ==> fresh(knowledge[k])
        invariant Grows(fs0, Facts(knowledge))
        invariant left + |knowledge| == budget + start
        invariant RowsDone(Facts(knowledge), i)
        decreases left, |knowledge| - i
      {
        ghost var fs := Facts(knowledge);
        var exhausted;
        exhausted, left := VisitRow(i, left);
        GrowsTwice(fs0, fs, Facts(knowledge));
        if exhausted {
          complete := false;
          appended := start < |knowledge|;
          return;
        }
        RowsExtend(Facts(knowledge), i);
        i := i + 1;
      }
      appended := start < |knowledge|;
      AllRowsClose(Facts(knowledge));
    }

    /** `self.moves_made.add(cell)` and `self.mark_safe(cell)`: the cell played is a move made
        and known to be safe. */
    method RecordMove(cell: Cell, ghost truth: set<Cell>)
      requires Valid()
      modifies this, knowledge
      ensures Valid()
      ensures movesMade == old(movesMade) + {cell} && safes == old(safes) + {cell} && mines == old(mines)
      ensures knowledge == old(knowledge)
      ensures SafesMarked(old(Facts(knowledge)), Facts(knowledge), {cell})
      ensures old(Agrees(truth)) && cell !in truth ==> Agrees(truth)
    {
      ghost var fs := Facts(knowledge);
      movesMade := movesMade + {cell};
      MarkSafe(cell);
      MarkedSafesKeep(fs, Facts(knowledge), {cell}, old(safes) + old(mines), truth);
      assert Tidy() by {
        Regroup(old(safes), old(mines), {cell}, {});
        assert old(safes) + old(mines) + {cell} + {} == old(safes) + old(mines) + {cell};
      }
    }

    /** The start of `add_knowledge`: the move is recorded, its cell marked safe, and the
        sentence the observation gives is added. */
    method Observe(cell: Cell, count: int, ghost truth: set<Cell>)
      requires Valid()
      modifies this, knowledge
      ensures Valid()
      ensures movesMade == old(movesMade) + {cell} && safes == old(safes) + {cell} && mines == old(mines)
      ensures |knowledge| == |old(knowledge)| + 1 && knowledge[..|old(knowledge)|] == old(knowledge)
      ensures fresh(knowledge[|old(knowledge)|])
      ensures knowledge[|old(knowledge)|].Value() ==
        Fact(Neighbours(cell, height, width) - safes - mines, count - |Neighbours(cell, height, width) * mines|)
      ensures SafesMarked(old(Facts(knowledge)), Facts(knowledge)[..|old(knowledge)|], {cell})
      ensures old(Agrees(truth)) && cell !in truth && count == |Neighbours(cell, height, width) * truth| ==> Agrees(truth)
      ensures Observed(old(Facts(knowledge)), old(safes), old(mines), Facts(knowledge), safes, mines,
                       cell, count, Neighbours(cell, height, width))
      ensures AfterObservation(old(Facts(knowledge)), old(safes), old(mines), Facts(knowledge),
                               cell, count, Neighbours(cell, height, width))
    {
      ghost var sound := Agrees(truth) && cell !in truth && count == |Neighbours(cell, height, width) * truth|;
      ghost var fs0, safes0 := Facts(knowledge), safes;
      RecordMove(cell, truth);
      ghost var fs := Facts(knowledge);
      ghost var before := knowledge;
      var s0 := RecordObservation(cell, count);
      assert knowledge[|before|] == s0;
      ghost var f := s0.Value();
      if sound {
        ObservationIsTrue(Neighbours(cell, height, width), count, safes, mines, truth);
      }
      AppendKeeps(fs, f, truth, safes + mines);
      assert Facts(knowledge)[..|before|] == fs;
      ObservationLosesNothing(fs0, fs, safes0, mines, cell, count, Neighbours(cell, height, width));
    }

    /** The subset rule, as a step of `add_knowledge`: the sentences it appends are consequences
        of the earlier ones, so the engine stays valid and sound. */
    method ApplySubsetRule(budget: nat, ghost truth: set<Cell>) returns (appended: bool, complete: bool, left: nat)
      requires Valid()
      modifies this
      ensures Valid()
      ensures safes == old(safes) && mines == old(mines) && movesMade == old(movesMade)
      ensures forall s :: s in knowledge ==> s in old(knowledge) || fresh(s)
      ensures Grows(old(Facts(knowledge)), Facts(knowledge))
      ensures appended <==> |old(knowledge)| < |knowledge|
      ensures !appended ==> Facts(knowledge) == old(Facts(knowledge))
      ensures left + |knowledge| == budget + |old(knowledge)|
      ensures complete ==> Closed(Facts(knowledge))
      ensures !complete ==> left == 0
      ensures old(Agrees(truth)) ==> Agrees(truth)
    {
      ghost var before := Facts(knowledge);
      appended, complete, left := SubsetRule(budget);
      ghost var grown := Facts(knowledge);
      GrowthKeeps(before, grown, truth, safes + mines);
      if !appended {
        PrefixOfSameLength(before, grown);
      }
      forall s | s in knowledge
        ensures s in old(knowledge) || fresh(s)
      {
        var k :| 0 <= k < |knowledge| && knowledge[k] == s;
        if k < |old(knowledge)| {
          assert old(knowledge)[k] == s;
        }
      }
    }

    /** `self.knowledge = [s for s in self.knowledge if s.cells]`. */
    method DropEmpty(ghost truth: set<Cell>)
      requires Valid()
      modifies this
      ensures Valid()
      ensures safes == old(safes) && mines == old(mines) && movesMade == old(movesMade)
      ensures forall s :: s in knowledge ==> s in old(knowledge)
      ensures Facts(knowledge) == WithCells(old(Facts(knowledge)))
      ensures old(Closed(Facts(knowledge))) ==> Closed(Facts(knowledge))
      ensures old(Closed(Facts(knowledge)) && Quiet(Facts(knowledge))) ==> Settled(Facts(knowledge))
      ensures old(Agrees(truth)) ==> Agrees(truth)
    {
      ghost var fs := Facts(knowledge);
      ghost var r := WithCells(fs);
      var kept := NonEmpty(knowledge);
      NonEmptyFacts(knowledge);
      WithCellsKeeps(fs, truth, safes + mines);
      if Closed(fs) && Quiet(fs) {
        WithCellsSettles(fs);
      }
      knowledge := kept;
      assert Facts(knowledge) == r;
    }

    /** One pass of the loop of `add_knowledge`: mark what the sentences reveal, apply the subset
        rule, and drop the sentences without cells. `grown` is what the subset rule left. `changed`
        is false when the pass neither revealed nor appended anything, the condition that ends
        Python's loop; `complete` is false only when the subset rule spent the whole budget. */
    method Pass(budget: nat, ghost truth: set<Cell>) returns (complete: bool, changed: bool, left: nat, ghost grown: seq<Fact>)
      requires Valid()
      modifies this, knowledge
      ensures Valid()
      ensures movesMade == old(movesMade)
      ensures safes == old(safes) + RevealedSafes(old(Facts(knowledge)))
      ensures mines == old(mines) + RevealedMines(old(Facts(knowledge)))
      ensures PassWith(old(Facts(knowledge)), grown, Facts(knowledge))
      ensures forall s :: s in knowledge ==> s in old(knowledge) || fresh(s)
      ensures left <= budget && left + |grown| == budget + |old(knowledge)|
      ensures changed <==> Changed(old(Facts(knowledge)), grown)
      ensures complete ==> Closed(grown) && Closed(Facts(knowledge))
      ensures !complete ==> left == 0
      ensures complete && !changed ==> Settled(Facts(knowledge))
      ensures old(Agrees(truth)) ==> Agrees(truth)
      ensures old(Agrees(truth)) ==> LosesNothing(old(Facts(knowledge)), old(safes), old(mines), Facts(knowledge), safes, mines)
    {
      ghost var fs0, agreed := Facts(knowledge), Agrees(truth);
      var delta := MarkRevealed(truth);
      var appended;
      appended, complete, left := ApplySubsetRule(budget, truth);
      grown := Facts(knowledge);
      changed := delta || appended;
      DropEmpty(truth);
      assert Facts(knowledge) == WithCells(grown);
      if agreed {
        PassLosesNothing(fs0, old(safes), old(mines), grown, truth);
      }
    }

    /** One round of the loop of `add_knowledge`: a pass, spending one unit of `budget` and one
        per sentence appended, recorded at the end of the run `states`, `grown`. */
    method Round(budget: nat, ghost truth: set<Cell>, ghost states: seq<seq<Fact>>, ghost grown: seq<seq<Fact>>)
      returns (complete: bool, changed: bool, left: nat, ghost states': seq<seq<Fact>>, ghost grown': seq<seq<Fact>>)
      requires Valid() && budget > 0
      requires Trace(states, grown) && states[|grown|] == Facts(knowledge)
      modifies this, knowledge
      ensures Valid()
      ensures movesMade == old(movesMade)
      ensures safes == old(safes) + RevealedSafes(states[|grown|]) && mines == old(mines) + RevealedMines(states[|grown|])
      ensures forall s :: s in knowledge ==> s in old(knowledge) || fresh(s)
      ensures Trace(states', grown') && states'[0] == states[0] && states'[|grown'|] == Facts(knowledge)
      ensures |grown'| == |grown| + 1 && grown'[..|grown|] == grown
      ensures SafesAlong(states', |grown'|) == SafesAlong(states, |grown|) + RevealedSafes(states[|grown|])
      ensures MinesAlong(states', |grown'|) == MinesAlong(states, |grown|) + RevealedMines(states[|grown|])
      ensures left < budget && left + Spent(states', grown') == budget + Spent(states, grown)
      ensures Busy(states, grown) ==> Busy(states', grown)
      ensures Busy(states, grown) && complete && changed ==> Busy(states', grown')
      ensures complete ==> Closed(grown'[|grown|])
      ensures changed <==> Changed(states'[|grown|], grown'[|grown|])
      ensures !complete ==> left == 0
      ensures complete && !changed ==> Settled(Facts(knowledge))
      ensures old(Agrees(truth)) ==> Agrees(truth)
      ensures old(Agrees(truth)) ==> LosesNothing(old(Facts(knowledge)), old(safes), old(mines), Facts(knowledge), safes, mines)
    {
      ghost var g;
      complete, changed, left, g := Pass(budget - 1, truth);
      ghost var after := Facts(knowledge);
      TraceExtends(states, grown, g, after);
      AlongExtends(states, |grown|, after);
      states', grown' := states + [after], grown + [g];
      assert grown'[..|grown|] == grown && grown'[|grown|] == g;
      assert states'[0] == states[0] && states'[|grown|] == states[|grown|];
    }

    /** The loop of `add_knowledge`: passes until one changes nothing. Python repeats without
        bound; here `fuel` bounds the passes and the sentences the subset rule appends. `states`
        and `grown` record the passes: every pass but the last completed and changed something;
        `settled` is true when the last one completed and changed nothing, and false only when
        the passes spent all of `fuel`. */
    method Settle(fuel: nat, ghost truth: set<Cell>) returns (settled: bool, ghost states: seq<seq<Fact>>, ghost grown: seq<seq<Fact>>)
      requires Valid()
      modifies this, knowledge
      ensures Valid()
      ensures movesMade == old(movesMade)
      ensures fresh((set s | s in knowledge) - (set s | s in old(knowledge)))
      ensures Trace(states, grown) && states[0] == old(Facts(knowledge)) && states[|grown|] == Facts(knowledge)
      ensures safes == old(safes) + SafesAlong(states, |grown|) && mines == old(mines) + MinesAlong(states, |grown|)
      ensures |grown| > 0 ==> Busy(states, grown[..|grown| - 1])
      ensures settled ==> |grown| > 0 && Closed(grown[|grown| - 1]) && !Changed(states[|grown| - 1], grown[|grown| - 1])
      ensures settled ==> Settled(Facts(knowledge))
      ensures Spent(states, grown) <= fuel
      ensures !settled ==> Spent(states, grown) == fuel
      ensures old(Agrees(truth)) ==> Agrees(truth)
      ensures old(Agrees(truth)) ==> LosesNothing(old(Facts(knowledge)), old(safes), old(mines), Facts(knowledge), safes, mines)
    {
      ghost var fs0, safes0, mines0, agreed := Facts(knowledge), safes, mines, Agrees(truth);
      states, grown := [fs0], [];
      var budget: nat := fuel;
      while true
        invariant Valid()
        invariant movesMade == old(movesMade)
        invariant fresh((set s | s in knowledge) - (set s | s in old(knowledge)))
        invariant Trace(states, grown) && states[0] == fs0 && states[|grown|] == Facts(knowledge)
        invariant safes == safes0 + SafesAlong(states, |grown|) && mines == mines0 + MinesAlong(states, |grown|)
        invariant Busy(states, grown)
        invariant budget + Spent(states, grown) == fuel
        invariant agreed ==> Agrees(truth) && LosesNothing(fs0, safes0, mines0, Facts(knowledge), safes, mines)
        decreases budget
      {
        if budget == 0 {
          settled := false;
          return;
        }
        ghost var fs1, safes1, mines1 := Facts(knowledge), safes, mines;
        var complete, changed;
        ghost var states1, grown1 := states, grown;
        complete, changed, budget, states, grown := Round(budget, truth, states, grown);
        ghost var r, m := RevealedSafes(states1[|grown1|]), RevealedMines(states1[|grown1|]);
        UnionAssociates(safes0, SafesAlong(states1, |grown1|), r);
        UnionAssociates(mines0, MinesAlong(states1, |grown1|), m);
        if agreed {
          LosesNothingTwice(fs0, safes0, mines0, fs1, safes1, mines1, Facts(knowledge), safes, mines);
        }
        if !complete {
          settled := false;
          return;
        }
        if !changed {
          settled := true;
          return;
        }
      }
    }

    /** `add_knowledge(cell, count)`: record the move and the safe cell, add the sentence the
        observation gives, then run the loop of passes (`Settle`). `states[0]` is the knowledge
        right after the observation, and `states` and `grown` record the passes. `truth` is the
        mine layout, for stating soundness only. */
    method AddKnowledge(cell: Cell, count: int, fuel: nat, ghost truth: set<Cell>)
      returns (settled: bool, ghost states: seq<seq<Fact>>, ghost grown: seq<seq<Fact>>)
      requires Valid()
      modifies this, knowledge
      ensures Valid()
      ensures movesMade == old(movesMade) + {cell}
      ensures Trace(states, grown) && states[|grown|] == Facts(knowledge)
      ensures safes == old(safes) + {cell} + SafesAlong(states, |grown|) && mines == old(mines) + MinesAlong(states, |grown|)
      ensures AfterObservation(old(Facts(knowledge)), old(safes), old(mines), states[0], cell, count, Neighbours(cell, height, width))
      ensures |grown| > 0 ==> Busy(states, grown[..|grown| - 1])
      ensures settled ==> |grown| > 0 && Closed(grown[|grown| - 1]) && !Changed(states[|grown| - 1], grown[|grown| - 1])
      ensures settled ==> Settled(Facts(knowledge))
      ensures Spent(states, grown) <= fuel
      ensures !settled ==> Spent(states, grown) == fuel
      ensures old(Agrees(truth)) && cell !in truth && count == |Neighbours(cell, height, width) * truth| ==>
        Agrees(truth) && safes !! mines
      ensures old(Agrees(truth)) && cell !in truth && count == |Neighbours(cell, height, width) * truth| ==>
        Observed(old(Facts(knowledge)), old(safes), old(mines), Facts(knowledge), safes, mines,
                 cell, count, Neighbours(cell, height, width))
    {
      ghost var sound := Agrees(truth) && cell !in truth && count == |Neighbours(cell, height, width) * truth|;
      ghost var fs0, safes0, mines0 := Facts(knowledge), safes, mines;
      ghost var neighbours := Neighbours(cell, height, width);
      Observe(cell, count, truth);
      ghost var fs1, safes1, mines1 := Facts(knowledge), safes, mines;
      settled, states, grown := Settle(fuel, truth);
      if sound {
        ObservedThenLosesNothing(fs0, safes0, mines0, fs1, safes1, mines1, Facts(knowledge), safes, mines, cell, count, neighbours);
      }
    }

    /** `make_safe_move`: a cell known to be safe that has not been played, if there is one.
        Python picks it at random; any such cell may be returned here. */
    method MakeSafeMove() returns (move: Option<Cell>)
      ensures move.None? <==> safes <= movesMade
      ensures move.Some? ==> move.value in safes && move.value !in movesMade
    {
      var available := safes - movesMade;
      if available == {} {
        assert forall c :: c in safes ==> c in movesMade by {
          forall c | c in safes
            ensures c in movesMade
          {
            assert c !in available;
          }
        }
        move := None;
      } else {
        var c :| c in available;
        move := Some(c);
      }
    }

    /** `make_random_move`: a cell of the board neither played nor known to be a mine, if there
        is one. The loops collect the board's cells; Python's random choice among the legal
        ones is any such cell here. */
    method MakeRandomMove() returns (move: Option<Cell>)
      ensures move.None? <==> BoardCells(height, width) <= movesMade + mines
      ensures move.Some? ==> OnTheBoard(move.value, height, width) && move.value !in movesMade && move.value !in mines
    {
      var allMoves: set<Cell> := {};
      for i := 0 to height
        invariant forall c :: c in allMoves <==> OnTheBoard(c, height, width) && c.0 < i
      {
        for j := 0 to width
          invariant forall c :: c in allMoves <==> OnTheBoard(c, height, width) && Before(c, i, j)
        {
          allMoves := allMoves + {(i, j)};
        }
      }
      BoardCellsMembers(height, width);
      var legal := allMoves - movesMade - mines;
      if legal == {} {
        move := None;
      } else {
        var c :| c in legal;
        move := Some(c);
      }
    }
  }

  /** A finished row joins the finished rows. */
  lemma RowsExtend(fs: seq<Fact>, i: int)
    requires 0 <= i < |fs| && RowsDone(fs, i) && RowDone(fs, i, |fs|)
    ensures RowsDone(fs, i + 1)
  {
  }

  /** Once every row is finished, every ordered pair is. */
  lemma AllRowsClose(fs: seq<Fact>)
    requires RowsDone(fs, |fs|)
    ensures Closed(fs)
  {
    forall a, b | 0 <= a < |fs| && 0 <= b < |fs|
      ensures SubsetDone(fs, fs[a], fs[b])
    {
      if b <= a {
        assert PairDone(fs, a, b);
      } else {
        assert PairDone(fs, b, a);
      }
    }
  }
}
