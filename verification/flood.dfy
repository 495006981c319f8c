/** The recursive flood-fill reveal (`reveal` in hao.py). */
module Flood {
  import opened Board
  import opened Counting

  /** Every zero-count cell of `xs` has its whole in-bounds block in `rev`. */
  ghost predicate ZeroClosed(cfg: Config, mines: set<Cell>, xs: set<Cell>, rev: set<Cell>) {
    forall x | x in xs && CountMines(mines, x) == 0 ::
      forall y | y in BlockCells(x) && InBounds(cfg, y) :: y in rev
  }

  /** No zero-count revealed cell borders a hidden in-bounds cell. */
  ghost predicate Closed(cfg: Config, mines: set<Cell>, rev: set<Cell>) {
    ZeroClosed(cfg, mines, rev, rev)
  }

  /** Each cell of `news` is one of the `seeds` or lies in the block of a
      zero-count cell of `news`: the fill only spreads out of empty blocks.
      `RevealLeast` below states the stronger fact that the fill is the least
      zero-closed superset; this local form is what the recursion carries. */
  ghost predicate SpreadFromZeros(mines: set<Cell>, seeds: set<Cell>, news: set<Cell>) {
    forall y | y in news ::
      y in seeds || exists z | z in news && CountMines(mines, z) == 0 :: Near(z, y)
  }

  lemma SpreadJoin(mines: set<Cell>, s1: set<Cell>, n1: set<Cell>, s2: set<Cell>, n2: set<Cell>)
    requires SpreadFromZeros(mines, s1, n1) && SpreadFromZeros(mines, s2, n2)
    ensures SpreadFromZeros(mines, s1 + s2, n1 + n2)
  {
    forall y | y in n1 + n2 && y !in s1 + s2
      ensures exists z | z in n1 + n2 && CountMines(mines, z) == 0 :: Near(z, y)
    {
      if y in n1 {
        var z :| z in n1 && CountMines(mines, z) == 0 && Near(z, y);
        assert z in n1 + n2;
      } else {
        var z :| z in n2 && CountMines(mines, z) == 0 && Near(z, y);
        assert z in n1 + n2;
      }
    }
  }

  /** Seeds that lie in the block of a zero-count cell of `news` need no
      seed status of their own; other seeds may be kept or added. */
  lemma SpreadDischarge(mines: set<Cell>, seeds: set<Cell>, news: set<Cell>, z: Cell, seeds': set<Cell>)
    requires SpreadFromZeros(mines, seeds, news)
    requires z in news && CountMines(mines, z) == 0
    requires forall t | t in seeds :: t in seeds' || Near(z, t)
    ensures SpreadFromZeros(mines, seeds', news)
  {
  }

  lemma SpreadMoreSeeds(mines: set<Cell>, seeds: set<Cell>, news: set<Cell>, seeds': set<Cell>)
    requires SpreadFromZeros(mines, seeds, news) && seeds <= seeds'
    ensures SpreadFromZeros(mines, seeds', news)
  {
  }

  /** The in-bounds cells still hidden: the measure every reveal step shrinks. */
  function Hidden(cfg: Config, rev: set<Cell>): set<Cell> {
    AllCells(cfg) - rev
  }

  /** Revealing more never leaves more cells hidden. */
  lemma HiddenShrinks(cfg: Config, rev: set<Cell>, rev': set<Cell>)
    requires rev <= rev'
    ensures |Hidden(cfg, rev')| <= |Hidden(cfg, rev)|
  {
    var h, h' := Hidden(cfg, rev), Hidden(cfg, rev');
    assert h == h' + (h - h');
  }

  /** `reveal(r, c)`: returns the revealed set after revealing `x`. A revealed
      cell is left alone; otherwise `x` is added and, when its block holds no
      mine, every in-bounds cell of the block is revealed in turn. Flags are
      not consulted. */
  function Reveal(cfg: Config, mines: set<Cell>, rev: set<Cell>, x: Cell): (r: set<Cell>)
    requires InBounds(cfg, x)
    ensures rev <= r && x in r
    ensures r - rev <= AllCells(cfg)
    ensures x in rev ==> r == rev
    ensures x !in rev && CountMines(mines, x) > 0 ==> r == rev + {x}
    ensures ZeroClosed(cfg, mines, r - rev, r)
    ensures x !in mines ==> r - rev !! mines
    ensures SpreadFromZeros(mines, {x}, r - rev)
    decreases |Hidden(cfg, rev)|, 0
  {
    if x in rev then rev
    else
      var rev' := rev + {x};
      assert Hidden(cfg, rev') == Hidden(cfg, rev) - {x};
      if CountMines(mines, x) > 0 then rev'
      else
        var r := RevealBlock(cfg, mines, rev', BlockCells(x));
        SpreadJoin(mines, {x}, {x}, Members(BlockCells(x)), r - rev');
        assert r - rev == {x} + (r - rev');
        SpreadDischarge(mines, {x} + Members(BlockCells(x)), r - rev, x, {x});
        r
  }

  /** The cascade loop: reveal, in order, each in-bounds cell of `cells`. */
  function RevealBlock(cfg: Config, mines: set<Cell>, rev: set<Cell>, cells: seq<Cell>): (r: set<Cell>)
    ensures rev <= r
    ensures r - rev <= AllCells(cfg)
    ensures forall y | y in cells && InBounds(cfg, y) :: y in r
    ensures ZeroClosed(cfg, mines, r - rev, r)
    ensures (forall y | y in cells :: y !in mines) ==> r - rev !! mines
    ensures SpreadFromZeros(mines, Members(cells), r - rev)
    decreases |Hidden(cfg, rev)|, |cells|
  {
    if cells == [] then rev
    else
      var rev1 := if InBounds(cfg, cells[0]) then Reveal(cfg, mines, rev, cells[0]) else rev;
      HiddenShrinks(cfg, rev, rev1);
      var r := RevealBlock(cfg, mines, rev1, cells[1..]);
      assert r - rev == (rev1 - rev) + (r - rev1);
      SpreadJoin(mines, {cells[0]}, rev1 - rev, Members(cells[1..]), r - rev1);
      SpreadMoreSeeds(mines, {cells[0]} + Members(cells[1..]), r - rev, Members(cells));
      r
  }

  /** Flood-fill closure: revealing from a closed set leaves a closed set, so
      no zero-count cell ever borders a hidden cell. */
  lemma RevealKeepsClosed(cfg: Config, mines: set<Cell>, rev: set<Cell>, x: Cell)
    requires InBounds(cfg, x) && Closed(cfg, mines, rev)
    ensures Closed(cfg, mines, Reveal(cfg, mines, rev, x))
  {
    var r := Reveal(cfg, mines, rev, x);
    forall z | z in r && CountMines(mines, z) == 0
      ensures forall y | y in BlockCells(z) && InBounds(cfg, y) :: y in r
    {
      if z in rev {
        assert forall y | y in BlockCells(z) && InBounds(cfg, y) :: y in rev;
      } else {
        assert z in r - rev;
      }
    }
  }

  /** Closure read geometrically: a revealed cell with no adjacent mine has
      every in-bounds cell within one step revealed. */
  lemma ClosedRevealsNeighbours(cfg: Config, mines: set<Cell>, rev: set<Cell>, x: Cell, y: Cell)
    requires Closed(cfg, mines, rev)
    requires x in rev && CountMines(mines, x) == 0
    requires InBounds(cfg, y) && Near(x, y)
    ensures y in rev
  {
    assert y in BlockCells(x);
  }

  /** Revealing the same cell twice is the same as revealing it once. */
  lemma RevealTwice(cfg: Config, mines: set<Cell>, rev: set<Cell>, x: Cell)
    requires InBounds(cfg, x)
    ensures Reveal(cfg, mines, Reveal(cfg, mines, rev, x), x) == Reveal(cfg, mines, rev, x)
  {
  }

  /** Minimality: `Reveal` adds nothing outside any set `s` that contains the
      clicked cell and the cells revealed so far, and that already holds the
      in-bounds block of each of its zero-count cells beyond `rev0`. As
      `Reveal`'s own result is such a set, it is the least one: zero regions
      that the fill cannot reach from `x` stay hidden. */
  lemma {:induction false} RevealLeast(cfg: Config, mines: set<Cell>, rev0: set<Cell>, rev: set<Cell>, x: Cell, s: set<Cell>)
    requires InBounds(cfg, x)
    requires rev0 <= rev <= s && x in s
    requires ZeroClosed(cfg, mines, s - rev0, s)
    ensures Reveal(cfg, mines, rev, x) <= s
    decreases |Hidden(cfg, rev)|, 0
  {
    if x !in rev && CountMines(mines, x) == 0 {
      var rev' := rev + {x};
      assert Hidden(cfg, rev') == Hidden(cfg, rev) - {x};
      assert x in s - rev0;
      BlockLeast(cfg, mines, rev0, rev', BlockCells(x), s);
    }
  }

  /** The cascade loop stays inside such a set `s` when every in-bounds cell
      it walks already lies in `s`. */
  lemma {:induction false} BlockLeast(cfg: Config, mines: set<Cell>, rev0: set<Cell>, rev: set<Cell>, cells: seq<Cell>, s: set<Cell>)
    requires rev0 <= rev <= s
    requires forall y | y in cells && InBounds(cfg, y) :: y in s
    requires ZeroClosed(cfg, mines, s - rev0, s)
    ensures RevealBlock(cfg, mines, rev, cells) <= s
    decreases |Hidden(cfg, rev)|, |cells|
  {
    if cells != [] {
      var rev1 := if InBounds(cfg, cells[0]) then Reveal(cfg, mines, rev, cells[0]) else rev;
      if InBounds(cfg, cells[0]) {
        RevealLeast(cfg, mines, rev0, rev, cells[0], s);
      }
      HiddenShrinks(cfg, rev, rev1);
      BlockLeast(cfg, mines, rev0, rev1, cells[1..], s);
    }
  }

  /** On a 1x7 board with a mine at `(0, 3)`, the fill from `(0, 0)` stops at
      `(0, 2)`, which touches the mine; the empty cells `(0, 4)` to `(0, 6)`
      beyond it stay hidden. */
  lemma CutOffRegionStaysHidden(cfg: Config, mines: set<Cell>, x: Cell)
    requires cfg == Config(1, 7, 1) && mines == {(0, 3)} && x == (0, 0)
    ensures Reveal(cfg, mines, {}, x) == {(0, 0), (0, 1), (0, 2)}
  {
    var s := {(0, 0), (0, 1), (0, 2)};
    CutOffCounts();
    CutOffClosed(cfg, mines, s);
    RevealLeast(cfg, mines, {}, {}, x, s);
    CutOffReached(cfg, mines, x);
  }

  /** The fill on that board does reach `(0, 1)` and `(0, 2)`. */
  lemma CutOffReached(cfg: Config, mines: set<Cell>, x: Cell)
    requires cfg == Config(1, 7, 1) && x == (0, 0)
    requires CountMines(mines, (0, 0)) == 0 && CountMines(mines, (0, 1)) == 0
    ensures {(0, 0), (0, 1), (0, 2)} <= Reveal(cfg, mines, {}, x)
  {
    var r := Reveal(cfg, mines, {}, x);
    assert (0, 1) in BlockCells((0, 0)) && (0, 1) in r;
    assert (0, 2) in BlockCells((0, 1));
  }

  /** The counts on that board: `(0, 0)` and `(0, 1)` see no mine, `(0, 2)`
      sees the mine at `(0, 3)`. */
  lemma CutOffCounts()
    ensures CountMines({(0, 3)}, (0, 0)) == 0 && CountMines({(0, 3)}, (0, 1)) == 0
    ensures CountMines({(0, 3)}, (0, 2)) != 0
  {
    assert Near((0, 2), (0, 3));
  }

  /** The first three cells of that board hold the block of each of their
      zero-count cells. */
  lemma CutOffClosed(cfg: Config, mines: set<Cell>, s: set<Cell>)
    requires cfg == Config(1, 7, 1) && mines == {(0, 3)} && s == {(0, 0), (0, 1), (0, 2)}
    requires CountMines(mines, (0, 2)) != 0
    ensures ZeroClosed(cfg, mines, s, s)
  {
    forall z | z in s && CountMines(mines, z) == 0
      ensures forall y | y in BlockCells(z) && InBounds(cfg, y) :: y in s
    {
      assert z == (0, 0) || z == (0, 1);
    }
  }
}
