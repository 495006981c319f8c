/** Adjacent-mine counting (`count_mines` in hao.py). */
module Counting {
  import opened Board

  /** The number of entries of `cells` that are mines, accumulated in visit
      order the way `count_mines` increments its counter. */
  function CountIn(mines: set<Cell>, cells: seq<Cell>): (n: nat)
    ensures n <= |cells|
    ensures n == 0 <==> forall y | y in cells :: y !in mines
    ensures n == |cells| <==> forall y | y in cells :: y in mines
  {
    if cells == [] then 0
    else
      var prefix, last := cells[..|cells| - 1], cells[|cells| - 1];
      assert cells == prefix + [last];
      CountIn(mines, prefix) + (if last in mines then 1 else 0)
  }

  /** On a sequence without repetitions the count is the number of distinct
      mines the sequence covers. */
  lemma {:induction false} CountInIsCardinality(mines: set<Cell>, cells: seq<Cell>)
    requires forall i, j :: 0 <= i < j < |cells| ==> cells[i] != cells[j]
    ensures CountIn(mines, cells) == |Members(cells) * mines|
  {
    if cells == [] {
      assert Members(cells) == {};
    } else {
      var prefix, last := cells[..|cells| - 1], cells[|cells| - 1];
      assert cells == prefix + [last];
      assert forall i, j :: 0 <= i < j < |prefix| ==> prefix[i] != prefix[j];
      CountInIsCardinality(mines, prefix);
      LastIsNew(cells);
      MembersSnoc(prefix, last);
      AddOne(mines, Members(prefix), last);
    }
  }

  lemma LastIsNew(cells: seq<Cell>)
    requires cells != []
    requires forall i, j :: 0 <= i < j < |cells| ==> cells[i] != cells[j]
    ensures cells[|cells| - 1] !in cells[..|cells| - 1]
  {
    var prefix := cells[..|cells| - 1];
    forall i | 0 <= i < |prefix| ensures prefix[i] != cells[|cells| - 1] {
      assert prefix[i] == cells[i];
    }
  }

  lemma MembersSnoc(prefix: seq<Cell>, last: Cell)
    ensures Members(prefix + [last]) == Members(prefix) + {last}
  {
    forall y ensures y in prefix + [last] <==> y in prefix || y == last {
      assert y in prefix + [last] <==> y in prefix || y in [last];
    }
  }

  /** Adding a fresh cell adds one to the mine count exactly when it is a mine. */
  lemma AddOne(mines: set<Cell>, seen: set<Cell>, y: Cell)
    requires y !in seen
    ensures |(seen + {y}) * mines| == |seen * mines| + (if y in mines then 1 else 0)
  {
    if y in mines {
      assert (seen + {y}) * mines == seen * mines + {y};
    } else {
      assert (seen + {y}) * mines == seen * mines;
    }
  }

  /** `count_mines(r, c)`: the mines in the 3x3 block centred on `x`. The
      block includes `x` itself, exactly as the source's loops do. */
  function CountMines(mines: set<Cell>, x: Cell): (n: nat)
    ensures n <= 9
    ensures x !in mines ==> n <= 8
    ensures n == 0 <==> forall y | Near(x, y) :: y !in mines
  {
    CountIn(mines, BlockCells(x))
  }

  /** The count equals the number of mine coordinates within one step of `x`
      in each direction, independent of any visiting order. */
  lemma CountMinesIsNearMines(mines: set<Cell>, x: Cell)
    ensures CountMines(mines, x) == |set y | y in mines && Near(x, y)|
  {
    var block := BlockCells(x);
    CountInIsCardinality(mines, block);
    assert Members(block) * mines == set y | y in mines && Near(x, y);
  }
}
