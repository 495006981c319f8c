/** Deferred mine placement (`place_mines` in hao.py). */
module Placement {
  import opened Board

  /** What a finished placement guarantees: exactly `cfg.mines` mines, all on
      the board, none on the first-clicked cell. */
  predicate ValidPlacement(cfg: Config, safe: Cell, mines: set<Cell>) {
    |mines| == cfg.mines && safe !in mines && mines <= AllCells(cfg)
  }

  /** While fewer than `cfg.mines` mines are placed, some board cell other
      than `safe` is still free. */
  lemma FreeCellExists(cfg: Config, safe: Cell, mines: set<Cell>)
    requires cfg.Valid()
    requires mines <= AllCells(cfg) - {safe} && |mines| < cfg.mines
    ensures AllCells(cfg) - {safe} - mines != {}
  {
    var candidates := AllCells(cfg) - {safe};
    assert |candidates| >= cfg.rows * cfg.cols - 1 by {
      if safe in AllCells(cfg) {
        assert AllCells(cfg) == candidates + {safe};
      }
    }
    assert |candidates - mines| == |candidates| - |mines|;
  }

  /** Rejection sampling: draw board cells until `cfg.mines` distinct cells
      other than `safe` are mines. The random draw is a nondeterministic
      choice among the draws that change the set; the rejected ones (the
      safe cell, a cell that already holds a mine) leave it as it was. */
  method PlaceMines(cfg: Config, safe: Cell) returns (mines: set<Cell>)
    requires cfg.Valid()
    ensures ValidPlacement(cfg, safe, mines)
  {
    mines := {};
    while |mines| < cfg.mines
      invariant mines <= AllCells(cfg) - {safe}
      invariant |mines| <= cfg.mines
      decreases cfg.mines - |mines|
    {
      FreeCellExists(cfg, safe, mines);
      var cell :| cell in AllCells(cfg) - {safe} - mines;
      mines := mines + {cell};
    }
  }
}
