/** The game state of hao.py's `Minesweeper` class without its widgets, and
    the two click handlers that update it. */
module Game {
  import opened Board
  import opened Counting
  import opened Placement
  import opened Flood

  /** `first_click`, `mines`, `revealed` and `flags`. */
  datatype State = State(mines: set<Cell>, revealed: set<Cell>, flags: set<Cell>, firstClick: bool)

  /** What a click reports: the game goes on, or `game_over(win)` was called. */
  datatype Outcome = Continue | GameOver(win: bool)

  datatype Step = Step(state: State, outcome: Outcome)

  /** The state a fresh window starts from: no mines yet, nothing revealed or
      flagged, and the first click still to come. */
  const Initial: State := State({}, {}, {}, true)

  /** What every reachable state satisfies. */
  ghost predicate Inv(cfg: Config, s: State) {
    && (s.firstClick ==> s.mines == {} && s.revealed == {})
    && (!s.firstClick ==> |s.mines| == cfg.mines && s.mines <= AllCells(cfg))
    && s.revealed <= AllCells(cfg)
    && s.revealed !! s.mines
    && s.flags <= AllCells(cfg)
    && Closed(cfg, s.mines, s.revealed)
  }

  /** The win test `len(revealed) == ROWS * COLS - MINES`. */
  predicate AllSafeCountReached(cfg: Config, revealed: set<Cell>) {
    |revealed| == cfg.rows * cfg.cols - cfg.mines
  }

  /** `left_click(r, c)`. On the first click the mines are placed, with
      `placement` standing for the random draw, before anything else is
      looked at; then a flagged cell is ignored, a mine ends the game as
      lost, and any other cell is revealed and the win test applied. There
      is no guard against clicks after the game has ended. */
  function LeftClick(cfg: Config, s: State, x: Cell, placement: set<Cell>): (res: Step)
    requires InBounds(cfg, x)
    requires s.firstClick ==> ValidPlacement(cfg, x, placement)
    ensures !res.state.firstClick
    ensures s.firstClick ==> res.state.mines == placement && x !in res.state.mines
    ensures !s.firstClick ==> res.state.mines == s.mines
    ensures res.state.flags == s.flags
    ensures s.revealed <= res.state.revealed
    ensures x in s.flags ==> res.state.revealed == s.revealed && res.outcome == Continue
    ensures x !in s.flags && x in res.state.mines ==>
              res.state.revealed == s.revealed && res.outcome == GameOver(false)
    ensures x !in s.flags && x !in res.state.mines ==>
              && res.state.revealed == Reveal(cfg, res.state.mines, s.revealed, x)
              && x in res.state.revealed
              && res.state.revealed - s.revealed !! res.state.mines
              && (res.outcome == GameOver(true) <==> AllSafeCountReached(cfg, res.state.revealed))
              && res.outcome != GameOver(false)
  {
    var s1 := if s.firstClick then s.(mines := placement, firstClick := false) else s;
    if x in s1.flags then Step(s1, Continue)
    else if x in s1.mines then Step(s1, GameOver(false))
    else
      var s2 := s1.(revealed := Reveal(cfg, s1.mines, s1.revealed, x));
      Step(s2, if AllSafeCountReached(cfg, s2.revealed) then GameOver(true) else Continue)
  }

  /** `right_click(r, c)`: nothing happens on a revealed cell; otherwise the
      flag on `x` is toggled. */
  function RightClick(cfg: Config, s: State, x: Cell): (t: State)
    requires InBounds(cfg, x)
    ensures x in s.revealed ==> t == s
    ensures x !in s.revealed ==>
              && t == s.(flags := t.flags)
              && (x in t.flags <==> x !in s.flags)
              && t.flags - {x} == s.flags - {x}
  {
    if x in s.revealed then s
    else if x in s.flags then s.(flags := s.flags - {x})
    else s.(flags := s.flags + {x})
  }

  /** Right-clicking the same cell twice restores the state. */
  lemma RightClickTwice(cfg: Config, s: State, x: Cell)
    requires InBounds(cfg, x)
    ensures RightClick(cfg, RightClick(cfg, s, x), x) == s
  {
  }

  lemma InitialInv(cfg: Config)
    ensures Inv(cfg, Initial)
  {
  }

  lemma RightClickKeepsInv(cfg: Config, s: State, x: Cell)
    requires Inv(cfg, s) && InBounds(cfg, x)
    ensures Inv(cfg, RightClick(cfg, s, x))
  {
  }

  lemma LeftClickKeepsInv(cfg: Config, s: State, x: Cell, placement: set<Cell>)
    requires Inv(cfg, s) && InBounds(cfg, x)
    requires s.firstClick ==> ValidPlacement(cfg, x, placement)
    ensures Inv(cfg, LeftClick(cfg, s, x, placement).state)
  {
    var t := LeftClick(cfg, s, x, placement).state;
    if x !in s.flags && x !in t.mines {
      RevealKeepsClosed(cfg, t.mines, s.revealed, x);
    }
  }

  /** Once the mines are placed no click changes them again. */
  lemma MinesFixedAfterFirstClick(cfg: Config, s: State, x: Cell, placement: set<Cell>)
    requires InBounds(cfg, x) && !s.firstClick
    ensures LeftClick(cfg, s, x, placement).state.mines == s.mines
    ensures !RightClick(cfg, s, x).firstClick && RightClick(cfg, s, x).mines == s.mines
  {
  }

  /** A click that detonates a mine never reveals it. */
  lemma LossRevealsNoMine(cfg: Config, s: State, x: Cell, placement: set<Cell>)
    requires Inv(cfg, s) && InBounds(cfg, x)
    requires s.firstClick ==> ValidPlacement(cfg, x, placement)
    requires LeftClick(cfg, s, x, placement).outcome == GameOver(false)
    ensures x in LeftClick(cfg, s, x, placement).state.mines
    ensures x !in LeftClick(cfg, s, x, placement).state.revealed
  {
  }

  /** In a reachable state after placement, the win test holds exactly when
      every cell that is not a mine has been revealed; flags play no part. */
  lemma WinMeansAllSafeRevealed(cfg: Config, s: State)
    requires Inv(cfg, s) && !s.firstClick && 0 <= cfg.rows && 0 <= cfg.cols
    ensures AllSafeCountReached(cfg, s.revealed) <==> s.revealed == AllCells(cfg) - s.mines
  {
    var safe := AllCells(cfg) - s.mines;
    assert AllCells(cfg) == safe + s.mines;
    assert |safe| == cfg.rows * cfg.cols - cfg.mines;
    assert s.revealed <= safe;
    if |s.revealed| == |safe| {
      assert safe == s.revealed + (safe - s.revealed);
    }
  }

  /** A left click ends the game as won exactly when it reveals a cell and
      afterwards every cell that is not a mine is revealed. */
  lemma WinIffClickRevealsLastSafeCell(cfg: Config, s: State, x: Cell, placement: set<Cell>)
    requires cfg.Valid() && Inv(cfg, s) && InBounds(cfg, x)
    requires s.firstClick ==> ValidPlacement(cfg, x, placement)
    ensures var res := LeftClick(cfg, s, x, placement);
            res.outcome == GameOver(true) <==>
              x !in s.flags && x !in res.state.mines
              && res.state.revealed == AllCells(cfg) - res.state.mines
  {
    var res := LeftClick(cfg, s, x, placement);
    LeftClickKeepsInv(cfg, s, x, placement);
    WinMeansAllSafeRevealed(cfg, res.state);
  }

  /** The cascade does not skip flagged cells: on a 1x3 board with a mine at
      `(0, 2)` and a flag at `(0, 1)`, clicking `(0, 0)` reveals the flagged
      cell, leaves its flag in place and wins. */
  lemma CascadeRevealsFlaggedCell()
    ensures var res := LeftClick(Config(1, 3, 1), State({(0, 2)}, {}, {(0, 1)}, false), (0, 0), {});
            && (0, 1) in res.state.revealed && (0, 1) in res.state.flags
            && res.outcome == GameOver(true)
  {
    CascadeScenarioReveal();
  }

  /** The flood fill behind that click: `(0, 0)` has no adjacent mine, so
      `(0, 1)` is revealed too, and nothing else is. */
  lemma CascadeScenarioReveal()
    ensures Reveal(Config(1, 3, 1), {(0, 2)}, {}, (0, 0)) == {(0, 0), (0, 1)}
  {
    CascadeScenarioCounts();
    CascadeFill(Config(1, 3, 1), {(0, 2)}, (0, 0));
  }

  /** The scenario's flood fill, over names rather than literals so that the
      fill is reasoned about through its contract instead of unfolded. */
  lemma CascadeFill(cfg: Config, mines: set<Cell>, x: Cell)
    requires cfg == Config(1, 3, 1) && mines == {(0, 2)} && x == (0, 0)
    requires CountMines(mines, x) == 0
    ensures Reveal(cfg, mines, {}, x) == {(0, 0), (0, 1)}
  {
    var r := Reveal(cfg, mines, {}, x);
    ScenarioSafeCells(cfg, mines);
    assert (0, 1) in BlockCells(x);
    assert r <= AllCells(cfg) - mines;
  }

  /** The 1x3 board with a mine at `(0, 2)` has two safe cells. */
  lemma ScenarioSafeCells(cfg: Config, mines: set<Cell>)
    requires cfg == Config(1, 3, 1) && mines == {(0, 2)}
    ensures AllCells(cfg) - mines == {(0, 0), (0, 1)}
  {
    forall y | y in AllCells(cfg) - mines ensures y == (0, 0) || y == (0, 1) {
      assert InBounds(cfg, y);
    }
  }

  /** The counts that drive that flood fill: `(0, 0)` has no mine in its
      block, `(0, 1)` has one, so the fill stops at `(0, 1)`. */
  lemma CascadeScenarioCounts()
    ensures CountMines({(0, 2)}, (0, 0)) == 0
    ensures CountMines({(0, 2)}, (0, 1)) == 1
  {
    var mines := {(0, 2)};
    CountMinesIsNearMines(mines, (0, 1));
    var near := set y | y in mines && Near((0, 1), y);
    assert (0, 2) in near;
    assert near == {(0, 2)};
  }
}
