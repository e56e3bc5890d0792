/**
 * Where a card's `cardIndex` comes from: the position of its cell in the 4×4 collection view.
 * Re-click detection compares `cardIndex` values, so two cells with the same index are taken
 * for the same card.
 */
module Grid {
  import opened Wrappers
  import opened Selection

  const Sections: int := 4
  const Rows: int := 4

  /** A cell of the grid: section (grid row) and row within the section (grid column). */
  predicate InGrid(section: int, row: int) {
    0 <= section < Sections && 0 <= row < Rows
  }

  /** The index the view controller gives the cell at (section, row), as written: it uses a
      stride of 2 on a grid that is 4 wide, so only 0 through 9 occur. */
  function CellIndexAsWritten(section: int, row: int): (index: int)
    requires InGrid(section, row)
    ensures 0 <= index <= 9
  {
    2 * section + row
  }

  /** The index with the grid's own stride: every cell gets its own number in 0 through 15. */
  function CellIndex(section: int, row: int): (index: int)
    requires InGrid(section, row)
    ensures 0 <= index < Sections * Rows
  {
    Rows * section + row
  }

  /** Different cells get different indices. */
  lemma CellIndexIsInjective(s1: int, r1: int, s2: int, r2: int)
    requires InGrid(s1, r1) && InGrid(s2, r2)
    requires CellIndex(s1, r1) == CellIndex(s2, r2)
    ensures s1 == s2 && r1 == r2
  {
  }

  /** A board whose cards are numbered by `CellIndex` has no two cards with the same index, so
      at most one card is face up until the game is won (`Selection.TapKeepsTidy`). */
  lemma GridBoardHasUniqueIndices(m: Machine<(int, int)>)
    requires forall cell :: cell in m.info ==> InGrid(cell.0, cell.1) && m.info[cell].cardIndex == CellIndex(cell.0, cell.1)
    ensures UniqueIndices(m)
  {
    forall i, j | i in m.info && j in m.info && m.info[i].cardIndex == m.info[j].cardIndex
      ensures i == j
    {
      CellIndexIsInjective(i.0, i.1, j.0, j.1);
    }
  }

  /** With the indices as written, the cells (0, 2) and (1, 0) share index 2. Give them the same
      image and assign `isSelected = true` to one and then the other, with no assignment in
      between: the second selection is taken for a re-click of the first, so the pair does not
      win, the second card goes face down, and the first stays face up although nothing is
      selected any more. */
  lemma AsWrittenIndicesLoseThePair()
    ensures CellIndexAsWritten(0, 2) == CellIndexAsWritten(1, 0)
    ensures var card := CardInfo(CellIndexAsWritten(0, 2), 7, None);
      var other := card.(cardIndex := CellIndexAsWritten(1, 0));
      var down := CardView(false, BackSide);
      var m := Machine(map[(0, 2) := card, (1, 0) := other], map[(0, 2) := down, (1, 0) := down], None, None);
      var r := Tap(Tap(m, (0, 2), true), (1, 0), true);
      && Tidy(m) && !UniqueIndices(m)
      && r.winner.None? && r.selected.None?
      && r.shown[(0, 2)] == CardView(true, FrontSide(None))
      && r.shown[(1, 0)] == CardView(true, BackSide)
      && !Tidy(r)
  {
    var card := CardInfo(CellIndexAsWritten(0, 2), 7, None);
    var other := card.(cardIndex := CellIndexAsWritten(1, 0));
    var down := CardView(false, BackSide);
    var m := Machine(map[(0, 2) := card, (1, 0) := other], map[(0, 2) := down, (1, 0) := down], None, None);
    assert m.Valid();
    SelectFirst(m, (0, 2));
    var first := Tap(m, (0, 2), true);
    SelectAgain(first, (1, 0));
  }

  /** The same two cells when the first one is deselected before the second is selected, as a
      collection view that allows one selection at a time does: the pair is lost as well. The
      first card goes face down, the second is taken for a re-click and goes face down too, and
      nothing is selected. */
  lemma AsWrittenIndicesLoseThePairAfterDeselection()
    ensures var card := CardInfo(CellIndexAsWritten(0, 2), 7, None);
      var other := card.(cardIndex := CellIndexAsWritten(1, 0));
      var down := CardView(false, BackSide);
      var m := Machine(map[(0, 2) := card, (1, 0) := other], map[(0, 2) := down, (1, 0) := down], None, None);
      var r := Tap(Tap(Tap(m, (0, 2), true), (0, 2), false), (1, 0), true);
      && r.winner.None? && r.selected.None?
      && r.shown[(0, 2)] == CardView(false, BackSide)
      && r.shown[(1, 0)] == CardView(true, BackSide)
      && Tidy(r)
  {
    var card := CardInfo(CellIndexAsWritten(0, 2), 7, None);
    var other := card.(cardIndex := CellIndexAsWritten(1, 0));
    var down := CardView(false, BackSide);
    var m := Machine(map[(0, 2) := card, (1, 0) := other], map[(0, 2) := down, (1, 0) := down], None, None);
    assert m.Valid();
    SelectFirst(m, (0, 2));
    var first := Tap(m, (0, 2), true);
    DeselectFlipsBackUnlessWon(first, (0, 2));
    var dropped := Tap(first, (0, 2), false);
    SelectAgain(dropped, (1, 0));
  }
}
