/**
 * The type-selector toolbar (GUIUtils.SelectButtonList): one button per manageable
 * type, laid out in balanced rows, and the rule that a click selects that type.
 * The available width is a real number here, and `(float)a / b` rounded up is exact
 * integer ceiling division.
 */
module ButtonGrid {
  import opened Wrappers

  const MinButtonWidth: real := 80.0
  const MinButtonsPerRow: int := 1
  const DefaultMaxButtonsPerRow: int := 8

  /**
   * How many buttons a row may hold: as many of MinButtonWidth as fit the width (at least
   * one), or 8 when the width is unknown (not positive).
   */
  function MaxButtonsPerRow(availableWidth: real): (m: int)
    ensures m >= MinButtonsPerRow
    ensures availableWidth <= 0.0 ==> m == DefaultMaxButtonsPerRow
    ensures availableWidth > 0.0 && m > MinButtonsPerRow ==> (m as real) * MinButtonWidth <= availableWidth
    ensures availableWidth > 0.0 ==> availableWidth < ((m + 1) as real) * MinButtonWidth
  {
    if availableWidth > 0.0 then
      var fit := (availableWidth / MinButtonWidth).Floor;
      if fit > MinButtonsPerRow then fit else MinButtonsPerRow
    else DefaultMaxButtonsPerRow
  }

  /** Mathf.CeilToInt((float)a / b) (see CeilDivBounds). */
  function CeilDiv(a: nat, b: nat): (q: nat)
    requires b >= 1
    ensures q == 0 <==> a == 0
  {
    var q := (a + b - 1) / b;
    assert (a + b - 1) == q * b + (a + b - 1) % b;
    q
  }

  /** CeilDiv(a, b) is the least q with q * b >= a. */
  lemma CeilDivBounds(a: nat, b: nat)
    requires b >= 1
    ensures CeilDiv(a, b) * b >= a
    ensures CeilDiv(a, b) == 0 || (CeilDiv(a, b) - 1) * b < a
  {
    var q := (a + b - 1) / b;
    assert (a + b - 1) == q * b + (a + b - 1) % b;
  }

  /** rowCount at line 29. */
  function RowCount(n: nat, maxPerRow: int): nat
    requires maxPerRow >= 1
  {
    CeilDiv(n, maxPerRow)
  }

  /** buttonsPerRow at line 30: the rows are filled as evenly as the row count allows. */
  function ButtonsPerRow(n: nat, rowCount: nat): nat
    requires rowCount >= 1
  {
    CeilDiv(n, rowCount)
  }

  /**
   * buttonHeight at line 32: 500 shared among the buttons of a full row, kept between 30
   * and 50. With no types the quotient is +Infinity and is clamped to 50.
   */
  function ButtonHeight(n: nat, maxPerRow: int): (h: real)
    requires maxPerRow >= 1
    ensures 30.0 <= h <= 50.0
  {
    var k := if n <= maxPerRow then n else maxPerRow;
    if k == 0 then 50.0
    else
      var q := 500.0 / (k as real);
      if q < 30.0 then 30.0 else if q > 50.0 then 50.0 else q
  }

  /**
   * With k buttons in a full row, the height is 50 up to 10 buttons, 30 from 17 on, and in
   * between exactly the share of 500 that one button gets.
   */
  lemma ButtonHeightShare(n: nat, maxPerRow: int)
    requires maxPerRow >= 1
    ensures var k := if n <= maxPerRow then n else maxPerRow;
      var h := ButtonHeight(n, maxPerRow);
      && (k <= 10 ==> h == 50.0)
      && (k >= 17 ==> h == 30.0)
      && (10 <= k <= 16 ==> h * (k as real) == 500.0)
  {
    var k := if n <= maxPerRow then n else maxPerRow;
    if k >= 1 {
      var q := 500.0 / (k as real);
      assert q * (k as real) == 500.0;
    }
  }

  /** buttonsInThisRow at line 52. */
  function ButtonsInRow(n: nat, buttonsPerRow: nat, row: nat): int {
    if buttonsPerRow <= n - row * buttonsPerRow then buttonsPerRow else n - row * buttonsPerRow
  }

  lemma MulMonotone(x: int, y: int, k: nat)
    requires x <= y
    ensures x * k <= y * k
  {
    assert y * k - x * k == (y - x) * k;
  }

  /**
   * For n buttons: at least one row, at most maxPerRow buttons in a row, room for every
   * button, and no empty row.
   */
  lemma Balanced(n: nat, maxPerRow: int)
    requires n >= 1 && maxPerRow >= 1
    ensures var rows := RowCount(n, maxPerRow);
      var perRow := ButtonsPerRow(n, rows);
      && rows >= 1 && 1 <= perRow <= maxPerRow
      && rows * perRow >= n
      && perRow * (rows - 1) < n
  {
    var rows := RowCount(n, maxPerRow);
    var perRow := ButtonsPerRow(n, rows);
    CeilDivBounds(n, maxPerRow);
    CeilDivBounds(n, rows);
    if perRow > maxPerRow {
      MulMonotone(maxPerRow, perRow - 1, rows);
      assert false;
    }
    MulMonotone(perRow, maxPerRow, rows - 1);
  }

  /**
   * Button i of n goes to row i / perRow and column i % perRow: inside the grid, inside
   * its row, and in a row that holds perRow buttons unless it is the last one.
   */
  lemma CellInGrid(n: nat, maxPerRow: int, i: nat)
    requires maxPerRow >= 1 && i < n
    ensures var rows := RowCount(n, maxPerRow);
      var perRow := ButtonsPerRow(n, rows);
      var row, col := i / perRow, i % perRow;
      var inRow := ButtonsInRow(n, perRow, row);
      && row < rows && col < perRow
      && 1 <= inRow <= perRow && col < inRow
      && (row < rows - 1 ==> inRow == perRow)
  {
    Balanced(n, maxPerRow);
    var rows := RowCount(n, maxPerRow);
    CellOfIndex(n, rows, ButtonsPerRow(n, rows), i);
  }

  /** CellInGrid for any grid of rows x perRow that holds n buttons and has no empty row. */
  lemma CellOfIndex(n: nat, rows: nat, perRow: nat, i: nat)
    requires perRow >= 1 && i < n
    requires rows * perRow >= n && perRow * (rows - 1) < n
    ensures var row, col := i / perRow, i % perRow;
      var inRow := ButtonsInRow(n, perRow, row);
      && row < rows && col < perRow
      && 1 <= inRow <= perRow && col < inRow
      && (row < rows - 1 ==> inRow == perRow)
  {
    var row, col := i / perRow, i % perRow;
    assert i == row * perRow + col;
    assert row < rows by {
      if row >= rows {
        MulMonotone(rows, row, perRow);
        assert false;
      }
    }
    assert row < rows - 1 ==> n - row * perRow >= perRow by {
      if row < rows - 1 {
        MulMonotone(row + 1, rows - 1, perRow);
      }
    }
  }

  /** Different buttons get different cells. */
  lemma CellsDistinct(perRow: nat, i: nat, j: nat)
    requires perRow >= 1 && i != j
    ensures (i / perRow, i % perRow) != (j / perRow, j % perRow)
  {
    assert i == (i / perRow) * perRow + i % perRow;
    assert j == (j / perRow) * perRow + j % perRow;
  }

  /** Every cell of every row is taken by a button: the one numbered row * perRow + col. */
  lemma EveryCellFilled(n: nat, maxPerRow: int, row: nat, col: nat)
    requires n >= 1 && maxPerRow >= 1
    ensures var perRow := ButtonsPerRow(n, RowCount(n, maxPerRow));
      var i := row * perRow + col;
      col < ButtonsInRow(n, perRow, row) ==> i < n && i / perRow == row && i % perRow == col
  {
    Balanced(n, maxPerRow);
    var perRow := ButtonsPerRow(n, RowCount(n, maxPerRow));
    if col < ButtonsInRow(n, perRow, row) {
      DivModOfSum(row, col, perRow);
    }
  }

  lemma DivModOfSum(q: nat, r: nat, d: nat)
    requires r < d
    ensures (q * d + r) / d == q && (q * d + r) % d == r
  {
    var x := q * d + r;
    var q', r' := x / d, x % d;
    assert x == q' * d + r';
    if q' < q {
      MulMonotone(q' + 1, q, d);
    } else if q' > q {
      MulMonotone(q + 1, q', d);
    }
  }

  /** totalHeight at line 33: the height reserved for the whole grid. */
  function GridHeight(buttonHeight: real, rows: nat): real {
    buttonHeight * (rows as real)
  }

  /**
   * Row r of height h starts r * h below the top of the reserved rect, which is
   * rows * h high: every button row lies inside it.
   */
  lemma RowInsideRect(rows: nat, row: nat, h: real)
    requires row < rows && h >= 0.0
    ensures 0.0 <= (row as real) * h
    ensures (row as real) * h + h <= GridHeight(h, rows)
  {
    assert GridHeight(h, rows) - ((row as real) * h + h) == ((rows - row - 1) as real) * h;
  }

  /** What SelectButtonList computes for one button before asking whether it was pressed. */
  datatype ButtonSlot = ButtonSlot(row: int, col: int, buttonsInRow: int, isSelected: bool)

  /** The slot of button i among `types` with `maxPerRow` buttons allowed in a row. */
  function SlotOf<T(==)>(types: seq<T>, maxPerRow: int, selectedType: Option<T>, i: nat): ButtonSlot
    requires maxPerRow >= 1 && i < |types|
  {
    var perRow := ButtonsPerRow(|types|, RowCount(|types|, maxPerRow));
    var row := i / perRow;
    ButtonSlot(row, i % perRow, ButtonsInRow(|types|, perRow, row), selectedType == Some(types[i]))
  }

  /**
   * The slot of button i: highlighted exactly when its type is the selected one, in one of
   * the rows the reserved rect has room for, and inside its row.
   */
  lemma SlotInGrid<T>(types: seq<T>, maxPerRow: int, selectedType: Option<T>, i: nat)
    requires maxPerRow >= 1 && i < |types|
    ensures var slot := SlotOf(types, maxPerRow, selectedType, i);
      && (slot.isSelected <==> selectedType == Some(types[i]))
      && 0 <= slot.row < RowCount(|types|, maxPerRow)
      && 0 <= slot.col < slot.buttonsInRow
  {
    CellInGrid(|types|, maxPerRow, i);
  }

  /**
   * The row of button i, drawn `row * buttonHeight` below the top, lies inside the rect of
   * `rowCount * buttonHeight` reserved for the whole grid.
   */
  lemma SlotInsideReservedRect<T>(types: seq<T>, maxPerRow: int, selectedType: Option<T>, i: nat, h: real)
    requires maxPerRow >= 1 && i < |types| && h >= 0.0
    ensures var slot := SlotOf(types, maxPerRow, selectedType, i);
      && 0.0 <= (slot.row as real) * h
      && (slot.row as real) * h + h <= GridHeight(h, RowCount(|types|, maxPerRow))
  {
    var slot := SlotOf(types, maxPerRow, selectedType, i);
    SlotInGrid(types, maxPerRow, selectedType, i);
    RowInsideRect(RowCount(|types|, maxPerRow), slot.row, h);
  }

  /** Lines 50-52 and 63: the cell of button i and whether it is drawn as selected. */
  method PlaceButton<T(==)>(selectedType: Option<T>, typesToDisplay: seq<T>, maxButtonsPerRow: int, buttonsPerRow: nat, i: nat)
    returns (slot: ButtonSlot)
    requires maxButtonsPerRow >= 1 && i < |typesToDisplay|
    requires buttonsPerRow == ButtonsPerRow(|typesToDisplay|, RowCount(|typesToDisplay|, maxButtonsPerRow))
    ensures slot == SlotOf(typesToDisplay, maxButtonsPerRow, selectedType, i)
    ensures slot.col < slot.buttonsInRow && (slot.isSelected <==> selectedType == Some(typesToDisplay[i]))
  {
    var row := i / buttonsPerRow;
    var col := i % buttonsPerRow;
    var buttonsInThisRow := ButtonsInRow(|typesToDisplay|, buttonsPerRow, row);
    var isSelected := selectedType == Some(typesToDisplay[i]);
    SlotInGrid(typesToDisplay, maxButtonsPerRow, selectedType, i);
    slot := ButtonSlot(row, col, buttonsInThisRow, isSelected);
  }

  /**
   * Lines 19-73. `pressed` holds the indices whose SelectButton call would report a click.
   * Returns whether a type was clicked, the selected type afterwards, the height reserved
   * for the grid, and the slots of the buttons handled before the loop returned.
   */
  method SelectButtonList<T(==)>(selectedType: Option<T>, typesToDisplay: seq<T>, availableWidth: real, pressed: set<nat>)
    returns (clicked: bool, newSelectedType: Option<T>, buttonHeight: real, reservedHeight: real, slots: seq<ButtonSlot>)
    ensures buttonHeight == ButtonHeight(|typesToDisplay|, MaxButtonsPerRow(availableWidth))
    ensures reservedHeight == GridHeight(buttonHeight, RowCount(|typesToDisplay|, MaxButtonsPerRow(availableWidth)))
    ensures |slots| <= |typesToDisplay|
    ensures clicked ==> |slots| >= 1
    ensures clicked ==> (|slots| - 1) in pressed && newSelectedType == Some(typesToDisplay[|slots| - 1])
    ensures !clicked ==> |slots| == |typesToDisplay| && newSelectedType == selectedType
    ensures forall j :: 0 <= j < |slots| && (j < |slots| - 1 || !clicked) ==> j !in pressed
    ensures forall j :: 0 <= j < |slots| ==>
      slots[j] == SlotOf(typesToDisplay, MaxButtonsPerRow(availableWidth), selectedType, j)
  {
    var totalTypes := |typesToDisplay|;
    var maxButtonsPerRow := MaxButtonsPerRow(availableWidth);
    var rowCount := RowCount(totalTypes, maxButtonsPerRow);
    // With no types, (float)0 / 0 is NaN; the loop below then never runs.
    var buttonsPerRow := if rowCount >= 1 then ButtonsPerRow(totalTypes, rowCount) else 1;
    clicked, newSelectedType := false, selectedType;
    slots := [];
    var i := 0;
    while i < totalTypes && !clicked
      invariant i <= totalTypes && |slots| == i
      invariant forall j :: 0 <= j < i && (j < i - 1 || !clicked) ==> j !in pressed
      invariant clicked ==> i >= 1 && (i - 1) in pressed && newSelectedType == Some(typesToDisplay[i - 1])
      invariant !clicked ==> newSelectedType == selectedType
      invariant forall j :: 0 <= j < i ==>
        slots[j] == SlotOf(typesToDisplay, maxButtonsPerRow, selectedType, j)
    {
      var slot := PlaceButton(selectedType, typesToDisplay, maxButtonsPerRow, buttonsPerRow, i);
      slots := slots + [slot];
      if i in pressed {
        clicked, newSelectedType := true, Some(typesToDisplay[i]);
      }
      i := i + 1;
    }
    buttonHeight := ButtonHeight(totalTypes, maxButtonsPerRow);
    reservedHeight := GridHeight(buttonHeight, rowCount);
  }
}
