/** The food: one cell, placed at random off the snake, away from the outer two rows and
    columns of the grid. */
module Foods {
  import opened Pieces

  /** The cells the food may be drawn from: x in [2, maxWidth), y in [2, maxHeight). */
  predicate InSpawnArea(c: GamePiece, maxWidth: int, maxHeight: int)
  {
    2 <= c.x < maxWidth && 2 <= c.y < maxHeight
  }

  /** A cell that the placement loop accepts: drawable and on no segment. */
  predicate IsFreeCell(c: GamePiece, maxWidth: int, maxHeight: int, snakeBody: seq<GamePiece>)
  {
    InSpawnArea(c, maxWidth, maxHeight) && c !in snakeBody
  }

  class Food {
    var position: GamePiece

    constructor ()
      ensures position == GamePiece(0, 0)
    {
      position := GamePiece(0, 0);
    }

    /** Rejection sampling: the random draws are repeated until one misses the snake. The
        draw the loop accepts is modelled as a choice among all the cells it can accept. */
    method Generate(maxWidth: int, maxHeight: int, snakeBody: seq<GamePiece>)
      requires exists c :: IsFreeCell(c, maxWidth, maxHeight, snakeBody)
      modifies this
      ensures IsFreeCell(position, maxWidth, maxHeight, snakeBody)
    {
      var c :| IsFreeCell(c, maxWidth, maxHeight, snakeBody);
      position := c;
    }
  }

  /** The cells (x, y) with lo <= x < hi. */
  ghost function Row(y: int, lo: int, hi: int): set<GamePiece>
    decreases hi - lo
  {
    if hi <= lo then {} else Row(y, lo, hi - 1) + {GamePiece(hi - 1, y)}
  }

  /** The cells (x, y) with xlo <= x < xhi and ylo <= y < yhi. */
  ghost function Rect(xlo: int, xhi: int, ylo: int, yhi: int): set<GamePiece>
    decreases yhi - ylo
  {
    if yhi <= ylo then {} else Rect(xlo, xhi, ylo, yhi - 1) + Row(yhi - 1, xlo, xhi)
  }

  lemma {:induction false} RowShape(y: int, lo: int, hi: int)
    requires lo <= hi
    ensures |Row(y, lo, hi)| == hi - lo
    ensures forall c :: c in Row(y, lo, hi) <==> c.y == y && lo <= c.x < hi
    decreases hi - lo
  {
    if hi > lo {
      RowShape(y, lo, hi - 1);
      assert GamePiece(hi - 1, y) !in Row(y, lo, hi - 1);
    }
  }

  lemma {:induction false} RectShape(xlo: int, xhi: int, ylo: int, yhi: int)
    requires xlo <= xhi && ylo <= yhi
    ensures |Rect(xlo, xhi, ylo, yhi)| == (xhi - xlo) * (yhi - ylo)
    ensures forall c :: c in Rect(xlo, xhi, ylo, yhi) <==> xlo <= c.x < xhi && ylo <= c.y < yhi
    decreases yhi - ylo
  {
    if yhi > ylo {
      var upper, row := Rect(xlo, xhi, ylo, yhi - 1), Row(yhi - 1, xlo, xhi);
      RectShape(xlo, xhi, ylo, yhi - 1);
      RowShape(yhi - 1, xlo, xhi);
      assert upper * row == {};
      assert |upper + row| == |upper| + |row|;
      assert (xhi - xlo) * (yhi - 1 - ylo) + (xhi - xlo) == (xhi - xlo) * (yhi - ylo);
    }
  }

  /** A body of n segments occupies at most n distinct cells. */
  lemma {:induction false} OccupiedCells(s: seq<GamePiece>)
    ensures |set c | c in s| <= |s|
  {
    if s != [] {
      var init := s[..|s| - 1];
      OccupiedCells(init);
      assert (set c | c in s) == (set c | c in init) + {s[|s| - 1]};
    }
  }

  /** Whenever the snake has fewer segments than the spawn area has cells, the placement
      loop has a cell to accept. */
  lemma FreeCellExists(maxWidth: int, maxHeight: int, snakeBody: seq<GamePiece>)
    requires maxWidth > 2 && maxHeight > 2
    requires |snakeBody| < (maxWidth - 2) * (maxHeight - 2)
    ensures exists c :: IsFreeCell(c, maxWidth, maxHeight, snakeBody)
  {
    var area := Rect(2, maxWidth, 2, maxHeight);
    var occupied := set c | c in snakeBody;
    RectShape(2, maxWidth, 2, maxHeight);
    OccupiedCells(snakeBody);
    var free := area - occupied;
    assert |area| == |area * occupied| + |free|;
    assert |area * occupied| <= |occupied|;
    var c :| c in free;
    assert IsFreeCell(c, maxWidth, maxHeight, snakeBody);
  }
}
