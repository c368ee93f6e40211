/** The sort selection of the todo table: which column the rows are sorted
    on and in which direction, and how a click on a column header changes it. */
module SortSelection {
  import opened TodoRecord

  datatype SortState = SortState(column: Column, direction: Direction)

  /** The table opens sorted on "id", ascending. */
  const Initial: SortState := SortState(Id, Asc)

  /** A click on the header of `column`: the active column flips its
      direction, any other column becomes active in ascending order. */
  function Click(s: SortState, column: Column): (r: SortState)
    ensures r.column == column
  {
    if column == s.column then SortState(s.column, Flip(s.direction))
    else SortState(column, Asc)
  }

  /** The selection after a series of header clicks, earliest first. */
  function Replay(s: SortState, clicks: seq<Column>): (r: SortState)
    ensures clicks != [] ==> r.column == clicks[|clicks| - 1]
    ensures clicks == [] ==> r == s
    decreases |clicks|
  {
    if clicks == [] then s else Replay(Click(s, clicks[0]), clicks[1..])
  }

  /** Clicking the active column keeps it and flips the direction; a second
      click on it restores the selection. */
  lemma ClickActiveColumn(s: SortState)
    ensures Click(s, s.column) == SortState(s.column, Flip(s.direction))
    ensures Click(Click(s, s.column), s.column) == s
  {
  }

  /** Clicking another column selects it ascending, whatever the previous
      direction was. */
  lemma ClickOtherColumn(s: SortState, column: Column, d: Direction)
    requires column != s.column
    ensures Click(s, column) == SortState(column, Asc)
    ensures Click(SortState(s.column, d), column) == Click(s, column)
  {
  }

  /** Replaying one more click applies it to the selection reached so far. */
  lemma {:induction false} ReplayAppend(s: SortState, clicks: seq<Column>, column: Column)
    ensures Replay(s, clicks + [column]) == Click(Replay(s, clicks), column)
    decreases |clicks|
  {
    if clicks != [] {
      ReplayAppend(Click(s, clicks[0]), clicks[1..], column);
      assert (clicks + [column])[1..] == clicks[1..] + [column];
    }
  }

  /** `d` flipped `n` times. */
  function Toggled(d: Direction, n: nat): Direction
  {
    if n % 2 == 0 then d else Flip(d)
  }

  lemma {:induction false} RepeatedClicksOnActive(s: SortState, n: nat)
    ensures Replay(s, seq(n, _ => s.column)) == SortState(s.column, Toggled(s.direction, n))
    decreases n
  {
    if n > 0 {
      var t := Click(s, s.column);
      RepeatedClicksOnActive(t, n - 1);
      assert seq(n, _ => s.column)[1..] == seq(n - 1, _ => t.column);
    }
  }

  /** `n` clicks in a row on one header: on the active column the direction
      alternates starting from the current one; on another column the first
      click selects it ascending and later clicks alternate from there. */
  lemma RepeatedClicks(s: SortState, column: Column, n: nat)
    requires n > 0
    ensures Replay(s, seq(n, _ => column)) ==
      if column == s.column then SortState(column, Toggled(s.direction, n))
      else SortState(column, Toggled(Asc, n - 1))
  {
    var t := Click(s, column);
    RepeatedClicksOnActive(t, n - 1);
    assert seq(n, _ => column)[1..] == seq(n - 1, _ => t.column);
    if column == s.column {
      assert Toggled(Flip(s.direction), n - 1) == Toggled(s.direction, n);
    }
  }
}
