/** The table component's own state: the cached list of todos and the sort
    selection, with the two handlers that change them. */
module TodosTable {
  import opened TodoRecord
  import opened SortOrder
  import opened SortSelection

  class TodoTable {
    /** The cached list, as last received from the server. */
    var todos: seq<Todo>
    var sortColumn: Column
    var sortDirection: Direction
    /** Every header clicked since the table was created, earliest first. */
    ghost var clicks: seq<Column>

    /** The sort selection is exactly what the header clicks so far make of
        the initial one: nothing but SortTodos changes it. */
    ghost predicate Valid()
      reads this
    {
      Selection() == Replay(Initial, clicks)
    }

    function Selection(): SortState
      reads this
    {
      SortState(sortColumn, sortDirection)
    }

    constructor ()
      ensures Valid()
      ensures todos == [] && sortColumn == Id && sortDirection == Asc && clicks == []
    {
      todos := [];
      sortColumn := Id;
      sortDirection := Asc;
      clicks := [];
    }

    /** Refetch the list. The token store and the GET request are inputs:
        whether a token is present, the response status and the decoded
        body. Without a token nothing is requested; a status other than 200
        is ignored silently. Otherwise the whole list is replaced. */
    method FetchTodos(tokenPresent: bool, status: int, body: seq<Todo>)
      requires Valid()
      modifies this
      ensures Valid()
      ensures todos == (if tokenPresent && status == 200 then body else old(todos))
      ensures sortColumn == old(sortColumn) && sortDirection == old(sortDirection)
      ensures clicks == old(clicks)
    {
      if !tokenPresent {
        return;
      }
      if status != 200 {
        return;
      }
      todos := body;
    }

    /** A click on the header of `column`. */
    method SortTodos(column: Column)
      requires Valid()
      modifies this
      ensures Valid()
      ensures Selection() == Click(old(Selection()), column)
      ensures clicks == old(clicks) + [column]
      ensures todos == old(todos)
    {
      if column == sortColumn {
        sortDirection := if sortDirection == Asc then Desc else Asc;
      } else {
        sortColumn := column;
        sortDirection := Asc;
      }
      ReplayAppend(Initial, clicks, column);
      clicks := clicks + [column];
    }

    /** The rows as the table shows them: the cached list sorted on the
        selected column; the cache itself is not touched. */
    function SortedView(): (r: seq<Todo>)
      reads this
      ensures multiset(r) == multiset(todos)
      ensures Ordered(r, sortColumn, sortDirection)
      ensures KeepsTies(r, todos, sortColumn)
    {
      SortedTodosCorrect(todos, sortColumn, sortDirection);
      SortedTodos(todos, sortColumn, sortDirection)
    }
  }
}
