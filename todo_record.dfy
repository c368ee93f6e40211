/** The todo record as the table holds it, the columns it can be sorted on,
    and the required-field rule shared by the create and edit dialogs. */
module TodoRecord {
  import opened JsStrings

  datatype Option<T> = None | Some(value: T)

  /** One row of the table. Every field is a string, exactly as the
      client-side interface declares it; the backend renders ids and
      timestamps as text. */
  datatype Todo = Todo(
    id: string,
    title: string,
    description: string,
    createdAt: string,
    dueTime: string,
    status: string)

  /** The six clickable column headers of the table. */
  datatype Column = Id | Title | Description | CreatedAt | DueTime | Status

  datatype Direction = Asc | Desc

  /** The other direction: "asc" becomes "desc" and back. */
  function Flip(d: Direction): Direction
  {
    if d == Asc then Desc else Asc
  }

  /** The property name a header click passes as the sort column. */
  function ColumnName(c: Column): string
  {
    match c
    case Id => "id"
    case Title => "title"
    case Description => "description"
    case CreatedAt => "created_at"
    case DueTime => "due_time"
    case Status => "status"
  }

  /** Distinct headers pass distinct property names, so comparing the
      clicked name with the active one is the same as comparing columns. */
  lemma ColumnNameInjective(c: Column, d: Column)
    ensures ColumnName(c) == ColumnName(d) <==> c == d
  {
  }

  /** `todo[name]`: the field a property name selects, or none when the
      name is not one of the record's six properties. */
  function Property(t: Todo, name: string): Option<string>
  {
    if name == "id" then Some(t.id)
    else if name == "title" then Some(t.title)
    else if name == "description" then Some(t.description)
    else if name == "created_at" then Some(t.createdAt)
    else if name == "due_time" then Some(t.dueTime)
    else if name == "status" then Some(t.status)
    else None
  }

  /** Every property of the record has a header, and every header names a
      property: the six columns are exactly the record's fields. */
  lemma HeadersCoverProperties(t: Todo, name: string)
    ensures Property(t, name).Some? <==> exists c :: ColumnName(c) == name
  {
    if Property(t, name).Some? {
      var c :=
        if name == "id" then Id
        else if name == "title" then Title
        else if name == "description" then Description
        else if name == "created_at" then CreatedAt
        else if name == "due_time" then DueTime
        else Status;
      assert ColumnName(c) == name;
    }
  }

  /** The value `todo[sortColumn]` that the comparator reads: the property
      named by the header of the column. */
  function Key(t: Todo, c: Column): (r: string)
    ensures Property(t, ColumnName(c)) == Some(r)
  {
    match c
    case Id => t.id
    case Title => t.title
    case Description => t.description
    case CreatedAt => t.createdAt
    case DueTime => t.dueTime
    case Status => t.status
  }

  /** The four inputs of the create and edit dialogs. */
  datatype FormField = TitleInput | DescriptionInput | StatusInput | DueTimeInput

  /** The status a fresh create form starts with and is reset to. */
  const NotStarted: string := "not started"

  /** The message both dialogs show when a required field is blank. */
  const RequiredFieldsMessage: string := "Please fill in all required fields"

  /** A JavaScript string is falsy exactly when it is empty; the dialogs
      reject the form when the title, the status or the due time is falsy.
      The description is optional. */
  predicate MissingRequired(title: string, status: string, dueTime: string)
    ensures !MissingRequired(title, status, dueTime) <==> |title| > 0 && |status| > 0 && |dueTime| > 0
  {
    !Truthy(title) || !Truthy(dueTime) || !Truthy(status)
  }
}
