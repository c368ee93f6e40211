/** The "Create new task" dialog: four inputs, validated before anything is
    sent; the owner's id is looked up first, and the dialog is reset after a
    failed lookup, after a submission and on close. */
module CreateDialog {
  import opened TodoRecord

  /** The body of the POST request that creates a todo. */
  datatype NewTodo = NewTodo(
    title: string,
    description: string,
    dueTime: string,
    status: string,
    userId: string)

  datatype CreateOutcome =
    | Invalid                  // a required input is blank; nothing sent
    | NoSession                // no token; nothing sent
    | LookupFailed             // the user lookup did not answer 201; nothing created
    | Submitted(sent: NewTodo) // POST sent (its answer is not read): the dialog closes, the list is refetched

  class CreateForm {
    var title: string
    var description: string
    var status: string
    var dueTime: string
    var errorMessage: string

    constructor ()
      ensures title == "" && description == "" && status == NotStarted
      ensures dueTime == "" && errorMessage == ""
    {
      title := "";
      description := "";
      status := NotStarted;
      dueTime := "";
      errorMessage := "";
    }

    /** The user types into one of the inputs. */
    method Change(field: FormField, value: string)
      modifies this
      ensures title == (if field == TitleInput then value else old(title))
      ensures description == (if field == DescriptionInput then value else old(description))
      ensures status == (if field == StatusInput then value else old(status))
      ensures dueTime == (if field == DueTimeInput then value else old(dueTime))
      ensures errorMessage == old(errorMessage)
    {
      match field
      case TitleInput => title := value;
      case DescriptionInput => description := value;
      case StatusInput => status := value;
      case DueTimeInput => dueTime := value;
    }

    /** The submit button. The token store and the user lookup are inputs:
        whether a token is present, the lookup's status, and the `detail`
        and `id` fields of its body. */
    method HandleSubmit(tokenPresent: bool, lookupStatus: int, lookupDetail: string, userId: string)
      returns (outcome: CreateOutcome)
      modifies this
      ensures outcome ==
        if MissingRequired(old(title), old(status), old(dueTime)) then Invalid
        else if !tokenPresent then NoSession
        else if lookupStatus != 201 then LookupFailed
        else Submitted(NewTodo(old(title), old(description), old(dueTime), old(status), userId))
      ensures outcome.Invalid? ==> errorMessage == RequiredFieldsMessage
      ensures outcome.LookupFailed? ==> errorMessage == lookupDetail
      ensures outcome.Invalid? || outcome.LookupFailed? || errorMessage == old(errorMessage)
      ensures outcome.LookupFailed? || outcome.Submitted? ==>
        title == "" && description == "" && status == NotStarted
      ensures outcome.Invalid? || outcome.NoSession? ==>
        title == old(title) && description == old(description) && status == old(status)
      ensures dueTime == old(dueTime)
    {
      if MissingRequired(title, status, dueTime) {
        errorMessage := RequiredFieldsMessage;
        return Invalid;
      }
      // the handler reads the token twice in a row; both reads see the same store
      if !tokenPresent {
        return NoSession;
      }
      if lookupStatus != 201 {
        errorMessage := lookupDetail;
        title := "";
        description := "";
        status := NotStarted;
        return LookupFailed;
      }
      var sent := NewTodo(title, description, dueTime, status, userId);
      title := "";
      description := "";
      status := NotStarted;
      return Submitted(sent);
    }

    /** Closing the dialog resets every input but the due time, and the error. */
    method Close()
      modifies this
      ensures title == "" && description == "" && status == NotStarted && errorMessage == ""
      ensures dueTime == old(dueTime)
    {
      title := "";
      description := "";
      status := NotStarted;
      errorMessage := "";
    }
  }
}
