/** The edit dialog of one table row: its four inputs start from the row's
    values, are validated before anything is sent, and revert to those
    values when the server rejects the update. The values reverted to are
    the row as the table last rendered it, not as it was when the dialog
    was first shown. */
module EditDialog {
  import opened TodoRecord

  /** The body of the PUT request for the row. */
  datatype UpdateRequest = UpdateRequest(
    id: string,
    title: string,
    description: string,
    status: string,
    dueTime: string)

  datatype UpdateOutcome =
    | Invalid                         // a required input is blank; nothing sent
    | NoSession                       // no token; nothing sent
    | Rejected(sent: UpdateRequest)   // sent, answered with a status other than 200
    | Saved(sent: UpdateRequest)      // sent and answered 200: the dialog closes, the list is refetched

  class UpdateForm {
    /** The row the dialog edits, as the table passed it in on the latest
        render. */
    var row: Todo
    var newTitle: string
    var newDescription: string
    var newStatus: string
    var newDueTime: string
    var errorMessage: string

    /** The inputs hold the row's own values. */
    predicate ShowsRow()
      reads this
    {
      newTitle == row.title && newDescription == row.description &&
      newStatus == row.status && newDueTime == row.dueTime
    }

    constructor (row: Todo)
      ensures this.row == row && ShowsRow() && errorMessage == ""
    {
      this.row := row;
      newTitle := row.title;
      newDescription := row.description;
      newStatus := row.status;
      newDueTime := row.dueTime;
      errorMessage := "";
    }

    /** The table renders again (after a refetch, say) and passes the row
        with the same id, possibly with new values. The dialog stays mounted
        under the row's key, so its inputs and error keep their state and
        only the values a later revert restores change. */
    method Rerender(r: Todo)
      requires r.id == row.id
      modifies this
      ensures row == r
      ensures newTitle == old(newTitle) && newDescription == old(newDescription)
      ensures newStatus == old(newStatus) && newDueTime == old(newDueTime)
      ensures errorMessage == old(errorMessage)
    {
      row := r;
    }

    /** The user types into one of the inputs. */
    method Change(field: FormField, value: string)
      modifies this
      ensures row == old(row)
      ensures newTitle == (if field == TitleInput then value else old(newTitle))
      ensures newDescription == (if field == DescriptionInput then value else old(newDescription))
      ensures newStatus == (if field == StatusInput then value else old(newStatus))
      ensures newDueTime == (if field == DueTimeInput then value else old(newDueTime))
      ensures errorMessage == old(errorMessage)
    {
      match field
      case TitleInput => newTitle := value;
      case DescriptionInput => newDescription := value;
      case StatusInput => newStatus := value;
      case DueTimeInput => newDueTime := value;
    }

    /** The "Edit" button. The token store and the PUT request are inputs:
        whether a token is present, the response status and the message of
        an error response. */
    method HandleUpdate(tokenPresent: bool, responseStatus: int, responseMessage: string)
      returns (outcome: UpdateOutcome)
      modifies this
      ensures row == old(row)
      ensures var sent := UpdateRequest(row.id, old(newTitle), old(newDescription), old(newStatus), old(newDueTime));
        outcome ==
          if MissingRequired(old(newTitle), old(newStatus), old(newDueTime)) then Invalid
          else if !tokenPresent then NoSession
          else if responseStatus != 200 then Rejected(sent)
          else Saved(sent)
      ensures outcome.Invalid? ==> errorMessage == RequiredFieldsMessage
      ensures outcome.Rejected? ==> errorMessage == responseMessage && ShowsRow()
      ensures outcome.Rejected? || outcome.Invalid? || errorMessage == old(errorMessage)
      ensures !outcome.Rejected? ==>
        newTitle == old(newTitle) && newDescription == old(newDescription) &&
        newStatus == old(newStatus) && newDueTime == old(newDueTime)
    {
      if MissingRequired(newTitle, newStatus, newDueTime) {
        errorMessage := RequiredFieldsMessage;
        return Invalid;
      }
      if !tokenPresent {
        return NoSession;
      }
      var sent := UpdateRequest(row.id, newTitle, newDescription, newStatus, newDueTime);
      if responseStatus != 200 {
        errorMessage := responseMessage;
        newTitle := row.title;
        newDescription := row.description;
        newStatus := row.status;
        newDueTime := row.dueTime;
        return Rejected(sent);
      }
      return Saved(sent);
    }

    /** Closing the dialog clears the error and keeps the inputs. */
    method Close()
      modifies this
      ensures row == old(row)
      ensures errorMessage == ""
      ensures newTitle == old(newTitle) && newDescription == old(newDescription)
      ensures newStatus == old(newStatus) && newDueTime == old(newDueTime)
    {
      errorMessage := "";
    }
  }

  /** Edit "A" to "B" and save; the refetched table renders the row as "B".
      Edit it to "C" and have the update rejected: the input reverts to
      "B", the value of the latest render, not "A". */
  method RevertsToLatestRender() returns (shown: string)
    ensures shown == "B"
  {
    var first := Todo("1", "A", "", "2024-01-01 09:00:00", "2024-01-02T10:00", NotStarted);
    var form := new UpdateForm(first);
    form.Change(TitleInput, "B");
    var outcome := form.HandleUpdate(true, 200, "");
    form.Rerender(first.(title := "B"));
    form.Change(TitleInput, "C");
    outcome := form.HandleUpdate(true, 500, "update failed");
    shown := form.newTitle;
  }
}
