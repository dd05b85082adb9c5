/** What the handlers send back, and what they get from the database engine. */
module Responses {
  import opened JsValue
  import opened Records

  /** The outcome of one `db.exec` call: it threw, or it returned its result sets. */
  datatype Exec = Threw | Returned(sets: seq<ResultSet>)

  /** A JSON reply. `Failure` is `{ success: false, message }` with its status;
      the other three are the success bodies of the three data endpoints
      (`Submitted` also carries the fixed message "Contact form submitted successfully"). */
  datatype Reply =
    | Failure(status: nat, message: string)
    | Submitted(contactId: Value)
    | ContactList(contacts: seq<Record>)
    | ContactFound(contact: Record)
  {
    /** The HTTP status code the reply is sent with. */
    function Status(): nat {
      match this
      case Failure(code, _) => code
      case Submitted(_) => 201
      case ContactList(_) => 200
      case ContactFound(_) => 200
    }
  }
}
