/** `GET /api/contacts` and `GET /api/contacts/:id`: turning query results into replies. */
module ContactQueries {
  import opened Records
  import opened Responses

  const ListErrorMessage := "Error retrieving contacts"
  const GetErrorMessage := "Error retrieving contact"
  const NotFoundMessage := "Contact not found"

  /** The list handler, given the outcome of its SELECT. */
  method ListContacts(exec: Exec) returns (reply: Reply)
    ensures exec.Threw? ==> reply == Failure(500, ListErrorMessage)
    ensures exec.Returned? ==> reply.ContactList? && reply.Status() == 200
    ensures exec == Returned([]) ==> reply == ContactList([])
    ensures exec.Returned? && |exec.sets| > 0 ==>
              && |reply.contacts| == |exec.sets[0].values|
              && forall k :: 0 <= k < |reply.contacts| ==>
                   reply.contacts[k] == RecordOf(exec.sets[0].columns, exec.sets[0].values[k])
  {
    match exec
    case Threw =>
      reply := Failure(500, ListErrorMessage);
    case Returned(sets) =>
      var contacts := BuildRecords(sets);
      reply := ContactList(contacts);
  }

  /** The by-id handler, given the outcome of its SELECT. */
  method GetContact(exec: Exec) returns (reply: Reply)
    ensures exec.Threw? ==> reply == Failure(500, GetErrorMessage)
    ensures exec.Returned? && (|exec.sets| == 0 || |exec.sets[0].values| == 0) ==>
              reply == Failure(404, NotFoundMessage)
    ensures exec.Returned? && |exec.sets| > 0 && |exec.sets[0].values| > 0 ==>
              reply == ContactFound(RecordOf(exec.sets[0].columns, exec.sets[0].values[0]))
  {
    match exec
    case Threw =>
      reply := Failure(500, GetErrorMessage);
    case Returned(sets) =>
      var found := FirstRecord(sets);
      match found
      case None =>
        reply := Failure(404, NotFoundMessage);
      case Some(contact) =>
        reply := ContactFound(contact);
  }
}
