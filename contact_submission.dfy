/** `POST /api/contact`: validating a contact form and storing it. */
module ContactSubmission {
  import opened JsValue
  import opened EmailFormat
  import opened Records
  import opened Responses

  const MissingFieldMessage := "All fields are required including consent"
  const InvalidEmailMessage := "Invalid email format"
  const SubmitErrorMessage := "An error occurred while processing your request"

  /** The five body fields the handler reads; an absent field is `Undefined`. */
  datatype ContactForm = ContactForm(firstName: Value, lastName: Value, email: Value, message: Value, consent: Value)

  /** The presence check `!firstName || !lastName || !email || !message || !consent` fails. */
  predicate AllFieldsPresent(f: ContactForm) {
    Truthy(f.firstName) && Truthy(f.lastName) && Truthy(f.email) && Truthy(f.message) && Truthy(f.consent)
  }

  /** `emailRegex.test(email)`, which first converts its argument to a string. */
  predicate EmailPasses(email: Value): (p: bool)
    ensures p ==> email.Str? && 5 <= |email.s|
  {
    if email.Str? then MatchesEmailRegex(ToJsString(email))
    else
      RejectsWithoutAtSign(ToJsString(email));
      MatchesEmailRegex(ToJsString(email))
  }

  /** Only a string can pass the e-mail test, and a string passes exactly when
      it is a well-formed address. */
  lemma EmailPassesMeaning(email: Value)
    ensures EmailPasses(email) <==> email.Str? && WellFormedEmail(email.s)
  {
    EmailRegexCharacterisation(ToJsString(email));
    if !email.Str? {
      RejectsWithoutAtSign(ToJsString(email));
    }
  }

  datatype Verdict = MissingField | InvalidEmail | Valid

  /** The two checks in order: the presence check first, then the e-mail pattern. */
  function Validate(f: ContactForm): (v: Verdict)
    ensures v == MissingField <==>
              !Truthy(f.firstName) || !Truthy(f.lastName) || !Truthy(f.email) || !Truthy(f.message) || !Truthy(f.consent)
    ensures v == InvalidEmail <==> AllFieldsPresent(f) && !(f.email.Str? && WellFormedEmail(f.email.s))
    ensures v == Valid <==> AllFieldsPresent(f) && f.email.Str? && WellFormedEmail(f.email.s)
  {
    EmailPassesMeaning(f.email);
    if !AllFieldsPresent(f) then MissingField
    else if !EmailPasses(f.email) then InvalidEmail
    else Valid
  }

  /** `consent ? 1 : 0`. */
  function ConsentFlag(consent: Value): (n: int)
    ensures n == 0 || n == 1
    ensures n == 1 <==> Truthy(consent)
  {
    if Truthy(consent) then 1 else 0
  }

  /** The values bound to the INSERT statement (request metadata left out). */
  datatype ContactRow = ContactRow(firstName: Value, lastName: Value, email: Value, message: Value, consent: int)

  function RowOf(f: ContactForm): (r: ContactRow)
    ensures r.firstName == f.firstName && r.lastName == f.lastName && r.email == f.email && r.message == f.message
    ensures r.consent == 1 <==> Truthy(f.consent)
    ensures AllFieldsPresent(f) ==> r.consent == 1
  {
    ContactRow(f.firstName, f.lastName, f.email, f.message, ConsentFlag(f.consent))
  }

  /** What the handler did to the store, in order: an INSERT that went through,
      and a completed write of the database file. */
  datatype Effect = Insert(row: ContactRow) | Save

  /** How the database layer behaves during one submission: whether the INSERT
      succeeds, what `SELECT last_insert_rowid()` gives, whether the file write succeeds. */
  datatype Engine = Engine(insertSucceeds: bool, lastInsertId: Exec, saveSucceeds: bool)

  datatype Handled = Handled(effects: seq<Effect>, reply: Reply)

  /** `result[0].values[0][0]`: nothing when the query threw or when the
      property access throws for want of a result set or a first row. */
  function LastInsertId(exec: Exec): (r: Option<Value>)
    ensures r.None? <==> exec.Threw? || |exec.sets| == 0 || |exec.sets[0].values| == 0
    ensures r.Some? ==> r.value == Cell(exec.sets[0].values[0], 0)
    ensures r.Some? && exec.sets[0].values[0] == [] ==> r.value == Undefined
  {
    match exec
    case Threw => None
    case Returned(sets) =>
      if |sets| == 0 || |sets[0].values| == 0 then None else Some(Cell(sets[0].values[0], 0))
  }

  /** The whole handler: validation, INSERT, id lookup, save, reply. */
  function Submit(f: ContactForm, engine: Engine): (h: Handled)
    ensures Validate(f) == MissingField ==> h == Handled([], Failure(400, MissingFieldMessage))
    ensures Validate(f) == InvalidEmail ==> h == Handled([], Failure(400, InvalidEmailMessage))
    ensures h.effects == [] || h.effects == [Insert(RowOf(f))] || h.effects == [Insert(RowOf(f)), Save]
    ensures h.effects != [] ==> Validate(f) == Valid && h.effects[0].row.consent == 1
    ensures h.reply.Submitted? <==> h.effects == [Insert(RowOf(f)), Save]
    ensures !h.reply.Submitted? ==> h.reply.Failure? && h.reply.Status() in {400, 500}
    ensures h.reply.Status() == 400 <==> Validate(f) != Valid
    ensures Validate(f) == Valid && !engine.insertSucceeds ==> h == Handled([], Failure(500, SubmitErrorMessage))
    ensures Validate(f) == Valid && engine.insertSucceeds ==> |h.effects| > 0 && h.effects[0] == Insert(RowOf(f))
    ensures Validate(f) == Valid && engine.insertSucceeds && !(LastInsertId(engine.lastInsertId).Some? && engine.saveSucceeds) ==>
              h == Handled([Insert(RowOf(f))], Failure(500, SubmitErrorMessage))
    ensures h.reply.Submitted? <==>
              Validate(f) == Valid && engine.insertSucceeds && LastInsertId(engine.lastInsertId).Some? && engine.saveSucceeds
    ensures h.reply.Submitted? ==> h.reply.contactId == LastInsertId(engine.lastInsertId).value
  {
    match Validate(f)
    case MissingField => Handled([], Failure(400, MissingFieldMessage))
    case InvalidEmail => Handled([], Failure(400, InvalidEmailMessage))
    case Valid =>
      var inserted := [Insert(RowOf(f))];
      if !engine.insertSucceeds then Handled([], Failure(500, SubmitErrorMessage))
      else
        match LastInsertId(engine.lastInsertId)
        case None => Handled(inserted, Failure(500, SubmitErrorMessage))
        case Some(id) =>
          if engine.saveSucceeds then Handled(inserted + [Save], Submitted(id))
          else Handled(inserted, Failure(500, SubmitErrorMessage))
  }

  /** A complete, well-formed submission against a working store is inserted
      with consent 1, saved, and answered 201 with the new id. */
  lemma SubmitExample(id: int)
    ensures var f := ContactForm(Str("A"), Str("B"), Str("a@b.com"), Str("hi"), Bool(true));
            var engine := Engine(true, Returned([ResultSet(["id"], [[Int(id)]])]), true);
            Submit(f, engine) == Handled([Insert(ContactRow(Str("A"), Str("B"), Str("a@b.com"), Str("hi"), 1)), Save],
                                         Submitted(Int(id)))
  {
    AcceptsExample();
    EmailRegexCharacterisation("a@b.com");
  }

  /** A malformed address is refused with 400 before anything is stored. */
  lemma RejectExample(engine: Engine)
    ensures var f := ContactForm(Str("A"), Str("B"), Str("not-an-email"), Str("hi"), Bool(true));
            Submit(f, engine) == Handled([], Failure(400, InvalidEmailMessage))
  {
    RejectsExample();
    EmailRegexCharacterisation("not-an-email");
  }
}
