/** The subject administration panel of the profile settings
    (`AddSubjectComponent`): a form that adds a subject with its hourly pay
    rate, rejecting names already listed, and the list's totals. */
module AddSubject {
  import opened Text
  import opened Interfaces
  import opened Seqs
  import opened Database

  /** The values of the add-subject form when it is read. An empty number
      input has the value null, here None. */
  datatype SubjectForm = SubjectForm(subjectName: string, payPerHour: Option<real>)

  /** The error object of one control: `required`, `minlength` with its
      required length, `min` with its minimum. */
  datatype FieldErrors = FieldErrors(required: bool, minlength: Option<nat>, min: Option<nat>)

  const MinNameLength: nat := 2
  const MinPayPerHour: nat := 1

  /** `subjectName: ['', [required, minLength(2)]]`: `minLength` lets an
      empty value through, which `required` reports. */
  function SubjectNameErrors(name: string): Option<FieldErrors> {
    if name == [] then Some(FieldErrors(true, None, None))
    else if |name| < MinNameLength then Some(FieldErrors(false, Some(MinNameLength), None))
    else None
  }

  /** `payPerHour: [0, [required, min(1)]]`: `min` lets a null value
      through, which `required` reports. */
  function PayPerHourErrors(pay: Option<real>): Option<FieldErrors> {
    if pay.None? then Some(FieldErrors(true, None, None))
    else if pay.value < MinPayPerHour as real then Some(FieldErrors(false, None, Some(MinPayPerHour)))
    else None
  }

  /** `addSubjectForm.get(fieldName)?.errors`: unknown names have no control. */
  function ControlErrors(fieldName: string, values: SubjectForm): Option<FieldErrors> {
    if fieldName == "subjectName" then SubjectNameErrors(values.subjectName)
    else if fieldName == "payPerHour" then PayPerHourErrors(values.payPerHour)
    else None
  }

  /** `addSubjectForm.valid`: no control has an error. That is a name of at
      least two characters and a rate of at least 1. */
  function FormValid(values: SubjectForm): (valid: bool)
    ensures valid <==> |values.subjectName| >= MinNameLength
                       && values.payPerHour.Some? && values.payPerHour.value >= MinPayPerHour as real
  {
    SubjectNameErrors(values.subjectName).None? && PayPerHourErrors(values.payPerHour).None?
  }

  /** The message for one control's errors: `required` first, then
      `minlength`, then `min`; no errors give ''. */
  function FieldMessage(fieldName: string, errors: Option<FieldErrors>): string {
    match errors
    case None => ""
    case Some(e) =>
      if e.required then fieldName + " is required"
      else if e.minlength.Some? then fieldName + " must be at least " + NatToString(e.minlength.value) + " characters"
      else if e.min.Some? then fieldName + " must be at least " + NatToString(e.min.value)
      else ""
  }

  /** `getFieldError(fieldName)` */
  function GetFieldError(fieldName: string, values: SubjectForm): string {
    FieldMessage(fieldName, ControlErrors(fieldName, values))
  }

  /** What `getFieldError` says about a subject name: an empty name is
      required, a one-character name is too short, and a valid name has no
      message. */
  lemma SubjectNameMessages(fieldName: string, name: string)
    ensures name == [] ==> FieldMessage(fieldName, SubjectNameErrors(name)) == fieldName + " is required"
    ensures |name| == 1 ==>
      FieldMessage(fieldName, SubjectNameErrors(name)) == fieldName + " must be at least " + NatToString(2) + " characters"
    ensures FieldMessage(fieldName, SubjectNameErrors(name)) == [] <==> |name| >= 2
  {
    if name == [] || |name| == 1 {
      assert |FieldMessage(fieldName, SubjectNameErrors(name))| > 0;
    }
  }

  /** What `getFieldError` says about a pay rate: a missing rate is
      required, a rate below 1 is too small, and a valid rate has no
      message. */
  lemma PayPerHourMessages(fieldName: string, pay: Option<real>)
    ensures pay.None? ==> FieldMessage(fieldName, PayPerHourErrors(pay)) == fieldName + " is required"
    ensures pay.Some? && pay.value < 1.0 ==>
      FieldMessage(fieldName, PayPerHourErrors(pay)) == fieldName + " must be at least " + NatToString(1)
    ensures FieldMessage(fieldName, PayPerHourErrors(pay)) == [] <==> pay.Some? && pay.value >= 1.0
  {
    if !(pay.Some? && pay.value >= 1.0) {
      assert |FieldMessage(fieldName, PayPerHourErrors(pay))| > 0;
    }
  }

  /** The form is valid exactly when neither field has a message to show. */
  lemma ValidIffNoMessages(values: SubjectForm)
    ensures FormValid(values) <==>
      GetFieldError("subjectName", values) == [] && GetFieldError("payPerHour", values) == []
  {
    SubjectNameMessages("subjectName", values.subjectName);
    PayPerHourMessages("payPerHour", values.payPerHour);
  }

  /** `subjects.some(s => s.subjectName.toLowerCase() === name.toLowerCase())`;
      `onAddSubject`'s `find` makes the same test. */
  function IsSubjectNameExists(subjects: seq<Subject>, name: string): (found: bool)
    ensures found <==> exists i :: 0 <= i < |subjects| && EqualsIgnoreCase(subjects[i].subjectName, name)
  {
    IndexOfFirst(subjects, (s: Subject) => EqualsIgnoreCase(s.subjectName, name)) >= 0
  }

  /** Case does not matter to the test. */
  lemma NameExistsIgnoresCase(subjects: seq<Subject>, a: string, b: string)
    requires EqualsIgnoreCase(a, b)
    ensures IsSubjectNameExists(subjects, a) == IsSubjectNameExists(subjects, b)
  {
  }

  /** `subjects.reduce((total, s) => total + s.payPerHour, 0)`, added from
      the left. */
  function TotalEarningsPerHour(subjects: seq<Subject>): (total: real)
    ensures subjects == [] ==> total == 0.0
    ensures (forall i :: 0 <= i < |subjects| ==> subjects[i].payPerHour >= 0.0) ==> total >= 0.0
    ensures (forall i :: 0 <= i < |subjects| ==> subjects[i].payPerHour >= 0.0) ==>
              forall i :: 0 <= i < |subjects| ==> total >= subjects[i].payPerHour
  {
    if subjects == [] then 0.0
    else TotalEarningsPerHour(subjects[..|subjects| - 1]) + subjects[|subjects| - 1].payPerHour
  }

  /** The total of two lists one after the other is the sum of their totals. */
  lemma {:induction false} TotalEarningsAppend(a: seq<Subject>, b: seq<Subject>)
    ensures TotalEarningsPerHour(a + b) == TotalEarningsPerHour(a) + TotalEarningsPerHour(b)
  {
    if b != [] {
      var b' := b[..|b| - 1];
      assert (a + b)[..|a + b| - 1] == a + b';
      assert (a + b)[|a + b| - 1] == b[|b| - 1];
      TotalEarningsAppend(a, b');
    } else {
      assert a + b == a;
    }
  }

  /** `getTotalSubjectsCount()` */
  function TotalSubjectsCount(subjects: seq<Subject>): (n: nat)
    ensures n == |subjects|
    ensures n == 0 ==> TotalEarningsPerHour(subjects) == 0.0
  {
    |subjects|
  }

  /** With every rate at least the form's minimum of 1, as every subject the
      form adds has, the hourly total is at least the number of subjects. */
  lemma {:induction false} EarningsAtLeastCount(subjects: seq<Subject>)
    requires forall i :: 0 <= i < |subjects| ==> subjects[i].payPerHour >= MinPayPerHour as real
    ensures TotalEarningsPerHour(subjects) >= TotalSubjectsCount(subjects) as real
  {
    if subjects != [] {
      EarningsAtLeastCount(subjects[..|subjects| - 1]);
    }
  }

  const AlreadyExistsError: string := "A subject with this name already exists!"
  const InvalidFormError: string := "Please fill in all required fields correctly."

  function AddedMessage(name: string): string {
    "Subject \"" + name + "\" added successfully!"
  }

  function DeletedMessage(name: string): string {
    "Subject \"" + name + "\" deleted successfully!"
  }

  class AddSubjectComponent {
    const database: DatabaseService
    var subjects: seq<Subject>
    var showAddForm: bool
    var successMessage: string
    var errorMessage: string

    /** The component with its initial fields; `ngOnInit` then loads the
        subjects. */
    constructor(database: DatabaseService)
      ensures this.database == database
      ensures subjects == [] && !showAddForm && successMessage == [] && errorMessage == []
    {
      this.database := database;
      subjects := [];
      showAddForm := false;
      successMessage := [];
      errorMessage := [];
    }

    /** `loadSubjects()`: the list is re-read from storage. */
    method LoadSubjects()
      modifies this, database
      ensures subjects == database.storedSubjects && database.subjects == database.storedSubjects
      ensures showAddForm == old(showAddForm)
      ensures successMessage == old(successMessage) && errorMessage == old(errorMessage)
      ensures database.users == old(database.users) && database.storedUsers == old(database.storedUsers)
      ensures database.storedSubjects == old(database.storedSubjects)
      ensures database.isloggedInAdmin == old(database.isloggedInAdmin)
      ensures database.isloggedInAdminEmail == old(database.isloggedInAdminEmail)
    {
      subjects := database.LoadSubjectsForAdmin();
    }

    /** `onAddSubject()`. An invalid form only sets its error; a name equal,
        ignoring case, to a listed one only sets the duplicate error; and any
        other subject goes to the store under the admin's email whether or
        not the admin session is valid, after which the form is hidden, the
        list is reloaded and the success message names the subject. */
    method OnAddSubject(values: SubjectForm, adminEmail: string, isLoggedInAdmin: bool)
      modifies this, database
      ensures !FormValid(values) ==>
        errorMessage == InvalidFormError && successMessage == old(successMessage)
        && subjects == old(subjects) && showAddForm == old(showAddForm)
        && database.users == old(database.users) && database.storedUsers == old(database.storedUsers)
        && database.subjects == old(database.subjects)
      ensures FormValid(values) && IsSubjectNameExists(old(subjects), values.subjectName) ==>
        errorMessage == AlreadyExistsError && successMessage == old(successMessage)
        && subjects == old(subjects) && showAddForm == old(showAddForm)
        && database.users == old(database.users) && database.storedUsers == old(database.storedUsers)
        && database.subjects == old(database.subjects)
      ensures FormValid(values) && !IsSubjectNameExists(old(subjects), values.subjectName) ==>
        var s := Subject(values.subjectName, values.payPerHour.value);
        database.users == WithSubject(old(database.users), adminEmail, s)
        && !showAddForm && successMessage == AddedMessage(values.subjectName)
        && errorMessage == old(errorMessage)
        && subjects == database.storedSubjects && database.subjects == database.storedSubjects
      ensures database.storedSubjects == old(database.storedSubjects)
      ensures database.isloggedInAdmin == old(database.isloggedInAdmin)
      ensures database.isloggedInAdminEmail == old(database.isloggedInAdminEmail)
      ensures old(database.Persisted()) ==> database.Persisted()
    {
      if FormValid(values) {
        var s := Subject(values.subjectName, values.payPerHour.value);
        if IsSubjectNameExists(subjects, s.subjectName) {
          errorMessage := AlreadyExistsError;
          return;
        }
        database.AddSubject(adminEmail, s);
        showAddForm := false;
        LoadSubjects();
        successMessage := AddedMessage(s.subjectName);
      } else {
        errorMessage := InvalidFormError;
      }
    }

    /** `deleteSubject(subject)`, for a subject of the component's list.
        That list is always a fresh parse of the stored "subjects" entry, so
        its objects are never the ones in a user's list, and the store's
        identity search finds nothing to remove. A confirmed deletion
        therefore leaves every user as it was, reloads the list and still
        reports success; without confirmation nothing changes. */
    method DeleteSubject(s: Subject, adminEmail: string, confirmed: bool)
      modifies this, database
      ensures database.users == old(database.users) && database.storedUsers == old(database.storedUsers)
      ensures !confirmed ==>
        subjects == old(subjects) && database.subjects == old(database.subjects)
        && successMessage == old(successMessage) && errorMessage == old(errorMessage)
      ensures confirmed ==>
        subjects == database.storedSubjects && database.subjects == database.storedSubjects
        && successMessage == DeletedMessage(s.subjectName) && errorMessage == old(errorMessage)
      ensures showAddForm == old(showAddForm)
      ensures database.storedSubjects == old(database.storedSubjects)
      ensures database.isloggedInAdmin == old(database.isloggedInAdmin)
      ensures database.isloggedInAdminEmail == old(database.isloggedInAdminEmail)
    {
      if confirmed {
        database.RemoveSubject(adminEmail, s, false);
        LoadSubjects();
        successMessage := DeletedMessage(s.subjectName);
      }
    }

    /** `toggleAddForm()`: flips the form's visibility and clears both
        messages only when it opens. */
    method ToggleAddForm()
      modifies this
      ensures showAddForm == !old(showAddForm)
      ensures showAddForm ==> successMessage == [] && errorMessage == []
      ensures !showAddForm ==> successMessage == old(successMessage) && errorMessage == old(errorMessage)
      ensures subjects == old(subjects)
    {
      showAddForm := !showAddForm;
      if showAddForm {
        ClearMessage();
      }
    }

    /** `cancelAddForm()`: hides the form and clears both messages. */
    method CancelAddForm()
      modifies this
      ensures !showAddForm && successMessage == [] && errorMessage == []
      ensures subjects == old(subjects)
    {
      showAddForm := false;
      ClearMessage();
    }

    /** `clearMessage()` */
    method ClearMessage()
      modifies this
      ensures successMessage == [] && errorMessage == []
      ensures showAddForm == old(showAddForm) && subjects == old(subjects)
    {
      successMessage := [];
      errorMessage := [];
    }
  }

  /** Opening and then cancelling the form leaves it hidden with no
      messages, from any state. */
  method OpenThenCancel(c: AddSubjectComponent)
    requires !c.showAddForm
    modifies c
    ensures !c.showAddForm && c.successMessage == [] && c.errorMessage == []
    ensures c.subjects == old(c.subjects)
  {
    c.ToggleAddForm();
    c.CancelAddForm();
  }

  /** Deleting from the panel the subject just added reports success, yet
      the admin keeps the subject in the store. */
  method AddThenDelete(c: AddSubjectComponent, values: SubjectForm, adminEmail: string)
    requires FormValid(values) && !IsSubjectNameExists(c.subjects, values.subjectName)
    modifies c, c.database
    ensures c.database.users
         == WithSubject(old(c.database.users), adminEmail, Subject(values.subjectName, values.payPerHour.value))
    ensures c.successMessage == DeletedMessage(values.subjectName)
  {
    c.OnAddSubject(values, adminEmail, true);
    c.DeleteSubject(Subject(values.subjectName, values.payPerHour.value), adminEmail, true);
  }

  /** A subject that is added is not in the list afterwards unless storage
      already held one of its name: the list is reloaded from the stored
      "subjects" entry, which the store never writes. So the same valid
      subject can be added twice in a row, and both additions reach the
      admin's list in the store. */
  method AddSameSubjectTwice(c: AddSubjectComponent, values: SubjectForm, adminEmail: string)
    requires FormValid(values)
    requires !IsSubjectNameExists(c.subjects, values.subjectName)
    requires !IsSubjectNameExists(c.database.storedSubjects, values.subjectName)
    modifies c, c.database
    ensures var s := Subject(values.subjectName, values.payPerHour.value);
      c.database.users == WithSubject(WithSubject(old(c.database.users), adminEmail, s), adminEmail, s)
    ensures c.successMessage == AddedMessage(values.subjectName)
    ensures c.errorMessage == old(c.errorMessage)
  {
    c.OnAddSubject(values, adminEmail, true);
    c.OnAddSubject(values, adminEmail, false);
  }
}
