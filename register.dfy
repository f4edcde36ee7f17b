/** The registration form (`RegisterComponent`): its validators and the
    guarded append of a new user to the store. */
module Register {
  import opened Interfaces
  import opened Database

  /** The values of the registration form. `emailPattern` is whether the
      email text matches Angular's email pattern, which is not modelled. */
  datatype RegisterForm = RegisterForm(
    email: string,
    password: string,
    confirmPassword: string,
    emailPattern: bool)

  /** `passwordMatchValidator`: the group error `passwordMismatch`, present
      exactly when the two passwords differ. */
  function PasswordMatchValidator(f: RegisterForm): (passwordMismatch: bool)
    ensures passwordMismatch <==> f.password != f.confirmPassword
  {
    !(f.password == f.confirmPassword)
  }

  /** The form is valid when no control and no group validator reports an
      error: email required and well formed, password required and of at
      least 6 characters, confirmation required, and the two passwords
      equal. (`minLength` and `email` pass an empty value; `required`
      rejects it.) */
  predicate FormValid(f: RegisterForm) {
    f.email != [] && f.emailPattern
    && f.password != [] && |f.password| >= 6
    && f.confirmPassword != []
    && !PasswordMatchValidator(f)
  }

  /** The mismatch error alone blocks a submission, and a form that passes
      has a confirmed password of at least six characters and an email. */
  lemma MismatchBlocksRegistration(f: RegisterForm)
    ensures PasswordMatchValidator(f) ==> !FormValid(f)
    ensures FormValid(f) ==> f.password == f.confirmPassword && |f.password| >= 6 && f.email != []
    ensures f.password != [] && |f.password| >= 6 && f.email != [] && f.emailPattern ==>
              (FormValid(f) <==> f.confirmPassword == f.password)
  {
  }

  /** `users.some(user => user.email === email)` */
  predicate EmailTaken(users: seq<User>, email: string) {
    UserIndex(users, email) >= 0
  }

  /** No two users share an email. */
  predicate UniqueEmails(users: seq<User>) {
    forall i, j :: 0 <= i < j < |users| ==> users[i].email != users[j].email
  }

  /** Appending a user whose email is not taken keeps the emails unique. */
  lemma AppendFreshEmail(users: seq<User>, u: User)
    requires UniqueEmails(users) && !EmailTaken(users, u.email)
    ensures UniqueEmails(users + [u])
  {
    var r := users + [u];
    forall i, j | 0 <= i < j < |r|
      ensures r[i].email != r[j].email
    {
      assert r[i] == users[i];
      if j < |users| {
        assert r[j] == users[j];
      }
    }
  }

  const DuplicateEmailError: string := "A user with this email already exists."

  class RegisterComponent {
    const database: DatabaseService
    var registerSuccess: bool
    var registerError: string

    constructor(database: DatabaseService)
      ensures this.database == database
      ensures !registerSuccess && registerError == []
    {
      this.database := database;
      registerSuccess := false;
      registerError := [];
    }

    /** `onSubmit()`: messages are reset first; an invalid form adds
        nothing; a taken email sets the error and adds nothing; otherwise
        exactly `{email, password}` is appended and success is set. */
    method OnSubmit(form: RegisterForm)
      modifies this, database
      ensures !FormValid(form) ==>
        !registerSuccess && registerError == [] && database.users == old(database.users)
      ensures FormValid(form) && EmailTaken(old(database.users), form.email) ==>
        !registerSuccess && registerError == DuplicateEmailError && database.users == old(database.users)
      ensures FormValid(form) && !EmailTaken(old(database.users), form.email) ==>
        registerSuccess && registerError == []
        && database.users == old(database.users) + [User(form.email, form.password, None)]
      ensures database.users != old(database.users) ==>
        form.password == form.confirmPassword && |form.password| >= 6
      ensures old(database.Persisted()) ==> database.Persisted()
      ensures UniqueEmails(old(database.users)) ==> UniqueEmails(database.users)
      ensures database.subjects == old(database.subjects)
      ensures database.users == old(database.users) ==> database.storedUsers == old(database.storedUsers)
      ensures database.storedSubjects == old(database.storedSubjects)
      ensures database.isloggedInAdmin == old(database.isloggedInAdmin)
      ensures database.isloggedInAdminEmail == old(database.isloggedInAdminEmail)
    {
      registerError := [];
      registerSuccess := false;
      if !FormValid(form) {
        return;
      }
      var users := database.GetUsers();
      if EmailTaken(users, form.email) {
        registerError := DuplicateEmailError;
        return;
      }
      if UniqueEmails(users) {
        AppendFreshEmail(users, User(form.email, form.password, None));
      }
      database.AddUser(User(form.email, form.password, None));
      registerSuccess := true;
    }
  }

  /** Submitting the same valid form twice registers the user once: the
      second submission finds the email taken. */
  method RegisterTwice(c: RegisterComponent, form: RegisterForm)
    requires FormValid(form) && !EmailTaken(c.database.users, form.email)
    modifies c, c.database
    ensures c.database.users == old(c.database.users) + [User(form.email, form.password, None)]
    ensures !c.registerSuccess && c.registerError == DuplicateEmailError
  {
    c.OnSubmit(form);
    assert c.database.users[|c.database.users| - 1].email == form.email;
    c.OnSubmit(form);
  }
}
