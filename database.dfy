/** The in-memory user and subject store (`DatabaseService`). The browser's
    `localStorage` is part of the state: `storedUsers` is what the
    "registeredUsers" key holds (an absent key reads as the empty list) and
    `storedSubjects` what the "subjects" key holds, which this service reads
    but never writes. */
module Database {
  import opened Interfaces
  import opened Seqs

  /** `users.find(user => user.email === email)`, as the index of the first
      user with that email, or -1. */
  function UserIndex(users: seq<User>, email: string): (i: int)
    ensures -1 <= i < |users|
    ensures i == -1 <==> forall j :: 0 <= j < |users| ==> users[j].email != email
    ensures i >= 0 ==> users[i].email == email && forall j :: 0 <= j < i ==> users[j].email != email
  {
    IndexOfFirst(users, (u: User) => u.email == email)
  }

  /** `user.subjects || []` */
  function SubjectsOf(u: User): seq<Subject> {
    if u.subjects.Some? then u.subjects.value else []
  }

  /** `list.indexOf(subject)`: the first index holding an equal subject, or -1. */
  function SubjectIndex(list: seq<Subject>, s: Subject): (k: int)
    ensures -1 <= k < |list|
    ensures k == -1 <==> s !in list
    ensures k >= 0 ==> list[k] == s && s !in list[..k]
  {
    IndexOfFirst(list, (x: Subject) => x == s)
  }

  /** The user list after `addSubject(email, s)`: the first user with that
      email gets s at the end of its subject list, a missing list being
      created; no other user changes. */
  function WithSubject(users: seq<User>, email: string, s: Subject): (r: seq<User>)
    ensures |r| == |users|
    ensures forall j :: 0 <= j < |users| ==> r[j].email == users[j].email && r[j].password == users[j].password
    ensures forall j :: 0 <= j < |users| && j != UserIndex(users, email) ==> r[j] == users[j]
    ensures UserIndex(users, email) >= 0 ==>
      r[UserIndex(users, email)].subjects == Some(SubjectsOf(users[UserIndex(users, email)]) + [s])
    ensures UserIndex(users, email) == -1 ==> r == users
  {
    var i := UserIndex(users, email);
    if i == -1 then users
    else users[i := users[i].(subjects := Some(SubjectsOf(users[i]) + [s]))]
  }

  /** Whether `removeSubject(email, s)` finds something to remove: a user
      with that email, holding a subject list, that contains s. */
  predicate CanRemove(users: seq<User>, email: string, s: Subject) {
    var i := UserIndex(users, email);
    i >= 0 && users[i].subjects.Some? && s in users[i].subjects.value
  }

  /** `list.splice(list.indexOf(s), 1)` for a subject in the list: one copy
      of s goes. */
  function RemoveFirst(list: seq<Subject>, s: Subject): (r: seq<Subject>)
    requires s in list
    ensures multiset(r) + multiset{s} == multiset(list)
  {
    RemoveAt(list, SubjectIndex(list, s))
  }

  /** The user list after `removeSubject(email, s)`: the first occurrence of
      s leaves the matching user's list when there is one to remove, and
      nothing changes otherwise. */
  function WithoutSubject(users: seq<User>, email: string, s: Subject): (r: seq<User>)
    ensures |r| == |users|
    ensures forall j :: 0 <= j < |users| ==> r[j].email == users[j].email && r[j].password == users[j].password
    ensures forall j :: 0 <= j < |users| && j != UserIndex(users, email) ==> r[j] == users[j]
    ensures !CanRemove(users, email, s) ==> r == users
    ensures CanRemove(users, email, s) ==>
      var i := UserIndex(users, email);
      var list := users[i].subjects.value;
      r[i].subjects.Some? && multiset(r[i].subjects.value) + multiset{s} == multiset(list)
  {
    if CanRemove(users, email, s) then
      var i := UserIndex(users, email);
      var u := users[i];
      var rest := RemoveFirst(u.subjects.value, s);
      var r := users[i := User(u.email, u.password, Some(rest))];
      assert r[i].subjects == Some(rest);
      r
    else users
  }

  /** The removal takes out exactly the first occurrence: what stood before it
      stays, and everything after it moves up by one. */
  lemma RemovesFirstOccurrence(users: seq<User>, email: string, s: Subject)
    requires CanRemove(users, email, s)
    ensures var i := UserIndex(users, email);
      var list := users[i].subjects.value;
      var k := SubjectIndex(list, s);
      WithoutSubject(users, email, s)[i].subjects == Some(list[..k] + list[k + 1..])
  {
  }

  /** Removing a subject that was just added to a user whose list did not
      hold it restores the user list. (A user without a list ends with an
      empty one instead, so that case is excluded.) */
  lemma RemoveUndoesAdd(users: seq<User>, email: string, s: Subject)
    requires UserIndex(users, email) >= 0
    requires users[UserIndex(users, email)].subjects.Some?
    requires s !in users[UserIndex(users, email)].subjects.value
    ensures WithoutSubject(WithSubject(users, email, s), email, s) == users
  {
    var i := UserIndex(users, email);
    var list := users[i].subjects.value;
    var added := WithSubject(users, email, s);
    assert UserIndex(added, email) == i;
    assert SubjectIndex(list + [s], s) == |list| by {
      assert (list + [s])[|list|] == s;
      assert (list + [s])[..|list|] == list;
    }
    assert RemoveAt(list + [s], |list|) == list;
    assert added[i].(subjects := Some(list)) == users[i];
  }

  class DatabaseService {
    var users: seq<User>
    var isloggedInAdmin: bool
    var isloggedInAdminEmail: string
    var subjects: seq<Subject>
    var storedUsers: seq<User>
    var storedSubjects: seq<Subject>

    /** Every change to `users` is written through to storage at once. */
    ghost predicate Persisted()
      reads this
    {
      storedUsers == users
    }

    /** `loadUsersFromStorage()` at construction. */
    constructor(storedUsers: seq<User>, storedSubjects: seq<Subject>)
      ensures this.storedUsers == storedUsers && this.storedSubjects == storedSubjects
      ensures users == storedUsers && subjects == []
      ensures !isloggedInAdmin && isloggedInAdminEmail == []
      ensures Persisted()
    {
      this.storedUsers := storedUsers;
      this.storedSubjects := storedSubjects;
      users := storedUsers;
      isloggedInAdmin := false;
      isloggedInAdminEmail := [];
      subjects := [];
    }

    /** `loadData()`: both lists are re-read from storage. */
    method LoadData()
      modifies this
      ensures users == storedUsers && subjects == storedSubjects
      ensures storedUsers == old(storedUsers) && storedSubjects == old(storedSubjects)
      ensures isloggedInAdmin == old(isloggedInAdmin) && isloggedInAdminEmail == old(isloggedInAdminEmail)
      ensures Persisted()
    {
      users := storedUsers;
      subjects := storedSubjects;
    }

    /** `loadSubjectsForAdmin()`: the subject list is replaced by the stored
        one, which is returned. */
    method LoadSubjectsForAdmin() returns (r: seq<Subject>)
      modifies this
      ensures r == storedSubjects && subjects == storedSubjects
      ensures users == old(users) && storedUsers == old(storedUsers) && storedSubjects == old(storedSubjects)
      ensures isloggedInAdmin == old(isloggedInAdmin) && isloggedInAdminEmail == old(isloggedInAdminEmail)
    {
      subjects := storedSubjects;
      r := subjects;
    }

    /** `addUser(user)`: append and persist. */
    method AddUser(u: User)
      modifies this
      ensures users == old(users) + [u]
      ensures Persisted()
      ensures subjects == old(subjects) && storedSubjects == old(storedSubjects)
      ensures isloggedInAdmin == old(isloggedInAdmin) && isloggedInAdminEmail == old(isloggedInAdminEmail)
    {
      users := users + [u];
      storedUsers := users;
    }

    /** `getUsers()`: a copy of the list; nothing changes. */
    method GetUsers() returns (r: seq<User>)
      ensures r == users
    {
      r := users;
    }

    /** `clearUsers()`: empty the list and persist. */
    method ClearUsers()
      modifies this
      ensures users == [] && storedUsers == []
      ensures subjects == old(subjects) && storedSubjects == old(storedSubjects)
      ensures isloggedInAdmin == old(isloggedInAdmin) && isloggedInAdminEmail == old(isloggedInAdminEmail)
    {
      users := [];
      storedUsers := users;
    }

    /** `addSubject(email, s)`: s always joins the service's subject list; it
        joins the matching user's list, which is persisted, when a user has
        that email, and otherwise users and storage stay as they were. */
    method AddSubject(email: string, s: Subject)
      modifies this
      ensures subjects == old(subjects) + [s]
      ensures users == WithSubject(old(users), email, s)
      ensures UserIndex(old(users), email) >= 0 ==> storedUsers == users
      ensures UserIndex(old(users), email) == -1 ==> users == old(users) && storedUsers == old(storedUsers)
      ensures storedSubjects == old(storedSubjects)
      ensures isloggedInAdmin == old(isloggedInAdmin) && isloggedInAdminEmail == old(isloggedInAdminEmail)
      ensures old(Persisted()) ==> Persisted()
    {
      subjects := subjects + [s];
      var i := UserIndex(users, email);
      if i > -1 {
        var u := users[i];
        users := users[i := u.(subjects := Some(SubjectsOf(u) + [s]))];
        storedUsers := users;
      }
    }

    /** `removeSubject(email, s)`. `indexOf` compares objects by identity:
        `held` says whether s is one of the objects in the matching user's
        list, and a copy, however equal, is not found. When it is held, its
        first occurrence leaves that list, which is persisted; when there is
        no such user, no list or no such object nothing changes. The
        service's own subject list is never touched. */
    method RemoveSubject(email: string, s: Subject, held: bool)
      modifies this
      ensures users == (if held then WithoutSubject(old(users), email, s) else old(users))
      ensures held && CanRemove(old(users), email, s) ==> storedUsers == users
      ensures !(held && CanRemove(old(users), email, s)) ==> users == old(users) && storedUsers == old(storedUsers)
      ensures subjects == old(subjects) && storedSubjects == old(storedSubjects)
      ensures isloggedInAdmin == old(isloggedInAdmin) && isloggedInAdminEmail == old(isloggedInAdminEmail)
      ensures old(Persisted()) ==> Persisted()
    {
      var i := UserIndex(users, email);
      if i > -1 && users[i].subjects.Some? {
        var list := users[i].subjects.value;
        var k := if held then SubjectIndex(list, s) else -1;
        if k > -1 {
          users := users[i := users[i].(subjects := Some(RemoveAt(list, k)))];
          storedUsers := users;
        }
      }
    }
  }

  /** Adding a subject and removing that same object again for a user whose
      list did not hold it leaves that user as it was, yet the service's
      subject list keeps the subject. */
  method AddThenRemoveSubject(db: DatabaseService, email: string, s: Subject)
    requires UserIndex(db.users, email) >= 0
    requires db.users[UserIndex(db.users, email)].subjects.Some?
    requires s !in db.users[UserIndex(db.users, email)].subjects.value
    modifies db
    ensures db.users == old(db.users)
    ensures db.subjects == old(db.subjects) + [s]
  {
    RemoveUndoesAdd(db.users, email, s);
    db.AddSubject(email, s);
    db.RemoveSubject(email, s, true);
  }
}
