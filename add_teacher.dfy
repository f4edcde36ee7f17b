/** Teacher creation in the profile settings (`AddTeacherComponent`): the
    subject picker, the generated credentials, the guarded creation of a
    teacher record and the activation switch. The clock and the random
    numbers are parameters; so are the results of the teacher store's
    operations, which are not part of this model. */
module AddTeacher {
  import opened Text
  import opened Numbers
  import opened Interfaces
  import opened Seqs
  import opened Database

  // ---------------------------------------------------------------------
  // Generated credentials
  // ---------------------------------------------------------------------

  const TeacherIdPrefix: string := "TCH"

  /** `Date.now().toString().slice(-6)`: the last six digits of the
      timestamp, or all of them when there are fewer. */
  function TimestampDigits(timestamp: nat): (r: string)
    ensures 1 <= |r| <= 6 && AllDigits(r)
    ensures timestamp >= 100000 ==> |r| == 6 && DigitsValue(r) == timestamp % 1000000
  {
    var t := NatToString(timestamp);
    NatToStringLength(timestamp, 5);
    assert Pow10(5) == 100000 && Pow10(6) == 1000000;
    if |t| >= 6 then LastDigitsValue(t, 6); SliceLast(t, 6) else SliceLast(t, 6)
  }

  /** Zeros in front of a digit string do not change its value. */
  lemma PaddedDigits(s: string, n: nat)
    requires AllDigits(s)
    ensures AllDigits(PadStart(s, n, '0')) && DigitsValue(PadStart(s, n, '0')) == DigitsValue(s)
  {
    var p := PadStart(s, n, '0');
    var zeros := p[..|p| - |s|];
    assert p == zeros + s;
    assert forall i :: 0 <= i < |zeros| ==> zeros[i] == '0';
    LeadingZeros(zeros, s);
  }

  /** `random.toString().padStart(3, '0')` for a draw below 1000. */
  function PaddedRandom(random: nat): (r: string)
    requires random < 1000
    ensures |r| == 3 && AllDigits(r) && DigitsValue(r) == random
  {
    NatToStringLength(random, 3);
    assert Pow10(3) == 1000;
    PaddedDigits(NatToString(random), 3);
    PadStart(NatToString(random), 3, '0')
  }

  /** `generateTeacherId()` for the clock reading `timestamp` (milliseconds)
      and the random draw `random` = `Math.floor(Math.random() * 1000)`:
      "TCH", the last six digits of the timestamp, and the draw padded to
      three digits. */
  function GenerateTeacherId(timestamp: nat, random: nat): (id: string)
    requires random < 1000
    ensures |id| == 6 + |TimestampDigits(timestamp)|
    ensures id[..|TeacherIdPrefix|] == TeacherIdPrefix
  {
    var rest := TimestampDigits(timestamp) + PaddedRandom(random);
    PrefixPart(TeacherIdPrefix, rest);
    TeacherIdPrefix + rest
  }

  lemma PrefixPart(a: string, b: string)
    ensures (a + b)[..|a|] == a
  {
  }

  /** Splitting three joined strings gives them back. */
  lemma JoinedParts(a: string, b: string, c: string)
    ensures (a + b + c)[|a|..|a| + |b|] == b && (a + b + c)[|a| + |b|..] == c
  {
  }

  /** For a timestamp of at least six digits the identifier has twelve
      characters, and both numbers can be read back from its digits. */
  lemma TeacherIdFormat(timestamp: nat, random: nat)
    requires timestamp >= 100000 && random < 1000
    ensures var id := GenerateTeacherId(timestamp, random);
      |id| == 12
      && AllDigits(id[3..9]) && DigitsValue(id[3..9]) == timestamp % 1000000
      && AllDigits(id[9..]) && DigitsValue(id[9..]) == random
  {
    var p, t, r := TeacherIdPrefix, TimestampDigits(timestamp), PaddedRandom(random);
    assert |p| == 3;
    var id := GenerateTeacherId(timestamp, random);
    assert id == p + t + r;
    JoinedParts(p, t, r);
  }

  /** `chars` of `generatePassword`: the 66 characters A to Z, a to z,
      0 to 9, then @, #, $ and %. */
  const PasswordChars: string := CharRange('A', 26) + CharRange('a', 26) + CharRange('0', 10) + "@#$%"

  /** The n consecutive characters from `from` on. */
  function CharRange(from: char, n: nat): (r: string)
    requires from as int + n < 0xD800
    ensures |r| == n
    ensures forall i :: 0 <= i < n ==> r[i] as int == from as int + i
  {
    seq(n, i requires 0 <= i < n => (from as int + i) as char)
  }

  /** The position of a character in the alphabet, or -1. */
  function CharIndex(c: char): (k: int)
    ensures -1 <= k < 66
  {
    if 'A' <= c <= 'Z' then c as int - 'A' as int
    else if 'a' <= c <= 'z' then 26 + (c as int - 'a' as int)
    else if '0' <= c <= '9' then 52 + (c as int - '0' as int)
    else if c == '@' then 62
    else if c == '#' then 63
    else if c == '$' then 64
    else if c == '%' then 65
    else -1
  }

  /** The alphabet is 66 different characters, each at its own position. */
  lemma PasswordCharsIndexed()
    ensures |PasswordChars| == 66
    ensures forall i :: 0 <= i < 66 ==> CharIndex(PasswordChars[i]) == i
  {
    var upper, lower, digits := CharRange('A', 26), CharRange('a', 26), CharRange('0', 10);
    forall i | 0 <= i < 66
      ensures CharIndex(PasswordChars[i]) == i
    {
      if i < 26 {
        assert PasswordChars[i] == upper[i];
      } else if i < 52 {
        assert PasswordChars[i] == lower[i - 26];
      } else if i < 62 {
        assert PasswordChars[i] == digits[i - 52];
      } else {
        assert PasswordChars[i] == "@#$%"[i - 62];
      }
    }
  }

  /** The password the draws `picks` select: one character per draw. */
  function PasswordOf(picks: seq<nat>): (password: string)
    requires forall i :: 0 <= i < |picks| ==> picks[i] < |PasswordChars|
    ensures |password| == |picks|
    ensures forall i :: 0 <= i < |picks| ==> password[i] in PasswordChars
  {
    seq(|picks|, i requires 0 <= i < |picks| => PasswordChars[picks[i]])
  }

  /** `generatePassword()` for the eight draws `picks`, each
      `Math.floor(Math.random() * chars.length)`: one character per draw,
      appended in order, eight in all. */
  method GeneratePassword(picks: seq<nat>) returns (password: string)
    requires |picks| == 8 && forall i :: 0 <= i < 8 ==> picks[i] < |PasswordChars|
    ensures |password| == 8
    ensures forall i :: 0 <= i < 8 ==> password[i] == PasswordChars[picks[i]]
    ensures password == PasswordOf(picks)
  {
    password := [];
    var i := 0;
    while i < 8
      invariant 0 <= i <= 8 && |password| == i
      invariant forall j :: 0 <= j < i ==> password[j] == PasswordChars[picks[j]]
    {
      password := password + [PasswordChars[picks[i]]];
      i := i + 1;
    }
  }

  /** The draws of a password, read back from its characters. */
  function PicksOf(password: string): (picks: seq<int>)
    ensures |picks| == |password|
  {
    seq(|password|, i requires 0 <= i < |password| => CharIndex(password[i]))
  }

  /** Every draw can be read back from the password it produced, so
      different draws give different passwords. */
  lemma PasswordDecodes(picks: seq<nat>)
    requires forall i :: 0 <= i < |picks| ==> picks[i] < |PasswordChars|
    ensures PicksOf(PasswordOf(picks)) == picks
  {
    PasswordCharsIndexed();
  }

  // ---------------------------------------------------------------------
  // Subject selection
  // ---------------------------------------------------------------------

  /** `selected.findIndex(s => s.subjectName === name)` */
  function NameIndex(selected: seq<Subject>, name: string): (k: int)
    ensures -1 <= k < |selected|
    ensures k == -1 <==> forall i :: 0 <= i < |selected| ==> selected[i].subjectName != name
    ensures k >= 0 ==> selected[k].subjectName == name
                       && forall i :: 0 <= i < k ==> selected[i].subjectName != name
  {
    IndexOfFirst(selected, (x: Subject) => x.subjectName == name)
  }

  /** `isSubjectSelected(s)`: some selected entry has s's name. */
  function IsSubjectSelected(selected: seq<Subject>, s: Subject): (found: bool)
    ensures found <==> exists i :: 0 <= i < |selected| && selected[i].subjectName == s.subjectName
  {
    NameIndex(selected, s.subjectName) > -1
  }

  /** No two selected entries share a name. */
  predicate UniqueNames(selected: seq<Subject>) {
    forall i, j :: 0 <= i < j < |selected| ==> selected[i].subjectName != selected[j].subjectName
  }

  /** The selection after `toggleSubject(s)`: the first entry with s's name
      removed if there is one, and otherwise a copy of s at the end. */
  function Toggled(selected: seq<Subject>, s: Subject): seq<Subject> {
    var k := NameIndex(selected, s.subjectName);
    if k > -1 then RemoveAt(selected, k) else selected + [s]
  }

  /** Toggling keeps the names unique and flips whether s is selected. */
  lemma ToggleKeepsUnique(selected: seq<Subject>, s: Subject)
    requires UniqueNames(selected)
    ensures UniqueNames(Toggled(selected, s))
    ensures IsSubjectSelected(Toggled(selected, s), s) == !IsSubjectSelected(selected, s)
  {
    var r := Toggled(selected, s);
    var k := NameIndex(selected, s.subjectName);
    if k > -1 {
      forall i, j | 0 <= i < j < |r|
        ensures r[i].subjectName != r[j].subjectName
      {
        var i' := if i < k then i else i + 1;
        var j' := if j < k then j else j + 1;
        assert r[i] == selected[i'] && r[j] == selected[j'];
      }
      forall i | 0 <= i < |r|
        ensures r[i].subjectName != s.subjectName
      {
        var i' := if i < k then i else i + 1;
        assert r[i] == selected[i'];
      }
    } else {
      assert r[|selected|] == s;
    }
  }

  /** Toggling an unselected subject twice restores the selection. */
  lemma ToggleTwiceRestores(selected: seq<Subject>, s: Subject)
    requires !IsSubjectSelected(selected, s)
    ensures Toggled(Toggled(selected, s), s) == selected
  {
    var once := selected + [s];
    assert NameIndex(once, s.subjectName) == |selected| by {
      assert once[|selected|] == s;
    }
    assert once[..|selected|] == selected;
  }

  /** `selected.filter(s => s.subjectName !== name)`: `removeSelectedSubject`. */
  function WithoutName(selected: seq<Subject>, name: string): (r: seq<Subject>)
    ensures forall i :: 0 <= i < |r| ==> r[i].subjectName != name
    ensures forall x :: x in selected && x.subjectName != name ==> x in r
    ensures IsSubsequence(r, selected)
  {
    FilterIsSubsequence(selected, (x: Subject) => x.subjectName != name);
    Filter(selected, (x: Subject) => x.subjectName != name)
  }

  /** What is dropped is exactly the entries with the name: every copy of
      every other entry stays. */
  lemma WithoutNameKeepsCopies(selected: seq<Subject>, name: string)
    ensures multiset(WithoutName(selected, name)) + multiset(Filter(selected, (x: Subject) => x.subjectName == name))
            == multiset(selected)
  {
    FilterPartition(selected, (x: Subject) => x.subjectName != name, (x: Subject) => x.subjectName == name);
  }

  /** The filter takes the list one entry at a time. */
  lemma WithoutNameCons(selected: seq<Subject>, name: string)
    requires selected != []
    ensures WithoutName(selected, name)
         == (if selected[0].subjectName != name then [selected[0]] else []) + WithoutName(selected[1..], name)
  {
  }

  /** A list without the name loses nothing to the filter. */
  lemma {:induction false} WithoutAbsentName(selected: seq<Subject>, name: string)
    requires forall i :: 0 <= i < |selected| ==> selected[i].subjectName != name
    ensures WithoutName(selected, name) == selected
  {
    if selected != [] {
      WithoutNameCons(selected, name);
      assert forall i :: 0 <= i < |selected[1..]| ==> selected[1..][i] == selected[i + 1];
      WithoutAbsentName(selected[1..], name);
    }
  }

  lemma UniqueTail(selected: seq<Subject>)
    requires selected != [] && UniqueNames(selected)
    ensures UniqueNames(selected[1..])
    ensures forall i :: 0 <= i < |selected[1..]| ==> selected[1..][i].subjectName != selected[0].subjectName
  {
  }

  /** Past the first entry, the toggle works on the tail. */
  lemma ToggledCons(selected: seq<Subject>, s: Subject)
    requires selected != [] && selected[0].subjectName != s.subjectName
    requires IsSubjectSelected(selected, s)
    ensures IsSubjectSelected(selected[1..], s)
    ensures Toggled(selected, s) == [selected[0]] + Toggled(selected[1..], s)
  {
    var k := NameIndex(selected, s.subjectName);
    var tail := selected[1..];
    assert tail[k - 1] == selected[k];
    assert NameIndex(tail, s.subjectName) == k - 1 by {
      forall i | 0 <= i < k - 1
        ensures tail[i].subjectName != s.subjectName
      {
        assert tail[i] == selected[i + 1];
      }
    }
    assert RemoveAt(selected, k) == [selected[0]] + RemoveAt(tail, k - 1);
  }

  /** With unique names, toggling a selected subject removes it just as
      `removeSelectedSubject` does. */
  lemma {:induction false} ToggleSelectedIsRemove(selected: seq<Subject>, s: Subject)
    requires UniqueNames(selected) && IsSubjectSelected(selected, s)
    ensures Toggled(selected, s) == WithoutName(selected, s.subjectName)
  {
    var name := s.subjectName;
    UniqueTail(selected);
    WithoutNameCons(selected, name);
    if selected[0].subjectName == name {
      assert NameIndex(selected, name) == 0;
      WithoutAbsentName(selected[1..], name);
    } else {
      ToggledCons(selected, s);
      ToggleSelectedIsRemove(selected[1..], s);
    }
  }

  // ---------------------------------------------------------------------
  // The form and the teacher record
  // ---------------------------------------------------------------------

  /** The values of the add-teacher form. `emailPattern` is whether the
      email matches Angular's email pattern, which is not modelled. */
  datatype TeacherForm = TeacherForm(
    teacherName: string,
    email: string,
    phone: string,
    address: string,
    emailPattern: bool)

  /** `addTeacherForm.valid`: a name of at least two characters, a well
      formed email, a phone of exactly ten digits and an address, each
      required. The checks see the values before trimming. */
  predicate FormValid(f: TeacherForm) {
    f.teacherName != [] && |f.teacherName| >= 2
    && f.email != [] && f.emailPattern
    && f.phone != [] && |f.phone| == 10 && AllDigits(f.phone)
    && f.address != []
  }

  /** The record `onAddTeacher` builds from the form, the selected
      subjects, the generated credentials and the admin's email. */
  function NewTeacher(form: TeacherForm, subjects: seq<Subject>, id: string, password: string,
                      adminEmail: string, createdAt: string): Teacher
  {
    Teacher(id, Trim(form.teacherName), Trim(form.email), Trim(form.phone), Trim(form.address),
            subjects, password, true, adminEmail, createdAt, Some(0.0), None)
  }

  /** The record of a valid form: an active teacher with no earnings yet,
      created by the admin, holding the selected subjects, the phone as
      typed, a name that is empty exactly when the typed one was blank, a
      "TCH" identifier and an eight-character password from which the draws
      can be read back. */
  lemma NewTeacherRecord(form: TeacherForm, subjects: seq<Subject>, timestamp: nat, random: nat,
                         picks: seq<nat>, adminEmail: string, createdAt: string)
    requires FormValid(form) && random < 1000
    requires |picks| == 8 && forall i :: 0 <= i < 8 ==> picks[i] < |PasswordChars|
    ensures var t := NewTeacher(form, subjects, GenerateTeacherId(timestamp, random), PasswordOf(picks),
                                adminEmail, createdAt);
      t.isActive && t.totalEarnings == Some(0.0) && t.lastLogin == None
      && t.createdBy == adminEmail && t.subjects == subjects
      && t.phone == form.phone
      && (t.name == [] <==> AllSpace(form.teacherName))
      && t.id[..|TeacherIdPrefix|] == TeacherIdPrefix
      && |t.password| == 8 && PicksOf(t.password) == picks
  {
    TrimOfDigits(form.phone);
    TrimEmptyIff(form.teacherName);
    PasswordDecodes(picks);
  }

  datatype Credentials = Credentials(teacherId: string, password: string)

  /** `showNotification(message, type)`: an alert reading
      "SUCCESS: message" or "ERROR: message". */
  function Notice(isError: bool, message: string): string {
    (if isError then "ERROR" else "SUCCESS") + ": " + message
  }

  const OnlyAdminAdd: string := "Only admin can add teachers"
  const FillAllFields: string := "Please fill all required fields correctly"
  const SelectOneSubject: string := "Please select at least one subject"
  const TeacherAdded: string := "Teacher added successfully!"
  const AddFailed: string := "Failed to add teacher. Please try again."
  const OnlyAdminStatus: string := "Only admin can modify teacher status"
  const StatusFailed: string := "Failed to update teacher status"
  const LoadFailed: string := "Failed to load data. Please try again."

  /** The teachers after `loadData()`: what the store lists (none for
      null) when `getTeachers()` returns, the current ones when it throws. */
  function Reloaded(current: seq<Teacher>, storedTeachers: Option<seq<Teacher>>, loadSucceeds: bool): seq<Teacher> {
    if !loadSucceeds then current
    else if storedTeachers.Some? then storedTeachers.value
    else []
  }

  /** The alerts `loadData()` shows: none, or the failure alert when the
      store throws. */
  function LoadAlerts(loadSucceeds: bool): seq<string> {
    if loadSucceeds then [] else [Notice(true, LoadFailed)]
  }

  function StatusMessage(isActive: bool): string {
    "Teacher " + (if isActive then "activated" else "deactivated") + " successfully"
  }

  class AddTeacherComponent {
    const database: DatabaseService
    var teachers: seq<Teacher>
    var availableSubjects: seq<Subject>
    var selectedSubjects: seq<Subject>
    var showCredentials: bool
    var lastGeneratedCredentials: Option<Credentials>
    var isLoading: bool
    /** The alerts shown so far, in order. */
    var alerts: seq<string>

    constructor(database: DatabaseService)
      ensures this.database == database
      ensures teachers == [] && availableSubjects == [] && selectedSubjects == []
      ensures !showCredentials && lastGeneratedCredentials == None && !isLoading && alerts == []
    {
      this.database := database;
      teachers := [];
      availableSubjects := [];
      selectedSubjects := [];
      showCredentials := false;
      lastGeneratedCredentials := None;
      isLoading := false;
      alerts := [];
    }

    /** The `isLoggedInAdmin` getter: the service's admin flag, or the
        stored "isLoggedInUser" flag. */
    predicate IsLoggedInAdmin(isLoggedInUser: bool)
      reads this, database
    {
      database.isloggedInAdmin || isLoggedInUser
    }

    /** `loadData()`, given what the teacher store's `getTeachers()` returns
        (None for null) and whether it returned at all (`loadSucceeds`):
        subjects come from storage and teachers from the store; when the
        store throws, the teachers stay, the failure alert is shown, and
        the `finally` block still clears `isLoading`. */
    method LoadData(storedTeachers: Option<seq<Teacher>>, loadSucceeds: bool)
      modifies this, database
      ensures availableSubjects == database.storedSubjects && database.subjects == database.storedSubjects
      ensures teachers == Reloaded(old(teachers), storedTeachers, loadSucceeds)
      ensures alerts == old(alerts) + LoadAlerts(loadSucceeds)
      ensures !isLoading
      ensures selectedSubjects == old(selectedSubjects)
      ensures showCredentials == old(showCredentials) && lastGeneratedCredentials == old(lastGeneratedCredentials)
      ensures database.users == old(database.users) && database.storedUsers == old(database.storedUsers)
      ensures database.storedSubjects == old(database.storedSubjects)
      ensures database.isloggedInAdmin == old(database.isloggedInAdmin)
      ensures database.isloggedInAdminEmail == old(database.isloggedInAdminEmail)
    {
      isLoading := true;
      availableSubjects := database.LoadSubjectsForAdmin();
      if loadSucceeds {
        teachers := if storedTeachers.Some? then storedTeachers.value else [];
      } else {
        alerts := alerts + [Notice(true, LoadFailed)];
      }
      isLoading := false;
    }

    /** `toggleSubject(s)`; ToggleKeepsUnique and ToggleTwiceRestores say
        what that does to the selection. */
    method ToggleSubject(s: Subject)
      modifies this
      ensures selectedSubjects == Toggled(old(selectedSubjects), s)
      ensures teachers == old(teachers) && availableSubjects == old(availableSubjects) && alerts == old(alerts)
      ensures isLoading == old(isLoading)
      ensures showCredentials == old(showCredentials) && lastGeneratedCredentials == old(lastGeneratedCredentials)
    {
      var index := NameIndex(selectedSubjects, s.subjectName);
      if index > -1 {
        selectedSubjects := RemoveAt(selectedSubjects, index);
      } else {
        selectedSubjects := selectedSubjects + [s];
      }
    }

    /** `removeSelectedSubject(s)`: every entry with s's name goes, the rest
        stay in order, and a success alert is shown. */
    method RemoveSelectedSubject(s: Subject)
      modifies this
      ensures selectedSubjects == WithoutName(old(selectedSubjects), s.subjectName)
      ensures !IsSubjectSelected(selectedSubjects, s)
      ensures alerts == old(alerts) + [Notice(false, "Subject removed")]
      ensures teachers == old(teachers) && availableSubjects == old(availableSubjects)
      ensures isLoading == old(isLoading)
      ensures showCredentials == old(showCredentials) && lastGeneratedCredentials == old(lastGeneratedCredentials)
    {
      selectedSubjects := WithoutName(selectedSubjects, s.subjectName);
      alerts := alerts + [Notice(false, "Subject removed")];
    }

    /** `onAddTeacher()`. The checks come in order: admin, then the form,
        then at least one subject; a failed check shows its alert and
        changes nothing else. Otherwise the record NewTeacher builds
        (NewTeacherRecord says what it holds) is handed to the teacher store
        and returned as `added`; `addSucceeds` is whether the store accepted
        it, and `storedTeachers` and `loadSucceeds` what the reload's
        `getTeachers()` gives. On success the credentials are shown, the
        selection is emptied and the data reloaded, whose failure alert,
        if any, comes before the success alert. */
    method OnAddTeacher(form: TeacherForm, isLoggedInUser: bool, timestamp: nat, random: nat,
                        picks: seq<nat>, createdAt: string, addSucceeds: bool,
                        storedTeachers: Option<seq<Teacher>>, loadSucceeds: bool)
      returns (added: Option<Teacher>)
      requires random < 1000
      requires |picks| == 8 && forall i :: 0 <= i < 8 ==> picks[i] < |PasswordChars|
      modifies this, database
      ensures !IsLoggedInAdmin(isLoggedInUser) ==>
        added == None && alerts == old(alerts) + [Notice(true, OnlyAdminAdd)]
      ensures IsLoggedInAdmin(isLoggedInUser) && !FormValid(form) ==>
        added == None && alerts == old(alerts) + [Notice(true, FillAllFields)]
      ensures IsLoggedInAdmin(isLoggedInUser) && FormValid(form) && old(selectedSubjects) == [] ==>
        added == None && alerts == old(alerts) + [Notice(true, SelectOneSubject)]
      ensures added == None ==>
        selectedSubjects == old(selectedSubjects) && teachers == old(teachers)
        && availableSubjects == old(availableSubjects) && isLoading == old(isLoading)
        && showCredentials == old(showCredentials) && lastGeneratedCredentials == old(lastGeneratedCredentials)
        && database.subjects == old(database.subjects)
      ensures IsLoggedInAdmin(isLoggedInUser) && FormValid(form) && old(selectedSubjects) != [] ==>
        added == Some(NewTeacher(form, old(selectedSubjects), GenerateTeacherId(timestamp, random),
                                 PasswordOf(picks), old(database.isloggedInAdminEmail), createdAt))
        && var t := added.value;
        (addSucceeds ==>
              lastGeneratedCredentials == Some(Credentials(t.id, t.password)) && showCredentials
              && selectedSubjects == []
              && teachers == Reloaded(old(teachers), storedTeachers, loadSucceeds)
              && availableSubjects == database.storedSubjects && database.subjects == database.storedSubjects
              && !isLoading
              && alerts == old(alerts) + LoadAlerts(loadSucceeds) + [Notice(false, TeacherAdded)])
        && (!addSucceeds ==>
              selectedSubjects == old(selectedSubjects) && teachers == old(teachers)
              && availableSubjects == old(availableSubjects) && isLoading == old(isLoading)
              && showCredentials == old(showCredentials)
              && lastGeneratedCredentials == old(lastGeneratedCredentials)
              && database.subjects == old(database.subjects)
              && alerts == old(alerts) + [Notice(true, AddFailed)])
      ensures database.users == old(database.users) && database.storedUsers == old(database.storedUsers)
      ensures database.storedSubjects == old(database.storedSubjects)
      ensures database.isloggedInAdmin == old(database.isloggedInAdmin)
      ensures database.isloggedInAdminEmail == old(database.isloggedInAdminEmail)
    {
      added := None;
      if !IsLoggedInAdmin(isLoggedInUser) {
        alerts := alerts + [Notice(true, OnlyAdminAdd)];
        return;
      }
      if !FormValid(form) {
        alerts := alerts + [Notice(true, FillAllFields)];
        return;
      }
      if |selectedSubjects| == 0 {
        alerts := alerts + [Notice(true, SelectOneSubject)];
        return;
      }
      var teacherId := GenerateTeacherId(timestamp, random);
      var password := GeneratePassword(picks);
      added := Some(NewTeacher(form, selectedSubjects, teacherId, password,
                               database.isloggedInAdminEmail, createdAt));
      if addSucceeds {
        lastGeneratedCredentials := Some(Credentials(teacherId, password));
        showCredentials := true;
        selectedSubjects := [];
        LoadData(storedTeachers, loadSucceeds);
        alerts := alerts + [Notice(false, TeacherAdded)];
      } else {
        alerts := alerts + [Notice(true, AddFailed)];
      }
    }

    /** `toggleTeacherStatus(teacher)`, on the record's value: `after` is the
        record as the caller sees it afterwards and `sent` what was handed to
        the store's `updateTeacher` (`updateSucceeds` is whether that call
        went through). A non-admin changes nothing; otherwise the flag is
        flipped, and flipped back when the update fails. */
    method ToggleTeacherStatus(teacher: Teacher, isLoggedInUser: bool, updateSucceeds: bool)
      returns (after: Teacher, sent: Option<Teacher>)
      modifies this
      ensures !IsLoggedInAdmin(isLoggedInUser) ==>
        after == teacher && sent == None && alerts == old(alerts) + [Notice(true, OnlyAdminStatus)]
      ensures IsLoggedInAdmin(isLoggedInUser) ==>
        sent == Some(teacher.(isActive := !teacher.isActive))
      ensures IsLoggedInAdmin(isLoggedInUser) && updateSucceeds ==>
        after == teacher.(isActive := !teacher.isActive)
        && alerts == old(alerts) + [Notice(false, StatusMessage(!teacher.isActive))]
      ensures IsLoggedInAdmin(isLoggedInUser) && !updateSucceeds ==>
        after == teacher && alerts == old(alerts) + [Notice(true, StatusFailed)]
      ensures teachers == old(teachers) && selectedSubjects == old(selectedSubjects)
      ensures availableSubjects == old(availableSubjects) && isLoading == old(isLoading)
      ensures showCredentials == old(showCredentials) && lastGeneratedCredentials == old(lastGeneratedCredentials)
    {
      sent := None;
      if !IsLoggedInAdmin(isLoggedInUser) {
        after := teacher;
        alerts := alerts + [Notice(true, OnlyAdminStatus)];
        return;
      }
      after := teacher.(isActive := !teacher.isActive);
      sent := Some(after);
      if updateSucceeds {
        alerts := alerts + [Notice(false, StatusMessage(after.isActive))];
      } else {
        after := after.(isActive := !after.isActive);
        alerts := alerts + [Notice(true, StatusFailed)];
      }
    }

    /** `closeCredentialsModal()` */
    method CloseCredentialsModal()
      modifies this
      ensures !showCredentials && lastGeneratedCredentials == None
      ensures teachers == old(teachers) && selectedSubjects == old(selectedSubjects) && alerts == old(alerts)
      ensures availableSubjects == old(availableSubjects) && isLoading == old(isLoading)
    {
      showCredentials := false;
      lastGeneratedCredentials := None;
    }
  }

  /** Two successful status switches restore the record, with one
      notice for each switch. */
  method ToggleStatusTwice(c: AddTeacherComponent, teacher: Teacher, isLoggedInUser: bool)
    returns (twice: Teacher)
    requires c.IsLoggedInAdmin(isLoggedInUser)
    modifies c
    ensures twice == teacher
    ensures c.alerts == old(c.alerts) + [Notice(false, StatusMessage(!teacher.isActive)),
                                         Notice(false, StatusMessage(teacher.isActive))]
    ensures c.teachers == old(c.teachers)
  {
    var once, _ := c.ToggleTeacherStatus(teacher, isLoggedInUser, true);
    var sent;
    twice, sent := c.ToggleTeacherStatus(once, isLoggedInUser, true);
  }
}
