/**
 * The account handlers of `app.py` over in-memory `users` and `students`
 * tables: teacher registration, student registration by a teacher, the two
 * role-restricted logins, the student's password change, the demo setup and
 * the home-page routing.
 */
module Accounts {
  import opened Wrappers
  import opened RowIds

  const TeacherRole := "teacher"
  const StudentRole := "student"

  /**
   * A stored password hash. `generate_password_hash` draws a fresh salt, so
   * the salt is a parameter; `check_password_hash` is only ever used through
   * `CheckHash`, whose meaning is lemma `HashCheck`.
   */
  datatype PasswordHash = PasswordHash(salt: string, secret: string)

  function GenerateHash(password: string, salt: string): PasswordHash {
    PasswordHash(salt, password)
  }

  predicate CheckHash(h: PasswordHash, password: string) {
    h.secret == password
  }

  /** `check_password_hash(generate_password_hash(p), q)` holds exactly when `p == q`. */
  lemma HashCheck(p: string, q: string, salt: string)
    ensures CheckHash(GenerateHash(p, salt), q) <==> p == q
  {
  }

  datatype User = User(id: nat, username: string, passwordHash: PasswordHash, role: string,
                       email: Option<string>, studentId: Option<nat>)

  datatype Student = Student(id: nat, name: string, rollNo: string, className: Option<string>, email: Option<string>)

  /** `not field` is false: the form field was sent and is not empty. */
  predicate Filled(field: Option<string>) {
    field.Some? && field.value != ""
  }

  predicate UsernameExists(users: seq<User>, username: string) {
    exists i :: 0 <= i < |users| && users[i].username == username
  }

  predicate RollExists(students: seq<Student>, rollNo: string) {
    exists i :: 0 <= i < |students| && students[i].rollNo == rollNo
  }

  /** `users.username` is UNIQUE. */
  predicate UniqueUsernames(users: seq<User>) {
    forall i, j :: 0 <= i < j < |users| ==> users[i].username != users[j].username
  }

  predicate DistinctUserIds(users: seq<User>) {
    forall i, j :: 0 <= i < j < |users| ==> users[i].id != users[j].id
  }

  /** `students.roll_no` is UNIQUE. */
  predicate UniqueRolls(students: seq<Student>) {
    forall i, j :: 0 <= i < j < |students| ==> students[i].rollNo != students[j].rollNo
  }

  predicate DistinctStudentIds(students: seq<Student>) {
    forall i, j :: 0 <= i < j < |students| ==> students[i].id != students[j].id
  }

  /** Every student has a login: a user named by the roll number, linked to the student. */
  predicate StudentsLinked(users: seq<User>, students: seq<Student>) {
    forall i :: 0 <= i < |students| ==> HasLogin(users, students[i])
  }

  predicate HasLogin(users: seq<User>, s: Student) {
    exists j :: 0 <= j < |users| && users[j].username == s.rollNo && users[j].studentId == Some(s.id)
  }

  /** The id SQLite gives the next user: one more than the largest. */
  function NextUserId(users: seq<User>): (n: nat)
    ensures forall i :: 0 <= i < |users| ==> users[i].id < n
  {
    var ids := seq(|users|, i requires 0 <= i < |users| => users[i].id);
    assert forall i :: 0 <= i < |users| ==> ids[i] == users[i].id;
    NextRowId(ids)
  }

  /** The id SQLite gives the next student: one more than the largest. */
  function NextStudentId(students: seq<Student>): (n: nat)
    ensures forall i :: 0 <= i < |students| ==> students[i].id < n
  {
    var ids := seq(|students|, i requires 0 <= i < |students| => students[i].id);
    assert forall i :: 0 <= i < |students| ==> ids[i] == students[i].id;
    NextRowId(ids)
  }

  /** Row `i` is the first user with `id` (`db.query(User).get(id)`). */
  predicate FirstWithIdAt(users: seq<User>, id: nat, i: int) {
    0 <= i < |users| && users[i].id == id && forall j :: 0 <= j < i ==> users[j].id != id
  }

  /** The user the session belongs to; `None` is the anonymous user. */
  function CurrentUser(users: seq<User>, session: Option<nat>): (r: Option<User>)
    ensures r.Some? <==> session.Some? && exists i :: 0 <= i < |users| && users[i].id == session.value
    ensures r.Some? ==> exists i :: FirstWithIdAt(users, session.value, i) && users[i] == r.value
  {
    if session.None? || users == [] then None
    else if users[0].id == session.value then Some(users[0])
    else
      IdShift(users, users[1..], session.value);
      CurrentUser(users[1..], session)
  }

  /** Past a first user with another id, the users with `id` are those of the tail, one place further on. */
  lemma IdShift(users: seq<User>, tail: seq<User>, id: nat)
    requires users != [] && tail == users[1..] && users[0].id != id
    ensures (exists i :: 0 <= i < |users| && users[i].id == id) <==> (exists i :: 0 <= i < |tail| && tail[i].id == id)
    ensures forall i :: FirstWithIdAt(tail, id, i) ==> FirstWithIdAt(users, id, i + 1) && users[i + 1] == tail[i]
  {
    assert forall i :: 0 <= i < |tail| ==> tail[i] == users[i + 1];
    if exists i :: 0 <= i < |users| && users[i].id == id {
      var i :| 0 <= i < |users| && users[i].id == id;
      assert tail[i - 1] == users[i];
    }
  }

  /** Row `i` is the first user with `username` and `role`. */
  predicate FirstAccountAt(users: seq<User>, username: string, role: string, i: int) {
    0 <= i < |users| && users[i].username == username && users[i].role == role &&
    forall j :: 0 <= j < i ==> !(users[j].username == username && users[j].role == role)
  }

  /** `db.query(User).filter(User.username == username, User.role == role).first()` */
  function FindAccount(users: seq<User>, username: string, role: string): (r: Option<User>)
    ensures r.Some? <==> exists i :: 0 <= i < |users| && users[i].username == username && users[i].role == role
    ensures r.Some? ==> exists i :: FirstAccountAt(users, username, role, i) && users[i] == r.value
  {
    if users == [] then None
    else if users[0].username == username && users[0].role == role then Some(users[0])
    else
      AccountShift(users, users[1..], username, role);
      FindAccount(users[1..], username, role)
  }

  /** Past a first user that does not match, the matching accounts are those of the tail, one place further on. */
  lemma AccountShift(users: seq<User>, tail: seq<User>, username: string, role: string)
    requires users != [] && tail == users[1..] && !(users[0].username == username && users[0].role == role)
    ensures (exists i :: 0 <= i < |users| && users[i].username == username && users[i].role == role) <==>
            (exists i :: 0 <= i < |tail| && tail[i].username == username && tail[i].role == role)
    ensures forall i :: FirstAccountAt(tail, username, role, i) ==>
              FirstAccountAt(users, username, role, i + 1) && users[i + 1] == tail[i]
  {
    assert forall i :: 0 <= i < |tail| ==> tail[i] == users[i + 1];
    if exists i :: 0 <= i < |users| && users[i].username == username && users[i].role == role {
      var i :| 0 <= i < |users| && users[i].username == username && users[i].role == role;
      assert tail[i - 1] == users[i];
    }
  }

  /** Where a handler sends the browser, or what it renders. */
  datatype Outcome =
    | ShowForm          // a GET: the form is rendered
    | LoginRequired     // `@login_required` redirects the anonymous user
    | AccessDenied      // "Access denied!", redirect to the login page
    | MissingFields     // "... required!"
    | PasswordMismatch  // "... do not match!"
    | UsernameTaken     // "Username already exists!"
    | RollTaken         // "Roll Number already exists!"
    | WrongPassword     // "Current password is incorrect!"
    | Done              // the success redirect

  /** The checks of `teacher_register`, in the order the handler makes them. */
  function TeacherRegisterCheck(users: seq<User>, post: bool, username: Option<string>,
                                password: Option<string>, confirm: Option<string>): Outcome
  {
    if !post then ShowForm
    else if !Filled(username) || !Filled(password) then MissingFields
    else if password != confirm then PasswordMismatch
    else if UsernameExists(users, username.value) then UsernameTaken
    else Done
  }

  /** The checks of `register_student`, in order, including the username the new login will take. */
  function RegisterStudentCheck(users: seq<User>, students: seq<Student>, session: Option<nat>, post: bool,
                                name: Option<string>, rollNo: Option<string>): Outcome
  {
    var cur := CurrentUser(users, session);
    if cur.None? then LoginRequired
    else if cur.value.role != TeacherRole then AccessDenied
    else if !post then ShowForm
    else if !Filled(name) || !Filled(rollNo) then MissingFields
    else if RollExists(students, rollNo.value) then RollTaken
    else if UsernameExists(users, rollNo.value) then UsernameTaken
    else Done
  }

  /** The checks of `change_password`, in order. */
  function ChangePasswordCheck(users: seq<User>, session: Option<nat>, post: bool, current: Option<string>,
                               newPassword: Option<string>, confirm: Option<string>): Outcome
  {
    var cur := CurrentUser(users, session);
    if cur.None? then LoginRequired
    else if cur.value.role != StudentRole then AccessDenied
    else if !post then ShowForm
    else if !Filled(current) || !Filled(newPassword) then MissingFields
    else if newPassword != confirm then PasswordMismatch
    else if !CheckHash(cur.value.passwordHash, current.value) then WrongPassword
    else Done
  }

  /** A failed check names the first condition that fails, and `Done` means every check passed. */
  lemma TeacherRegisterCheckOrder(users: seq<User>, username: Option<string>, password: Option<string>, confirm: Option<string>)
    ensures TeacherRegisterCheck(users, true, username, password, confirm) == Done <==>
            Filled(username) && Filled(password) && password == confirm && !UsernameExists(users, username.value)
    ensures TeacherRegisterCheck(users, true, username, password, confirm) == PasswordMismatch ==>
            Filled(username) && Filled(password) && password != confirm
    ensures TeacherRegisterCheck(users, true, username, password, confirm) == UsernameTaken ==>
            password == confirm && UsernameExists(users, username.value)
  {
  }

  /** Only a logged-in teacher can register a student, and only under a roll number nobody holds yet. */
  lemma RegisterStudentCheckOrder(users: seq<User>, students: seq<Student>, session: Option<nat>, post: bool,
                                  name: Option<string>, rollNo: Option<string>)
    ensures RegisterStudentCheck(users, students, session, post, name, rollNo) == Done <==>
            CurrentUser(users, session).Some? && CurrentUser(users, session).value.role == TeacherRole &&
            post && Filled(name) && Filled(rollNo) &&
            !RollExists(students, rollNo.value) && !UsernameExists(users, rollNo.value)
    ensures RegisterStudentCheck(users, students, session, post, name, rollNo) == AccessDenied ==>
            CurrentUser(users, session).Some? && CurrentUser(users, session).value.role != TeacherRole
    ensures RegisterStudentCheck(users, students, session, post, name, rollNo) == RollTaken ==>
            RollExists(students, rollNo.value)
  {
  }

  /** A password change goes through only for a logged-in student who knows the current password. */
  lemma ChangePasswordNeedsCurrent(users: seq<User>, session: Option<nat>, current: Option<string>,
                                   newPassword: Option<string>, confirm: Option<string>)
    ensures ChangePasswordCheck(users, session, true, current, newPassword, confirm) == Done <==>
            CurrentUser(users, session).Some? && CurrentUser(users, session).value.role == StudentRole &&
            Filled(current) && Filled(newPassword) && newPassword == confirm &&
            CheckHash(CurrentUser(users, session).value.passwordHash, current.value)
  {
  }

  /** What the two login handlers return. */
  datatype LoginResult = AlreadyLoggedIn | LoginForm | LoggedIn(userId: nat) | InvalidCredentials

  /**
   * `teacher_login` (role "teacher") and `student_login` (role "student", the
   * roll number as username): a user already logged in with that role goes to
   * the dashboard; a POST looks up the first account with that username and
   * role and checks the password.
   */
  function Login(users: seq<User>, session: Option<nat>, role: string, post: bool,
                 username: string, password: string): (r: LoginResult)
    ensures r.LoggedIn? ==>
      exists i :: 0 <= i < |users| && users[i].id == r.userId && users[i].username == username &&
                  users[i].role == role && CheckHash(users[i].passwordHash, password)
  {
    var cur := CurrentUser(users, session);
    if cur.Some? && cur.value.role == role then AlreadyLoggedIn
    else if !post then LoginForm
    else
      var account := FindAccount(users, username, role);
      if account.Some? && CheckHash(account.value.passwordHash, password) then LoggedIn(account.value.id)
      else InvalidCredentials
  }

  /** With unique usernames, a POST from someone not yet logged in is accepted exactly for a matching account. */
  lemma LoginAcceptsExactly(users: seq<User>, session: Option<nat>, role: string, username: string, password: string)
    requires UniqueUsernames(users)
    requires !(CurrentUser(users, session).Some? && CurrentUser(users, session).value.role == role)
    ensures Login(users, session, role, true, username, password).LoggedIn? <==>
            exists i :: 0 <= i < |users| && users[i].username == username && users[i].role == role &&
                        CheckHash(users[i].passwordHash, password)
  {
    var account := FindAccount(users, username, role);
    if exists i :: 0 <= i < |users| && users[i].username == username && users[i].role == role &&
                   CheckHash(users[i].passwordHash, password) {
      var i :| 0 <= i < |users| && users[i].username == username && users[i].role == role &&
               CheckHash(users[i].passwordHash, password);
      var k :| FirstAccountAt(users, username, role, k) && users[k] == account.value;
      assert k == i;
    }
  }

  /** Where `/` sends the browser. */
  datatype Route = TeacherDashboard | StudentDashboard | LoginPage

  function Index(users: seq<User>, session: Option<nat>): (r: Route)
    ensures r == TeacherDashboard <==> CurrentUser(users, session).Some? && CurrentUser(users, session).value.role == TeacherRole
    ensures r == StudentDashboard <==> CurrentUser(users, session).Some? && CurrentUser(users, session).value.role == StudentRole
  {
    var cur := CurrentUser(users, session);
    if cur.Some? && cur.value.role == TeacherRole then TeacherDashboard
    else if cur.Some? && cur.value.role == StudentRole then StudentDashboard
    else LoginPage
  }

  /** Whoever has just logged in as a teacher, or as a student, is sent to that dashboard. */
  lemma LoginLeadsToDashboard(users: seq<User>, session: Option<nat>, role: string, username: string, password: string)
    requires DistinctUserIds(users)
    requires Login(users, session, role, true, username, password).LoggedIn?
    ensures var id := Login(users, session, role, true, username, password).userId;
            (role == TeacherRole ==> Index(users, Some(id)) == TeacherDashboard) &&
            (role == StudentRole ==> Index(users, Some(id)) == StudentDashboard)
  {
    var id := Login(users, session, role, true, username, password).userId;
    var i :| 0 <= i < |users| && users[i].id == id && users[i].username == username &&
             users[i].role == role && CheckHash(users[i].passwordHash, password);
    var cur := CurrentUser(users, Some(id));
    var k :| FirstWithIdAt(users, id, k) && users[k] == cur.value;
    assert k == i;
  }

  /** The anonymous visitor and any role other than the two known ones land on the login page. */
  lemma IndexDefaultsToLogin(users: seq<User>, session: Option<nat>)
    ensures Index(users, session) == LoginPage <==>
            CurrentUser(users, session).None? ||
            (CurrentUser(users, session).value.role != TeacherRole && CurrentUser(users, session).value.role != StudentRole)
  {
  }

  /** `user.password_hash = ...` on the row with `id`. */
  function WithHash(users: seq<User>, id: nat, h: PasswordHash): (r: seq<User>)
    ensures |r| == |users|
    ensures forall i :: 0 <= i < |users| ==> r[i] == if users[i].id == id then users[i].(passwordHash := h) else users[i]
  {
    seq(|users|, i requires 0 <= i < |users| => if users[i].id == id then users[i].(passwordHash := h) else users[i])
  }

  /**
   * A password change touches nothing but the hash: ids, usernames, roles and
   * student links stay as they were, so the UNIQUE constraints, the links of
   * the students to their logins and the accounts a login can find all survive.
   */
  lemma WithHashKeepsAccounts(users: seq<User>, id: nat, h: PasswordHash, students: seq<Student>)
    ensures forall i :: 0 <= i < |users| ==>
              WithHash(users, id, h)[i].id == users[i].id && WithHash(users, id, h)[i].username == users[i].username &&
              WithHash(users, id, h)[i].role == users[i].role && WithHash(users, id, h)[i].studentId == users[i].studentId
    ensures UniqueUsernames(users) ==> UniqueUsernames(WithHash(users, id, h))
    ensures DistinctUserIds(users) ==> DistinctUserIds(WithHash(users, id, h))
    ensures StudentsLinked(users, students) ==> StudentsLinked(WithHash(users, id, h), students)
    ensures forall username, role :: FindAccount(WithHash(users, id, h), username, role).Some? <==>
                                     FindAccount(users, username, role).Some?
  {
    var r := WithHash(users, id, h);
    assert forall i :: 0 <= i < |users| ==>
      r[i].id == users[i].id && r[i].username == users[i].username && r[i].role == users[i].role &&
      r[i].studentId == users[i].studentId;
    if StudentsLinked(users, students) {
      forall i | 0 <= i < |students| ensures HasLogin(r, students[i]) {
        assert HasLogin(users, students[i]);
        var j :| 0 <= j < |users| && users[j].username == students[i].rollNo && users[j].studentId == Some(students[i].id);
        assert r[j].username == students[i].rollNo && r[j].studentId == Some(students[i].id);
      }
    }
  }

  /** The demo accounts of `setup_demo`. */
  function DemoTeacher(id: nat, salt: string): User {
    User(id, "teacher1", GenerateHash("teacher123", salt), TeacherRole, Some("teacher@example.com"), None)
  }

  function DemoStudent(id: nat): Student {
    Student(id, "Demo Student", "S101", Some("Class A"), Some("student@example.com"))
  }

  function DemoStudentUser(id: nat, studentId: nat, salt: string): User {
    User(id, "S101", GenerateHash("S101", salt), StudentRole, None, Some(studentId))
  }

  /** A registered teacher can log in with the credentials it registered. */
  lemma RegisteredTeacherCanLogIn(users: seq<User>, username: string, password: string, email: Option<string>, salt: string)
    requires UniqueUsernames(users) && !UsernameExists(users, username)
    ensures Login(users + [User(NextUserId(users), username, GenerateHash(password, salt), TeacherRole, email, None)],
                  None, TeacherRole, true, username, password)
            == LoggedIn(NextUserId(users))
  {
    var u := User(NextUserId(users), username, GenerateHash(password, salt), TeacherRole, email, None);
    var users' := users + [u];
    forall j | 0 <= j < |users| ensures users'[j].username != username {
      assert users'[j] == users[j];
    }
    assert users'[|users|] == u;
    var account := FindAccount(users', username, TeacherRole);
    var k :| FirstAccountAt(users', username, TeacherRole, k) && users'[k] == account.value;
    assert k == |users|;
  }

  /** A student registered by a teacher can log in with the roll number as username and password. */
  lemma RegisteredStudentCanLogIn(users: seq<User>, rollNo: string, studentId: nat, email: Option<string>, salt: string)
    requires UniqueUsernames(users) && !UsernameExists(users, rollNo)
    ensures Login(users + [User(NextUserId(users), rollNo, GenerateHash(rollNo, salt), StudentRole, email, Some(studentId))],
                  None, StudentRole, true, rollNo, rollNo)
            == LoggedIn(NextUserId(users))
  {
    var u := User(NextUserId(users), rollNo, GenerateHash(rollNo, salt), StudentRole, email, Some(studentId));
    var users' := users + [u];
    forall j | 0 <= j < |users| ensures users'[j].username != rollNo {
      assert users'[j] == users[j];
    }
    assert users'[|users|] == u;
    var account := FindAccount(users', rollNo, StudentRole);
    var k :| FirstAccountAt(users', rollNo, StudentRole, k) && users'[k] == account.value;
    assert k == |users|;
  }

  /** After a password change the new password logs the student in and a different old one no longer does. */
  lemma ChangedPasswordTakesEffect(users: seq<User>, i: nat, oldPassword: string, newPassword: string, salt: string)
    requires UniqueUsernames(users) && DistinctUserIds(users) && i < |users| && users[i].role == StudentRole
    ensures Login(WithHash(users, users[i].id, GenerateHash(newPassword, salt)), None, StudentRole, true,
                  users[i].username, newPassword) == LoggedIn(users[i].id)
    ensures oldPassword != newPassword ==>
            Login(WithHash(users, users[i].id, GenerateHash(newPassword, salt)), None, StudentRole, true,
                  users[i].username, oldPassword) == InvalidCredentials
  {
    var users' := WithHash(users, users[i].id, GenerateHash(newPassword, salt));
    assert users'[i] == users[i].(passwordHash := GenerateHash(newPassword, salt));
    forall a, b | 0 <= a < b < |users'| ensures users'[a].username != users'[b].username {
      assert users'[a].username == users[a].username && users'[b].username == users[b].username;
    }
    var account := FindAccount(users', users[i].username, StudentRole);
    var k :| FirstAccountAt(users', users[i].username, StudentRole, k) && users'[k] == account.value;
    assert users'[k].username == users[k].username;
    assert k == i;
  }

  /** The `users` and `students` tables. */
  class Database {
    var users: seq<User>
    var students: seq<Student>

    ghost predicate Valid()
      reads this
    {
      UniqueUsernames(users) && DistinctUserIds(users) && UniqueRolls(students) && DistinctStudentIds(students)
    }

    constructor (users: seq<User>, students: seq<Student>)
      requires UniqueUsernames(users) && DistinctUserIds(users) && UniqueRolls(students) && DistinctStudentIds(students)
      ensures Valid() && this.users == users && this.students == students
    {
      this.users, this.students := users, students;
    }

    /** Adds a user whose username is free, with the next id. */
    method AddUser(u: User)
      requires Valid() && !UsernameExists(users, u.username) && u.id == NextUserId(users)
      modifies this`users
      ensures Valid() && users == old(users) + [u]
    {
      users := users + [u];
      assert forall j :: 0 <= j < |old(users)| ==> users[j] == old(users)[j];
    }

    /** Adds a student whose roll number is free, with the next id. */
    method AddStudent(s: Student)
      requires Valid() && !RollExists(students, s.rollNo) && s.id == NextStudentId(students)
      modifies this`students
      ensures Valid() && students == old(students) + [s]
    {
      students := students + [s];
      assert forall j :: 0 <= j < |old(students)| ==> students[j] == old(students)[j];
    }

    /**
     * `teacher_register`: every failed check leaves the tables as they were;
     * success adds one teacher with the given username and password.
     */
    method TeacherRegister(post: bool, username: Option<string>, password: Option<string>,
                           confirm: Option<string>, email: Option<string>, salt: string) returns (outcome: Outcome)
      requires Valid()
      modifies this`users
      ensures Valid()
      ensures outcome == TeacherRegisterCheck(old(users), post, username, password, confirm)
      ensures outcome == Done ==>
        users == old(users) + [User(NextUserId(old(users)), username.value, GenerateHash(password.value, salt), TeacherRole, email, None)]
      ensures outcome != Done ==> users == old(users)
    {
      outcome := TeacherRegisterCheck(users, post, username, password, confirm);
      if outcome == Done {
        AddUser(User(NextUserId(users), username.value, GenerateHash(password.value, salt), TeacherRole, email, None));
      }
    }

    /**
     * `register_student`, with the login's username checked before anything
     * is written: success adds the student and its login, linked to it; any
     * failed check writes nothing. Students stay linked to their logins.
     */
    method RegisterStudent(session: Option<nat>, post: bool, name: Option<string>, rollNo: Option<string>,
                           className: Option<string>, email: Option<string>, salt: string) returns (outcome: Outcome)
      requires Valid()
      modifies this
      ensures Valid()
      ensures outcome == RegisterStudentCheck(old(users), old(students), session, post, name, rollNo)
      ensures outcome == Done ==>
        students == old(students) + [Student(NextStudentId(old(students)), name.value, rollNo.value, className, email)] &&
        users == old(users) + [User(NextUserId(old(users)), rollNo.value, GenerateHash(rollNo.value, salt), StudentRole,
                                    email, Some(NextStudentId(old(students))))]
      ensures outcome != Done ==> users == old(users) && students == old(students)
      ensures StudentsLinked(old(users), old(students)) ==> StudentsLinked(users, students)
    {
      outcome := RegisterStudentCheck(users, students, session, post, name, rollNo);
      if outcome == Done {
        var s := Student(NextStudentId(students), name.value, rollNo.value, className, email);
        ghost var users0, students0 := users, students;
        AddStudent(s);
        AddUser(User(NextUserId(users), rollNo.value, GenerateHash(rollNo.value, salt), StudentRole, email, Some(s.id)));
        LinkedAfterRegistration(users0, students0, s, users[|users| - 1]);
      }
    }

    /**
     * `change_password`: only a logged-in student who gives the current
     * password and two equal new ones changes anything, and then only the
     * hash of its own row.
     */
    method ChangePassword(session: Option<nat>, post: bool, current: Option<string>, newPassword: Option<string>,
                          confirm: Option<string>, salt: string) returns (outcome: Outcome)
      requires Valid()
      modifies this`users
      ensures Valid()
      ensures outcome == ChangePasswordCheck(old(users), session, post, current, newPassword, confirm)
      ensures outcome == Done ==> users == WithHash(old(users), session.value, GenerateHash(newPassword.value, salt))
      ensures outcome != Done ==> users == old(users)
    {
      outcome := ChangePasswordCheck(users, session, post, current, newPassword, confirm);
      if outcome == Done {
        var updated := WithHash(users, session.value, GenerateHash(newPassword.value, salt));
        assert forall i :: 0 <= i < |users| ==> updated[i].username == users[i].username && updated[i].id == users[i].id;
        users := updated;
      }
    }

    /**
     * `setup_demo`: creates teacher1 when no user has that name and the demo
     * student S101 with its login when no student has that roll number. The
     * student and the teacher are committed before the student's login is
     * added; when a user named S101 already exists that last insert fails
     * and is rolled back (`ok` is false), leaving the student without a login.
     */
    method SetupDemo(teacherSalt: string, studentSalt: string) returns (ok: bool)
      requires Valid()
      modifies this
      ensures Valid()
      ensures UsernameExists(users, "teacher1") && RollExists(students, "S101")
      ensures users == old(users) + DemoTeacherAdded(old(users), teacherSalt) +
                       DemoLoginAdded(old(users), old(students), teacherSalt, studentSalt)
      ensures students == old(students) + (if RollExists(old(students), "S101") then [] else [DemoStudent(NextStudentId(old(students)))])
      ensures !ok <==> !RollExists(old(students), "S101") && UsernameExists(old(users), "S101")
    {
      ghost var users0, students0 := users, students;
      if !UsernameExists(users, "teacher1") {
        AddUser(DemoTeacher(NextUserId(users), teacherSalt));
        assert users[|users| - 1].username == "teacher1";
      }
      ghost var users1 := users;
      assert users1 == users0 + DemoTeacherAdded(users0, teacherSalt);
      ok := true;
      if !RollExists(students, "S101") {
        var s := DemoStudent(NextStudentId(students));
        AddStudent(s);
        assert students[|students| - 1].rollNo == "S101";
        if UsernameExists(users, "S101") {
          ok := false;
        } else {
          AddUser(DemoStudentUser(NextUserId(users), s.id, studentSalt));
        }
      }
      assert users == users1 + DemoLoginAdded(users0, students0, teacherSalt, studentSalt);
      assert UsernameExists(users1, "teacher1");
      assert forall j :: 0 <= j < |users1| ==> users[j] == users1[j];
      DemoNameCheck(users0, teacherSalt);
    }
  }

  /** The teacher row `setup_demo` adds, if any. */
  function DemoTeacherAdded(users: seq<User>, salt: string): seq<User> {
    if UsernameExists(users, "teacher1") then [] else [DemoTeacher(NextUserId(users), salt)]
  }

  /** The student login `setup_demo` adds, if any. */
  function DemoLoginAdded(users: seq<User>, students: seq<Student>, teacherSalt: string, studentSalt: string): seq<User> {
    var users1 := users + DemoTeacherAdded(users, teacherSalt);
    if RollExists(students, "S101") || UsernameExists(users1, "S101") then []
    else [DemoStudentUser(NextUserId(users1), NextStudentId(students), studentSalt)]
  }

  /** Adding teacher1 does not create a user named S101. */
  lemma DemoNameCheck(users: seq<User>, salt: string)
    ensures UsernameExists(users + DemoTeacherAdded(users, salt), "S101") <==> UsernameExists(users, "S101")
  {
    var users1 := users + DemoTeacherAdded(users, salt);
    if UsernameExists(users1, "S101") {
      var i :| 0 <= i < |users1| && users1[i].username == "S101";
      assert "teacher1"[0] != "S101"[0];
      assert i < |users|;
      assert users1[i] == users[i];
    }
    if UsernameExists(users, "S101") {
      var i :| 0 <= i < |users| && users[i].username == "S101";
      assert users1[i] == users[i];
    }
  }

  /** A second `setup_demo`, run on what the first one left, adds nothing. */
  lemma SetupDemoIdempotent(users: seq<User>, students: seq<Student>, teacherSalt: string, studentSalt: string)
    requires UsernameExists(users, "teacher1") && RollExists(students, "S101")
    ensures DemoTeacherAdded(users, teacherSalt) == []
    ensures DemoLoginAdded(users, students, teacherSalt, studentSalt) == []
  {
  }

  /** The student and login `RegisterStudent` adds keep every student linked. */
  lemma LinkedAfterRegistration(users: seq<User>, students: seq<Student>, s: Student, u: User)
    requires u.username == s.rollNo && u.studentId == Some(s.id)
    requires forall i :: 0 <= i < |students| ==> students[i].id != s.id
    ensures StudentsLinked(users, students) ==> StudentsLinked(users + [u], students + [s])
  {
    if StudentsLinked(users, students) {
      var users', students' := users + [u], students + [s];
      forall i | 0 <= i < |students'| ensures HasLogin(users', students'[i]) {
        if i < |students| {
          assert students'[i] == students[i];
          var j :| 0 <= j < |users| && users[j].username == students[i].rollNo && users[j].studentId == Some(students[i].id);
          assert users'[j] == users[j];
        } else {
          assert users'[|users|] == u;
        }
      }
    }
  }

  /**
   * `register_student` as the handler is written: the roll number is checked
   * against the students only, the student row is committed, and then the
   * login is inserted with username = roll number. When a user of that name
   * already exists, the UNIQUE username constraint rejects the second commit,
   * and the student row stays without a login.
   */
  function RegisterStudentAsWritten(users: seq<User>, students: seq<Student>, name: string, rollNo: string,
                                    className: Option<string>, email: Option<string>, salt: string): (r: (seq<User>, seq<Student>))
    ensures r.1 == if RollExists(students, rollNo) then students
                   else students + [Student(NextStudentId(students), name, rollNo, className, email)]
  {
    if RollExists(students, rollNo) then (users, students)
    else
      var s := Student(NextStudentId(students), name, rollNo, className, email);
      if UsernameExists(users, rollNo) then (users, students + [s])
      else (users + [User(NextUserId(users), rollNo, GenerateHash(rollNo, salt), StudentRole, email, Some(s.id))], students + [s])
  }

  /**
   * As written, a new student ends up with a login exactly when its roll
   * number is not a username yet: a taken username leaves the student row
   * committed and no user added, which breaks the link of every student to
   * a login (when no stale user already points at the new student's id).
   */
  lemma AsWrittenLinksOnlyFreeNames(users: seq<User>, students: seq<Student>, name: string, rollNo: string,
                                    className: Option<string>, email: Option<string>, salt: string)
    requires !RollExists(students, rollNo)
    ensures var r := RegisterStudentAsWritten(users, students, name, rollNo, className, email, salt);
            |r.1| == |students| + 1 &&
            (!UsernameExists(users, rollNo) && StudentsLinked(users, students) ==> StudentsLinked(r.0, r.1)) &&
            (UsernameExists(users, rollNo) ==> r.0 == users) &&
            (UsernameExists(users, rollNo) &&
             (forall j :: 0 <= j < |users| ==> users[j].studentId != Some(NextStudentId(students))) ==>
               !StudentsLinked(r.0, r.1))
  {
    var s := Student(NextStudentId(students), name, rollNo, className, email);
    var r := RegisterStudentAsWritten(users, students, name, rollNo, className, email, salt);
    assert r.1 == students + [s];
    if !UsernameExists(users, rollNo) {
      var u := User(NextUserId(users), rollNo, GenerateHash(rollNo, salt), StudentRole, email, Some(s.id));
      assert r.0 == users + [u];
      LinkedAfterRegistration(users, students, s, u);
    } else if forall j :: 0 <= j < |users| ==> users[j].studentId != Some(NextStudentId(students)) {
      assert r.0 == users;
      assert !HasLogin(r.0, r.1[|students|]);
    }
  }

  /** A teacher named "R1" exists; registering a student with roll number "R1" leaves that student without a login. */
  lemma AsWrittenStudentWithoutLogin()
    ensures var users := [User(1, "R1", GenerateHash("pw", "salt"), TeacherRole, None, None)];
            var r := RegisterStudentAsWritten(users, [], "Ravi", "R1", None, None, "salt");
            StudentsLinked(users, []) && !StudentsLinked(r.0, r.1) && |r.1| == 1
  {
    var users := [User(1, "R1", GenerateHash("pw", "salt"), TeacherRole, None, None)];
    assert UsernameExists(users, "R1") by { assert users[0].username == "R1"; }
    var r := RegisterStudentAsWritten(users, [], "Ravi", "R1", None, None, "salt");
    assert r.0 == users;
    assert r.1[0].rollNo == "R1" && r.1[0].id == 1;
    assert !HasLogin(r.0, r.1[0]);
  }
}
