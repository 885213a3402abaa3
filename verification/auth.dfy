/** The authentication gate: `login`, and the `login_required` and `admin_required` guards.
    The signed-cookie session is modelled as the record the routes read and write. */
module Auth {
  import opened Common
  import opened Schema

  datatype Role = AdminRole | StudentRole

  /** What `session` holds: nothing before login or after logout, all six keys after a login. */
  datatype Session =
    | Anonymous
    | SignedIn(user: string, name: string, course: string, batch: string, voted: bool, role: Role)

  datatype LoginOutcome = ToAdminDashboard | ToStudentDashboard | InvalidCredentials | BadRequest

  /** The two redirects of a successful login. */
  predicate Succeeded(outcome: LoginOutcome)
  {
    outcome == ToAdminDashboard || outcome == ToStudentDashboard
  }

  /** `login_required`: a session with a `user` key. */
  predicate LoginRequired(session: Session)
  {
    session.SignedIn?
  }

  /** `admin_required`: `session.get('role') == 'admin'`. */
  predicate AdminRequired(session: Session)
  {
    session.SignedIn? && session.role == AdminRole
  }

  /** POST `/login`. `regno` and `password` are the form fields, `None` when absent: `request.form[...]`
      raises for a missing field, which Flask answers with 400 before any lookup. The role is derived
      from the submitted regno alone, not from any column. `checkPassword(hash, password)` stands for
      werkzeug's `check_password_hash`. */
  function Login(store: Store, session: Session, regno: Option<string>, password: Option<string>,
                 checkPassword: (string, string) -> bool): (r: (Session, LoginOutcome))
    ensures r.1 == BadRequest <==> regno.None? || password.None?
    ensures !Succeeded(r.1) ==> r.0 == session
    ensures Succeeded(r.1) <==>
              regno.Some? && password.Some? && regno.value in store.students &&
              checkPassword(store.students[regno.value].password, password.value)
    ensures Succeeded(r.1) ==>
              var st := store.students[regno.value];
              && r.0.SignedIn? && r.0.user == regno.value && r.0.voted == st.voted
              && r.0.name == st.name && r.0.course == st.course && r.0.batch == st.batch
              && (r.0.role == AdminRole <==> regno.value == AdminRegno)
    ensures r.1 == ToAdminDashboard <==> Succeeded(r.1) && regno == Some(AdminRegno)
    ensures r.1 == ToStudentDashboard ==> r.0.role == StudentRole
    ensures r.1 == ToAdminDashboard ==> r.0.role == AdminRole
  {
    if regno.None? || password.None? then (session, BadRequest)
    else if regno.value in store.students && checkPassword(store.students[regno.value].password, password.value) then
      var st := store.students[regno.value];
      var role := if regno.value == AdminRegno then AdminRole else StudentRole;
      var s := SignedIn(regno.value, st.name, st.course, st.batch, st.voted, role);
      (s, if s.role == AdminRole then ToAdminDashboard else ToStudentDashboard)
    else
      (session, InvalidCredentials)
  }

  /** After a successful login the admin guard admits the session exactly when the regno was "admin";
      after a failed one it admits exactly what it admitted before. */
  lemma LoginThenAdminGuard(store: Store, session: Session, regno: Option<string>, password: Option<string>,
                            checkPassword: (string, string) -> bool)
    ensures var r := Login(store, session, regno, password, checkPassword);
      && (Succeeded(r.1) ==> (AdminRequired(r.0) <==> regno == Some(AdminRegno)) && LoginRequired(r.0))
      && (!Succeeded(r.1) ==> AdminRequired(r.0) == AdminRequired(session))
  {
  }

  /** The failure is the same whether the regno is unknown or the password wrong. */
  lemma LoginFailureIndistinguishable(store: Store, session: Session, regno1: string, regno2: string,
                                      password: string, checkPassword: (string, string) -> bool)
    requires regno1 !in store.students
    requires regno2 in store.students && !checkPassword(store.students[regno2].password, password)
    ensures Login(store, session, Some(regno1), Some(password), checkPassword)
            == Login(store, session, Some(regno2), Some(password), checkPassword)
            == (session, InvalidCredentials)
  {
  }

  /** A POST missing a field is refused before the students table is read: the answer is the same
      400 whatever the store holds, and the session is kept. */
  lemma MissingFieldRefusedBeforeLookup(store1: Store, store2: Store, session: Session, regno: Option<string>,
                                        password: Option<string>, checkPassword: (string, string) -> bool)
    requires regno.None? || password.None?
    ensures Login(store1, session, regno, password, checkPassword)
            == Login(store2, session, regno, password, checkPassword)
            == (session, BadRequest)
  {
  }
}
