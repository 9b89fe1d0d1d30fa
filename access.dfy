/** The access gates of app.py: the administrator's password login, and the
    two shared access codes, one for volunteers and one for teachers. Each
    code series is an append-only table whose newest row is the current
    code; a session remembers the id of the code it was admitted with, so
    appending a code shuts out every session admitted before. */
module Access {
  import opened Rows
  import opened Text

  datatype Audience = Volunteers | Teachers

  function Other(a: Audience): Audience {
    match a
    case Volunteers => Teachers
    case Teachers => Volunteers
  }

  function AreaPrefix(a: Audience): string {
    match a
    case Volunteers => "/volunteers"
    case Teachers => "/teachers"
  }

  function EnterCodePath(a: Audience): string {
    match a
    case Volunteers => "/volunteers/enter-code"
    case Teachers => "/teachers/enter-code"
  }

  /** A path of the audience's area other than its code-entry page. */
  predicate Gated(a: Audience, path: string) {
    StartsWith(path, AreaPrefix(a)) && path != EnterCodePath(a)
  }

  /** A path of the administrator's area other than its login page. */
  predicate AdminGated(path: string) {
    StartsWith(path, "/admin") && path != "/admin/login"
  }

  /** What a `before_request` hook does with a request: let it through,
      answer it with a redirect, or fail (a lookup on an empty table). */
  datatype Decision = Admit | RedirectTo(target: string) | ServerError

  /** `login_required`: a request for an administrator page other than
      the login page is sent to the login page unless the session is logged
      in. */
  function AdminGate(path: string, loggedIn: bool): (r: Decision)
    ensures r == Admit <==> !AdminGated(path) || loggedIn
    ensures r != Admit ==> r == RedirectTo("/admin/login")
  {
    if AdminGated(path) && !loggedIn then RedirectTo("/admin/login") else Admit
  }

  /** The table `volunteer_codes` or `teacher_codes`: codes by row id, with
      a counter above every id in use. */
  datatype CodeTable = CodeTable(codes: map<nat, string>, nextId: nat)

  predicate ValidCodes(t: CodeTable) {
    IdsBelow(t.codes, t.nextId)
  }

  /** `SELECT id FROM ..._codes ORDER BY id DESC LIMIT 1`: the id of the
      newest code, none for an empty table. */
  function NewestId(t: CodeTable): (r: Option<nat>)
    requires ValidCodes(t)
    ensures r.None? <==> t.codes == map[]
    ensures r.Some? ==> r.value in t.codes && forall k :: k in t.codes ==> k <= r.value
  {
    MaxKey(t.codes, t.nextId)
  }

  /** `SELECT code FROM ..._codes ORDER BY id DESC LIMIT 1`: the newest
      code, none for an empty table. */
  function NewestCode(t: CodeTable): (r: Option<string>)
    requires ValidCodes(t)
    ensures r.None? <==> t.codes == map[]
    ensures r.Some? ==> exists k :: k in t.codes && t.codes[k] == r.value && forall j :: j in t.codes ==> j <= k
  {
    match NewestId(t)
    case None => None
    case Some(k) => Some(t.codes[k])
  }

  /** `INSERT INTO ..._codes (code) VALUES (?)`: the new row gets an id
      above every id in use, so it becomes the newest. */
  function AppendCode(t: CodeTable, code: string): (r: CodeTable)
    requires ValidCodes(t)
    ensures ValidCodes(r)
    ensures forall k :: k in t.codes ==> k < t.nextId && k in r.codes && r.codes[k] == t.codes[k]
    ensures r.codes.Keys == t.codes.Keys + {t.nextId}
    ensures NewestId(r) == Some(t.nextId) && NewestCode(r) == Some(code)
  {
    var r := CodeTable(t.codes[t.nextId := code], t.nextId + 1);
    assert t.nextId in r.codes;
    r
  }

  /** `volunteer_code_required` and `teacher_code_required`: on a page of the
      audience's area other than its code-entry page, the session must be
      verified with the id of the newest code; an empty code table makes the
      lookup fail. */
  function CodeGate(a: Audience, path: string, verified: bool, version: Option<nat>, t: CodeTable): (r: Decision)
    requires ValidCodes(t)
    ensures r == ServerError <==> Gated(a, path) && t.codes == map[]
    ensures r == Admit <==> !Gated(a, path) || (t.codes != map[] && verified && version == NewestId(t))
    ensures r.RedirectTo? ==> r.target == EnterCodePath(a)
  {
    if !Gated(a, path) then Admit
    else match NewestId(t)
      case None => ServerError
      case Some(current) =>
        if !verified || version != Some(current) then RedirectTo(EnterCodePath(a)) else Admit
  }

  /** The code table of audience `a`. */
  function CodesOf(a: Audience, volunteerCodes: CodeTable, teacherCodes: CodeTable): CodeTable {
    match a
    case Volunteers => volunteerCodes
    case Teachers => teacherCodes
  }

  /** A code series as app.py keeps it. Rows are only ever inserted. */
  class CodeLog {
    var codes: map<nat, string>
    var nextId: nat

    function State(): CodeTable
      reads this
    {
      CodeTable(codes, nextId)
    }

    predicate Valid()
      reads this
    {
      ValidCodes(State())
    }

    constructor ()
      ensures Valid() && codes == map[]
    {
      codes, nextId := map[], 0;
    }

    /** `set_volunteer_code` / `set_teacher_code`, POST: an empty or missing
        code is ignored; any other is inserted under an id above every id in
        use and becomes the newest code. */
    method SetCode(newCode: Option<string>) returns (appended: bool)
      requires Valid()
      modifies this
      ensures Valid()
      ensures appended <==> Truthy(newCode)
      ensures !appended ==> codes == old(codes) && nextId == old(nextId)
      ensures appended ==> State() == AppendCode(old(State()), newCode.value)
      ensures appended ==> forall k :: k in old(codes) ==> k < NewestId(State()).value
      ensures appended ==> NewestCode(State()) == newCode
    {
      if newCode.None? || newCode.value == [] {
        return false;
      }
      codes := codes[nextId := newCode.value];
      nextId := nextId + 1;
      appended := true;
      assert State() == AppendCode(old(State()), newCode.value);
    }
  }

  datatype EntryResult = Accepted | InvalidCode | EntryFailed

  datatype LoginResult = LoggedIn | WrongPassword | MissingPassword | LoginFailed

  /** The Flask session: the keys app.py writes, a missing key read as false
      or as no version. */
  class Session {
    var loggedIn: bool
    var volunteerVerified: bool
    var volunteerVersion: Option<nat>
    var teacherVerified: bool
    var teacherVersion: Option<nat>

    predicate Cleared()
      reads this
    {
      !loggedIn && !volunteerVerified && volunteerVersion.None? && !teacherVerified && teacherVersion.None?
    }

    constructor ()
      ensures Cleared()
    {
      loggedIn, volunteerVerified, volunteerVersion, teacherVerified, teacherVersion := false, false, None, false, None;
    }

    function Verified(a: Audience): bool
      reads this
    {
      match a
      case Volunteers => volunteerVerified
      case Teachers => teacherVerified
    }

    function Version(a: Audience): Option<nat>
      reads this
    {
      match a
      case Volunteers => volunteerVersion
      case Teachers => teacherVersion
    }

    /** The three `before_request` hooks in the order app.py registers them;
        the first that answers the request decides. */
    function Gate(path: string, volunteerCodes: CodeTable, teacherCodes: CodeTable): (r: Decision)
      requires ValidCodes(volunteerCodes) && ValidCodes(teacherCodes)
      reads this
      ensures r == Admit <==>
                AdminGate(path, loggedIn) == Admit &&
                CodeGate(Volunteers, path, volunteerVerified, volunteerVersion, volunteerCodes) == Admit &&
                CodeGate(Teachers, path, teacherVerified, teacherVersion, teacherCodes) == Admit
      ensures AdminGate(path, loggedIn) != Admit ==> r == AdminGate(path, loggedIn)
    {
      var admin := AdminGate(path, loggedIn);
      var volunteer := CodeGate(Volunteers, path, volunteerVerified, volunteerVersion, volunteerCodes);
      if admin != Admit then admin
      else if volunteer != Admit then volunteer
      else CodeGate(Teachers, path, teacherVerified, teacherVersion, teacherCodes)
    }

    /** `enter_volunteer_code` / `enter_teacher_code`, POST, on the code
        table of audience `a`. The newest code is read first, so an empty
        code table fails whatever was entered. A wrong code leaves the session
        as it was; the right one marks it verified with that code's id, which
        admits it to every page of the area, and touches nothing else. */
    method EnterCode(a: Audience, entered: Option<string>, volunteerLog: CodeLog, teacherLog: CodeLog) returns (r: EntryResult)
      requires volunteerLog.Valid() && teacherLog.Valid()
      modifies this
      ensures CodesOf(a, volunteerLog.State(), teacherLog.State()).codes == map[] ==> r == EntryFailed
      ensures CodesOf(a, volunteerLog.State(), teacherLog.State()).codes != map[] ==>
                (r == Accepted <==> entered == NewestCode(CodesOf(a, volunteerLog.State(), teacherLog.State())))
      ensures (CodesOf(a, volunteerLog.State(), teacherLog.State()).codes != map[] &&
               entered != NewestCode(CodesOf(a, volunteerLog.State(), teacherLog.State())))
              ==> r == InvalidCode
      ensures r != Accepted ==> unchanged(this)
      ensures r == Accepted ==> Verified(a) && Version(a) == NewestId(CodesOf(a, volunteerLog.State(), teacherLog.State()))
      ensures r == Accepted ==> Verified(Other(a)) == old(Verified(Other(a))) && Version(Other(a)) == old(Version(Other(a)))
      ensures r == Accepted ==> loggedIn == old(loggedIn)
      ensures r == Accepted ==>
                forall path :: CodeGate(a, path, Verified(a), Version(a), CodesOf(a, volunteerLog.State(), teacherLog.State())) == Admit
    {
      var log := if a == Volunteers then volunteerLog else teacherLog;
      var current := NewestCode(log.State());
      if current.None? {
        return EntryFailed;
      }
      if entered != current {
        return InvalidCode;
      }
      match a {
        case Volunteers =>
          volunteerVerified := true;
          volunteerVersion := NewestId(log.State());
        case Teachers =>
          teacherVerified := true;
          teacherVersion := NewestId(log.State());
      }
      r := Accepted;
    }

    /** `admin_login`, POST. The password check is the hash comparison
        function, passed in. An empty password, a missing stored hash (a
        failed lookup) and a wrong password leave the session unchanged. */
    method AdminLogin(pw: Option<string>, hash: Option<string>, check: (string, string) -> bool) returns (r: LoginResult)
      modifies this
      ensures !Truthy(pw) ==> r == MissingPassword
      ensures Truthy(pw) && hash.None? ==> r == LoginFailed
      ensures Truthy(pw) && hash.Some? ==> (r == LoggedIn <==> check(hash.value, pw.value))
      ensures Truthy(pw) && hash.Some? && !check(hash.value, pw.value) ==> r == WrongPassword
      ensures r != LoggedIn ==> unchanged(this)
      ensures r == LoggedIn ==> loggedIn
      ensures r == LoggedIn ==> forall a :: Verified(a) == old(Verified(a)) && Version(a) == old(Version(a))
    {
      if !Truthy(pw) {
        return MissingPassword;
      }
      if hash.None? {
        return LoginFailed;
      }
      if check(hash.value, pw.value) {
        loggedIn := true;
        r := LoggedIn;
      } else {
        r := WrongPassword;
      }
    }

    /** `logout`: `session.clear()`. Afterwards every administrator page but
        the login page redirects to it, and the code verifications are gone
        too. */
    method Logout()
      modifies this
      ensures Cleared()
      ensures forall path :: AdminGate(path, loggedIn) == Admit <==> !AdminGated(path)
    {
      loggedIn, volunteerVerified, volunteerVersion, teacherVerified, teacherVersion := false, false, None, false, None;
    }
  }

  /** On a page of an audience's area only that audience's code check
      applies: the session is admitted exactly when it is verified with the id
      of the newest code of that audience; the other audience's codes and the
      administrator flag play no part. */
  lemma AreaAdmission(s: Session, a: Audience, path: string, volunteerCodes: CodeTable, teacherCodes: CodeTable)
    requires Gated(a, path) && ValidCodes(volunteerCodes) && ValidCodes(teacherCodes)
    ensures s.Gate(path, volunteerCodes, teacherCodes)
            == CodeGate(a, path, s.Verified(a), s.Version(a), CodesOf(a, volunteerCodes, teacherCodes))
    ensures var t := CodesOf(a, volunteerCodes, teacherCodes);
            s.Gate(path, volunteerCodes, teacherCodes) == Admit <==>
              t.codes != map[] && s.Verified(a) && s.Version(a) == NewestId(t)
  {
    assert path[1] == AreaPrefix(a)[1];
  }

  /** On an administrator page only the login flag matters: without it the
      request is sent to the login page, with it the request is admitted,
      whatever the code tables hold. */
  lemma AdminAdmission(s: Session, path: string, volunteerCodes: CodeTable, teacherCodes: CodeTable)
    requires AdminGated(path) && ValidCodes(volunteerCodes) && ValidCodes(teacherCodes)
    ensures s.Gate(path, volunteerCodes, teacherCodes) == if s.loggedIn then Admit else RedirectTo("/admin/login")
  {
    assert path[1] == 'a';
  }

  /** Inserting a code shuts out every session that was admitted before:
      its stored version is the previous newest id, now below the newest. */
  lemma RotationRevokes(a: Audience, path: string, verified: bool, version: Option<nat>, t: CodeTable, newCode: string)
    requires ValidCodes(t) && Gated(a, path)
    requires CodeGate(a, path, verified, version, t) == Admit
    ensures CodeGate(a, path, verified, version, AppendCode(t, newCode)) == RedirectTo(EnterCodePath(a))
  {
  }

  /** Inserting a volunteer code changes no decision on a teacher page,
      and the other way round. */
  lemma RotationIsPerAudience(s: Session, a: Audience, path: string, volunteerCodes: CodeTable, teacherCodes: CodeTable, newCode: string)
    requires Gated(Other(a), path) && ValidCodes(volunteerCodes) && ValidCodes(teacherCodes)
    ensures a == Volunteers ==>
              s.Gate(path, AppendCode(volunteerCodes, newCode), teacherCodes) == s.Gate(path, volunteerCodes, teacherCodes)
    ensures a == Teachers ==>
              s.Gate(path, volunteerCodes, AppendCode(teacherCodes, newCode)) == s.Gate(path, volunteerCodes, teacherCodes)
  {
    AreaAdmission(s, Other(a), path, volunteerCodes, teacherCodes);
    if a == Volunteers {
      AreaAdmission(s, Other(a), path, AppendCode(volunteerCodes, newCode), teacherCodes);
    } else {
      AreaAdmission(s, Other(a), path, volunteerCodes, AppendCode(teacherCodes, newCode));
    }
  }
}
