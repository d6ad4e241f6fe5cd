/** Signup and login of server/routes/auth.js over a store of users and
    members. A member's id is its position in the members list. bcrypt is
    the uninterpreted function `hash`: a password matches a stored hash when
    hashing it gives that hash. */
module Auth {
  import opened Js
  import opened Schema

  /** The member fields signup and login deal with. */
  datatype AccountMember = AccountMember(name: string, email: Option<string>, year: Option<string>, roles: Roles)

  /** A user document: the stored password is the hash, never the text. */
  datatype User = User(email: string, passwordHash: string, name: string, member: Option<nat>)

  /** The `user` object of a successful reply; `member` is `null` when the
      user has no linked member. */
  datatype Session = Session(email: string, name: string, member: Option<AccountMember>)

  /** A field of the request body is present and non-empty. */
  predicate Given(field: Option<string>) {
    field.Some? && field.value != ""
  }

  /** `User.findOne({email})`: the first user with that email. */
  function FindUser(users: seq<User>, email: string): (r: Option<nat>)
    ensures r.None? <==> forall i :: 0 <= i < |users| ==> users[i].email != email
    ensures r.Some? ==>
      r.value < |users| && users[r.value].email == email
      && forall i :: 0 <= i < r.value ==> users[i].email != email
  {
    if users == [] then None
    else if users[|users| - 1].email == email && FindUser(users[..|users| - 1], email).None? then Some(|users| - 1)
    else FindUser(users[..|users| - 1], email)
  }

  /** `Member.findOne({name: /^name$/i})` as the comment at
      server/routes/auth.js:36 describes it, an exact name match up to
      case: the first member whose name equals `name` without regard to
      case. */
  function FindMemberByName(members: seq<AccountMember>, name: string): (r: Option<nat>)
    ensures r.None? <==> forall i :: 0 <= i < |members| ==> !EqualsIgnoreCase(members[i].name, name)
    ensures r.Some? ==>
      r.value < |members| && EqualsIgnoreCase(members[r.value].name, name)
      && forall i :: 0 <= i < r.value ==> !EqualsIgnoreCase(members[i].name, name)
  {
    if members == [] then None
    else if EqualsIgnoreCase(members[|members| - 1].name, name) && FindMemberByName(members[..|members| - 1], name).None? then
      Some(|members| - 1)
    else FindMemberByName(members[..|members| - 1], name)
  }

  /** The same query as written: `name` goes into the pattern `^name$`
      unescaped, so `regexTest(name, s)` stands for the database's
      case-insensitive `$regex` test of `^name$` against `s`. */
  function FindMemberByPattern(members: seq<AccountMember>, name: string,
                               regexTest: (string, string) -> bool): (r: Option<nat>)
    ensures r.None? <==> forall i :: 0 <= i < |members| ==> !regexTest(name, members[i].name)
    ensures r.Some? ==>
      r.value < |members| && regexTest(name, members[r.value].name)
      && forall i :: 0 <= i < r.value ==> !regexTest(name, members[i].name)
  {
    if members == [] then None
    else if regexTest(name, members[|members| - 1].name) && FindMemberByPattern(members[..|members| - 1], name, regexTest).None? then
      Some(|members| - 1)
    else FindMemberByPattern(members[..|members| - 1], name, regexTest)
  }

  /** What `^pattern$` with the `i` flag matches when the pattern's only
      special character is `.`: text of the same length that agrees, up to
      case, everywhere the pattern has no `.`. */
  predicate DotPatternTest(pattern: string, s: string) {
    |pattern| == |s| && forall i :: 0 <= i < |s| ==> pattern[i] == '.' || LowerChar(pattern[i]) == LowerChar(s[i])
  }

  /** A name written with a regular-expression character links to another
      member's record: "J.hn" finds the member "John", while the intended
      case-insensitive equality finds no one. */
  lemma DotNameLinksOtherMember(members: seq<AccountMember>)
    requires |members| == 1 && members[0].name == JohnName
    ensures FindMemberByPattern(members, DottedName, DotPatternTest) == Some(0)
    ensures FindMemberByName(members, DottedName) == None
  {
    assert DotPatternTest(DottedName, JohnName) by {
      assert forall i :: 0 <= i < |JohnName| ==> DottedName[i] == '.' || DottedName[i] == JohnName[i];
    }
    assert ToLower(DottedName)[1] == '.' != ToLower(JohnName)[1];
  }

  const JohnName: string := "John"
  const DottedName: string := "J.hn"

  /** The first user with an email stays the one found when a user with
      another email is added, and a new email is found at the end. */
  lemma FindUserAppend(users: seq<User>, u: User, email: string)
    ensures u.email != email ==> FindUser(users + [u], email) == FindUser(users, email)
    ensures u.email == email && FindUser(users, email).None? ==> FindUser(users + [u], email) == Some(|users|)
  {
    assert (users + [u])[..|users|] == users;
  }

  /** The 401 message, the same for an unknown email and a wrong password. */
  const InvalidCredentials: string := "Invalid email or password"

  /** `POST /login`: 400 on a missing field, 401 when no user has the
      email or the password does not hash to the stored hash, else the user
      with the linked member, `null` when there is none. */
  function Login(users: seq<User>, members: seq<AccountMember>, hash: string -> string,
                 email: Option<string>, password: Option<string>): (r: Response<Session>)
    ensures !Given(email) || !Given(password) <==> r == Fail(400, "Email and password are required")
    ensures r.Fail? && r.status == 401 ==> r.error == InvalidCredentials
    ensures Given(email) && Given(password) && FindUser(users, email.value).None? ==> r == Fail(401, InvalidCredentials)
    ensures Given(email) && Given(password) && FindUser(users, email.value).Some?
            && users[FindUser(users, email.value).value].passwordHash != hash(password.value) ==>
              r == Fail(401, InvalidCredentials)
    ensures r.Ok? <==>
      Given(email) && Given(password) && FindUser(users, email.value).Some?
      && users[FindUser(users, email.value).value].passwordHash == hash(password.value)
    ensures r.Ok? ==>
      var u := users[FindUser(users, email.value).value];
      r.status == 200 && r.body.email == email.value && r.body.name == u.name
      && (r.body.member.None? <==> u.member.None? || u.member.value >= |members|)
      && (r.body.member.Some? ==> r.body.member.value == members[u.member.value])
  {
    if !Given(email) || !Given(password) then Fail(400, "Email and password are required")
    else
      match FindUser(users, email.value)
      case None => Fail(401, InvalidCredentials)
      case Some(i) =>
        var u := users[i];
        if hash(password.value) != u.passwordHash then Fail(401, InvalidCredentials)
        else
          var member := if u.member.Some? && u.member.value < |members| then Some(members[u.member.value]) else None;
          Ok(200, Session(u.email, u.name, member))
  }

  /** A user added under an email no one had can log in with the password
      whose hash it stores, and sees its linked member. */
  lemma LoginAfterSignup(users: seq<User>, members: seq<AccountMember>, hash: string -> string,
                         u: User, password: string)
    requires u.email != "" && password != "" && FindUser(users, u.email).None?
    requires u.passwordHash == hash(password) && u.member.Some? && u.member.value < |members|
    ensures Login(users + [u], members, hash, Some(u.email), Some(password))
      == Ok(200, Session(u.email, u.name, Some(members[u.member.value])))
  {
    FindUserAppend(users, u, u.email);
  }

  const MissingFieldsError: string := "Email, password, and name are required"
  const ShortPasswordError: string := "Password must be at least 6 characters"
  const EmailTakenError: string := "Email already registered"
  const SignupFailed: string := "Signup failed"

  /** The input checks of `POST /signup` in order: the status and message
      of the first failing one, or `None`. */
  function SignupError(users: seq<User>, email: Option<string>, password: Option<string>, name: Option<string>): (r: Option<(nat, string)>)
    ensures r.None? <==>
      Given(email) && Given(password) && Given(name) && |password.value| >= 6 && FindUser(users, email.value).None?
    ensures !Given(email) || !Given(password) || !Given(name) ==> r == Some((400, MissingFieldsError))
    ensures Given(email) && Given(password) && Given(name) && |password.value| < 6 ==>
      r == Some((400, ShortPasswordError))
    ensures r.Some? && r.value.0 == 409 <==>
      Given(email) && Given(password) && Given(name) && |password.value| >= 6 && FindUser(users, email.value).Some?
  {
    if !Given(email) || !Given(password) || !Given(name) then Some((400, MissingFieldsError))
    else if |password.value| < 6 then Some((400, ShortPasswordError))
    else if FindUser(users, email.value).Some? then Some((409, EmailTakenError))
    else None
  }

  /** A user links only to an existing member, and every stored member
      passed the schema's year validator. */
  ghost predicate Consistent(users: seq<User>, members: seq<AccountMember>) {
    && (forall i :: 0 <= i < |users| && users[i].member.Some? ==> users[i].member.value < |members|)
    && (forall i :: 0 <= i < |members| ==> YearAllowed(members[i].year))
  }

  /** Saving a member whose year is allowed keeps the collections
      consistent. */
  lemma ConsistentAddMember(users: seq<User>, members: seq<AccountMember>, m: AccountMember)
    requires Consistent(users, members) && YearAllowed(m.year)
    ensures Consistent(users, members + [m])
  {
  }

  /** Saving a user that links to an existing member, or to none, keeps the
      collections consistent. */
  lemma ConsistentAddUser(users: seq<User>, members: seq<AccountMember>, u: User)
    requires Consistent(users, members) && (u.member.Some? ==> u.member.value < |members|)
    ensures Consistent(users + [u], members)
  {
  }

  /** The users and members collections. */
  class AuthStore {
    var users: seq<User>
    var members: seq<AccountMember>
    const hash: string -> string

    ghost predicate Valid()
      reads this
    {
      Consistent(users, members)
    }

    constructor(users: seq<User>, members: seq<AccountMember>, hash: string -> string)
      requires Consistent(users, members)
      ensures this.users == users && this.members == members && this.hash == hash && Valid()
    {
      this.users := users;
      this.members := members;
      this.hash := hash;
    }

    /** `POST /signup`. On a failed check nothing is stored. Otherwise the
        member whose name matches is linked, or a new member is saved
        (roles all false when none are given); saving it fails with 500
        "Signup failed", and nothing stored, when its year is not an
        allowed class year. Then exactly one user is saved with the
        password's hash; the reply is 201, and logging in with the same
        email and password now succeeds with that member. */
    method Signup(email: Option<string>, password: Option<string>, name: Option<string>,
                  year: Option<string>, roles: Option<Roles>)
      returns (r: Response<Session>)
      requires Valid()
      modifies this
      ensures Valid()
      ensures SignupError(old(users), email, password, name).Some? ==>
        var e := SignupError(old(users), email, password, name).value;
        r == Fail(e.0, e.1) && users == old(users) && members == old(members)
      ensures SignupError(old(users), email, password, name).None?
              && FindMemberByName(old(members), name.value).None? && !YearAllowed(year) ==>
        r == Fail(500, SignupFailed) && users == old(users) && members == old(members)
      ensures SignupError(old(users), email, password, name).None?
              && (FindMemberByName(old(members), name.value).Some? || YearAllowed(year)) ==>
        var linked := FindMemberByName(old(members), name.value);
        var memberId := if linked.Some? then linked.value else |old(members)|;
        && r.Ok? && r.status == 201
        && users == old(users) + [User(email.value, hash(password.value), name.value, Some(memberId))]
        && (linked.Some? ==> members == old(members))
        && (linked.None? ==> members == old(members) + [AccountMember(name.value, email, year, if roles.Some? then roles.value else NoRoles)])
        && r.body == Session(email.value, name.value, Some(members[memberId]))
        && Login(users, members, hash, email, password) == Ok(200, r.body)
    {
      var error := SignupError(users, email, password, name);
      if error.Some? {
        return Fail(error.value.0, error.value.1);
      }
      var passwordHash := hash(password.value);
      var linked := FindMemberByName(members, name.value);
      var memberId: nat;
      if linked.Some? {
        memberId := linked.value;
      } else {
        if !YearAllowed(year) {
          return Fail(500, SignupFailed);
        }
        var newMember := AccountMember(name.value, email, year, if roles.Some? then roles.value else NoRoles);
        ConsistentAddMember(users, members, newMember);
        members := members + [newMember];
        memberId := |members| - 1;
      }
      var user := User(email.value, passwordHash, name.value, Some(memberId));
      LoginAfterSignup(users, members, hash, user, password.value);
      ConsistentAddUser(users, members, user);
      users := users + [user];
      r := Ok(201, Session(email.value, name.value, Some(members[memberId])));
    }
  }
}
