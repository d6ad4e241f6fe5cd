/** Record shapes shared by the routes: the Member document
    (server/models/Member.js), the five-role record, the role whitelist the
    list, stats and map routes apply to `?role=`, and HTTP outcomes. */
module Schema {
  import opened Js

  datatype Role = Dev | Des | Pm | Core | Mentor

  /** `roles: {dev, des, pm, core, mentor}`, each a Boolean. */
  datatype Roles = Roles(dev: bool, des: bool, pm: bool, core: bool, mentor: bool)

  /** The roles in the order the source lists them. */
  const AllRoles: seq<Role> := [Dev, Des, Pm, Core, Mentor]

  const NoRoles: Roles := Roles(false, false, false, false, false)

  function RoleName(r: Role): string {
    match r
    case Dev => "dev"
    case Des => "des"
    case Pm => "pm"
    case Core => "core"
    case Mentor => "mentor"
  }

  /** `roles[r]`. */
  function HasRole(roles: Roles, r: Role): bool {
    match r
    case Dev => roles.dev
    case Des => roles.des
    case Pm => roles.pm
    case Core => roles.core
    case Mentor => roles.mentor
  }

  /** `["dev", "des", "pm", "core", "mentor"].includes(s)`, returning the role. */
  function ParseRole(s: string): (r: Option<Role>)
    ensures r.Some? ==> RoleName(r.value) == s
    ensures r.None? ==> forall q: Role :: RoleName(q) != s
  {
    if s == "dev" then Some(Dev)
    else if s == "des" then Some(Des)
    else if s == "pm" then Some(Pm)
    else if s == "core" then Some(Core)
    else if s == "mentor" then Some(Mentor)
    else None
  }

  /** What a `?role=` query parameter asks for. */
  datatype RoleQuery = AnyRole | OnlyRole(role: Role) | BadRole

  /** `if (role) { if (!allowed.includes(role)) 400; filter["roles." + role] = true }`:
      an absent or empty parameter filters nothing, a whitelisted one selects
      that role, anything else is rejected. */
  function ReadRoleQuery(q: Option<string>): (r: RoleQuery)
    ensures r == AnyRole <==> !Truthy(q)
    ensures r.OnlyRole? ==> q == Some(RoleName(r.role))
    ensures r == BadRole <==> Truthy(q) && forall x: Role :: RoleName(x) != q.value
  {
    if !Truthy(q) then AnyRole
    else match ParseRole(q.value)
      case Some(role) => OnlyRole(role)
      case None => BadRole
  }

  const InvalidRoleError: string := "Invalid role. Must be one of: dev, des, pm, core, mentor"

  /** Whether a member passes a (valid) role filter. */
  predicate MatchesRole(roles: Roles, q: RoleQuery) {
    match q
    case AnyRole => true
    case OnlyRole(r) => HasRole(roles, r)
    case BadRole => false
  }

  /** The class years the Member schema's `enum` validator allows, in
      ascending order. */
  const ClassYears: seq<string> := ["2024", "2025", "2026", "2027"]

  /** The `year` validator: an absent year passes, a present one must be
      one of `ClassYears`. */
  predicate YearAllowed(year: Option<string>) {
    year.None? || year.value in ClassYears
  }

  datatype Favorites = Favorites(
    thing1: Option<string>,
    thing2: Option<string>,
    thing3: Option<string>,
    dartmouthTradition: Option<string>)

  const NoFavorites: Favorites := Favorites(None, None, None, None)

  /** The stored `homeLocation` sub-document; every field may be absent. */
  datatype StoredLocation = StoredLocation(
    raw: Option<string>,
    city: Option<string>,
    state: Option<string>,
    lat: Option<real>,
    lng: Option<real>,
    source: Option<string>)

  /** A Member document as the routes read it (`_id` as its string form). */
  datatype Member = Member(
    id: string,
    name: string,
    email: Option<string>,
    year: Option<string>,
    major: Option<string>,
    minor: Option<string>,
    roles: Roles,
    birthday: Option<string>,
    home: Option<string>,
    quote: Option<string>,
    picture: Option<string>,
    favorites: Favorites,
    funFact: Option<string>,
    homeLocation: Option<StoredLocation>)

  /** An HTTP reply: a success status with a body, or an error status with
      the `error` message. */
  datatype Response<T> = Ok(status: nat, body: T) | Fail(status: nat, error: string)
}
