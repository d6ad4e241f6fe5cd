/** The seed script server/scripts/seedMembers.js: `toBool`,
    `normalizeMember`, and the enrichment pass that attaches a home location
    to every member and counts the outcomes. Its parse helpers are the ones
    of server/utils/homeLocation.js (module HomeLocation); the city table is
    the one `loadCityLookup` builds (module CityLookup), given here as a
    map. Reading files and writing to the database are not modelled. */
module Seed {
  import opened Js
  import opened Schema
  import opened HomeLocation

  // ---------------------------------------------------------------------
  // toBool
  // ---------------------------------------------------------------------

  /** The strings `toBool` reads as true, after trimming and lower-casing. */
  const TrueWords: seq<string> := ["true", "yes", "y", "1"]

  /** `toBool(v)`: a Boolean as is, a number when it is 1, a string when
      its trimmed lower-cased text is a true word, anything else false.
      `None` is `undefined`. */
  function ToBool(v: Option<Json>): (r: bool)
    ensures v.Some? && v.value.JBool? ==> r == v.value.b
    ensures v.Some? && v.value.JNum? ==> (r <==> v.value.n == 1.0)
    ensures v.Some? && v.value.JStr? ==> (r <==> ToLower(Trim(v.value.s)) in TrueWords)
    ensures v.None? || v.value.JNull? || v.value.JArr? || v.value.JObj? ==> !r
  {
    match v
    case None => false
    case Some(j) =>
      match j
      case JBool(b) => b
      case JNum(n) => n == 1.0
      case JStr(s) => ToLower(Trim(s)) in TrueWords
      case _ => false
  }

  /** Strings are read without regard to case or surrounding whitespace. */
  lemma ToBoolIgnoresCase(s: string, t: string)
    requires EqualsIgnoreCase(s, t)
    ensures ToBool(Some(JStr(s))) == ToBool(Some(JStr(t)))
  {
    TrimLower(s);
    TrimLower(t);
  }

  // ---------------------------------------------------------------------
  // normalizeMember
  // ---------------------------------------------------------------------

  /** A member object: a key maps to a value, or to `undefined` (`None`);
      an object read from the JSON file holds no `undefined`. */
  type Obj = map<string, Option<Json>>

  /** `o[k]`. */
  function Field(o: Obj, k: string): Option<Json> {
    if k in o then o[k] else None
  }

  /** `o[outer]?.[k]`: a property of a nested object; reading it off
      `null`, `undefined` or a non-object yields `undefined`. */
  function Nested(o: Obj, outer: string, k: string): Option<Json> {
    match Field(o, outer)
    case Some(JObj(fields)) => if k in fields then Some(fields[k]) else None
    case _ => None
  }

  predicate Nullish(v: Option<Json>) {
    v.None? || v.value.JNull?
  }

  /** `x ?? y`. */
  function Coalesce(x: Option<Json>, y: Option<Json>): (r: Option<Json>)
    ensures !Nullish(x) ==> r == x
    ensures Nullish(x) ==> r == y
  {
    if Nullish(x) then y else x
  }

  datatype SeedFavorites = SeedFavorites(
    thing1: Option<Json>,
    thing2: Option<Json>,
    thing3: Option<Json>,
    dartmouthTradition: Option<Json>)

  /** The object `normalizeMember` returns; `None` is `undefined`. */
  datatype SeedMember = SeedMember(
    name: Option<Json>,
    email: Option<Json>,
    year: Option<Json>,
    major: Option<Json>,
    minor: Option<Json>,
    roles: Roles,
    birthday: Option<Json>,
    home: Option<Json>,
    quote: Option<Json>,
    favorites: SeedFavorites,
    funFact: Option<Json>,
    picture: Option<Json>)

  /** `toBool(m[key] ?? m.roles?.[key])`. */
  function RoleFlag(m: Obj, key: string): bool {
    ToBool(Coalesce(Field(m, key), Nested(m, "roles", key)))
  }

  /** `normalizeMember(m)`. */
  function NormalizeMember(m: Obj): (r: SeedMember)
    ensures r.email != Some(JNull)
    ensures forall role :: HasRole(r.roles, role) == RoleFlag(m, RoleName(role))
  {
    SeedMember(
      Field(m, "name"),
      Coalesce(Field(m, "email"), None),
      Field(m, "year"),
      Field(m, "major"),
      Field(m, "minor"),
      Roles(RoleFlag(m, "dev"), RoleFlag(m, "des"), RoleFlag(m, "pm"), RoleFlag(m, "core"), RoleFlag(m, "mentor")),
      Field(m, "birthday"),
      Field(m, "home"),
      Field(m, "quote"),
      SeedFavorites(
        Coalesce(Field(m, "favorite thing 1"), Nested(m, "favorites", "thing1")),
        Coalesce(Field(m, "favorite thing 2"), Nested(m, "favorites", "thing2")),
        Coalesce(Field(m, "favorite thing 3"), Nested(m, "favorites", "thing3")),
        Coalesce(Field(m, "favorite dartmouth tradition"), Nested(m, "favorites", "dartmouthTradition"))),
      Coalesce(Field(m, "fun fact"), Field(m, "funFact")),
      Field(m, "picture"))
  }

  /** Each role flag is the top-level key when that is neither null nor
      undefined, and `roles.<key>` otherwise; the legacy spaced keys win
      over the nested favorites and `funFact` in the same way. */
  lemma NormalizeMemberSources(m: Obj, role: Role)
    ensures !Nullish(Field(m, RoleName(role))) ==>
      HasRole(NormalizeMember(m).roles, role) == ToBool(Field(m, RoleName(role)))
    ensures Nullish(Field(m, RoleName(role))) ==>
      HasRole(NormalizeMember(m).roles, role) == ToBool(Nested(m, "roles", RoleName(role)))
    ensures !Nullish(Field(m, "fun fact")) ==> NormalizeMember(m).funFact == Field(m, "fun fact")
    ensures Nullish(Field(m, "fun fact")) ==> NormalizeMember(m).funFact == Field(m, "funFact")
    ensures !Nullish(Field(m, "favorite thing 1")) ==> NormalizeMember(m).favorites.thing1 == Field(m, "favorite thing 1")
    ensures Nullish(Field(m, "favorite thing 1")) ==> NormalizeMember(m).favorites.thing1 == Nested(m, "favorites", "thing1")
    ensures !Nullish(Field(m, "favorite thing 2")) ==> NormalizeMember(m).favorites.thing2 == Field(m, "favorite thing 2")
    ensures Nullish(Field(m, "favorite thing 2")) ==> NormalizeMember(m).favorites.thing2 == Nested(m, "favorites", "thing2")
    ensures !Nullish(Field(m, "favorite thing 3")) ==> NormalizeMember(m).favorites.thing3 == Field(m, "favorite thing 3")
    ensures Nullish(Field(m, "favorite thing 3")) ==> NormalizeMember(m).favorites.thing3 == Nested(m, "favorites", "thing3")
    ensures !Nullish(Field(m, "favorite dartmouth tradition")) ==>
      NormalizeMember(m).favorites.dartmouthTradition == Field(m, "favorite dartmouth tradition")
    ensures Nullish(Field(m, "favorite dartmouth tradition")) ==>
      NormalizeMember(m).favorites.dartmouthTradition == Nested(m, "favorites", "dartmouthTradition")
  {
  }

  function RolesObject(roles: Roles): map<string, Json> {
    map["dev" := JBool(roles.dev), "des" := JBool(roles.des), "pm" := JBool(roles.pm),
        "core" := JBool(roles.core), "mentor" := JBool(roles.mentor)]
  }

  /** `fields[k] = v` when `v` is defined. */
  function Put(fields: map<string, Json>, k: string, v: Option<Json>): map<string, Json> {
    if v.Some? then fields[k := v.value] else fields
  }

  function FavoritesObject(f: SeedFavorites): map<string, Json> {
    Put(Put(Put(Put(map[], "thing1", f.thing1), "thing2", f.thing2), "thing3", f.thing3),
      "dartmouthTradition", f.dartmouthTradition)
  }

  /** A normalised member written back as an object in its own shape:
      nested `roles` and `favorites`, no legacy keys. */
  function AsObject(n: SeedMember): Obj {
    map[
      "name" := n.name, "email" := n.email, "year" := n.year, "major" := n.major,
      "minor" := n.minor, "roles" := Some(JObj(RolesObject(n.roles))), "birthday" := n.birthday,
      "home" := n.home, "quote" := n.quote, "favorites" := Some(JObj(FavoritesObject(n.favorites))),
      "funFact" := n.funFact, "picture" := n.picture]
  }

  lemma FavoritesRoundTrip(f: SeedFavorites)
    ensures var o := FavoritesObject(f);
      && (if "thing1" in o then Some(o["thing1"]) else None) == f.thing1
      && (if "thing2" in o then Some(o["thing2"]) else None) == f.thing2
      && (if "thing3" in o then Some(o["thing3"]) else None) == f.thing3
      && (if "dartmouthTradition" in o then Some(o["dartmouthTradition"]) else None) == f.dartmouthTradition
  {
  }

  /** The object carries the normalised fields under their own names and
      none of the legacy spaced keys. */
  lemma AsObjectFields(n: SeedMember)
    ensures var o := AsObject(n);
      && Field(o, "name") == n.name && Field(o, "email") == n.email && Field(o, "year") == n.year
      && Field(o, "major") == n.major && Field(o, "minor") == n.minor && Field(o, "birthday") == n.birthday
      && Field(o, "home") == n.home && Field(o, "quote") == n.quote && Field(o, "picture") == n.picture
      && Field(o, "funFact") == n.funFact
  {
  }

  lemma AsObjectLegacyAbsent(n: SeedMember)
    ensures var o := AsObject(n);
      && Field(o, "fun fact") == None
      && Field(o, "favorite thing 1") == None && Field(o, "favorite thing 2") == None
      && Field(o, "favorite thing 3") == None && Field(o, "favorite dartmouth tradition") == None
      && forall role :: Field(o, RoleName(role)) == None
  {
  }

  /** Each flag is read back from the nested `roles` object. */
  lemma AsObjectRoles(n: SeedMember, role: Role)
    ensures RoleFlag(AsObject(n), RoleName(role)) == HasRole(n.roles, role)
  {
    var o := AsObject(n);
    assert Field(o, RoleName(role)) == None by {
      AsObjectLegacyAbsent(n);
    }
    assert Nested(o, "roles", RoleName(role)) == Some(JBool(HasRole(n.roles, role))) by {
      assert Field(o, "roles") == Some(JObj(RolesObject(n.roles)));
    }
  }

  /** Each favourite is read back from the nested `favorites` object. */
  lemma AsObjectFavorites(n: SeedMember)
    ensures var o := AsObject(n);
      && Nested(o, "favorites", "thing1") == n.favorites.thing1
      && Nested(o, "favorites", "thing2") == n.favorites.thing2
      && Nested(o, "favorites", "thing3") == n.favorites.thing3
      && Nested(o, "favorites", "dartmouthTradition") == n.favorites.dartmouthTradition
  {
    FavoritesRoundTrip(n.favorites);
  }

  /** An object that holds a normalised member's fields under their own
      names, its flags and favourites nested, and no legacy key, normalises
      back to that member. */
  lemma NormalizeNestedShape(o: Obj, n: SeedMember)
    requires n.email != Some(JNull)
    requires Field(o, "name") == n.name && Field(o, "email") == n.email && Field(o, "year") == n.year
    requires Field(o, "major") == n.major && Field(o, "minor") == n.minor && Field(o, "birthday") == n.birthday
    requires Field(o, "home") == n.home && Field(o, "quote") == n.quote && Field(o, "picture") == n.picture
    requires Field(o, "funFact") == n.funFact && Field(o, "fun fact") == None
    requires Field(o, "favorite thing 1") == None && Field(o, "favorite thing 2") == None
    requires Field(o, "favorite thing 3") == None && Field(o, "favorite dartmouth tradition") == None
    requires Nested(o, "favorites", "thing1") == n.favorites.thing1
    requires Nested(o, "favorites", "thing2") == n.favorites.thing2
    requires Nested(o, "favorites", "thing3") == n.favorites.thing3
    requires Nested(o, "favorites", "dartmouthTradition") == n.favorites.dartmouthTradition
    requires forall role :: RoleFlag(o, RoleName(role)) == HasRole(n.roles, role)
    ensures NormalizeMember(o) == n
  {
    var r := NormalizeMember(o);
    assert r.roles == n.roles by {
      assert HasRole(r.roles, Dev) == HasRole(n.roles, Dev);
      assert HasRole(r.roles, Des) == HasRole(n.roles, Des);
      assert HasRole(r.roles, Pm) == HasRole(n.roles, Pm);
      assert HasRole(r.roles, Core) == HasRole(n.roles, Core);
      assert HasRole(r.roles, Mentor) == HasRole(n.roles, Mentor);
    }
  }

  /** Normalising is idempotent on its own output: a member already in the
      nested shape keeps every field and flag. */
  lemma NormalizeMemberIdempotent(m: Obj)
    ensures NormalizeMember(AsObject(NormalizeMember(m))) == NormalizeMember(m)
  {
    var n := NormalizeMember(m);
    AsObjectFields(n);
    AsObjectLegacyAbsent(n);
    AsObjectFavorites(n);
    forall role: Role
      ensures RoleFlag(AsObject(n), RoleName(role)) == HasRole(n.roles, role)
    {
      AsObjectRoles(n, role);
    }
    NormalizeNestedShape(AsObject(n), n);
  }

  // ---------------------------------------------------------------------
  // The enrichment pass
  // ---------------------------------------------------------------------

  /** `m.home` as `parseHome` and `m.home ?? null` read it: text, or null. */
  function HomeText(home: Option<Json>): Option<string> {
    match home
    case Some(JStr(s)) => Some(s)
    case _ => None
  }

  /** A home `parseHome` can read: text, or a falsy value (`undefined`,
      `null`, `false`, `0`), which it turns away as no home; any other
      value would make `rawHome.trim` throw. */
  predicate HomeReadable(home: Option<Json>) {
    home.None? || home.value.JNull? || home.value.JStr? || home.value == JBool(false) || home.value == JNum(0.0)
  }

  datatype Enriched = Enriched(member: SeedMember, homeLocation: Location)

  /** How many records have the given source. */
  function CountSource(es: seq<Enriched>, s: Source): (n: nat)
    ensures n <= |es|
  {
    if es == [] then 0
    else CountSource(es[..|es| - 1], s) + (if es[|es| - 1].homeLocation.source == s then 1 else 0)
  }

  /** One more record adds one to the count of its own source only. */
  lemma CountSourceSnoc(es: seq<Enriched>, e: Enriched, s: Source)
    ensures CountSource(es + [e], s) == CountSource(es, s) + (if e.homeLocation.source == s then 1 else 0)
  {
    assert (es + [e])[..|es|] == es;
  }

  /** Every record has exactly one of the three sources. */
  lemma {:induction false} CountsPartition(es: seq<Enriched>)
    ensures CountSource(es, UsCitiesCsv) + CountSource(es, StateCentroidFallback) + CountSource(es, NoSource) == |es|
  {
    if es != [] {
      CountsPartition(es[..|es| - 1]);
    }
  }

  /** The enrichment `map`: every member gets the record the resolver
      settles on, and `matched`, `fallback` and `missing` count the
      records by source. */
  method EnrichMembers(members: seq<SeedMember>, lookup: map<string, LatLng>)
    returns (enriched: seq<Enriched>, matched: nat, fallback: nat, missing: nat)
    requires forall i :: 0 <= i < |members| ==> HomeReadable(members[i].home)
    ensures |enriched| == |members|
    ensures forall i :: 0 <= i < |members| ==>
      enriched[i] == Enriched(members[i], Resolve(HomeText(members[i].home), lookup))
    ensures matched == CountSource(enriched, UsCitiesCsv)
    ensures fallback == CountSource(enriched, StateCentroidFallback)
    ensures missing == CountSource(enriched, NoSource)
    ensures matched + fallback + missing == |members|
  {
    enriched := [];
    matched, fallback, missing := 0, 0, 0;
    for i := 0 to |members|
      invariant |enriched| == i
      invariant forall j :: 0 <= j < i ==> enriched[j] == Enriched(members[j], Resolve(HomeText(members[j].home), lookup))
      invariant matched == CountSource(enriched, UsCitiesCsv)
      invariant fallback == CountSource(enriched, StateCentroidFallback)
      invariant missing == CountSource(enriched, NoSource)
    {
      var m := members[i];
      var homeLocation := ResolveHomeLocation(HomeText(m.home), lookup);
      var e := Enriched(m, homeLocation);
      CountSourceSnoc(enriched, e, UsCitiesCsv);
      CountSourceSnoc(enriched, e, StateCentroidFallback);
      CountSourceSnoc(enriched, e, NoSource);
      matched := matched + if e.homeLocation.source == UsCitiesCsv then 1 else 0;
      fallback := fallback + if e.homeLocation.source == StateCentroidFallback then 1 else 0;
      missing := missing + if e.homeLocation.source == NoSource then 1 else 0;
      enriched := enriched + [e];
    }
    CountsPartition(enriched);
  }

  // ---------------------------------------------------------------------
  // The misses list
  // ---------------------------------------------------------------------

  /** `raw` of every record with source "none", in order. */
  function UnmatchedRaws(es: seq<Enriched>): (r: seq<Option<string>>)
    ensures |r| == CountSource(es, NoSource)
    ensures forall x :: x in r ==> exists i :: 0 <= i < |es| && es[i].homeLocation.source == NoSource && es[i].homeLocation.raw == x
  {
    if es == [] then []
    else
      var last := es[|es| - 1];
      var front := UnmatchedRaws(es[..|es| - 1]);
      front + (if last.homeLocation.source == NoSource then [last.homeLocation.raw] else [])
  }

  /** The filter works piece by piece, so the raws keep the order of
      their records. */
  lemma {:induction false} UnmatchedRawsAppend(a: seq<Enriched>, b: seq<Enriched>)
    ensures UnmatchedRaws(a + b) == UnmatchedRaws(a) + UnmatchedRaws(b)
  {
    if b == [] {
      assert a + b == a;
    } else {
      var last := b[|b| - 1];
      assert (a + b)[..|a + b| - 1] == a + b[..|b| - 1];
      UnmatchedRawsAppend(a, b[..|b| - 1]);
    }
  }

  /** `enriched.filter(source === "none").slice(0, 10).map(raw)`. */
  function Misses(es: seq<Enriched>): (r: seq<Option<string>>)
    ensures |r| <= 10
    ensures |r| == if CountSource(es, NoSource) < 10 then CountSource(es, NoSource) else 10
    ensures r == UnmatchedRaws(es)[..|r|]
  {
    var all := UnmatchedRaws(es);
    if |all| <= 10 then all else all[..10]
  }

  /** Every miss is the raw home of a record that found no coordinates. */
  lemma MissesUnmatched(es: seq<Enriched>)
    ensures forall x :: x in Misses(es) ==>
      exists i :: 0 <= i < |es| && es[i].homeLocation.source == NoSource && es[i].homeLocation.raw == x
  {
    var all := UnmatchedRaws(es);
    forall x | x in Misses(es) ensures x in all {
      var k :| 0 <= k < |Misses(es)| && Misses(es)[k] == x;
      assert all[k] == x;
    }
  }
}
