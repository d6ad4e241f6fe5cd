/** `GET /hometowns` of server/routes/map.js: the `limit` clamp, the query
    built field by field (year, whitelisted role, coordinates present), the
    limit on the documents read, and the projection of each member to a map
    point with `null` and "none" defaults. */
module MapRoute {
  import opened Js
  import opened Schema

  /** `Math.min(parseInt(limit, 10) || 500, 2000)`, with `limit` defaulting
      to "500" when absent. */
  function SafeLimit(limit: Option<string>): (r: int)
    ensures r <= 2000 && r != 0
    ensures limit.None? ==> r == 500
    ensures limit.Some? && (ParseInt(limit.value).None? || ParseInt(limit.value) == Some(0)) ==> r == 500
  {
    var parsed := if limit.None? then Some(500) else ParseInt(limit.value);
    var n := if parsed.None? || parsed.value == 0 then 500 else parsed.value;
    Min(n, 2000)
  }

  /** A decimal limit is taken as given up to 2000. */
  lemma SafeLimitOfDecimal(n: nat)
    ensures SafeLimit(Some(NatToString(n))) == if n == 0 then 500 else Min(n, 2000)
  {
    ParseIntOfNatToString(n);
  }

  /** An absent limit acts as the decimal text of 500 does. */
  lemma DefaultLimitAsText()
    ensures SafeLimit(None) == SafeLimit(Some(NatToString(500)))
  {
    SafeLimitOfDecimal(500);
  }

  /** The query object: the year to equal, the role to hold, and whether
      both coordinates must be non-null. */
  datatype MapQuery = MapQuery(year: Option<string>, role: RoleQuery, withCoords: bool)

  /** The query lines 28-45 build: the year when given, the role when
      given and whitelisted, and coordinates unless `hasCoords` is given
      as anything but "true"; `None` is the 400 reply for a role outside
      the whitelist. */
  function QueryOf(role: Option<string>, year: Option<string>, hasCoords: Option<string>): (r: Option<MapQuery>)
    ensures r.None? <==> ReadRoleQuery(role) == BadRole
    ensures r.Some? ==>
      && (r.value.year.Some? <==> Truthy(year))
      && (r.value.year.Some? ==> r.value.year == year)
      && r.value.role == ReadRoleQuery(role)
      && (r.value.withCoords <==> hasCoords.None? || hasCoords == Some("true"))
  {
    var q := ReadRoleQuery(role);
    if q == BadRole then None
    else Some(MapQuery(if Truthy(year) then year else None, q, hasCoords.None? || hasCoords == Some("true")))
  }

  /** Lines 28-45: start from `{}` and add each condition in turn. The
      query built is `QueryOf`'s; `hasCoords` defaults to "true", and only
      that exact text asks for coordinates. */
  method BuildQuery(role: Option<string>, year: Option<string>, hasCoords: Option<string>) returns (r: Option<MapQuery>)
    ensures r == QueryOf(role, year, hasCoords)
  {
    var coordsText := if hasCoords.None? then "true" else hasCoords.value;
    var query := MapQuery(None, AnyRole, false);
    if Truthy(year) {
      query := query.(year := year);
    }
    if Truthy(role) {
      var q := ReadRoleQuery(role);
      if q == BadRole {
        return None;
      }
      query := query.(role := q);
    }
    if coordsText == "true" {
      query := query.(withCoords := true);
    }
    return Some(query);
  }

  /** Whether a member document matches the query. */
  predicate Matches(m: Member, q: MapQuery) {
    (q.year.Some? ==> m.year == q.year)
    && MatchesRole(m.roles, q.role)
    && (q.withCoords ==> m.homeLocation.Some? && m.homeLocation.value.lat.Some? && m.homeLocation.value.lng.Some?)
  }

  /** The matching documents in collection order. */
  function Find(members: seq<Member>, q: MapQuery): (r: seq<Member>)
    ensures |r| <= |members|
    ensures forall i :: 0 <= i < |r| ==> r[i] in members && Matches(r[i], q)
    ensures forall i :: 0 <= i < |members| && Matches(members[i], q) ==> members[i] in r
    ensures Find(members, q) == [] <==> forall i :: 0 <= i < |members| ==> !Matches(members[i], q)
  {
    if members == [] then []
    else
      var rest := Find(members[1..], q);
      assert forall i :: 1 <= i < |members| ==> members[i] == members[1..][i - 1];
      (if Matches(members[0], q) then [members[0]] else []) + rest
  }

  /** `Find` is a filter: it works piece by piece, so the documents keep
      their collection order. */
  lemma {:induction false} FindAppend(a: seq<Member>, b: seq<Member>, q: MapQuery)
    ensures Find(a + b, q) == Find(a, q) + Find(b, q)
  {
    if a == [] {
      assert a + b == b;
    } else {
      assert (a + b)[0] == a[0] && (a + b)[1..] == a[1..] + b;
      FindAppend(a[1..], b, q);
    }
  }

  /** `.limit(n)`: at most `n` documents from the front; a negative `n`
      returns at most `-n` in one batch. */
  function Limit(docs: seq<Member>, n: int): (r: seq<Member>)
    ensures |r| <= |docs| && r == docs[..|r|]
    ensures |r| == Min(if n < 0 then -n else n, |docs|)
  {
    var k := if n < 0 then -n else n;
    if k < |docs| then docs[..k] else docs
  }

  /** A point of the map. */
  datatype Point = Point(
    memberId: string,
    name: string,
    year: Option<string>,
    roles: Roles,
    home: Option<string>,
    city: Option<string>,
    state: Option<string>,
    lat: Option<real>,
    lng: Option<real>,
    picture: Option<string>,
    source: string)

  /** The `map` step: `hl = m.homeLocation || {}`, each field `?? null`, the
      source `?? "none"`. */
  function Project(m: Member): (p: Point)
    ensures p.memberId == m.id && p.name == m.name && p.year == m.year && p.roles == m.roles
    ensures p.home == m.home && p.picture == m.picture
    ensures m.homeLocation.None? ==> p.city.None? && p.state.None? && p.lat.None? && p.lng.None? && p.source == "none"
    ensures m.homeLocation.Some? ==>
      p.city == m.homeLocation.value.city && p.state == m.homeLocation.value.state
      && p.lat == m.homeLocation.value.lat && p.lng == m.homeLocation.value.lng
    ensures m.homeLocation.Some? && m.homeLocation.value.source.Some? ==> p.source == m.homeLocation.value.source.value
    ensures m.homeLocation.Some? && m.homeLocation.value.source.None? ==> p.source == "none"
  {
    var hl := if m.homeLocation.Some? then m.homeLocation.value else StoredLocation(None, None, None, None, None, None);
    Point(m.id, m.name, m.year, m.roles, m.home, hl.city, hl.state, hl.lat, hl.lng, m.picture,
      if hl.source.Some? then hl.source.value else "none")
  }

  function Points(docs: seq<Member>): (ps: seq<Point>)
    ensures |ps| == |docs| && forall i :: 0 <= i < |docs| ==> ps[i] == Project(docs[i])
  {
    if docs == [] then [] else [Project(docs[0])] + Points(docs[1..])
  }

  datatype MapReply = MapReply(count: nat, points: seq<Point>)

  /** `GET /hometowns`: 400 for a role outside the whitelist; otherwise
      the points of the first matching documents, in collection order, no
      more of them than the limit allows, with `count` their number. */
  method Hometowns(members: seq<Member>, role: Option<string>, year: Option<string>,
                   hasCoords: Option<string>, limit: Option<string>) returns (r: Response<MapReply>)
    ensures r.Fail? <==> ReadRoleQuery(role) == BadRole
    ensures r.Fail? ==> r == Fail(400, InvalidRoleError)
    ensures r.Ok? ==>
      && QueryOf(role, year, hasCoords).Some?
      && r == Ok(200, MapReply(|r.body.points|, Points(Limit(Find(members, QueryOf(role, year, hasCoords).value), SafeLimit(limit)))))
    ensures r.Ok? ==>
      && (SafeLimit(limit) > 0 ==> |r.body.points| <= SafeLimit(limit))
      && (forall i :: 0 <= i < |r.body.points| ==>
            exists m :: m in members && r.body.points[i] == Project(m)
              && (Truthy(year) ==> m.year == year) && MatchesRole(m.roles, ReadRoleQuery(role)))
      && ((hasCoords.None? || hasCoords == Some("true")) ==>
            forall i :: 0 <= i < |r.body.points| ==> r.body.points[i].lat.Some? && r.body.points[i].lng.Some?)
  {
    var safeLimit := SafeLimit(limit);
    var query := BuildQuery(role, year, hasCoords);
    if query.None? {
      return Fail(400, InvalidRoleError);
    }
    var q := query.value;
    var docs := Limit(Find(members, q), safeLimit);
    var points := Points(docs);
    r := Ok(200, MapReply(|points|, points));
    PointsWithinLimit(Find(members, q), safeLimit);
    PointsOfQuery(members, role, year, hasCoords, safeLimit, r.body.points);
  }

  /** There are no more points than a positive limit allows. */
  lemma PointsWithinLimit(docs: seq<Member>, n: int)
    ensures n > 0 ==> |Points(Limit(docs, n))| <= n
  {
    var r := Limit(docs, n);
    assert |Points(r)| == |r| == Min(if n < 0 then -n else n, |docs|);
  }

  /** Each point is the projection of a member that matches the query:
      the year when one is given, the role, and both coordinates unless
      `hasCoords` is given as anything but "true". */
  lemma PointsOfQuery(members: seq<Member>, role: Option<string>, year: Option<string>,
                      hasCoords: Option<string>, n: int, ps: seq<Point>)
    requires QueryOf(role, year, hasCoords).Some?
    requires ps == Points(Limit(Find(members, QueryOf(role, year, hasCoords).value), n))
    ensures forall i :: 0 <= i < |ps| ==>
      exists m :: m in members && ps[i] == Project(m)
        && (Truthy(year) ==> m.year == year) && MatchesRole(m.roles, ReadRoleQuery(role))
    ensures (hasCoords.None? || hasCoords == Some("true")) ==>
      forall i :: 0 <= i < |ps| ==> ps[i].lat.Some? && ps[i].lng.Some?
  {
    var q := QueryOf(role, year, hasCoords).value;
    var docs := Limit(Find(members, q), n);
    forall i | 0 <= i < |ps|
      ensures docs[i] in members && ps[i] == Project(docs[i]) && Matches(docs[i], q)
    {
      assert docs[i] == Find(members, q)[i];
    }
  }

  /** The points are the projections of the first matching documents, in
      collection order. */
  lemma PointsInQueryOrder(members: seq<Member>, q: MapQuery, n: int)
    ensures var ps := Points(Limit(Find(members, q), n));
      forall i :: 0 <= i < |ps| ==> ps[i] == Project(Find(members, q)[i])
  {
  }

  /** Nothing matching is lost below the limit: when no more documents
      match than the limit allows, every matching member has its point. */
  lemma PointsComplete(members: seq<Member>, q: MapQuery, n: int)
    requires |Find(members, q)| <= (if n < 0 then -n else n)
    ensures var ps := Points(Limit(Find(members, q), n));
      forall m :: m in members && Matches(m, q) ==> Project(m) in ps
  {
    var found := Find(members, q);
    var ps := Points(Limit(found, n));
    assert Limit(found, n) == found;
    forall m | m in members && Matches(m, q)
      ensures Project(m) in ps
    {
      var i :| 0 <= i < |members| && members[i] == m;
      var j :| 0 <= j < |found| && found[j] == m;
      assert ps[j] == Project(m);
    }
  }
}
