/** The statistics routes of server/routes/stats.js over the members
    collection: role counts, members per major and per class year, and the
    per-state counts of `/home-states`. The `$group` stage is the grouping
    of module Groups; a `$sort` stage is the stable sort of module Sorting,
    which fixes one of the orders the database may return among ties. */
module Stats {
  import opened Js
  import opened Schema
  import opened Sorting
  import opened Groups

  // ---------------------------------------------------------------------
  // GET /roles
  // ---------------------------------------------------------------------

  /** `countDocuments({"roles.<role>": true})`. */
  function CountWithRole(members: seq<Member>, role: Role): (n: nat)
    ensures n <= |members|
  {
    if members == [] then 0
    else (if HasRole(members[0].roles, role) then 1 else 0) + CountWithRole(members[1..], role)
  }

  datatype RoleCounts = RoleCounts(dev: nat, des: nat, pm: nat, core: nat, mentor: nat, total: nat)

  function CountOf(c: RoleCounts, role: Role): nat {
    match role
    case Dev => c.dev
    case Des => c.des
    case Pm => c.pm
    case Core => c.core
    case Mentor => c.mentor
  }

  /** The `stats` of `GET /roles`: all six counts over one collection, so
      no role count exceeds the total. */
  function RoleStats(members: seq<Member>): (r: RoleCounts)
    ensures r.total == |members|
    ensures forall role :: CountOf(r, role) <= r.total
  {
    RoleCounts(CountWithRole(members, Dev), CountWithRole(members, Des), CountWithRole(members, Pm),
      CountWithRole(members, Core), CountWithRole(members, Mentor), |members|)
  }

  // ---------------------------------------------------------------------
  // GET /majors and GET /class-years
  // ---------------------------------------------------------------------

  /** `$match: {field: {$exists: true, $ne: null}}` on one field's values. */
  function Defined(vs: seq<Option<string>>): (r: seq<string>)
    ensures |r| <= |vs|
    ensures forall i :: 0 <= i < |r| ==> Some(r[i]) in vs
    ensures forall i :: 0 <= i < |vs| && vs[i].Some? ==> vs[i].value in r
  {
    if vs == [] then []
    else
      var rest := Defined(vs[1..]);
      assert forall i :: 1 <= i < |vs| ==> vs[i] == vs[1..][i - 1];
      (if vs[0].Some? then [vs[0].value] else []) + rest
  }

  /** The `$match` stage is a filter: it works piece by piece, so the
      values keep their collection order. */
  lemma {:induction false} DefinedAppend(a: seq<Option<string>>, b: seq<Option<string>>)
    ensures Defined(a + b) == Defined(a) + Defined(b)
  {
    if a == [] {
      assert a + b == b;
    } else {
      assert (a + b)[0] == a[0] && (a + b)[1..] == a[1..] + b;
      DefinedAppend(a[1..], b);
    }
  }

  function Majors(members: seq<Member>): seq<Option<string>> {
    seq(|members|, i requires 0 <= i < |members| => members[i].major)
  }

  function Years(members: seq<Member>): seq<Option<string>> {
    seq(|members|, i requires 0 <= i < |members| => members[i].year)
  }

  /** `$sort: {count: -1}`. */
  function ByCountDescending(g: Group<string>): int {
    -(g.count as int)
  }

  /** The `stats` list and the `total` that reduces it. */
  datatype GroupStats = GroupStats(stats: seq<Group<string>>, total: int)

  function MajorStats(members: seq<Member>): GroupStats {
    var stats := SortedGroups(Defined(Majors(members)), ByCountDescending);
    GroupStats(stats, SumBy(stats, Count))
  }

  /** One entry per distinct major, counting its members, the largest
      first; `total` is the number of members with a major. */
  lemma MajorStatsShape(members: seq<Member>)
    ensures var r := MajorStats(members);
      && GroupsOf(r.stats, Defined(Majors(members)))
      && r.total == |Defined(Majors(members))|
      && forall i, j :: 0 <= i < j < |r.stats| ==> r.stats[i].count >= r.stats[j].count
  {
    var stats := SortedGroups(Defined(Majors(members)), ByCountDescending);
    SortedGroupsFacts(Defined(Majors(members)), ByCountDescending);
    forall i, j | 0 <= i < j < |stats|
      ensures stats[i].count >= stats[j].count
    {
      assert ByCountDescending(stats[i]) <= ByCountDescending(stats[j]);
    }
  }

  /** The position of a year among `ClassYears`; a year outside them sorts
      last. Among the allowed years this is the order of `$sort: {_id: 1}`. */
  function YearRank(y: string): (r: int)
    ensures 0 <= r <= |ClassYears|
    ensures r < |ClassYears| <==> y in ClassYears
    ensures r < |ClassYears| ==> ClassYears[r] == y
  {
    if y == "2024" then 0
    else if y == "2025" then 1
    else if y == "2026" then 2
    else if y == "2027" then 3
    else 4
  }

  function ByYear(g: Group<string>): int {
    YearRank(g.key)
  }

  function YearStats(members: seq<Member>): GroupStats {
    var stats := SortedGroups(Defined(Years(members)), ByYear);
    GroupStats(stats, SumBy(stats, Count))
  }

  /** One entry per distinct year, counting its members, in ascending
      year order; `total` is the number of members with a year. */
  lemma YearStatsShape(members: seq<Member>)
    ensures var r := YearStats(members);
      && GroupsOf(r.stats, Defined(Years(members)))
      && r.total == |Defined(Years(members))|
      && forall i, j :: 0 <= i < j < |r.stats| && r.stats[j].key in ClassYears ==>
           r.stats[i].key in ClassYears && YearRank(r.stats[i].key) < YearRank(r.stats[j].key)
  {
    var stats := SortedGroups(Defined(Years(members)), ByYear);
    SortedGroupsFacts(Defined(Years(members)), ByYear);
    forall i, j | 0 <= i < j < |stats| && stats[j].key in ClassYears
      ensures stats[i].key in ClassYears && YearRank(stats[i].key) < YearRank(stats[j].key)
    {
      assert ByYear(stats[i]) <= ByYear(stats[j]);
      assert stats[i].key != stats[j].key;
    }
  }

  // ---------------------------------------------------------------------
  // GET /home-states
  // ---------------------------------------------------------------------

  /** The `$match` of `/home-states`: the year when one is given, the role
      when one is given, and a state that is not null. */
  predicate InHomeStatesMatch(m: Member, q: RoleQuery, year: Option<string>) {
    (Truthy(year) ==> m.year == year) && MatchesRole(m.roles, q)
    && m.homeLocation.Some? && m.homeLocation.value.state.Some?
  }

  /** The states of the matched members, in collection order. */
  function MatchedStates(members: seq<Member>, q: RoleQuery, year: Option<string>): (r: seq<string>)
    ensures forall s :: s in r <==>
      exists i :: 0 <= i < |members| && InHomeStatesMatch(members[i], q, year)
        && members[i].homeLocation.value.state == Some(s)
  {
    if members == [] then []
    else
      var m := members[0];
      var rest := MatchedStates(members[1..], q, year);
      assert forall i :: 1 <= i < |members| ==> members[i] == members[1..][i - 1];
      (if InHomeStatesMatch(m, q, year) then [m.homeLocation.value.state.value] else []) + rest
  }

  /** The loop that turns the groups into `counts`: one key per group. */
  method CountsByState(results: seq<Group<string>>) returns (counts: map<string, nat>)
    requires DistinctKeys(results)
    ensures |counts| == |results|
    ensures forall i :: 0 <= i < |results| ==> results[i].key in counts && counts[results[i].key] == results[i].count
    ensures forall k :: k in counts ==> exists i :: 0 <= i < |results| && results[i].key == k
  {
    counts := map[];
    for n := 0 to |results|
      invariant |counts| == n
      invariant forall i :: 0 <= i < n ==> results[i].key in counts && counts[results[i].key] == results[i].count
      invariant forall k :: k in counts ==> exists i :: 0 <= i < n && results[i].key == k
    {
      assert results[n].key !in counts;
      counts := counts[results[n].key := results[n].count];
    }
  }

  datatype HomeStatesReply = HomeStatesReply(states: map<string, nat>, totalStates: nat)

  /** `GET /home-states`: 400 for a role outside the whitelist; otherwise a
      count for each distinct state among the matched members, and
      `totalStates` the number of those states. */
  method HomeStates(members: seq<Member>, role: Option<string>, year: Option<string>)
    returns (r: Response<HomeStatesReply>)
    ensures r.Fail? <==> ReadRoleQuery(role) == BadRole
    ensures r.Fail? ==> r == Fail(400, InvalidRoleError)
    ensures r.Ok? ==>
      var states := MatchedStates(members, ReadRoleQuery(role), year);
      && r.status == 200
      && r.body.totalStates == |r.body.states|
      && (forall s :: s in r.body.states <==> s in states)
      && (forall s :: s in r.body.states ==> r.body.states[s] == Occurrences(states, s))
  {
    var q := ReadRoleQuery(role);
    if q == BadRole {
      return Fail(400, InvalidRoleError);
    }
    var states := MatchedStates(members, q, year);
    var results := SortedGroups(states, ByCountDescending);
    SortedGroupsFacts(states, ByCountDescending);
    var counts := CountsByState(results);
    forall s | s in states
      ensures s in counts
    {
      var j :| 0 <= j < |states| && states[j] == s;
      var i :| 0 <= i < |results| && results[i].key == states[j];
    }
    r := Ok(200, HomeStatesReply(counts, |results|));
  }
}
