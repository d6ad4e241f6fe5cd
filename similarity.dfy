/** The member routes of server/routes/members.js: the "similar members"
    ranking of `GET /api/members/:id/similar` (lines 61-139) and the role
    and name filter of `GET /api/members` (lines 7-42). The database is a
    sequence of Member documents in collection order. */
module Similarity {
  import opened Js
  import opened Schema
  import opened Sorting

  // ---------------------------------------------------------------------
  // scoreCandidate
  // ---------------------------------------------------------------------

  /** `x && y && x === y` on two optional strings. */
  predicate SameValue(x: Option<string>, y: Option<string>) {
    Truthy(x) && Truthy(y) && x == y
  }

  /** `m.homeLocation?.state`. */
  function HomeState(m: Member): Option<string> {
    if m.homeLocation.Some? then m.homeLocation.value.state else None
  }

  /** One test of `scoreCandidate`. */
  datatype Criterion = SameMajor | SameMinor | SameYear | Both(role: Role) | SameState

  function Weight(c: Criterion): int {
    match c
    case SameMajor => 4
    case SameMinor => 2
    case SameYear => 1
    case Both(_) => 2
    case SameState => 1
  }

  /** The reason pushed when a test passes. */
  function Label(c: Criterion): string {
    match c
    case SameMajor => "same major"
    case SameMinor => "same minor"
    case SameYear => "same year"
    case Both(r) => "both " + RoleName(r)
    case SameState => "same state"
  }

  /** Whether base `a` and candidate `b` pass test `c`. */
  predicate Meets(a: Member, b: Member, c: Criterion) {
    match c
    case SameMajor => SameValue(a.major, b.major)
    case SameMinor => SameValue(a.minor, b.minor)
    case SameYear => SameValue(a.year, b.year)
    case Both(r) => HasRole(a.roles, r) && HasRole(b.roles, r)
    case SameState => SameValue(HomeState(a), HomeState(b))
  }

  /** `[c]` when the test passes, else nothing. */
  function IfMet(a: Member, b: Member, c: Criterion): (r: seq<Criterion>)
    ensures r == [] || r == [c]
  {
    if Meets(a, b, c) then [c] else []
  }

  /** The role tests passed, for the roles of `rs` in order. */
  function RolesMet(a: Member, b: Member, rs: seq<Role>): seq<Criterion> {
    if rs == [] then [] else RolesMet(a, b, rs[..|rs| - 1]) + IfMet(a, b, Both(rs[|rs| - 1]))
  }

  /** The tests candidate `b` passes against base `a`, in the order
      `scoreCandidate` runs them: major, minor, year, the five roles, state. */
  function Met(a: Member, b: Member): seq<Criterion> {
    IfMet(a, b, SameMajor) + IfMet(a, b, SameMinor) + IfMet(a, b, SameYear)
    + RolesMet(a, b, AllRoles) + IfMet(a, b, SameState)
  }

  function TotalWeight(cs: seq<Criterion>): int {
    if cs == [] then 0 else TotalWeight(cs[..|cs| - 1]) + Weight(cs[|cs| - 1])
  }

  function Labels(cs: seq<Criterion>): (r: seq<string>)
    ensures |r| == |cs| && forall i :: 0 <= i < |cs| ==> r[i] == Label(cs[i])
  {
    if cs == [] then [] else Labels(cs[..|cs| - 1]) + [Label(cs[|cs| - 1])]
  }

  /** The `score` and `reasons` that `scoreCandidate(a, b)` returns. */
  function Score(a: Member, b: Member): int {
    TotalWeight(Met(a, b))
  }

  function Reasons(a: Member, b: Member): seq<string> {
    Labels(Met(a, b))
  }

  lemma {:induction false} TotalWeightAppend(xs: seq<Criterion>, ys: seq<Criterion>)
    ensures TotalWeight(xs + ys) == TotalWeight(xs) + TotalWeight(ys)
  {
    if ys != [] {
      TotalWeightAppend(xs, ys[..|ys| - 1]);
      assert (xs + ys)[..|xs + ys| - 1] == xs + ys[..|ys| - 1];
    } else {
      assert xs + ys == xs;
    }
  }

  function Points(passed: bool, weight: int): int {
    if passed then weight else 0
  }

  /** `[s]` when the test passed, else nothing. */
  function LabelIf(passed: bool, s: string): seq<string> {
    if passed then [s] else []
  }

  /** One more role adds its weight and its reason when both hold it. */
  lemma RolesMetStep(a: Member, b: Member, rs: seq<Role>, i: nat)
    requires i < |rs|
    ensures RolesMet(a, b, rs[..i + 1]) == RolesMet(a, b, rs[..i]) + IfMet(a, b, Both(rs[i]))
    ensures TotalWeight(RolesMet(a, b, rs[..i + 1])) ==
      TotalWeight(RolesMet(a, b, rs[..i])) + Points(HasRole(a.roles, rs[i]) && HasRole(b.roles, rs[i]), 2)
    ensures Labels(RolesMet(a, b, rs[..i + 1])) ==
      Labels(RolesMet(a, b, rs[..i])) + LabelIf(HasRole(a.roles, rs[i]) && HasRole(b.roles, rs[i]), "both " + RoleName(rs[i]))
  {
    var r := rs[i];
    var prev := RolesMet(a, b, rs[..i]);
    var step := IfMet(a, b, Both(r));
    assert rs[..i + 1][..i] == rs[..i];
    assert RolesMet(a, b, rs[..i + 1]) == prev + step;
    TotalWeightAppend(prev, step);
    LabelsAppend(prev, step);
    if HasRole(a.roles, r) && HasRole(b.roles, r) {
      assert step == [Both(r)] && step[..0] == [];
      assert TotalWeight(step) == 2;
      assert Labels(step) == ["both " + RoleName(r)];
    } else {
      assert step == [];
    }
  }

  lemma {:induction false} LabelsAppend(xs: seq<Criterion>, ys: seq<Criterion>)
    ensures Labels(xs + ys) == Labels(xs) + Labels(ys)
  {
    if ys != [] {
      LabelsAppend(xs, ys[..|ys| - 1]);
      assert (xs + ys)[..|xs + ys| - 1] == xs + ys[..|ys| - 1];
    } else {
      assert xs + ys == xs;
    }
  }

  /** The score splits into the tests before the role loop, the loop, and
      the state test. */
  lemma ScoreParts(a: Member, b: Member)
    ensures Score(a, b) ==
      Points(SameValue(a.major, b.major), 4) + Points(SameValue(a.minor, b.minor), 2)
      + Points(SameValue(a.year, b.year), 1) + TotalWeight(RolesMet(a, b, AllRoles))
      + Points(SameValue(HomeState(a), HomeState(b)), 1)
  {
    var m1, m2, m3 := IfMet(a, b, SameMajor), IfMet(a, b, SameMinor), IfMet(a, b, SameYear);
    var roles, last := RolesMet(a, b, AllRoles), IfMet(a, b, SameState);
    TotalWeightAppend(m1, m2);
    TotalWeightAppend(m1 + m2, m3);
    TotalWeightAppend(m1 + m2 + m3, roles);
    TotalWeightAppend(m1 + m2 + m3 + roles, last);
  }

  /** The reasons split the same way. */
  lemma ReasonsParts(a: Member, b: Member)
    ensures Reasons(a, b) ==
      LabelIf(SameValue(a.major, b.major), Label(SameMajor)) + LabelIf(SameValue(a.minor, b.minor), Label(SameMinor))
      + LabelIf(SameValue(a.year, b.year), Label(SameYear)) + Labels(RolesMet(a, b, AllRoles))
      + LabelIf(SameValue(HomeState(a), HomeState(b)), Label(SameState))
  {
    var m1, m2, m3 := IfMet(a, b, SameMajor), IfMet(a, b, SameMinor), IfMet(a, b, SameYear);
    var roles, last := RolesMet(a, b, AllRoles), IfMet(a, b, SameState);
    LabelsAppend(m1, m2);
    LabelsAppend(m1 + m2, m3);
    LabelsAppend(m1 + m2 + m3, roles);
    LabelsAppend(m1 + m2 + m3 + roles, last);
    LabelsIfMet(a, b, SameMajor);
    LabelsIfMet(a, b, SameMinor);
    LabelsIfMet(a, b, SameYear);
    LabelsIfMet(a, b, SameState);
  }

  lemma LabelsIfMet(a: Member, b: Member, c: Criterion)
    ensures Labels(IfMet(a, b, c)) == LabelIf(Meets(a, b, c), Label(c))
  {
    if Meets(a, b, c) {
      assert [c][..0] == [];
    }
  }

  lemma AppendAssoc<T>(x: seq<T>, y: seq<T>, z: seq<T>)
    ensures (x + y) + z == x + (y + z)
  {
  }

  /** The `for (const r of roles)` loop of `scoreCandidate`: 2 points and
      a "both <role>" reason per role both members hold, in role order. */
  method AddSharedRoles(a: Member, b: Member, score0: int, reasons0: seq<string>) returns (score: int, reasons: seq<string>)
    ensures score == score0 + TotalWeight(RolesMet(a, b, AllRoles))
    ensures reasons == reasons0 + Labels(RolesMet(a, b, AllRoles))
  {
    score, reasons := score0, reasons0;
    assert AllRoles[..0] == [];
    for i := 0 to |AllRoles|
      invariant score == score0 + TotalWeight(RolesMet(a, b, AllRoles[..i]))
      invariant reasons == reasons0 + Labels(RolesMet(a, b, AllRoles[..i]))
    {
      var r := AllRoles[i];
      RolesMetStep(a, b, AllRoles, i);
      ghost var before := reasons;
      if HasRole(a.roles, r) && HasRole(b.roles, r) {
        score := score + 2;
        reasons := reasons + ["both " + RoleName(r)];
      }
      ghost var step := LabelIf(HasRole(a.roles, r) && HasRole(b.roles, r), "both " + RoleName(r));
      assert reasons == before + step;
      AppendAssoc(reasons0, Labels(RolesMet(a, b, AllRoles[..i])), step);
    }
    assert AllRoles[..|AllRoles|] == AllRoles;
  }

  /** `scoreCandidate` as written: three tests, the loop over the five
      roles, then the state test, adding to `score` and pushing onto
      `reasons`. */
  method ScoreCandidate(a: Member, b: Member) returns (score: int, reasons: seq<string>)
    ensures score == Score(a, b) && reasons == Reasons(a, b)
  {
    ScoreParts(a, b);
    ReasonsParts(a, b);
    score := 0;
    reasons := [];
    ghost var majorMet, minorMet, yearMet := SameValue(a.major, b.major), SameValue(a.minor, b.minor), SameValue(a.year, b.year);
    ghost var stateMet := SameValue(HomeState(a), HomeState(b));
    if SameValue(a.major, b.major) {
      score := score + 4;
      reasons := reasons + [Label(SameMajor)];
    }
    ghost var major := LabelIf(majorMet, Label(SameMajor));
    assert score == Points(majorMet, 4) && reasons == major;
    if SameValue(a.minor, b.minor) {
      score := score + 2;
      reasons := reasons + [Label(SameMinor)];
    }
    ghost var minor := LabelIf(minorMet, Label(SameMinor));
    assert score == Points(majorMet, 4) + Points(minorMet, 2) && reasons == major + minor;
    if SameValue(a.year, b.year) {
      score := score + 1;
      reasons := reasons + [Label(SameYear)];
    }
    ghost var year := LabelIf(yearMet, Label(SameYear));
    ghost var before := Points(majorMet, 4) + Points(minorMet, 2) + Points(yearMet, 1);
    assert score == before && reasons == major + minor + year;
    score, reasons := AddSharedRoles(a, b, score, reasons);
    ghost var roles := Labels(RolesMet(a, b, AllRoles));
    assert reasons == major + minor + year + roles;
    if SameValue(HomeState(a), HomeState(b)) {
      score := score + 1;
      reasons := reasons + [Label(SameState)];
    }
    assert score == before + TotalWeight(RolesMet(a, b, AllRoles)) + Points(stateMet, 1);
    assert reasons == major + minor + year + roles + LabelIf(stateMet, Label(SameState));
  }

  // ---------------------------------------------------------------------
  // Properties of the score
  // ---------------------------------------------------------------------

  /** How many roles of `rs` both members hold. */
  function SharedIn(a: Member, b: Member, rs: seq<Role>): (n: nat)
    ensures n <= |rs|
  {
    if rs == [] then 0
    else SharedIn(a, b, rs[..|rs| - 1]) + Points(HasRole(a.roles, rs[|rs| - 1]) && HasRole(b.roles, rs[|rs| - 1]), 1)
  }

  /** The number of the five roles both members hold. */
  function SharedRoles(a: Member, b: Member): nat {
    SharedIn(a, b, AllRoles)
  }

  lemma {:induction false} RolesMetWeight(a: Member, b: Member, rs: seq<Role>)
    ensures TotalWeight(RolesMet(a, b, rs)) == 2 * SharedIn(a, b, rs)
  {
    if rs != [] {
      var n := |rs| - 1;
      RolesMetWeight(a, b, rs[..n]);
      RolesMetStep(a, b, rs, n);
      assert rs[..n + 1] == rs;
      var both := HasRole(a.roles, rs[n]) && HasRole(b.roles, rs[n]);
      assert SharedIn(a, b, rs) == SharedIn(a, b, rs[..n]) + Points(both, 1);
      assert Points(both, 2) == 2 * Points(both, 1);
    }
  }

  /** The score is 4·[same major] + 2·[same minor] + 1·[same year]
      + 2·(roles held by both) + 1·[same home state]. */
  lemma ScoreFormula(a: Member, b: Member)
    ensures Score(a, b) ==
      Points(SameValue(a.major, b.major), 4) + Points(SameValue(a.minor, b.minor), 2)
      + Points(SameValue(a.year, b.year), 1) + 2 * SharedRoles(a, b)
      + Points(SameValue(HomeState(a), HomeState(b)), 1)
  {
    ScoreParts(a, b);
    RolesMetWeight(a, b, AllRoles);
  }

  /** The score lies between 0 and 18. */
  lemma ScoreRange(a: Member, b: Member)
    ensures 0 <= Score(a, b) <= 18
  {
    ScoreFormula(a, b);
  }

  lemma {:induction false} TotalWeightPositive(cs: seq<Criterion>)
    ensures cs == [] ==> TotalWeight(cs) == 0
    ensures cs != [] ==> TotalWeight(cs) >= |cs|
  {
    if cs != [] {
      TotalWeightPositive(cs[..|cs| - 1]);
    }
  }

  /** One reason per passed test: the score is positive exactly when some
      reason is given, and the reasons are the passed tests' labels in test
      order. */
  lemma ScorePositiveIffReasons(a: Member, b: Member)
    ensures Score(a, b) > 0 <==> Reasons(a, b) != []
    ensures |Reasons(a, b)| == |Met(a, b)|
    ensures forall i :: 0 <= i < |Met(a, b)| ==> Reasons(a, b)[i] == Label(Met(a, b)[i])
  {
    TotalWeightPositive(Met(a, b));
  }

  /** A test passes for `(a, b)` exactly when it passes for `(b, a)`. */
  lemma MeetsSymmetric(a: Member, b: Member, c: Criterion)
    ensures Meets(a, b, c) == Meets(b, a, c)
  {
  }

  lemma {:induction false} RolesMetSymmetric(a: Member, b: Member, rs: seq<Role>)
    ensures RolesMet(a, b, rs) == RolesMet(b, a, rs)
  {
    if rs != [] {
      RolesMetSymmetric(a, b, rs[..|rs| - 1]);
      MeetsSymmetric(a, b, Both(rs[|rs| - 1]));
    }
  }

  /** Every test compares the two members symmetrically, so the score and
      the reasons do not depend on which one is the base. */
  lemma ScoreSymmetric(a: Member, b: Member)
    ensures Score(a, b) == Score(b, a)
    ensures Reasons(a, b) == Reasons(b, a)
  {
    RolesMetSymmetric(a, b, AllRoles);
    MeetsSymmetric(a, b, SameMajor);
    MeetsSymmetric(a, b, SameMinor);
    MeetsSymmetric(a, b, SameYear);
    MeetsSymmetric(a, b, SameState);
  }

  // ---------------------------------------------------------------------
  // The ranking: map, filter, stable sort, slice
  // ---------------------------------------------------------------------

  /** One entry of `similar`. */
  datatype Suggestion = Suggestion(
    memberId: string,
    name: string,
    picture: Option<string>,
    year: Option<string>,
    major: Option<string>,
    score: int,
    reasons: seq<string>)

  function Suggest(base: Member, c: Member): Suggestion {
    Suggestion(c.id, c.name, c.picture, c.year, c.major, Score(base, c), Reasons(base, c))
  }

  /** `candidates.map(...)`. */
  function Scored(base: Member, candidates: seq<Member>): (r: seq<Suggestion>)
    ensures |r| == |candidates| && forall i :: 0 <= i < |r| ==> r[i] == Suggest(base, candidates[i])
  {
    if candidates == [] then []
    else [Suggest(base, candidates[0])] + Scored(base, candidates[1..])
  }

  /** `.filter((x) => x.score > 0)`. */
  function Positive(s: seq<Suggestion>): (r: seq<Suggestion>)
    ensures forall x :: x in r <==> x in s && x.score > 0
  {
    if s == [] then []
    else (if s[0].score > 0 then [s[0]] else []) + Positive(s[1..])
  }

  /** `.sort((a, b) => b.score - a.score)` sorts by ascending negated score. */
  function NegatedScore(x: Suggestion): int {
    -x.score
  }

  /** `s.slice(0, end)`: `NaN` ends at 0, a negative end counts back from
      the length, an end past the length stops at the length. */
  function Slice<T>(s: seq<T>, end: Option<int>): (r: seq<T>)
    ensures |r| <= |s| && r == s[..|r|]
    ensures end.None? ==> r == []
    ensures end.Some? && end.value >= 0 ==> |r| == Min(end.value, |s|)
    ensures end.Some? && end.value < 0 ==> |r| == (if |s| + end.value < 0 then 0 else |s| + end.value)
  {
    match end
    case None => []
    case Some(n) =>
      if n >= 0 then s[..Min(n, |s|)]
      else if |s| + n < 0 then []
      else s[..|s| + n]
  }

  /** The scored candidates with a positive score, stably sorted by
      descending score. */
  function Ordered(base: Member, candidates: seq<Member>): seq<Suggestion> {
    SortByKey(Positive(Scored(base, candidates)), NegatedScore)
  }

  /** `ranked`: the ordered suggestions cut at `limit`. */
  function Rank(base: Member, candidates: seq<Member>, limit: Option<int>): seq<Suggestion> {
    Slice(Ordered(base, candidates), limit)
  }

  /** Only candidates with a positive score are suggested, scores never
      increase down the list, and the list is the head of the full
      ordering. */
  lemma RankShape(base: Member, candidates: seq<Member>, limit: Option<int>)
    ensures forall x :: x in Rank(base, candidates, limit) ==> x in Scored(base, candidates) && x.score > 0
    ensures forall i, j :: 0 <= i < j < |Rank(base, candidates, limit)| ==>
      Rank(base, candidates, limit)[i].score >= Rank(base, candidates, limit)[j].score
    ensures Rank(base, candidates, limit) == Ordered(base, candidates)[..|Rank(base, candidates, limit)|]
  {
    var all := Ordered(base, candidates);
    var r := Rank(base, candidates, limit);
    SortByKeySorted(Positive(Scored(base, candidates)), NegatedScore);
    forall x | x in r ensures x in Scored(base, candidates) && x.score > 0 {
      assert x in multiset(all);
    }
    forall i, j | 0 <= i < j < |r| ensures r[i].score >= r[j].score {
      assert r[i] == all[i] && r[j] == all[j];
      assert NegatedScore(all[i]) <= NegatedScore(all[j]);
    }
  }

  /** Every candidate with a positive score is in the full ordering. */
  lemma OrderedComplete(base: Member, candidates: seq<Member>, c: Member)
    requires c in candidates && Score(base, c) > 0
    ensures Suggest(base, c) in Ordered(base, candidates)
  {
    var s := Scored(base, candidates);
    var i :| 0 <= i < |candidates| && candidates[i] == c;
    assert s[i] == Suggest(base, c);
    assert Suggest(base, c) in Positive(s);
    assert Suggest(base, c) in multiset(Positive(s));
    assert Suggest(base, c) in multiset(Ordered(base, candidates));
  }

  /** The filter keeps the suggestions of each positive score in their
      order, and keeps none with a score of 0 or below. */
  lemma {:induction false} PositiveWithKey(s: seq<Suggestion>, k: int)
    ensures WithKey(Positive(s), NegatedScore, k) == if k < 0 then WithKey(s, NegatedScore, k) else []
  {
    if s != [] {
      PositiveWithKey(s[1..], k);
      var rest := Positive(s[1..]);
      if s[0].score > 0 {
        var p := [s[0]] + rest;
        assert p[0] == s[0] && p[1..] == rest;
      } else {
        assert Positive(s) == rest;
      }
    }
  }

  /** Candidates with equal scores keep their input order: the suggestions
      with score `-k` come out of the ranking in the order of `candidates`
      (the sort is stable and the filter keeps order), and no suggestion
      with a score of 0 or below comes out at all. */
  lemma OrderedStable(base: Member, candidates: seq<Member>, k: int)
    ensures WithKey(Ordered(base, candidates), NegatedScore, k) == WithKey(Positive(Scored(base, candidates)), NegatedScore, k)
    ensures WithKey(Ordered(base, candidates), NegatedScore, k) ==
      if k < 0 then WithKey(Scored(base, candidates), NegatedScore, k) else []
  {
    SortByKeyStable(Positive(Scored(base, candidates)), NegatedScore, k);
    PositiveWithKey(Scored(base, candidates), k);
  }

  /** With a limit `n >= 0` the list holds the first `min(n, count)` of the
      ordering; a limit of 0 gives an empty list. */
  lemma RankLength(base: Member, candidates: seq<Member>, n: int)
    requires n >= 0
    ensures |Rank(base, candidates, Some(n))| == Min(n, |Positive(Scored(base, candidates))|)
    ensures n == 0 ==> Rank(base, candidates, Some(n)) == []
  {
  }

  // ---------------------------------------------------------------------
  // The limit parameter
  // ---------------------------------------------------------------------

  /** `Math.min(parseInt(req.query.limit || "5", 10), 20)`; `None` is `NaN`
      (which `Math.min` propagates). */
  function LimitParam(query: Option<string>): (r: Option<int>)
    ensures r.Some? ==> r.value <= 20
    ensures !Truthy(query) ==> r == Some(5)
    ensures r.None? <==> Truthy(query) && ParseInt(query.value).None?
  {
    var parsed := if Truthy(query) then ParseInt(query.value) else Some(5);
    match parsed
    case None => None
    case Some(n) => Some(Min(n, 20))
  }

  /** A decimal limit `n` is `min(n, 20)`. */
  lemma LimitOfDecimal(n: nat)
    ensures LimitParam(Some(NatToString(n))) == Some(Min(n, 20))
  {
    ParseIntOfNatToString(n);
  }

  /** An absent limit acts as the text "5" does. */
  lemma DefaultLimitAsText()
    ensures LimitParam(None) == LimitParam(Some(NatToString(5)))
  {
    LimitOfDecimal(5);
  }

  // ---------------------------------------------------------------------
  // The routes
  // ---------------------------------------------------------------------

  /** `Member.findById(id)`: the document with that id, if any. */
  function FindMember(members: seq<Member>, id: string): (r: Option<Member>)
    ensures r.Some? ==> r.value in members && r.value.id == id
    ensures r.None? <==> forall m :: m in members ==> m.id != id
  {
    if members == [] then None
    else if members[0].id == id then Some(members[0])
    else FindMember(members[1..], id)
  }

  /** `Member.find({ _id: { $ne: id } })`, in collection order. */
  function Others(members: seq<Member>, id: string): (r: seq<Member>)
    ensures forall m :: m in r <==> m in members && m.id != id
  {
    if members == [] then []
    else (if members[0].id != id then [members[0]] else []) + Others(members[1..], id)
  }

  datatype SimilarBody = SimilarBody(memberId: string, baseName: string, count: nat, similar: seq<Suggestion>)

  const MemberNotFound: string := "Member not found"
  const ServerError: string := "Server error"

  /** `GET /api/members/:id/similar?limit=`. An id that is not a valid
      ObjectId (`validId`) makes `findById` throw a cast error, which the
      handler answers with 500. */
  function SimilarMembers(members: seq<Member>, id: string, limitQuery: Option<string>,
                          validId: string -> bool): (r: Response<SimilarBody>)
    ensures r.Fail? <==> !validId(id) || FindMember(members, id).None?
    ensures !validId(id) ==> r == Fail(500, ServerError)
    ensures validId(id) && FindMember(members, id).None? ==> r == Fail(404, MemberNotFound)
    ensures r.Ok? ==> r.status == 200 && r.body.memberId == id && r.body.count == |r.body.similar|
    ensures r.Ok? ==>
      r.body.similar == Rank(FindMember(members, id).value, Others(members, id), LimitParam(limitQuery))
  {
    var limit := LimitParam(limitQuery);
    if !validId(id) then Fail(500, ServerError)
    else match FindMember(members, id)
      case None => Fail(404, MemberNotFound)
      case Some(base) =>
        var ranked := Rank(base, Others(members, id), limit);
        Ok(200, SimilarBody(id, base.name, |ranked|, ranked))
  }

  /** The base member is never suggested to itself, and every suggestion
      has a positive score. */
  lemma SimilarExcludesBase(members: seq<Member>, id: string, limitQuery: Option<string>, validId: string -> bool)
    requires SimilarMembers(members, id, limitQuery, validId).Ok?
    ensures forall x :: x in SimilarMembers(members, id, limitQuery, validId).body.similar ==> x.memberId != id && x.score > 0
  {
    var base := FindMember(members, id).value;
    var cs := Others(members, id);
    RankShape(base, cs, LimitParam(limitQuery));
    forall x | x in Rank(base, cs, LimitParam(limitQuery)) ensures x.memberId != id {
      var s := Scored(base, cs);
      var i :| 0 <= i < |s| && s[i] == x;
      assert cs[i] in cs;
    }
  }

  datatype MemberList = MemberList(count: nat, members: seq<Member>)

  /** The name filter of the list route: `{ $regex: search, $options: "i" }`
      is a parameter, `nameMatches(search, name)`. */
  function ListFilter(members: seq<Member>, search: string, q: RoleQuery, nameMatches: (string, string) -> bool): (r: seq<Member>)
    ensures forall m :: m in r <==>
      m in members && MatchesRole(m.roles, q) && (search == "" || nameMatches(search, m.name))
  {
    if members == [] then []
    else
      var m := members[0];
      (if MatchesRole(m.roles, q) && (search == "" || nameMatches(search, m.name)) then [m] else [])
      + ListFilter(members[1..], search, q, nameMatches)
  }

  /** `GET /api/members?search=&role=`: a role outside the five is 400; a
      valid role keeps only members holding it; an empty search keeps every
      name. */
  function ListMembers(members: seq<Member>, search: Option<string>, role: Option<string>,
                       nameMatches: (string, string) -> bool): (r: Response<MemberList>)
    ensures r.Fail? <==> ReadRoleQuery(role) == BadRole
    ensures r.Fail? ==> r.status == 400 && r.error == InvalidRoleError
    ensures r.Ok? ==> r.body.count == |r.body.members|
    ensures r.Ok? && ReadRoleQuery(role).OnlyRole? ==>
      forall m :: m in r.body.members ==> HasRole(m.roles, ReadRoleQuery(role).role)
    ensures r.Ok? && !Truthy(search) ==>
      forall m :: m in r.body.members <==> m in members && MatchesRole(m.roles, ReadRoleQuery(role))
    ensures r.Ok? ==> forall m :: m in r.body.members ==> m in members
  {
    var text := if Truthy(search) then Trim(search.value) else "";
    var q := ReadRoleQuery(role);
    if q == BadRole then Fail(400, InvalidRoleError)
    else
      var found := ListFilter(members, text, q, nameMatches);
      Ok(200, MemberList(|found|, found))
  }

  /** The `filter` object of the list route: the name pattern when the
      trimmed search is non-empty, and the role query. */
  datatype ListQuery = ListQuery(name: Option<string>, role: RoleQuery)

  /** Lines 9-26: start from `{}` and add each condition in turn; `None`
      is the 400 reply for a role outside the whitelist. */
  method BuildListFilter(search: Option<string>, role: Option<string>) returns (r: Option<ListQuery>)
    ensures r.None? <==> ReadRoleQuery(role) == BadRole
    ensures r.Some? ==> r.value.role == ReadRoleQuery(role)
    ensures r.Some? ==> (r.value.name.Some? <==> Truthy(search) && Trim(search.value) != "")
    ensures r.Some? && r.value.name.Some? ==> r.value.name.value == Trim(search.value)
  {
    var text := if Truthy(search) then Trim(search.value) else "";
    var filter := ListQuery(None, AnyRole);
    if text != "" {
      filter := filter.(name := Some(text));
    }
    if Truthy(role) {
      var q := ReadRoleQuery(role);
      if q == BadRole {
        return None;
      }
      filter := filter.(role := q);
    }
    return Some(filter);
  }

  /** The list route as the handler runs it: build the filter, then query
      with it. It answers exactly as `ListMembers` specifies. */
  method ListRoute(members: seq<Member>, search: Option<string>, role: Option<string>,
                   nameMatches: (string, string) -> bool) returns (r: Response<MemberList>)
    ensures r == ListMembers(members, search, role, nameMatches)
  {
    var filter := BuildListFilter(search, role);
    if filter.None? {
      return Fail(400, InvalidRoleError);
    }
    var f := filter.value;
    var found := ListFilter(members, if f.name.Some? then f.name.value else "", f.role, nameMatches);
    r := Ok(200, MemberList(|found|, found));
  }
}
