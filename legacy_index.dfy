/** The first server of server/index.js, over the member list read from a
    JSON file: each member gets its position as its `id`, `GET /api/members`
    filters by a case-insensitive substring of the name, and
    `GET /api/members/:id` finds one member by that id. The file is read
    before each request; here its parsed contents are a parameter. */
module LegacyIndex {
  import opened Js
  import opened Schema

  /** A parsed member object. */
  type Record = map<string, Json>

  /** `{id: idx.toString(), ...m}`: an `id` of the member's own wins over
      the index, since the spread comes after it. */
  function WithId(m: Record, idx: nat): (r: Record)
    ensures r.Keys == m.Keys + {"id"}
    ensures forall k :: k in m ==> r[k] == m[k]
    ensures "id" !in m ==> r["id"] == JStr(NatToString(idx))
  {
    map["id" := JStr(NatToString(idx))] + m
  }

  /** `loadMembers().map((m, idx) => ...)`. */
  function WithIds(loaded: seq<Record>): (r: seq<Record>)
    ensures |r| == |loaded|
    ensures forall i :: 0 <= i < |loaded| ==> r[i] == WithId(loaded[i], i)
  {
    seq(|loaded|, i requires 0 <= i < |loaded| => WithId(loaded[i], i))
  }

  /** JavaScript truthiness of a JSON value. */
  predicate JsonTruthy(v: Json) {
    match v
    case JNull => false
    case JBool(b) => b
    case JNum(n) => n != 0.0
    case JStr(s) => s != ""
    case _ => true
  }

  /** `(m.name || "").toLowerCase()`: a missing or falsy name reads as "";
      `None` is the `TypeError` of a truthy name that is not a string. */
  function LowerName(m: Record): (r: Option<string>)
    ensures "name" !in m || !JsonTruthy(m["name"]) ==> r == Some("")
    ensures "name" in m && m["name"].JStr? ==> r == Some(ToLower(m["name"].s))
    ensures r.None? <==> "name" in m && JsonTruthy(m["name"]) && !m["name"].JStr?
  {
    if "name" !in m || !JsonTruthy(m["name"]) then Some("")
    else
      match m["name"]
      case JStr(s) => Some(ToLower(s))
      case _ => None
  }

  /** Adding the id leaves the name as it was. */
  lemma LowerNameWithId(m: Record, idx: nat)
    ensures LowerName(WithId(m, idx)) == LowerName(m)
  {
    assert "name" in WithId(m, idx) <==> "name" in m;
  }

  predicate NamesReadable(ms: seq<Record>) {
    forall i :: 0 <= i < |ms| ==> LowerName(ms[i]).Some?
  }

  /** `members.filter((m) => (m.name || "").toLowerCase().includes(search))`. */
  function NameFilter(ms: seq<Record>, search: string): (r: seq<Record>)
    requires NamesReadable(ms)
    ensures |r| <= |ms|
    ensures forall x :: x in r <==> x in ms && LowerName(x).Some? && Includes(LowerName(x).value, search)
  {
    if ms == [] then []
    else
      assert forall i :: 1 <= i < |ms| ==> ms[i] == ms[1..][i - 1];
      var rest := NameFilter(ms[1..], search);
      (if Includes(LowerName(ms[0]).value, search) then [ms[0]] else []) + rest
  }

  lemma ReadableAppend(a: seq<Record>, b: seq<Record>)
    requires NamesReadable(a) && NamesReadable(b)
    ensures NamesReadable(a + b)
  {
    forall i | 0 <= i < |a + b|
      ensures LowerName((a + b)[i]).Some?
    {
      if i >= |a| {
        assert (a + b)[i] == b[i - |a|];
      }
    }
  }

  lemma ReadableTail(a: seq<Record>)
    requires a != [] && NamesReadable(a)
    ensures NamesReadable(a[1..])
  {
    assert forall i :: 1 <= i < |a| ==> a[i] == a[1..][i - 1];
  }

  /** The filter keeps the original order: filtering two halves and
      joining them is filtering the whole. */
  lemma {:induction false} NameFilterAppend(a: seq<Record>, b: seq<Record>, search: string)
    requires NamesReadable(a) && NamesReadable(b)
    ensures NamesReadable(a + b)
    ensures NameFilter(a + b, search) == NameFilter(a, search) + NameFilter(b, search)
  {
    ReadableAppend(a, b);
    if a == [] {
      assert a + b == b;
    } else {
      ReadableTail(a);
      assert (a + b)[0] == a[0];
      assert (a + b)[1..] == a[1..] + b;
      NameFilterAppend(a[1..], b, search);
    }
  }

  /** The reply of `GET /api/members`. */
  datatype ListReply = ListReply(count: nat, members: seq<Record>)

  /** The status of an exception that reaches Express's error handler. */
  const InternalError: string := "Internal Server Error"

  /** `GET /api/members`: every member when the search is missing or empty;
      otherwise the members whose lower-cased name contains the lower-cased
      search, with `count` the number listed. */
  function ListMembers(loaded: seq<Record>, searchQuery: Option<string>): (r: Response<ListReply>)
    ensures !Truthy(searchQuery) ==> r == Ok(200, ListReply(|loaded|, WithIds(loaded)))
    ensures r.Fail? <==> Truthy(searchQuery) && !NamesReadable(loaded)
    ensures r.Fail? ==> r == Fail(500, InternalError)
    ensures r.Ok? ==> r.status == 200 && r.body.count == |r.body.members|
    ensures r.Ok? && Truthy(searchQuery) ==>
      forall x :: x in r.body.members <==>
        (x in WithIds(loaded) && LowerName(x).Some? && Includes(LowerName(x).value, ToLower(searchQuery.value)))
  {
    var members := WithIds(loaded);
    var search := if Truthy(searchQuery) then ToLower(searchQuery.value) else "";
    if search == "" then Ok(200, ListReply(|members|, members))
    else if !NamesReadable(members) then
      assert !NamesReadable(loaded) by {
        var i :| 0 <= i < |members| && LowerName(members[i]).None?;
        LowerNameWithId(loaded[i], i);
      }
      Fail(500, InternalError)
    else
      assert NamesReadable(loaded) by {
        forall i | 0 <= i < |loaded|
          ensures LowerName(loaded[i]).Some?
        {
          LowerNameWithId(loaded[i], i);
        }
      }
      var filtered := NameFilter(members, search);
      Ok(200, ListReply(|filtered|, filtered))
  }

  /** The position of the first member whose `id` is strictly equal to `id`. */
  function FirstWithId(ms: seq<Record>, id: string): (r: Option<nat>)
    ensures r.None? <==> forall i :: 0 <= i < |ms| ==> "id" !in ms[i] || ms[i]["id"] != JStr(id)
    ensures r.Some? ==>
      r.value < |ms| && "id" in ms[r.value] && ms[r.value]["id"] == JStr(id)
      && forall i :: 0 <= i < r.value ==> "id" !in ms[i] || ms[i]["id"] != JStr(id)
  {
    if ms == [] then None
    else if "id" in ms[0] && ms[0]["id"] == JStr(id) then Some(0)
    else
      match FirstWithId(ms[1..], id)
      case None =>
        assert forall i :: 1 <= i < |ms| ==> ms[i] == ms[1..][i - 1];
        None
      case Some(i) =>
        assert forall k :: 1 <= k < i + 1 ==> ms[k] == ms[1..][k - 1];
        Some(i + 1)
  }

  /** `GET /api/members/:id`: the first member whose id equals the
      parameter, else 404. */
  function GetMember(loaded: seq<Record>, id: string): (r: Response<Record>)
    ensures r.Fail? <==> forall i :: 0 <= i < |loaded| ==> WithId(loaded[i], i)["id"] != JStr(id)
    ensures r.Fail? ==> r == Fail(404, "Member not found")
    ensures r.Ok? ==>
      r.status == 200
      && exists i :: 0 <= i < |loaded| && r.body == WithId(loaded[i], i) && r.body["id"] == JStr(id)
           && forall j :: 0 <= j < i ==> WithId(loaded[j], j)["id"] != JStr(id)
  {
    var members := WithIds(loaded);
    match FirstWithId(members, id)
    case None => Fail(404, "Member not found")
    case Some(i) =>
      assert members[i] == WithId(loaded[i], i);
      assert forall j :: 0 <= j < i ==> members[j] == WithId(loaded[j], j);
      Ok(200, members[i])
  }

  /** When no member carries an id of its own, every member is found by
      the decimal text of its position. */
  lemma GetMemberByIndex(loaded: seq<Record>, i: nat)
    requires i < |loaded|
    requires forall j :: 0 <= j < |loaded| ==> "id" !in loaded[j]
    ensures GetMember(loaded, NatToString(i)) == Ok(200, WithId(loaded[i], i))
  {
    var members := WithIds(loaded);
    var id := NatToString(i);
    assert members[i]["id"] == JStr(id);
    var found := FirstWithId(members, id);
    assert found.Some?;
    var k := found.value;
    assert JStr(NatToString(k)) == JStr(id);
    NatToStringInjective(k, i);
  }

  /** When no member carries an id of its own, an id that is not the
      decimal text of a position is not found. */
  lemma GetMemberUnknown(loaded: seq<Record>, id: string)
    requires forall j :: 0 <= j < |loaded| ==> "id" !in loaded[j]
    requires forall j :: 0 <= j < |loaded| ==> NatToString(j) != id
    ensures GetMember(loaded, id) == Fail(404, "Member not found")
  {
  }
}
