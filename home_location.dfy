/** The home-address resolver of server/utils/homeLocation.js: clean a
    free-text "home" string, parse it as "City, State" or "City ST", and
    attach coordinates from the city table, else from a state centroid.
    The same parsing helpers are duplicated verbatim in
    server/scripts/seedMembers.js, which this module also stands for. */
module HomeLocation {
  import opened Js

  /** Coordinates are carried, never computed with. */
  datatype LatLng = LatLng(lat: real, lng: real)

  /** Provenance of a resolved location. */
  datatype Source = UsCitiesCsv | StateCentroidFallback | NoSource

  /** The tag stored in `homeLocation.source`. */
  function SourceTag(s: Source): string {
    match s
    case UsCitiesCsv => "uscities_csv"
    case StateCentroidFallback => "state_centroid_fallback"
    case NoSource => "none"
  }

  /** `{raw, city, state, lat, lng, source}`; `None` is `null`. */
  datatype Location = Location(
    raw: Option<string>,
    city: Option<string>,
    state: Option<string>,
    lat: Option<real>,
    lng: Option<real>,
    source: Source)

  /** The 13 states that have a fallback centroid. */
  const StateCentroids: map<string, LatLng> := map[
    "NH" := LatLng(43.1939, -71.5724),
    "MA" := LatLng(42.4072, -71.3824),
    "CA" := LatLng(36.7783, -119.4179),
    "NY" := LatLng(43.0, -75.0),
    "VT" := LatLng(44.0, -72.7),
    "CT" := LatLng(41.6, -72.7),
    "NJ" := LatLng(40.1, -74.7),
    "PA" := LatLng(41.0, -77.5),
    "TX" := LatLng(31.0, -100.0),
    "FL" := LatLng(28.0, -82.0),
    "IL" := LatLng(40.0, -89.0),
    "WA" := LatLng(47.4, -120.7),
    "OR" := LatLng(44.0, -120.6)
  ]

  /** An upper-case ASCII letter. */
  type Upper = c: char | 'A' <= c <= 'Z' witness 'A'

  /** A two-letter postal code, as the name table stores it. */
  datatype Postal = Postal(first: Upper, second: Upper) {
    function Text(): (s: string)
      ensures |s| == 2 && IsUpperAscii(s[0]) && IsUpperAscii(s[1])
    {
      [first, second]
    }
  }

  /** Lower-case state name to postal code, in four blocks of the source's
      order (a single 51-entry display is too large to reason about); the
      blocks have disjoint keys. */
  const StatesAlabamaToIllinois: map<string, Postal> := map[
    "alabama" := Postal('A', 'L'), "alaska" := Postal('A', 'K'), "arizona" := Postal('A', 'Z'),
    "arkansas" := Postal('A', 'R'), "california" := Postal('C', 'A'), "colorado" := Postal('C', 'O'),
    "connecticut" := Postal('C', 'T'), "delaware" := Postal('D', 'E'), "florida" := Postal('F', 'L'),
    "georgia" := Postal('G', 'A'), "hawaii" := Postal('H', 'I'), "idaho" := Postal('I', 'D'),
    "illinois" := Postal('I', 'L')
  ]
  const StatesIndianaToMontana: map<string, Postal> := map[
    "indiana" := Postal('I', 'N'), "iowa" := Postal('I', 'A'), "kansas" := Postal('K', 'S'),
    "kentucky" := Postal('K', 'Y'), "louisiana" := Postal('L', 'A'), "maine" := Postal('M', 'E'),
    "maryland" := Postal('M', 'D'), "massachusetts" := Postal('M', 'A'), "michigan" := Postal('M', 'I'),
    "minnesota" := Postal('M', 'N'), "mississippi" := Postal('M', 'S'), "missouri" := Postal('M', 'O'),
    "montana" := Postal('M', 'T')
  ]
  const StatesNebraskaToRhodeIsland: map<string, Postal> := map[
    "nebraska" := Postal('N', 'E'), "nevada" := Postal('N', 'V'), "new hampshire" := Postal('N', 'H'),
    "new jersey" := Postal('N', 'J'), "new mexico" := Postal('N', 'M'), "new york" := Postal('N', 'Y'),
    "north carolina" := Postal('N', 'C'), "north dakota" := Postal('N', 'D'), "ohio" := Postal('O', 'H'),
    "oklahoma" := Postal('O', 'K'), "oregon" := Postal('O', 'R'), "pennsylvania" := Postal('P', 'A'),
    "rhode island" := Postal('R', 'I')
  ]
  const StatesSouthCarolinaToDistrictOfColumbia: map<string, Postal> := map[
    "south carolina" := Postal('S', 'C'), "south dakota" := Postal('S', 'D'), "tennessee" := Postal('T', 'N'),
    "texas" := Postal('T', 'X'), "utah" := Postal('U', 'T'), "vermont" := Postal('V', 'T'),
    "virginia" := Postal('V', 'A'), "washington" := Postal('W', 'A'), "west virginia" := Postal('W', 'V'),
    "wisconsin" := Postal('W', 'I'), "wyoming" := Postal('W', 'Y'), "district of columbia" := Postal('D', 'C')
  ]

  /** The whole table: 50 states and the District of Columbia. */
  const StateToAbbr: map<string, Postal> :=
    StatesAlabamaToIllinois + StatesIndianaToMontana + StatesNebraskaToRhodeIsland + StatesSouthCarolinaToDistrictOfColumbia

  // ---------------------------------------------------------------------
  // normalizeCity
  // ---------------------------------------------------------------------

  /** The quote characters stripped from either end of a city. */
  predicate IsQuote(c: char) {
    c == '\U{201C}' || c == '\U{201D}' || c == '"' || c == '\''
  }

  /** `s.replace(/^[“”"']|[“”"']$/g, "")`: a quote at the front is removed,
      and so is a quote at the end of what is left; nothing else changes. */
  function StripQuotes(s: string): (r: string)
    ensures (s == [] || !IsQuote(s[0])) && (s == [] || !IsQuote(s[|s| - 1])) ==> r == s
    ensures s != [] && IsQuote(s[0]) && (|s| == 1 || !IsQuote(s[|s| - 1])) ==> r == s[1..]
    ensures s != [] && !IsQuote(s[0]) && IsQuote(s[|s| - 1]) ==> r == s[..|s| - 1]
    ensures |s| >= 2 && IsQuote(s[0]) && IsQuote(s[|s| - 1]) ==> r == s[1..|s| - 1]
    ensures exists k :: OccursAt(s, r, k)
  {
    var front := if s != [] && IsQuote(s[0]) then s[1..] else s;
    var r := if front != [] && IsQuote(front[|front| - 1]) then front[..|front| - 1] else front;
    assert OccursAt(s, r, |s| - |front|);
    r
  }

  /** `normalizeCity`: `null` for a missing or empty string, otherwise the
      trimmed text with whitespace runs collapsed to single spaces and one
      quote stripped from each end. */
  function NormalizeCity(cityRaw: Option<string>): (r: Option<string>)
    ensures r.None? <==> !Truthy(cityRaw)
    ensures r.Some? ==> r.value == StripQuotes(CollapseSpaces(Trim(cityRaw.value)))
    ensures r.Some? ==> |r.value| <= |cityRaw.value|
    ensures r.Some? ==> NoDoubleSpace(r.value)
    ensures r.Some? ==> forall i :: 0 <= i < |r.value| && IsSpace(r.value[i]) ==> r.value[i] == ' '
  {
    if !Truthy(cityRaw) then None
    else
      var t := CollapseSpaces(Trim(cityRaw.value));
      StripQuotesSpacing(t);
      Some(StripQuotes(t))
  }

  /** Stripping quotes from single-spaced text leaves it single-spaced. */
  lemma StripQuotesSpacing(t: string)
    requires forall i :: 0 <= i < |t| && IsSpace(t[i]) ==> t[i] == ' '
    requires NoDoubleSpace(t)
    ensures |StripQuotes(t)| <= |t|
    ensures forall i :: 0 <= i < |StripQuotes(t)| && IsSpace(StripQuotes(t)[i]) ==> StripQuotes(t)[i] == ' '
    ensures NoDoubleSpace(StripQuotes(t))
  {
    var r := StripQuotes(t);
    var k :| OccursAt(t, r, k);
    assert forall i :: 0 <= i < |r| ==> r[i] == t[k + i];
  }

  /** A city already in normal form (no whitespace at either end, single
      spaces only, no quote at either end) is kept as it is. */
  lemma NormalizeCityKeeps(city: string)
    requires city != []
    requires !IsSpace(city[0]) && !IsSpace(city[|city| - 1])
    requires !IsQuote(city[0]) && !IsQuote(city[|city| - 1])
    requires forall i :: 0 <= i < |city| && IsSpace(city[i]) ==> city[i] == ' '
    requires NoDoubleSpace(city)
    ensures NormalizeCity(Some(city)) == Some(city)
  {
    TrimKeeps(city);
    CollapseSpacesKeeps(city);
  }

  // ---------------------------------------------------------------------
  // normalizeState
  // ---------------------------------------------------------------------

  /** `.replace(/\./g, "")`: every period is dropped, every other character
      is kept, as often as it occurs (`RemovePeriodsCounts`) and in order
      (`RemovePeriodsAppend`). */
  function RemovePeriods(s: string): (r: string)
    ensures '.' !in r && |r| <= |s|
  {
    if s == [] then []
    else if s[0] == '.' then RemovePeriods(s[1..])
    else [s[0]] + RemovePeriods(s[1..])
  }

  lemma {:induction false} RemovePeriodsCounts(s: string)
    ensures forall c :: c != '.' ==> multiset(RemovePeriods(s))[c] == multiset(s)[c]
  {
    if s != [] {
      RemovePeriodsCounts(s[1..]);
      assert s == [s[0]] + s[1..];
    }
  }

  lemma {:induction false} RemovePeriodsKeeps(s: string)
    requires '.' !in s
    ensures RemovePeriods(s) == s
  {
    if s != [] {
      RemovePeriodsKeeps(s[1..]);
      assert [s[0]] + s[1..] == s;
    }
  }

  /** The removal works piece by piece, so the kept characters stay in
      order. */
  lemma {:induction false} RemovePeriodsAppend(a: string, b: string)
    ensures RemovePeriods(a + b) == RemovePeriods(a) + RemovePeriods(b)
  {
    if a == [] {
      assert a + b == b;
    } else {
      assert (a + b)[0] == a[0] && (a + b)[1..] == a[1..] + b;
      RemovePeriodsAppend(a[1..], b);
    }
  }

  /** `stateRaw.trim().toLowerCase().replace(/\./g, "")`: the trimmed text,
      lower-cased, without periods. */
  function StateKey(stateRaw: string): (k: string)
    ensures k == RemovePeriods(ToLower(Trim(stateRaw)))
    ensures '.' !in k && |k| <= |stateRaw|
  {
    RemovePeriods(ToLower(Trim(stateRaw)))
  }

  /** A state key has no upper-case letter. */
  lemma StateKeyLower(stateRaw: string)
    ensures forall i :: 0 <= i < |StateKey(stateRaw)| ==> !IsUpperAscii(StateKey(stateRaw)[i])
  {
    var t := ToLower(Trim(stateRaw));
    assert forall i :: 0 <= i < |t| ==> !IsUpperAscii(t[i]);
    RemovePeriodsNoUpper(t);
  }

  lemma {:induction false} RemovePeriodsNoUpper(s: string)
    requires forall i :: 0 <= i < |s| ==> !IsUpperAscii(s[i])
    ensures forall i :: 0 <= i < |RemovePeriods(s)| ==> !IsUpperAscii(RemovePeriods(s)[i])
  {
    if s != [] {
      RemovePeriodsNoUpper(s[1..]);
    }
  }

  /** A key in final form (trimmed, no upper-case letter, no period) is its
      own key. */
  lemma StateKeyKeeps(s: string)
    requires s == [] || (!IsSpace(s[0]) && !IsSpace(s[|s| - 1]))
    requires '.' !in s && forall i :: 0 <= i < |s| ==> !IsUpperAscii(s[i])
    ensures StateKey(s) == s
  {
    TrimKeeps(s);
    assert forall i :: 0 <= i < |s| ==> ToLower(s)[i] == s[i];
    assert ToLower(s) == s;
    RemovePeriodsKeeps(s);
  }

  /** `normalizeState`: `null` for a missing or empty string; any key of two
      characters is upper-cased (known code or not); a longer or shorter key
      is looked up among the table's own entries by full state name. */
  function NormalizeState(stateRaw: Option<string>): (r: Option<string>)
    ensures !Truthy(stateRaw) ==> r.None?
    ensures Truthy(stateRaw) && |StateKey(stateRaw.value)| == 2 ==>
              r == Some(ToUpper(StateKey(stateRaw.value)))
    ensures Truthy(stateRaw) && |StateKey(stateRaw.value)| != 2 ==>
              (r.Some? <==> StateKey(stateRaw.value) in StateToAbbr)
    ensures Truthy(stateRaw) && |StateKey(stateRaw.value)| != 2 && StateKey(stateRaw.value) in StateToAbbr ==>
              r == Some(StateToAbbr[StateKey(stateRaw.value)].Text())
    ensures r.Some? ==> |r.value| == 2 && !IsLowerAscii(r.value[0]) && !IsLowerAscii(r.value[1])
  {
    if !Truthy(stateRaw) then None
    else
      var s := StateKey(stateRaw.value);
      if |s| == 2 then Some(ToUpper(s))
      else if s in StateToAbbr then Some(StateToAbbr[s].Text())
      else None
  }

  /** What `STATE_TO_ABBR[s]` can yield in JavaScript: an own entry of the
      table, or a property the object literal inherits from
      `Object.prototype`. */
  datatype StateValue = Code(code: string) | Inherited(property: string)

  /** The inherited properties of a plain object whose names are all lower
      case and whose values are truthy: the `Object` constructor and the
      prototype itself. */
  const InheritedKeys: set<string> := {"constructor", "__proto__"}

  /** Neither inherited name is a state name, so the inherited properties
      are reached whenever one of them is the key. The table is checked one
      block at a time, which keeps each query small. */
  lemma InheritedNotInAlabamaToIllinois()
    ensures "constructor" !in StatesAlabamaToIllinois && "__proto__" !in StatesAlabamaToIllinois
  {
  }

  lemma InheritedNotInIndianaToMontana()
    ensures "constructor" !in StatesIndianaToMontana && "__proto__" !in StatesIndianaToMontana
  {
  }

  lemma InheritedNotInNebraskaToRhodeIsland()
    ensures "constructor" !in StatesNebraskaToRhodeIsland && "__proto__" !in StatesNebraskaToRhodeIsland
  {
  }

  lemma InheritedNotInSouthCarolinaToDistrictOfColumbia()
    ensures "constructor" !in StatesSouthCarolinaToDistrictOfColumbia && "__proto__" !in StatesSouthCarolinaToDistrictOfColumbia
  {
  }

  lemma ConstructorNotState()
    ensures "constructor" !in StateToAbbr
  {
    InheritedNotInAlabamaToIllinois();
    InheritedNotInIndianaToMontana();
    InheritedNotInNebraskaToRhodeIsland();
    InheritedNotInSouthCarolinaToDistrictOfColumbia();
  }

  lemma ProtoNotState()
    ensures "__proto__" !in StateToAbbr
  {
    InheritedNotInAlabamaToIllinois();
    InheritedNotInIndianaToMontana();
    InheritedNotInNebraskaToRhodeIsland();
    InheritedNotInSouthCarolinaToDistrictOfColumbia();
  }

  /** The inherited keys are neither two-letter codes nor state names. */
  lemma InheritedNotState(s: string)
    requires s in InheritedKeys
    ensures |s| != 2 && s !in StateToAbbr
  {
    if s == "constructor" {
      ConstructorNotState();
    } else {
      ProtoNotState();
    }
  }

  /** `normalizeState` as written: the `||` lookup falls through from the
      table's own entries to the inherited properties, which are truthy and
      are returned in place of a code. */
  function NormalizeStateAsWritten(stateRaw: Option<string>): (r: Option<StateValue>)
    ensures r.Some? && r.value.Inherited? ==> Truthy(stateRaw) && r.value.property in InheritedKeys
  {
    if !Truthy(stateRaw) then None
    else
      var s := StateKey(stateRaw.value);
      if |s| == 2 then Some(Code(ToUpper(s)))
      else if s in StateToAbbr then Some(Code(StateToAbbr[s].Text()))
      else if s in InheritedKeys then Some(Inherited(s))
      else None
  }

  /** The code as written and its correction agree on every input except the
      inherited names: where the corrected function gives a code, the
      original gives the same code, and it returns an inherited property
      exactly for the keys "constructor" and "__proto__". */
  lemma NormalizeStateAgrees(stateRaw: Option<string>)
    ensures forall c :: NormalizeStateAsWritten(stateRaw) == Some(Code(c)) <==> NormalizeState(stateRaw) == Some(c)
    ensures (NormalizeStateAsWritten(stateRaw).Some? && NormalizeStateAsWritten(stateRaw).value.Inherited?) <==>
              Truthy(stateRaw) && StateKey(stateRaw.value) in InheritedKeys
    ensures Truthy(stateRaw) && StateKey(stateRaw.value) in InheritedKeys ==> NormalizeState(stateRaw).None?
  {
    var w := NormalizeStateAsWritten(stateRaw);
    var n := NormalizeState(stateRaw);
    if Truthy(stateRaw) {
      var s := StateKey(stateRaw.value);
      if s in InheritedKeys {
        InheritedNotState(s);
        assert w == Some(Inherited(s)) && n == None;
      } else {
        assert w == (if n.Some? then Some(Code(n.value)) else None);
      }
    } else {
      assert w == None && n == None;
    }
  }

  // ---------------------------------------------------------------------
  // Cleaning
  // ---------------------------------------------------------------------

  /** `w` (lower case) occurs at `i` case-insensitively, as a whole word. */
  predicate WordAt(s: string, w: string, i: int) {
    0 <= i && i + |w| <= |s|
    && ToLower(s[i..i + |w|]) == w
    && (i == 0 || !IsWordChar(s[i - 1]))
    && (i + |w| == |s| || !IsWordChar(s[i + |w|]))
  }

  /** The leftmost whole-word occurrence of `w` at or after `i`. */
  function FirstWordFrom(s: string, w: string, i: nat): (r: Option<nat>)
    requires i <= |s|
    ensures r.Some? ==> i <= r.value && WordAt(s, w, r.value)
    ensures r.Some? ==> forall j :: i <= j < r.value ==> !WordAt(s, w, j)
    ensures r.None? ==> forall j :: i <= j ==> !WordAt(s, w, j)
    decreases |s| - i
  {
    if i + |w| > |s| then None
    else if WordAt(s, w, i) then Some(i)
    else if i == |s| then None
    else FirstWordFrom(s, w, i + 1)
  }

  /** `s.replace(/\bW\b/i, "")` for the lower-case word `w`: only the first
      case-insensitive whole-word occurrence is removed. */
  function RemoveFirstWord(s: string, w: string): (r: string)
    ensures (forall j :: !WordAt(s, w, j)) ==> r == s
    ensures forall i :: WordAt(s, w, i) && (forall j :: 0 <= j < i ==> !WordAt(s, w, j)) ==>
              r == s[..i] + s[i + |w|..]
    ensures |r| <= |s|
  {
    match FirstWordFrom(s, w, 0)
    case None => s
    case Some(i) => s[..i] + s[i + |w|..]
  }

  /** Text without the word's first letter, in either case, holds no
      occurrence of it and is left unchanged. */
  lemma RemoveFirstWordAbsent(s: string, w: string)
    requires w != []
    requires forall j :: 0 <= j < |s| ==> LowerChar(s[j]) != w[0]
    ensures RemoveFirstWord(s, w) == s
  {
    forall j | 0 <= j && j + |w| <= |s|
      ensures !WordAt(s, w, j)
    {
      assert ToLower(s[j..j + |w|])[0] == LowerChar(s[j]);
    }
  }

  /** `s.replace(/,\s*,/g, ",")`: scanning left to right, a comma, optional
      whitespace and a second comma become one comma; the scan resumes after
      the second comma, so ",,," becomes ",,". Only commas and whitespace
      are ever removed (`CollapseCommaGapsGap`, `CollapseCommaGapsLone` and
      `CollapseCommaGapsPrefix` give the rewrite itself). */
  function CollapseCommaGaps(s: string): (r: string)
    ensures |r| <= |s|
    decreases |s|
  {
    if s == [] then []
    else if s[0] == ',' then
      var rest := TrimStart(s[1..]);
      if rest != [] && rest[0] == ',' then [','] + CollapseCommaGaps(rest[1..])
      else [','] + CollapseCommaGaps(s[1..])
    else [s[0]] + CollapseCommaGaps(s[1..])
  }

  /** Only commas and whitespace are dropped: every other character occurs
      in the result as often as in the input. */
  lemma {:induction false} CollapseCommaGapsCounts(s: string)
    ensures SameCounts(CollapseCommaGaps(s), s)
    decreases |s|
  {
    if s != [] {
      var rest := TrimStart(s[1..]);
      if s[0] == ',' && rest != [] && rest[0] == ',' {
        CollapseCommaGapsCounts(rest[1..]);
        TrimStartCounts(s[1..]);
        CountsAfterGap(s, rest, CollapseCommaGaps(rest[1..]));
      } else {
        CollapseCommaGapsCounts(s[1..]);
        CountsCons(s, CollapseCommaGaps(s[1..]));
      }
    }
  }

  /** The characters other than commas and whitespace, counted. */
  predicate SameCounts(a: string, b: string) {
    forall c :: c != ',' && !IsSpace(c) ==> multiset(a)[c] == multiset(b)[c]
  }

  lemma CountsCons(s: string, tail: string)
    requires s != [] && SameCounts(tail, s[1..])
    ensures SameCounts([s[0]] + tail, s)
  {
    assert s == [s[0]] + s[1..];
  }

  lemma CountsAfterGap(s: string, rest: string, tail: string)
    requires s != [] && s[0] == ','
    requires rest != [] && rest[0] == ','
    requires forall c :: !IsSpace(c) ==> multiset(rest)[c] == multiset(s[1..])[c]
    requires SameCounts(tail, rest[1..])
    ensures SameCounts([','] + tail, s)
  {
    assert rest == [rest[0]] + rest[1..];
    assert s == [s[0]] + s[1..];
  }

  /** Trimming leading whitespace keeps the count of every other
      character. */
  lemma {:induction false} TrimStartCounts(s: string)
    ensures forall c :: !IsSpace(c) ==> multiset(TrimStart(s))[c] == multiset(s)[c]
  {
    if s != [] && IsSpace(s[0]) {
      TrimStartCounts(s[1..]);
      assert s == [s[0]] + s[1..];
    }
  }

  lemma {:induction false} CollapseCommaGapsKeeps(s: string)
    requires ',' !in s
    ensures CollapseCommaGaps(s) == s
  {
    if s != [] {
      CollapseCommaGapsKeeps(s[1..]);
      assert [s[0]] + s[1..] == s;
    }
  }

  /** Text before the first comma is copied and the scan goes on after
      it. */
  lemma {:induction false} CollapseCommaGapsPrefix(a: string, b: string)
    requires ',' !in a
    ensures CollapseCommaGaps(a + b) == a + CollapseCommaGaps(b)
  {
    if a == [] {
      assert a + b == b;
    } else {
      assert (a + b)[0] == a[0] && (a + b)[1..] == a[1..] + b;
      CollapseCommaGapsPrefix(a[1..], b);
    }
  }

  /** A comma, whitespace and a second comma become one comma, and the scan
      resumes after the second comma. */
  lemma CollapseCommaGapsGap(w: string, b: string)
    requires AllSpace(w)
    ensures CollapseCommaGaps([','] + w + [','] + b) == [','] + CollapseCommaGaps(b)
  {
    var s := [','] + w + [','] + b;
    assert s[0] == ',' && s[1..] == w + ([','] + b);
    TrimStartSpaces(w, [','] + b);
    var rest := TrimStart(s[1..]);
    assert rest == [','] + b;
    assert rest != [] && rest[0] == ',' && rest[1..] == b;
  }

  /** A comma whose whitespace is not followed by another comma is kept,
      together with that whitespace. */
  lemma CollapseCommaGapsLone(w: string, b: string)
    requires AllSpace(w)
    requires b == [] || (b[0] != ',' && !IsSpace(b[0]))
    ensures CollapseCommaGaps([','] + (w + b)) == [','] + (w + CollapseCommaGaps(b))
  {
    var s := [','] + (w + b);
    assert s[1..] == w + b;
    TrimStartSpaces(w, b);
    assert TrimStart(s[1..]) == b;
    CollapseCommaGapsNoGap(s);
    assert CollapseCommaGaps(s) == [','] + CollapseCommaGaps(w + b);
    NoCommaInSpace(w);
    CollapseCommaGapsPrefix(w, b);
  }

  lemma NoCommaInSpace(w: string)
    requires AllSpace(w)
    ensures ',' !in w
  {
    AllSpaceAt(w);
    forall i | 0 <= i < |w| ensures w[i] != ',' { assert IsSpace(w[i]); }
  }

  lemma CollapseCommaGapsNoGap(s: string)
    requires s != [] && s[0] == ','
    requires TrimStart(s[1..]) == [] || TrimStart(s[1..])[0] != ','
    ensures CollapseCommaGaps(s) == [','] + CollapseCommaGaps(s[1..])
  {
  }

  /** Leading whitespace before a non-whitespace start is trimmed exactly. */
  lemma {:induction false} TrimStartSpaces(w: string, b: string)
    requires AllSpace(w)
    requires b == [] || !IsSpace(b[0])
    ensures TrimStart(w + b) == b
  {
    if w == [] {
      assert w + b == b;
    } else {
      assert (w + b)[0] == w[0] && (w + b)[1..] == w[1..] + b;
      TrimStartSpaces(w[1..], b);
    }
  }

  /** The two country names `parseHome` removes. */
  const UsaWord: string := "usa"
  const UnitedStatesWord: string := "united states"

  /** The `cleaned` string of `parseHome`. */
  function Clean(rawHome: string): string {
    Trim(CollapseCommaGaps(CollapseSpaces(
      RemoveFirstWord(RemoveFirstWord(Trim(rawHome), UsaWord), UnitedStatesWord))))
  }

  // ---------------------------------------------------------------------
  // parseHome
  // ---------------------------------------------------------------------

  /** The comma form's candidates: the first two non-empty trimmed comma
      segments, the first already through `normalizeCity`, the second still
      raw (`parts[1]`, `undefined` when there is none). */
  function CommaCandidates(cleaned: string): (Option<string>, Option<string>) {
    var parts := NonEmpty(TrimAll(Split(cleaned, ',')));
    (NormalizeCity(if |parts| > 0 then Some(parts[0]) else None),
     if |parts| > 1 then Some(parts[1]) else None)
  }

  /** The space form's candidates when there are at least two tokens: the
      tokens before the last, joined by single spaces, and the last token. */
  function SpaceCandidates(cleaned: string): Option<(string, string)> {
    var tokens := NonEmpty(Split(cleaned, ' '));
    if |tokens| < 2 then None
    else Some((Join(tokens[..|tokens| - 1], ' '), tokens[|tokens| - 1]))
  }

  /** `if (city && state) return { city, state }`. */
  function Pair<S>(city: Option<string>, state: Option<S>): Option<(string, S)> {
    if Truthy(city) && state.Some? then Some((city.value, state.value)) else None
  }

  /** The comma form, tried only when the cleaned text holds a comma. */
  function CommaForm(cleaned: string): Option<(string, string)> {
    if ',' !in cleaned then None
    else Pair(CommaCandidates(cleaned).0, NormalizeState(CommaCandidates(cleaned).1))
  }

  /** The space form: the last token as the state, the rest as the city. */
  function SpaceForm(cleaned: string): Option<(string, string)> {
    match SpaceCandidates(cleaned)
    case None => None
    case Some((cityRaw, last)) => Pair(NormalizeCity(Some(cityRaw)), NormalizeState(Some(last)))
  }

  /** `parseHome`: `null` for a missing or empty input; otherwise the comma
      form if it yields a pair, else the space form. Any pair it returns has
      a non-empty city and a two-character state with no lower-case
      letter. */
  function ParseHome(rawHome: Option<string>): (r: Option<(string, string)>)
    ensures !Truthy(rawHome) ==> r.None?
    ensures r.Some? ==> r.value.0 != [] && |r.value.1| == 2
                        && !IsLowerAscii(r.value.1[0]) && !IsLowerAscii(r.value.1[1])
  {
    if !Truthy(rawHome) then None
    else
      var cleaned := Clean(rawHome.value);
      var comma := CommaForm(cleaned);
      if comma.Some? then comma else SpaceForm(cleaned)
  }

  /** Every state `parseHome` returns is the value `normalizeState` gives
      for the chosen segment or token of the cleaned input. */
  lemma ParsedStateNormalized(rawHome: Option<string>)
    requires ParseHome(rawHome).Some?
    ensures exists t :: NormalizeState(Some(t)) == Some(ParseHome(rawHome).value.1)
  {
    var cleaned := Clean(rawHome.value);
    var state := ParseHome(rawHome).value.1;
    if CommaForm(cleaned).Some? {
      assert NormalizeState(CommaCandidates(cleaned).1) == Some(state);
      assert CommaCandidates(cleaned).1.Some?;
    } else {
      var (cityRaw, last) := SpaceCandidates(cleaned).value;
      assert NormalizeState(Some(last)) == Some(state);
    }
  }

  /** The comma form takes precedence: when the first two non-empty comma
      segments give a truthy city and a state, they are the result. */
  lemma CommaFormFirst(rawHome: string)
    requires ',' in Clean(rawHome)
    requires Truthy(CommaCandidates(Clean(rawHome)).0)
    requires NormalizeState(CommaCandidates(Clean(rawHome)).1).Some?
    ensures ParseHome(Some(rawHome)) ==
      Some((CommaCandidates(Clean(rawHome)).0.value, NormalizeState(CommaCandidates(Clean(rawHome)).1).value))
  {
  }

  /** Only when the comma form fails is the last token tried as the state,
      with the tokens before it as the city. */
  lemma SpaceFormFallback(rawHome: string)
    requires rawHome != []
    requires ',' !in Clean(rawHome)
             || !Truthy(CommaCandidates(Clean(rawHome)).0)
             || NormalizeState(CommaCandidates(Clean(rawHome)).1).None?
    ensures ParseHome(Some(rawHome)) == SpaceForm(Clean(rawHome))
  {
  }

  /** `parseHome` as written, over the original state normalizer: the same
      forms, where a state may be an inherited property. */
  function CommaFormAsWritten(cleaned: string): Option<(string, StateValue)> {
    if ',' !in cleaned then None
    else Pair(CommaCandidates(cleaned).0, NormalizeStateAsWritten(CommaCandidates(cleaned).1))
  }

  function SpaceFormAsWritten(cleaned: string): Option<(string, StateValue)> {
    match SpaceCandidates(cleaned)
    case None => None
    case Some((cityRaw, last)) => Pair(NormalizeCity(Some(cityRaw)), NormalizeStateAsWritten(Some(last)))
  }

  function ParseHomeAsWritten(rawHome: Option<string>): (r: Option<(string, StateValue)>)
    ensures !Truthy(rawHome) ==> r.None?
  {
    if !Truthy(rawHome) then None
    else
      var cleaned := Clean(rawHome.value);
      var comma := CommaFormAsWritten(cleaned);
      if comma.Some? then comma else SpaceFormAsWritten(cleaned)
  }

  /** A parse result of the original that carries a code, or no pair at
      all. */
  predicate NoInheritedState(p: Option<(string, StateValue)>) {
    p.None? || p.value.1.Code?
  }

  /** A corrected parse result, seen as the original would carry it. */
  function Lift(p: Option<(string, string)>): Option<(string, StateValue)> {
    match p
    case None => None
    case Some((city, state)) => Some((city, Code(state)))
  }

  lemma PairAgrees(city: Option<string>, stateRaw: Option<string>)
    requires NoInheritedState(Pair(city, NormalizeStateAsWritten(stateRaw)))
    ensures Pair(city, NormalizeStateAsWritten(stateRaw)) == Lift(Pair(city, NormalizeState(stateRaw)))
  {
    NormalizeStateAgrees(stateRaw);
  }

  lemma CommaFormAgrees(cleaned: string)
    requires NoInheritedState(CommaFormAsWritten(cleaned))
    ensures CommaFormAsWritten(cleaned) == Lift(CommaForm(cleaned))
  {
    if ',' in cleaned {
      PairAgrees(CommaCandidates(cleaned).0, CommaCandidates(cleaned).1);
    }
  }

  lemma SpaceFormAgrees(cleaned: string)
    requires NoInheritedState(SpaceFormAsWritten(cleaned))
    ensures SpaceFormAsWritten(cleaned) == Lift(SpaceForm(cleaned))
  {
    match SpaceCandidates(cleaned)
    case None =>
    case Some((cityRaw, last)) =>
      PairAgrees(NormalizeCity(Some(cityRaw)), Some(last));
  }

  /** Unless the original parse lands on an inherited property, it and the
      corrected parse give the same pair, or both give none. */
  lemma ParseHomeAgrees(rawHome: Option<string>)
    requires NoInheritedState(ParseHomeAsWritten(rawHome))
    ensures ParseHomeAsWritten(rawHome) == Lift(ParseHome(rawHome))
  {
    if Truthy(rawHome) {
      var cleaned := Clean(rawHome.value);
      if CommaFormAsWritten(cleaned).Some? {
        CommaFormAgrees(cleaned);
      } else {
        CommaFormAgrees(cleaned);
        SpaceFormAgrees(cleaned);
      }
    }
  }

  // ---------------------------------------------------------------------
  // cityStateKey, fallbackStateCentroid, resolveHomeLocation
  // ---------------------------------------------------------------------

  /** `${city.toLowerCase()},${state.toLowerCase()}`. */
  function CityStateKey(city: string, state: string): (k: string)
    ensures |k| == |city| + 1 + |state| && k[|city|] == ','
    ensures forall i :: 0 <= i < |k| ==> !IsUpperAscii(k[i])
  {
    ToLower(city) + "," + ToLower(state)
  }

  /** `STATE_CENTROIDS[state] || null`. */
  function FallbackStateCentroid(state: string): (r: Option<LatLng>)
    ensures r.Some? <==> state in StateCentroids
  {
    if state in StateCentroids then Some(StateCentroids[state]) else None
  }

  /** The record for an input that does not parse: only `raw` is set. */
  function Unresolved(rawHome: Option<string>): Location {
    Location(rawHome, None, None, None, None, NoSource)
  }

  /** The record for a parsed pair: coordinates from the city table, else
      from the state's centroid, else none. */
  function Locate(rawHome: Option<string>, city: string, state: string, lookup: map<string, LatLng>): Location {
    var key := CityStateKey(city, state);
    if key in lookup then
      Location(rawHome, Some(city), Some(state), Some(lookup[key].lat), Some(lookup[key].lng), UsCitiesCsv)
    else match FallbackStateCentroid(state)
      case Some(c) => Location(rawHome, Some(city), Some(state), Some(c.lat), Some(c.lng), StateCentroidFallback)
      case None => Location(rawHome, Some(city), Some(state), None, None, NoSource)
  }

  /** The record `resolveHomeLocation(rawHome)` settles on, given the city
      table `lookup`. */
  function Resolve(rawHome: Option<string>, lookup: map<string, LatLng>): Location {
    LocateParsed(rawHome, ParseHome(rawHome), lookup)
  }

  /** The record for a corrected parse result. */
  function LocateParsed(rawHome: Option<string>, p: Option<(string, string)>, lookup: map<string, LatLng>): Location {
    match p
    case None => Unresolved(rawHome)
    case Some((city, state)) => Locate(rawHome, city, state, lookup)
  }

  /** The resolved record keeps `raw`, sets both coordinates or neither,
      and takes them from the city table when the lowercase "city,state"
      key is there, else from the state's centroid, else leaves them null
      with source "none". */
  lemma ResolveRecord(rawHome: Option<string>, lookup: map<string, LatLng>)
    ensures var r := Resolve(rawHome, lookup);
      r.raw == rawHome && (r.lat.None? <==> r.lng.None?) && (r.source == NoSource <==> r.lat.None?)
    ensures ParseHome(rawHome).None? ==> Resolve(rawHome, lookup) == Unresolved(rawHome)
    ensures ParseHome(rawHome).Some? ==>
      var (city, state) := ParseHome(rawHome).value;
      var r := Resolve(rawHome, lookup);
      && r.city == Some(city) && r.state == Some(state)
      && (r.source == UsCitiesCsv <==> CityStateKey(city, state) in lookup)
      && (r.source == StateCentroidFallback <==> CityStateKey(city, state) !in lookup && state in StateCentroids)
      && (r.source == UsCitiesCsv ==>
            r.lat == Some(lookup[CityStateKey(city, state)].lat) && r.lng == Some(lookup[CityStateKey(city, state)].lng))
      && (r.source == StateCentroidFallback ==>
            r.lat == Some(StateCentroids[state].lat) && r.lng == Some(StateCentroids[state].lng))
  {
  }

  /** What `resolveHomeLocation` as written settles on: the record, or the
      TypeError that `cityStateKey` throws when the state is an inherited
      property rather than a string (the returned promise rejects). */
  datatype Outcome = Resolved(loc: Location) | Thrown(error: string)

  function ResolveAsWritten(rawHome: Option<string>, lookup: map<string, LatLng>): (r: Outcome)
    ensures r.Thrown? <==> !NoInheritedState(ParseHomeAsWritten(rawHome))
  {
    Settle(rawHome, ParseHomeAsWritten(rawHome), lookup)
  }

  /** The outcome for a parse result of the original. */
  function Settle(rawHome: Option<string>, parsed: Option<(string, StateValue)>, lookup: map<string, LatLng>): (r: Outcome)
    ensures r.Thrown? <==> !NoInheritedState(parsed)
  {
    if parsed.None? then Resolved(Unresolved(rawHome))
    else if parsed.value.1.Inherited? then Thrown("state.toLowerCase is not a function")
    else Resolved(Locate(rawHome, parsed.value.0, parsed.value.1.code, lookup))
  }

  /** A corrected parse result, carried as the original would, settles on
      the corrected record. */
  lemma SettleLifted(rawHome: Option<string>, p: Option<(string, string)>, lookup: map<string, LatLng>)
    ensures Settle(rawHome, Lift(p), lookup) == Resolved(LocateParsed(rawHome, p, lookup))
  {
  }

  /** Wherever the original does not throw, it settles on the corrected
      record. */
  lemma ResolveAgrees(rawHome: Option<string>, lookup: map<string, LatLng>)
    requires ResolveAsWritten(rawHome, lookup).Resolved?
    ensures ResolveAsWritten(rawHome, lookup).loc == Resolve(rawHome, lookup)
  {
    ParseHomeAgrees(rawHome);
    SettleLifted(rawHome, ParseHome(rawHome), lookup);
  }

  /** Text already in the form `parseHome` cleans to: trimmed, single
      spaces, no comma, no letter u (so no "USA" or "United States"). */
  predicate InCleanForm(s: string) {
    (s == [] || (!IsSpace(s[0]) && !IsSpace(s[|s| - 1])))
    && (forall j :: 0 <= j < |s| ==> LowerChar(s[j]) != 'u')
    && (forall j :: 0 <= j < |s| && IsSpace(s[j]) ==> s[j] == ' ')
    && (NoDoubleSpace(s))
    && ',' !in s
  }

  /** The premises under which a home exposes the inherited lookup: no
      comma after cleaning, at least two tokens, a truthy city before the
      last token, and a last token whose key is an inherited name. */
  predicate ReachesInherited(home: string) {
    home != [] && ',' !in Clean(home)
    && SpaceCandidates(Clean(home)).Some?
    && Truthy(NormalizeCity(Some(SpaceCandidates(Clean(home)).value.0)))
    && StateKey(SpaceCandidates(Clean(home)).value.1) in InheritedKeys
  }

  /** A token whose key is an inherited name is non-empty; the original
      normalizer returns the inherited property for it and the corrected one
      returns nothing. */
  lemma InheritedToken(token: string)
    requires StateKey(token) in InheritedKeys
    ensures token != []
    ensures NormalizeStateAsWritten(Some(token)).Some? && NormalizeStateAsWritten(Some(token)).value.Inherited?
    ensures NormalizeState(Some(token)).None?
  {
    var k := StateKey(token);
    assert k == "constructor" || k == "__proto__";
    assert |token| >= |k| >= 9;
    NormalizeStateAgrees(Some(token));
  }

  lemma InheritedParsed(home: string)
    requires ReachesInherited(home)
    ensures ParseHomeAsWritten(Some(home)).Some? && ParseHomeAsWritten(Some(home)).value.1.Inherited?
  {
    var cleaned := Clean(home);
    SpaceFormInherited(cleaned);
    assert CommaFormAsWritten(cleaned).None?;
    ParseHomeAsWrittenForms(home);
  }

  lemma SpaceFormInherited(cleaned: string)
    requires SpaceCandidates(cleaned).Some?
    requires Truthy(NormalizeCity(Some(SpaceCandidates(cleaned).value.0)))
    requires StateKey(SpaceCandidates(cleaned).value.1) in InheritedKeys
    ensures SpaceFormAsWritten(cleaned).Some? && SpaceFormAsWritten(cleaned).value.1.Inherited?
  {
    var (cityRaw, last) := SpaceCandidates(cleaned).value;
    var city, state := NormalizeCity(Some(cityRaw)), NormalizeStateAsWritten(Some(last));
    assert state.Some? && state.value.Inherited? by { InheritedToken(last); }
    assert SpaceFormAsWritten(cleaned) == Pair(city, state);
  }

  lemma InheritedUnparsed(home: string)
    requires ReachesInherited(home)
    ensures ParseHome(Some(home)).None?
  {
    var cleaned := Clean(home);
    var (cityRaw, last) := SpaceCandidates(cleaned).value;
    assert NormalizeState(Some(last)).None? by { InheritedToken(last); }
    assert CommaForm(cleaned).None?;
    assert SpaceForm(cleaned) == Pair(NormalizeCity(Some(cityRaw)), NormalizeState(Some(last)));
  }

  /** A home that reaches an inherited name makes the original throw, while
      the corrected resolver leaves it unresolved. */
  lemma InheritedStateThrows(home: string, lookup: map<string, LatLng>)
    requires ReachesInherited(home)
    ensures ResolveAsWritten(Some(home), lookup).Thrown?
    ensures Resolve(Some(home), lookup) == Unresolved(Some(home))
  {
    InheritedParsed(home);
    InheritedUnparsed(home);
  }

  /** "Lyme __proto__" makes the original throw: its last token normalizes
      to the inherited `Object.prototype`; the corrected resolver leaves the
      home unresolved. */
  lemma ProtoHomeThrows(home: string, lookup: map<string, LatLng>)
    requires home == "Lyme __proto__"
    ensures ResolveAsWritten(Some(home), lookup).Thrown?
    ensures Resolve(Some(home), lookup) == Unresolved(Some(home))
  {
    ProtoHomeReaches(home);
    InheritedStateThrows(home, lookup);
  }

  lemma ProtoHomeReaches(home: string)
    requires home == "Lyme __proto__"
    ensures ReachesInherited(home)
  {
    ProtoHomeCleaned(home);
    var city, state := ProtoHomeSplit(home);
    LymeCity(city);
    ProtoStateKey(state);
  }

  lemma ProtoHomeCleaned(home: string)
    requires home == "Lyme __proto__"
    ensures Clean(home) == home && ',' !in home
  {
    ProtoHomeForm(home);
    CleanKeeps(home);
  }

  lemma ProtoHomeSplit(home: string) returns (city: string, state: string)
    requires home == "Lyme __proto__"
    ensures SpaceCandidates(home) == Some((city, state))
    ensures city == "Lyme" && state == "__proto__"
  {
    city, state := home[..4], home[5..];
    assert home == city + [' '] + state;
    assert ' ' !in city && ' ' !in state;
    SpaceCandidatesOfTwo(city, state);
  }

  lemma ParseHomeAsWrittenForms(raw: string)
    requires raw != []
    ensures CommaFormAsWritten(Clean(raw)).Some? ==> ParseHomeAsWritten(Some(raw)) == CommaFormAsWritten(Clean(raw))
    ensures CommaFormAsWritten(Clean(raw)).None? ==> ParseHomeAsWritten(Some(raw)) == SpaceFormAsWritten(Clean(raw))
  {
    var cleaned := Clean(raw);
    var comma := CommaFormAsWritten(cleaned);
    assert ParseHomeAsWritten(Some(raw)) == if comma.Some? then comma else SpaceFormAsWritten(cleaned);
  }

  lemma ProtoHomeForm(home: string)
    requires home == "Lyme __proto__"
    ensures InCleanForm(home)
  {
  }

  /** Text already in cleaned form (trimmed, single spaces, no comma, no
      letter u) is its own cleaning. */
  lemma CleanKeeps(s: string)
    requires InCleanForm(s)
    ensures Clean(s) == s
  {
    var usa, us := UsaWord, UnitedStatesWord;
    assert usa[0] == 'u' && us[0] == 'u';
    var t := Trim(s);
    assert t == s by { TrimKeeps(s); }
    var a := RemoveFirstWord(t, usa);
    assert a == s by { RemoveFirstWordAbsent(s, usa); }
    var b := RemoveFirstWord(a, us);
    assert b == s by { RemoveFirstWordAbsent(s, us); }
    var c := CollapseSpaces(b);
    assert c == s by { CollapseSpacesKeeps(s); }
    var d := CollapseCommaGaps(c);
    assert d == s by { CollapseCommaGapsKeeps(s); }
    assert Trim(d) == s by { TrimKeeps(s); }
  }

  /** Two space-free words joined by one space are the city and state
      candidates of the space form. */
  lemma SpaceCandidatesOfTwo(city: string, state: string)
    requires city != [] && state != [] && ' ' !in city && ' ' !in state
    ensures SpaceCandidates(city + [' '] + state) == Some((city, state))
  {
    SplitAtFirst(city, state, ' ');
    SplitWithout(state, ' ');
    assert Split(city + [' '] + state, ' ') == [city, state];
    assert NonEmpty([city, state]) == [city, state] by {
      assert [city, state][1..] == [state];
      assert NonEmpty([state]) == [state] by {
        assert [state][1..] == [];
      }
    }
    assert [city, state][..1] == [city];
  }

  lemma ProtoStateKey(s: string)
    requires s == "__proto__"
    ensures StateKey(s) == s
  {
    TrimKeeps(s);
    assert Trim(s) == s;
    assert forall i :: 0 <= i < |s| ==> !IsUpperAscii(s[i]);
    assert ToLower(s) == s;
    assert '.' !in s;
    RemovePeriodsKeeps(s);
  }

  lemma LymeCity(s: string)
    requires s == "Lyme"
    ensures NormalizeCity(Some(s)) == Some(s)
  {
    TrimKeeps(s);
    CollapseSpacesKeeps(s);
    assert StripQuotes(s) == s;
  }

  /** `resolveHomeLocation` as the source writes it: start from the
      unresolved record and fill in fields step by step. */
  method ResolveHomeLocation(rawHome: Option<string>, lookup: map<string, LatLng>) returns (loc: Location)
    ensures loc == Resolve(rawHome, lookup)
  {
    loc := Unresolved(rawHome);
    var parsed := ParseHome(rawHome);
    if parsed.None? {
      return;
    }
    var (city, state) := parsed.value;
    loc := loc.(city := Some(city));
    loc := loc.(state := Some(state));
    var key := CityStateKey(city, state);
    if key in lookup {
      var coords := lookup[key];
      loc := loc.(lat := Some(coords.lat));
      loc := loc.(lng := Some(coords.lng));
      loc := loc.(source := UsCitiesCsv);
      return;
    }
    var centroid := FallbackStateCentroid(state);
    if centroid.Some? {
      loc := loc.(lat := Some(centroid.value.lat));
      loc := loc.(lng := Some(centroid.value.lng));
      loc := loc.(source := StateCentroidFallback);
    }
  }

  /** An empty or absent home resolves to the all-null record with no lookup
      consulted. */
  lemma EmptyHomeUnresolved(lookup: map<string, LatLng>)
    ensures Resolve(None, lookup) == Unresolved(None)
    ensures Resolve(Some(""), lookup) == Unresolved(Some(""))
  {
  }



}
