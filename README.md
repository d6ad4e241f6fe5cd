# Member directory: a verified model of its server logic

This project models the sequential logic inside a small member-directory web
application. The application has an Express/Mongoose server and a React
client. The model covers:

- **Home resolver.** `server/utils/homeLocation.js` cleans a free-text home
  such as "Hanover, New Hampshire" or "Austin TX". It splits it into city
  and postal state code, and attaches coordinates: from a city table built
  from a CSV file, else from one of 13 state centroids, else none.
- **Seed script.** `server/scripts/seedMembers.js` normalises the raw member
  JSON (`toBool`, legacy keys). It then enriches every member with a
  resolved home and counts the outcomes.
- **Member routes.** `server/routes/members.js` holds the
  similar-members scorer and its stable ranking, and the filter of the
  member list.
- **Posts.** The server routes (`server/routes/posts.js`) create posts,
  toggle likes in place, and delete with an authorisation rule. The
  client context (`client/src/context/PostsContext.jsx`) does the same as
  pure list transforms.
- **Auth.** `server/routes/auth.js` does signup and login over a store of
  users and members. The store is a class; bcrypt is an uninterpreted hash.
- **Birthdays.** `server/routes/birthdays.js` clamps the window, checks
  "MM-DD" birthdays, and counts days to the next birthday.
- **Stats and map.** `server/routes/stats.js` and `server/routes/map.js`
  hold the role counts, the `$group` counts, the home-state counts, and
  the map points.
- **Legacy server.** `server/index.js` serves the member list with
  index-based ids and a case-insensitive name search.

HTTP replies are values of `Schema.Response`: a status with a body, or a
status with an error message. The database is a sequence of documents in
collection order. Outside services are function parameters:
- `parseFloat`;
- ObjectId validity (`validId`);
- the case-insensitive `$regex` search of the member list (`nameMatches`);
- the anchored name pattern of signup (`regexTest`);
- bcrypt (`hash`).

Modules, one per file:
- `Js`: the JavaScript string and number semantics the code relies on.
- `Seqs` and `Sorting`: sequence helpers, and the stable sort that
  `Array.prototype.sort` and `$sort` provide.
- `Schema`: member records, the role whitelist and the allowed class years.
- `Groups`: what a `$group` stage with `$sum: 1` yields.
- One module per source file: `HomeLocation`, `CityLookup`, `Seed`,
  `Similarity`, `PostsServer`, `PostsClient`, `Auth`, `Birthdays`,
  `Stats`, `MapRoute`, `LegacyIndex`.

## Model

| member | source | states |
|---|---|---|
| HomeLocation.NormalizeCity | server/utils/homeLocation.js:75-81 | `null` exactly for a missing or empty input; otherwise the trimmed text with whitespace runs collapsed and one quote stripped from each end, so no two adjacent spaces and every whitespace character a plain space |
| HomeLocation.StripQuotes | server/utils/homeLocation.js:80 | a quote at the start and one at the end are each removed, and nothing else: text with no quote at either end is unchanged |
| HomeLocation.NormalizeCityKeeps | server/utils/homeLocation.js:75-81 | a city already trimmed, single-spaced and without quotes at its ends normalises to itself |
| HomeLocation.RemovePeriods | server/utils/homeLocation.js:85 | the result has no period and is no longer than the input |
| HomeLocation.RemovePeriodsCounts | server/utils/homeLocation.js:85 | every character other than a period occurs in the result as often as in the input |
| HomeLocation.RemovePeriodsKeeps | server/utils/homeLocation.js:85 | text without periods is left unchanged |
| HomeLocation.RemovePeriodsAppend | server/utils/homeLocation.js:85 | removal works piece by piece, so the other characters keep their order |
| HomeLocation.StateKey | server/utils/homeLocation.js:85 | the key is the trimmed input, lower-cased, with its periods removed; it has no period and is no longer than the input |
| HomeLocation.StateKeyLower | server/utils/homeLocation.js:85 | the key has no upper-case letter |
| HomeLocation.StateKeyKeeps | server/utils/homeLocation.js:85 | a key already trimmed, lower-case and period-free is its own key |
| HomeLocation.NormalizeState | server/utils/homeLocation.js:21-88 | `null` for a missing or empty input; a two-character key is returned upper-cased, known or not; a longer key maps through the 51-entry table or gives `null`; every result is two characters with no lower-case letter |
| HomeLocation.InheritedNotInAlabamaToIllinois | server/utils/homeLocation.js:21-73 | neither "constructor" nor "__proto__" is a state name from Alabama to Illinois |
| HomeLocation.InheritedNotInIndianaToMontana | server/utils/homeLocation.js:21-73 | neither "constructor" nor "__proto__" is a state name from Indiana to Montana |
| HomeLocation.InheritedNotInNebraskaToRhodeIsland | server/utils/homeLocation.js:21-73 | neither "constructor" nor "__proto__" is a state name from Nebraska to Rhode Island |
| HomeLocation.InheritedNotInSouthCarolinaToDistrictOfColumbia | server/utils/homeLocation.js:21-73 | neither "constructor" nor "__proto__" is a state name from South Carolina to the District of Columbia |
| HomeLocation.ConstructorNotState | server/utils/homeLocation.js:21-73 | "constructor" is not a state name |
| HomeLocation.ProtoNotState | server/utils/homeLocation.js:21-73 | "__proto__" is not a state name |
| HomeLocation.NormalizeStateAsWritten | server/utils/homeLocation.js:87 | the `||` lookup as written: it yields an inherited property only for a non-empty input whose key is an inherited name |
| HomeLocation.NormalizeStateAgrees | server/utils/homeLocation.js:83-88 | the code as written and the corrected lookup give the same code on every input, and differ exactly on inherited names, where the corrected one gives `null` |
| HomeLocation.FirstWordFrom | server/utils/homeLocation.js:95-96 | finds the leftmost case-insensitive whole-word occurrence at or after a position, or proves there is none |
| HomeLocation.RemoveFirstWord | server/utils/homeLocation.js:95-96 | removes only the first whole-word occurrence; text without one is unchanged |
| HomeLocation.RemoveFirstWordAbsent | server/utils/homeLocation.js:95-96 | text without the word's first letter is unchanged by the removal |
| HomeLocation.CollapseCommaGaps | server/utils/homeLocation.js:98 | the result is no longer than the input |
| HomeLocation.CollapseCommaGapsCounts | server/utils/homeLocation.js:98 | every character other than a comma or whitespace occurs in the result as often as in the input |
| HomeLocation.CollapseCommaGapsKeeps | server/utils/homeLocation.js:98 | text without a comma is unchanged |
| HomeLocation.CollapseCommaGapsPrefix | server/utils/homeLocation.js:98 | text before the first comma is kept as is |
| HomeLocation.CollapseCommaGapsGap | server/utils/homeLocation.js:98 | `,\s*,` becomes a single comma |
| HomeLocation.CollapseCommaGapsLone | server/utils/homeLocation.js:98 | a comma whose whitespace is not followed by another comma is kept together with that whitespace |
| HomeLocation.CleanKeeps | server/utils/homeLocation.js:93-99 | about `HomeLocation.Clean`: text already trimmed, single-spaced, comma-free and free of the removed words is its own cleaned form |
| HomeLocation.ParseHome | server/utils/homeLocation.js:90-122 | `null` for a missing or empty input; every pair has a non-empty city and a two-character state |
| HomeLocation.ParsedStateNormalized | server/utils/homeLocation.js:101-119 | every parsed state is the output of `normalizeState` on some text |
| HomeLocation.CommaFormFirst | server/utils/homeLocation.js:101-109 | when the cleaned text has a comma and its first two non-empty segments normalise, they are the result |
| HomeLocation.SpaceFormFallback | server/utils/homeLocation.js:111-119 | otherwise the last token is tried as the state and the tokens before it as the city |
| HomeLocation.SpaceCandidatesOfTwo | server/utils/homeLocation.js:111-116 | two space-free words joined by a space split into city and state candidates |
| HomeLocation.ParseHomeAsWritten | server/utils/homeLocation.js:90-122 | the parse as written, over the lookup as written: `null` for a missing or empty input |
| HomeLocation.ParseHomeAsWrittenForms | server/utils/homeLocation.js:101-119 | the parse as written takes the comma form when it yields a pair, else the space form |
| HomeLocation.PairAgrees | server/utils/homeLocation.js:108-117 | with no inherited state, the as-written pair is the corrected pair |
| HomeLocation.CommaFormAgrees | server/utils/homeLocation.js:101-109 | with no inherited state, the comma forms agree |
| HomeLocation.SpaceFormAgrees | server/utils/homeLocation.js:111-119 | with no inherited state, the space forms agree |
| HomeLocation.ParseHomeAgrees | server/utils/homeLocation.js:90-122 | unless the parse as written lands on an inherited property, it equals the corrected parse |
| HomeLocation.CityStateKey | server/utils/homeLocation.js:124-126 | the key is the city, a comma, then the state, with no upper-case letter |
| HomeLocation.FallbackStateCentroid | server/utils/homeLocation.js:165-167 | a centroid exactly for the 13 keys of the centroid table |
| HomeLocation.ResolveRecord | server/utils/homeLocation.js:169-201 | about `HomeLocation.Resolve`: `raw` is the input or `null`; lat and lng are both set or both null; the source is "none" exactly when they are null; "uscities_csv" only when the key is in the city table; "state_centroid_fallback" only on a table miss for a centroid state; an unparsed home keeps only `raw` |
| HomeLocation.ResolveHomeLocation | server/utils/homeLocation.js:169-201 | the record filled in step by step is the one `Resolve` specifies |
| HomeLocation.EmptyHomeUnresolved | server/utils/homeLocation.js:179-180 | a missing or empty home gives the record with only `raw` set |
| HomeLocation.ResolveAsWritten | server/utils/homeLocation.js:124-201 | the resolver as written throws exactly when the parse as written carries an inherited property as the state |
| HomeLocation.ResolveAgrees | server/utils/homeLocation.js:169-201 | wherever the resolver as written does not throw, it returns the corrected record |
| HomeLocation.InheritedToken | server/utils/homeLocation.js:83-88 | a token whose key is an inherited name is non-empty, yields the inherited property as written, and `null` when corrected |
| HomeLocation.InheritedParsed | server/utils/homeLocation.js:111-119 | a home that reaches an inherited name parses, as written, to a pair with an inherited state |
| HomeLocation.SpaceFormInherited | server/utils/homeLocation.js:111-119 | the space form as written yields the inherited state when the last token's key is an inherited name |
| HomeLocation.InheritedUnparsed | server/utils/homeLocation.js:90-122 | the corrected parse of such a home is `null` |
| HomeLocation.InheritedStateThrows | server/utils/homeLocation.js:124-201 | such a home makes the resolver as written throw, while the corrected resolver leaves it unresolved |
| HomeLocation.ProtoHomeThrows | server/utils/homeLocation.js:87-125 | "Lyme __proto__" makes the resolver as written throw |
| HomeLocation.ProtoHomeReaches | server/utils/homeLocation.js:93-119 | "Lyme __proto__" reaches the inherited lookup |
| HomeLocation.ProtoHomeCleaned | server/utils/homeLocation.js:93-99 | "Lyme __proto__" is its own cleaned form and has no comma |
| HomeLocation.ProtoHomeSplit | server/utils/homeLocation.js:111-116 | "Lyme __proto__" splits into city "Lyme" and state token "__proto__" |
| HomeLocation.ProtoHomeForm | server/utils/homeLocation.js:93-99 | "Lyme __proto__" is in cleaned form |
| HomeLocation.ProtoStateKey | server/utils/homeLocation.js:85 | "__proto__" is its own state key |
| HomeLocation.LymeCity | server/utils/homeLocation.js:75-81 | "Lyme" normalises to itself |
| CityLookup.FirstFilled | server/utils/homeLocation.js:137-138 | `row.a \|\| row.b \|\| ""`: empty exactly when every present column is empty, else the value of the first column that is present and non-empty |
| CityLookup.FirstPresent | server/utils/homeLocation.js:143-144 | `row.a ?? row.b ?? ...`: `undefined` exactly when no column is present, else the value of the first present column, even an empty one |
| CityLookup.RowEntry | server/utils/homeLocation.js:136-148 | with the corrected state lookup: a row sets an entry exactly when city and state normalise and both coordinates parse; an empty city or state skips the row; the entry is the city-state key with the parsed coordinates |
| CityLookup.Entries | server/utils/homeLocation.js:136 | one handler result per row, in file order |
| CityLookup.EntriesStep | server/utils/homeLocation.js:136 | one more row appends its handler result |
| CityLookup.TableOfLastWins | server/utils/homeLocation.js:148 | a key is in the map exactly when some entry sets it, and holds the value of the last entry that does |
| CityLookup.EntriesLastWins | server/utils/homeLocation.js:136-148 | for any row handler: a key is in the map exactly when some row sets it, and holds the value of the last row that does |
| CityLookup.CityTableLastWins | server/utils/homeLocation.js:130-153 | about `CityLookup.CityTable`: a key is in the city table exactly when a kept row sets it, and a later row with the same key overwrites an earlier one |
| CityLookup.LoadCityLookup | server/utils/homeLocation.js:130-153 | the map filled row by row is the city table of the rows |
| CityLookup.CityLookupCache.constructor | server/utils/homeLocation.js:128 | the cache starts empty |
| CityLookup.CityLookupCache.GetCityLookup | server/utils/homeLocation.js:155-163 | the table is built at most once, is empty when there is no CSV file, and a cached table is returned unchanged |
| CityLookup.CityLookupCache.ResolveHomeLocation | server/utils/homeLocation.js:169-201 | the record is `Resolve` over the one table; the table is not requested for a home that does not parse, so resolving the same home twice gives the same record |
| Seed.ToBool | server/scripts/seedMembers.js:33-41 | Booleans as is; numbers true exactly when 1; strings true exactly when the trimmed lower-cased text is "true", "yes", "y" or "1"; anything else false |
| Seed.ToBoolIgnoresCase | server/scripts/seedMembers.js:37-38 | strings equal up to case read the same |
| Seed.Coalesce | server/scripts/seedMembers.js:224-243 | `x ?? y` is `x` unless `x` is `null` or `undefined`, else `y` |
| Seed.NormalizeMember | server/scripts/seedMembers.js:215-246 | `email` is never `null`; each of the five role flags is `toBool` of the top-level key when not nullish, else of `roles.<key>` |
| Seed.NormalizeMemberSources | server/scripts/seedMembers.js:223-243 | each role flag, each of the four favorites (thing 1, 2, 3 and the Dartmouth tradition) and `funFact` come from the legacy top-level key when it is not nullish, else from the nested field |
| Seed.FavoritesRoundTrip | server/scripts/seedMembers.js:235-241 | a normalised favorites object reads back field by field |
| Seed.AsObjectFields | server/scripts/seedMembers.js:215-246 | a normalised member, seen as an object, reads back its plain fields |
| Seed.AsObjectLegacyAbsent | server/scripts/seedMembers.js:224-243 | a normalised member has none of the legacy keys |
| Seed.AsObjectRoles | server/scripts/seedMembers.js:223-229 | a normalised member's role flags read back as themselves |
| Seed.AsObjectFavorites | server/scripts/seedMembers.js:235-241 | a normalised member's nested favorites read back as themselves |
| Seed.NormalizeNestedShape | server/scripts/seedMembers.js:215-246 | an object holding a member's fields in nested form, with no legacy keys, normalises to that member |
| Seed.NormalizeMemberIdempotent | server/scripts/seedMembers.js:215-246 | normalising a normalised member changes nothing |
| Seed.CountSource | server/scripts/seedMembers.js:276-278 | a count by source never exceeds the number of records |
| Seed.CountSourceSnoc | server/scripts/seedMembers.js:276-278 | one more record adds one to the count of its own source and leaves the others |
| Seed.CountsPartition | server/scripts/seedMembers.js:276-320 | every record has exactly one source, so the three counts add up to the number of records |
| Seed.EnrichMembers | server/scripts/seedMembers.js:276-320 | every member with a string, `null`, `false` or `0` home gets the record the resolver settles on, and `matched`, `fallback` and `missing` count the records by source and add up to the number of members |
| Seed.UnmatchedRaws | server/scripts/seedMembers.js:331-332 | one entry per record with source "none", each that record's raw home |
| Seed.UnmatchedRawsAppend | server/scripts/seedMembers.js:331-332 | the unmatched raw homes follow the order of the records |
| Seed.Misses | server/scripts/seedMembers.js:331-334 | at most 10 entries: the first of the unmatched raw homes, in input order |
| Seed.MissesUnmatched | server/scripts/seedMembers.js:331-334 | every miss is the raw home of a record whose source is "none" |
| Schema.ParseRole | server/routes/members.js:19-20 | a role name is recognised exactly when it is one of the five |
| Schema.ReadRoleQuery | server/routes/members.js:18-26 | no filter for a missing or empty role; a whitelisted name selects that role; any other name is rejected |
| Similarity.IfMet | server/routes/members.js:79-107 | a criterion contributes itself or nothing |
| Similarity.Labels | server/routes/members.js:81-106 | one reason per met criterion, in order |
| Similarity.TotalWeightAppend | server/routes/members.js:76-107 | weights add over concatenation |
| Similarity.LabelsAppend | server/routes/members.js:77-107 | reasons concatenate |
| Similarity.RolesMetStep | server/routes/members.js:95-100 | one more role in the loop adds its weight and its reason |
| Similarity.ScoreParts | server/routes/members.js:76-109 | the score is the sum of the five parts, in source order |
| Similarity.ReasonsParts | server/routes/members.js:77-109 | the reasons are major, minor, year, the roles, then state |
| Similarity.LabelsIfMet | server/routes/members.js:79-107 | a criterion's reason is listed exactly when it is met |
| Similarity.AddSharedRoles | server/routes/members.js:94-100 | the role loop adds 2 and "both <role>" for each role held by both members |
| Similarity.ScoreCandidate | server/routes/members.js:75-110 | the accumulated score and reasons are the specified ones |
| Similarity.SharedIn | server/routes/members.js:94-100 | the number of shared roles is at most the number of roles |
| Similarity.RolesMetWeight | server/routes/members.js:94-100 | the roles contribute twice the number of shared roles |
| Similarity.ScoreFormula | server/routes/members.js:75-110 | score = 4·[major] + 2·[minor] + 1·[year] + 2·(shared roles) + 1·[state], each requiring both values truthy and equal |
| Similarity.ScoreRange | server/routes/members.js:76-107 | the score lies between 0 and 18 |
| Similarity.TotalWeightPositive | server/routes/members.js:76-107 | every criterion weighs at least 1 |
| Similarity.ScorePositiveIffReasons | server/routes/members.js:79-109 | score > 0 exactly when there is a reason; one reason per met criterion |
| Similarity.MeetsSymmetric | server/routes/members.js:79-104 | each criterion is symmetric in the two members |
| Similarity.RolesMetSymmetric | server/routes/members.js:95-100 | the shared roles are symmetric |
| Similarity.ScoreSymmetric | server/routes/members.js:75-110 | score and reasons do not depend on which member is the base |
| Similarity.Scored | server/routes/members.js:112-124 | one suggestion per candidate, in order |
| Similarity.Positive | server/routes/members.js:125 | keeps exactly the suggestions with a positive score |
| Similarity.Slice | server/routes/members.js:127 | `slice(0, end)`: a prefix; `NaN` gives none; a non-negative end gives `min(end, length)`; a negative end drops from the back |
| Similarity.RankShape | server/routes/members.js:112-127 | about `Similarity.Rank`: only positive-score candidates, scores non-increasing, a prefix of the full ordering |
| Similarity.OrderedComplete | server/routes/members.js:112-126 | every candidate with a positive score is in the full ordering |
| Similarity.OrderedStable | server/routes/members.js:125-126 | the suggestions with any one score come out in the order of the candidates they were scored from, and none has a score ≤ 0 |
| Similarity.PositiveWithKey | server/routes/members.js:125 | the score filter keeps, for every positive score, all the suggestions with that score in their order, and drops every other |
| Similarity.RankLength | server/routes/members.js:63-127 | a limit n ≥ 0 gives min(n, number of positive candidates) entries; 0 gives none |
| Similarity.LimitParam | server/routes/members.js:63 | never above 20; 5 for a missing or empty limit; `NaN` exactly when a given limit does not parse |
| Similarity.LimitOfDecimal | server/routes/members.js:63 | a decimal n gives min(n, 20) |
| Similarity.DefaultLimitAsText | server/routes/members.js:63 | an absent limit acts as the text "5" does |
| Similarity.FindMember | server/routes/members.js:65-69 | the member with that id, or none exactly when no member has it |
| Similarity.Others | server/routes/members.js:71-73 | exactly the members other than the base |
| Similarity.SimilarMembers | server/routes/members.js:61-137 | 500 "Server error" for an id that is not a valid ObjectId; 404 "Member not found" exactly for a valid id no member has; otherwise `count` is the length of `similar`, which is the ranking of the other members |
| Similarity.SimilarExcludesBase | server/routes/members.js:71-125 | the base is never suggested, and every suggestion has a positive score |
| Similarity.ListFilter | server/routes/members.js:14-28 | exactly the members holding the role and matching the name |
| Similarity.ListMembers | server/routes/members.js:7-37 | 400 exactly for a role outside the five; a valid role keeps only members holding it; an empty search keeps every name; `count` is the number listed |
| Similarity.BuildListFilter | server/routes/members.js:9-26 | the filter built field by field: a name pattern exactly when the trimmed search is non-empty, the role query, `None` for a bad role |
| Similarity.ListRoute | server/routes/members.js:7-37 | the handler built from the filter answers as `ListMembers` specifies |
| Sorting.Insert | server/routes/members.js:126 | insertion adds one element and keeps the rest |
| Sorting.SortByKey | server/routes/members.js:126 | the sorted list is a permutation of the input |
| Sorting.InsertSorted | server/routes/members.js:126 | insertion into a sorted list keeps it sorted |
| Sorting.SortByKeySorted | server/routes/members.js:126 | the result is sorted by the key |
| Sorting.InsertWithKey | server/routes/members.js:126 | insertion keeps the relative order of elements with equal keys |
| Sorting.SortByKeyStable | server/routes/members.js:126 | the sort is stable: the elements with any one key keep their input order |
| Sorting.InsertSumBy | server/routes/stats.js:51 | insertion adds the element's value to a sum |
| Sorting.SortByKeySumBy | server/routes/stats.js:51-84 | sorting does not change a sum over the elements |
| PostsServer.ToggledUsers | server/routes/posts.js:75-81 | liking appends the member once at the end; unliking removes every occurrence and keeps the other users in order |
| PostsServer.ToggledCount | server/routes/posts.js:78-81 | unliking gives `max(0, count - 1)`; liking gives `count + 1` |
| PostsServer.ToggleTwiceRestores | server/routes/posts.js:75-81 | toggling twice from not-liked restores the users, and the count when it was not negative |
| PostsServer.ToggleKeepsCountConsistent | server/routes/posts.js:75-81 | a count equal to the number of distinct users stays so after a toggle |
| PostsServer.PostDocument.constructor | server/models/Post.js:4-30 | a new post has no likes |
| PostsServer.PostDocument.ToggleLike | server/routes/posts.js:75-82 | updates the document's likes in place as `ToggledUsers` and `ToggledCount` state |
| PostsServer.CreateError | server/routes/posts.js:42-47 | the checks in order, each as an if-and-only-if: "Content is required" for missing or blank content; "Author is required" for a missing author; "Invalid author id" for an author id that is not valid; "Author not found" for a valid id no member has |
| PostsServer.MayDeleteCases | server/routes/posts.js:104-106 | about `PostsServer.MayDelete`: deleting is allowed without a member id, without an author, or by the author; refused exactly when both are given and differ |
| PostsServer.PostStore.constructor | server/routes/posts.js:39 | the store starts empty |
| PostsServer.PostStore.Create | server/routes/posts.js:39-56 | on a failed check nothing is stored and the reply is 400 with its message; otherwise one post is stored with trimmed content and the member's name, and the reply is 201 |
| PostsServer.PostStore.ToggleLike | server/routes/posts.js:64-85 | 400 for a bad post id, then for a bad member id, 404 for a missing post; otherwise that post is toggled and no other post changes |
| PostsServer.PostStore.Delete | server/routes/posts.js:93-109 | 400, 404, then 403 "Not authorized to delete" in that order; otherwise exactly that post is removed |
| PostsClient.CreatePost | client/src/context/PostsContext.jsx:9-20 | the new post comes first with no likes, and the old posts follow unchanged |
| PostsClient.Toggled | client/src/context/PostsContext.jsx:27-35 | liked: one less like and every occurrence of the user removed; not liked: one more like and the user appended; other fields unchanged |
| PostsClient.ToggleLike | client/src/context/PostsContext.jsx:24-40 | same length and order; every post with another id unchanged; the matching post toggled |
| PostsClient.ToggleTwice | client/src/context/PostsContext.jsx:28-35 | toggling a post twice from not-liked restores it exactly |
| PostsClient.ToggleKeepsCountConsistent | client/src/context/PostsContext.jsx:31-34 | `likes == length(likedBy)` with no duplicates is kept by a toggle |
| PostsClient.ToggleLikeTwice | client/src/context/PostsContext.jsx:24-40 | toggling the list twice from not-liked restores it |
| PostsClient.DeletePost | client/src/context/PostsContext.jsx:43-45 | removes exactly the posts with that id |
| PostsClient.DeletePostAppend | client/src/context/PostsContext.jsx:44 | deleting keeps the order of the rest |
| PostsClient.DeletePostAbsent | client/src/context/PostsContext.jsx:44 | deleting an id no post has changes nothing |
| PostsClient.DeleteUndoesCreate | client/src/context/PostsContext.jsx:9-45 | deleting a freshly created post restores the list |
| Seqs.RemoveAll | server/routes/posts.js:77 | removes every occurrence of the element and keeps every other element as often as it occurs |
| Seqs.RemoveAllAppend | server/routes/posts.js:77 | removal works piece by piece, so the kept elements keep their order |
| Seqs.RemoveAllAbsent | server/routes/posts.js:77 | removing an absent element changes nothing |
| Seqs.RemoveAllAppended | server/routes/posts.js:77-80 | removing a freshly appended element restores the list |
| Seqs.RemoveAllOnce | server/routes/posts.js:77 | in a list without duplicates, removing a present element drops exactly one |
| Seqs.AppendFresh | server/routes/posts.js:80 | appending an absent element keeps a list without duplicates |
| Auth.FindUser | server/routes/auth.js:26-125 | the first user with that email, or none exactly when no user has it |
| Auth.FindUserAppend | server/routes/auth.js:26-79 | adding a user with another email does not change who is found; a new email is found at the end |
| Auth.FindMemberByName | server/routes/auth.js:37-39 | `Member.findOne({name: /^name$/i})` as the comment at server/routes/auth.js:36 describes it, an exact name match up to case: the first member whose name equals the given one up to case, or none exactly when there is none |
| Auth.FindMemberByPattern | server/routes/auth.js:37-39 | the lookup as written, through the regular expression `^name$`: the first member whose name the pattern matches, or none exactly when none does |
| Auth.DotNameLinksOtherMember | server/routes/auth.js:37-39 | the name "J.hn" links, as written, to the member "John", while the intended lookup finds no one |
| Auth.Login | server/routes/auth.js:118-160 | 400 exactly for a missing field; 401 "Invalid email or password" for an unknown email and for a wrong password alike; otherwise 200 with the user and its linked member, `null` when there is none |
| Auth.LoginAfterSignup | server/routes/auth.js:72-138 | a user added under a new email logs in with the password whose hash it stores |
| Auth.SignupError | server/routes/auth.js:13-31 | the checks in order: 400 for a missing field, 400 for a password shorter than 6, 409 exactly when the email is taken |
| Auth.AuthStore.constructor | server/routes/auth.js:8 | the store holds the given users and members |
| Auth.AuthStore.Signup | server/routes/auth.js:8-108 | on a failed check nothing is stored; with no member of that name and a class year outside the four, 500 "Signup failed" and nothing is stored; otherwise the matching member is linked or a new one saved with its year (roles all false when none are given), exactly one user is added with the password's hash, the reply is 201, and logging in now succeeds |
| Birthdays.DaysWindow | server/routes/birthdays.js:10 | never above 365 and never 0; a missing, unreadable or zero value gives 30 |
| Birthdays.DaysWindowOfDecimal | server/routes/birthdays.js:10 | a decimal n ≥ 1 gives min(n, 365) |
| Birthdays.DaysBeforeMonth | server/routes/birthdays.js:38 | the days before a month leave room for that month in the year |
| Birthdays.YearStartStep | server/routes/birthdays.js:38-46 | consecutive Gregorian years start a year's length apart |
| Birthdays.DayNumberNextDay | server/routes/birthdays.js:38-46 | the day number counts calendar days: the next date, across a month end or a year end, has the next number |
| Birthdays.DaysUntil | server/routes/birthdays.js:38-46 | between 0 and 366; 0 exactly on the same day of the year; when this year's date is not before today, the days between the two within the year |
| Birthdays.DaysUntilNext | server/routes/birthdays.js:38-46 | the days from today to the next date with that month and day: today plus the result is that date this year or next year, and no such date falls in between |
| Birthdays.BirthdayToday | server/routes/birthdays.js:38-46 | a birthday today is 0 days away |
| Birthdays.ParseBirthday | server/routes/birthdays.js:23-35 | a birthday is kept only if it is a non-empty string that splits on "-" into two integers, month 1-12 and day 1-31 |
| Birthdays.NumberOfTwoDigits | server/routes/birthdays.js:29-30 | two decimal digits read back as their number |
| Birthdays.ParseBirthdayFormatted | server/routes/birthdays.js:23-35 | every "MM-DD" text reads back as its month and day |
| Birthdays.ParseBirthdayOfParts | server/routes/birthdays.js:23-35 | a text that splits into two numbers within range reads as that month and day |
| Birthdays.Entry | server/routes/birthdays.js:22-56 | an entry exactly for a valid birthday, carrying the member's fields and the days until it |
| Birthdays.Window | server/routes/birthdays.js:57-58 | keeps exactly the present entries with 0 ≤ daysUntil ≤ days |
| Birthdays.InWindow | server/routes/birthdays.js:57-58 | every kept entry has 0 ≤ daysUntil ≤ days |
| Birthdays.InWindowSound | server/routes/birthdays.js:57-58 | every kept entry is the entry of some member |
| Birthdays.InWindowComplete | server/routes/birthdays.js:57-58 | every member whose next birthday is within the window is kept |
| Birthdays.SortedWindow | server/routes/birthdays.js:59 | sorting the kept entries by daysUntil keeps every one of them, keeps them within the window and orders them ascending |
| Birthdays.UpcomingBirthdaysShape | server/routes/birthdays.js:7-65 | about `Birthdays.UpcomingBirthdays`: every listed birthday has 0 ≤ daysUntil ≤ days, the list is sorted ascending, `count` is its length, and no member within the window is missed |
| Groups.Occurrences | server/routes/stats.js:35-38 | a count no larger than the list, zero exactly for an absent value |
| Groups.KeyIndex | server/routes/stats.js:35-38 | the position of the group for a value, or none exactly when there is no such group |
| Groups.SumByAppend | server/routes/stats.js:51 | the total grows by the added group's count |
| Groups.SumByUpdate | server/routes/stats.js:51 | replacing a group changes the total by the difference |
| Groups.OccurrencesAppend | server/routes/stats.js:35-38 | one more value adds one to its own count only |
| Groups.CountsAfterAdd | server/routes/stats.js:35-38 | bumping the group of a value keeps every count right |
| Groups.KeysAfterAdd | server/routes/stats.js:35-38 | the keys stay exactly the values that occur |
| Groups.CountsAfterNew | server/routes/stats.js:35-38 | a new group of one keeps every count right |
| Groups.AddToNew | server/routes/stats.js:35-38 | a value not seen before opens a new group of one |
| Groups.AddToExisting | server/routes/stats.js:35-38 | a value seen before adds one to its group |
| Groups.GroupCountFacts | server/routes/stats.js:35-38 | about `Groups.GroupsOf`: the groups have distinct keys, are exactly the values that occur, each count its value's occurrences, and add up to the number of values |
| Groups.DistinctOnce | server/routes/stats.js:35-41 | with distinct keys no group occurs twice |
| Groups.DistinctKeysPermutation | server/routes/stats.js:40-42 | a reordering keeps the keys distinct |
| Groups.GroupsOfSorted | server/routes/stats.js:40-75 | a `$sort` stage leaves the groups of the same values |
| Groups.SortedGroupsFacts | server/routes/stats.js:30-43 | the sorted groups are the groups of the values, sorted by the key |
| Stats.CountWithRole | server/routes/stats.js:10-14 | a role count never exceeds the number of members |
| Stats.RoleStats | server/routes/stats.js:9-18 | `total` is the number of members and no role count exceeds it |
| Stats.Defined | server/routes/stats.js:32-65 | exactly the values that are present |
| Stats.DefinedAppend | server/routes/stats.js:32-65 | the present values keep their order |
| Stats.MajorStatsShape | server/routes/stats.js:30-51 | about `Stats.MajorStats`: one entry per distinct major counting its members, sorted by count descending; `total` is the number of members with a major |
| Stats.YearRank | server/models/Member.js:14-17 | the rank of an allowed class year is its position among the four; any other year sorts last |
| Stats.YearStatsShape | server/routes/stats.js:63-84 | about `Stats.YearStats`: one entry per distinct year counting its members, the allowed years in ascending order; `total` is the number of members with a year |
| Stats.MatchedStates | server/routes/stats.js:102-120 | exactly the states of the members matching the year, the role and a non-null state |
| Stats.CountsByState | server/routes/stats.js:131-134 | the loop yields one key per group, holding its count, and nothing else |
| Stats.HomeStates | server/routes/stats.js:98-136 | 400 exactly for a role outside the five; otherwise one count per distinct state among the matched members, each its number of occurrences, and `totalStates` the number of states |
| MapRoute.SafeLimit | server/routes/map.js:23-26 | never above 2000 and never 0; the default and an unreadable or zero limit give 500 |
| MapRoute.SafeLimitOfDecimal | server/routes/map.js:26 | a decimal n ≥ 1 gives min(n, 2000) |
| MapRoute.DefaultLimitAsText | server/routes/map.js:23-26 | an absent limit acts as the text "500" does |
| MapRoute.QueryOf | server/routes/map.js:22-45 | the query: the year when given, the role query, `None` exactly for a bad role, and coordinates required exactly when `hasCoords` is absent or exactly "true" |
| MapRoute.BuildQuery | server/routes/map.js:22-45 | the query assembled field by field is the one `QueryOf` states |
| MapRoute.Find | server/routes/map.js:47 | every document in the result matches and comes from the collection, every matching document is in it, and it is empty exactly when none matches |
| MapRoute.FindAppend | server/routes/map.js:47 | the matching documents keep their collection order |
| MapRoute.Limit | server/routes/map.js:49 | a prefix of the documents, no longer than the limit |
| MapRoute.Project | server/routes/map.js:53-67 | each point copies the member's fields; city, state, lat and lng are `null` when absent; the source defaults to "none" |
| MapRoute.Points | server/routes/map.js:52-68 | one point per document, in order |
| MapRoute.Hometowns | server/routes/map.js:17-74 | 400 exactly for a role outside the five; otherwise 200 with the points of the first matching documents up to the limit, in collection order, `count` their number, each from a member matching the year and role, with coordinates whenever they were required |
| MapRoute.PointsInQueryOrder | server/routes/map.js:47-68 | the points are the projections of the first matching documents, in query order |
| MapRoute.PointsComplete | server/routes/map.js:47-68 | when no more documents match than the limit allows, every matching member has its point |
| LegacyIndex.WithId | server/index.js:22-25 | the index is added as `id` unless the member has an `id` of its own, which wins |
| LegacyIndex.WithIds | server/index.js:22-25 | each member gets its own position as id |
| LegacyIndex.LowerName | server/index.js:29 | a missing or falsy name reads as ""; a string name is lower-cased; a truthy non-string name throws |
| LegacyIndex.LowerNameWithId | server/index.js:22-29 | adding the id does not change the name |
| LegacyIndex.NameFilter | server/index.js:29 | exactly the members whose lower-cased name contains the search |
| LegacyIndex.NameFilterAppend | server/index.js:29 | the filter keeps the original order |
| LegacyIndex.ListMembers | server/index.js:21-33 | a missing or empty search returns every member; otherwise exactly the members whose lower-cased name contains the lower-cased search; `count` is the number listed; 500 when a name throws |
| LegacyIndex.FirstWithId | server/index.js:41 | the first member whose id is strictly equal to the parameter, or none exactly when no member has it |
| LegacyIndex.GetMember | server/index.js:35-48 | the first member whose id equals the parameter, or 404 "Member not found" exactly when there is none |
| LegacyIndex.GetMemberByIndex | server/index.js:22-41 | without ids of their own, every member is found by the decimal text of its position |
| LegacyIndex.GetMemberUnknown | server/index.js:41-45 | without ids of their own, an id that is no position's text gives 404 |
| Js.ToLower | server/index.js:27 | `toLowerCase` keeps the length and lower-cases each ASCII letter |
| Js.Trim | server/utils/homeLocation.js:78 | `trim` gives a contiguous piece of the input with no whitespace at either end, and everything cut off at either end is whitespace |
| Js.TrimKeeps | server/utils/homeLocation.js:78 | text without whitespace at either end is its own trim |
| Js.TrimUnique | server/utils/homeLocation.js:78 | a piece with no whitespace at its ends and only whitespace around it is the trim, so the trim is exactly the text between the edge whitespace |
| Js.TrimLower | server/utils/homeLocation.js:85 | trimming and lower-casing commute |
| Js.CollapseSpaces | server/utils/homeLocation.js:79 | no longer than the input; its only whitespace is plain spaces, no two adjacent; it starts with whitespace exactly when the input does |
| Js.CollapseSpacesRuns | server/utils/homeLocation.js:79 | `replace(/\s+/g, " ")` equals the character-by-character rule: every maximal run of whitespace becomes one space and every other character is kept in order |
| Js.CollapseSpacesKeeps | server/utils/homeLocation.js:79 | text with single plain spaces is unchanged |
| Js.SpaceRunHeadsTrim | server/utils/homeLocation.js:79 | after whitespace, the rest collapses as if its leading whitespace were removed |
| Js.Split | server/utils/homeLocation.js:103 | `split` yields at least one part and no part holds the separator |
| Js.JoinSplit | server/utils/homeLocation.js:111-116 | joining the parts of a split restores the text |
| Js.SplitWithout | server/routes/birthdays.js:26 | text without the separator splits into itself |
| Js.SplitAtFirst | server/routes/birthdays.js:26 | a text with one separator splits into its two sides |
| Js.IncludesAt | server/index.js:29 | `includes` holds exactly when the pattern occurs at some position |
| Js.ParseInt | server/routes/members.js:63 | `parseInt(s, 10)` is `NaN` exactly when no digit follows the leading whitespace and the optional sign |
| Js.ParseIntOf | server/routes/map.js:26 | leading whitespace, an optional sign, digits and then anything not starting with a digit read as the value of the digits, negated after "-"; the rest is ignored |
| Js.ParseIntNaN | server/routes/birthdays.js:10 | whitespace and an optional sign followed by no digit give `NaN`; whitespace after the sign is not skipped |
| Js.NumberAsInteger | server/routes/birthdays.js:29-30 | `Number` of blank text is 0, and it is not an integer exactly when the trimmed text, after one optional sign, is empty or holds a non-digit |
| Js.NumberAsIntegerOf | server/routes/birthdays.js:29-30 | an optional sign and digits with whitespace on both sides read as the value of the digits, negated after "-" |
| Js.ParseIntOfNatToString | server/routes/members.js:63 | `parseInt` reads the decimal text of a number back as that number |
| Js.NatToStringInjective | server/index.js:23 | distinct indexes have distinct decimal texts |

## Left out

- Reading files and the network: the CSV file, the members JSON file, the
  database and HTTP. The city rows, member lists and stores are
  parameters, and replies are `Response` values.
- `parseFloat`, ObjectId validity, the `$regex` tests and bcrypt are
  function parameters with no interpretation. A password matches when
  hashing it gives the stored hash.
- Coordinates are `real` values carried unchanged; no arithmetic is done
  on them.
- Request query parameters and body fields are taken as strings or as
  absent. Express can also deliver an array for a repeated query key
  (`?search=a&search=b`) and any JSON value in a body. The routes then
  behave differently, and the model does not cover it:
  - `.trim()` on an array or a number throws, giving 500
    (members.js:9, posts.js:42).
  - A numeric `password` has no `length`, so it passes the length check
    (auth.js:19).
  - An object `email` becomes a query operator in `User.findOne`
    (auth.js:26).
- Whitespace and case folding are ASCII only. Full Unicode `\s` and
  `toLowerCase` are not modelled.
- The Promise memo of `getCityLookup` and all `async`/`await`
  interleaving: the cache is a class whose table is built synchronously on
  first use.
- The aggregation engine beyond `$match`, `$group` with `$sum: 1` and
  `$sort`. A `$sort` fixes one of the orders the database may return
  among ties, the stable one; the order of first appearance is kept
  within a tie.
- `$sort: {_id: 1}` on years compares strings; the model ranks the four
  allowed class years, which sort the same way, and puts any other year
  last.
- MapRoute.Limit: a negative `.limit(n)` is modelled as `|n|` documents
  in one batch; the driver's cursor batching is not.
- Dates: the clock is the parameter `today`, and days are counted with a
  Gregorian day-of-year function. Milliseconds, `Math.round` and daylight
  saving time are not modelled. A day past the end of its month runs on
  into the next month, as `new Date` does.
- Js.NumberAsInteger: `Number()` is modelled on optionally signed decimal
  integer text after trimming; "1.0", "1e1" and "0x1", which `Number`
  reads as integers, come out as not an integer here.
- Js.ParseInt: only base 10 is modelled, the base every caller passes.
- Birthdays.ParseBirthday: `Number()` is modelled on optionally signed
  decimal integer text after trimming; forms such as "1e1", "0x1" or
  "1.0" are not.
- The filter `{$ne: null, $ne: ""}` in birthdays.js keeps only its last
  key. The model drops empty birthdays in the map step, which gives the
  same list.
- Mongoose schema behaviour: defaults, unique indexes and setters.
  Documents are taken as stored.
- Seed.EnrichMembers: a home that is a truthy non-string makes `trim`
  throw, and the script then exits. The method requires readable homes
  instead of modelling the exit.
- Seed.EnrichMembers: a home of `false` or `0` is counted as missing, as in
  the script, but its record keeps `raw` as `null` where the script keeps
  `false` or `0`.
- Seed.EnrichMembers: the script's own copy of the state lookup
  (seedMembers.js:131) has the same inherited-property defect as the one
  under "## Findings"; there a home such as "Lyme __proto__" throws and the
  script exits before writing anything. The method uses the corrected
  lookup and leaves such a home unresolved.
- CityLookup.RowEntry: the CSV row handler (homeLocation.js:141-148, and
  its copy at seedMembers.js:197-204) throws on a state cell such as
  "__proto__" through the same inherited lookup. The model uses the
  corrected lookup and skips such a row.
- Auth.FindMemberByName: states the exact name match up to case that the
  comment at server/routes/auth.js:36 promises. The route
  puts the name into the pattern `^name$` unescaped, so a name holding
  regular-expression characters can link another member's record and an
  invalid pattern such as "(" answers 500. That lookup is modelled
  separately as `FindMemberByPattern`, with the regular expression as a
  parameter; invalid patterns are not modelled.
- PostsServer.PostStore.Create, PostsServer.PostStore.ToggleLike,
  PostsServer.PostStore.Delete and Similarity.SimilarMembers: ids are
  taken as canonical lower-case hexadecimal text. The routes cast ids to
  ObjectId, whose text is lower case, so an upper-case id that passes the
  validity check is stored or compared in another spelling; that is not
  modelled.
- Auth.AuthStore.Signup: a new member keeps only its name, email, class year
  and roles.
  The other fields are copied from the request unchanged and are not
  modelled. Neither are bcrypt's salt rounds or the user's generated id.
- PostsServer.PostStore: the generated post id is a parameter, and the
  store holds only the fields the routes read. The `GET` routes and
  comments are not modelled.
- PostsClient.CreatePost: `Date.now()` and `new Date()` are the parameters
  `now` and `createdAt`.
- `connectDB`, logging and `process.exit` are not modelled.
- The client UI, AuthContext and the client API wrappers are not modelled.
  The rules they check are enforced by the server routes modelled here.

## Findings

| source | as written | input that shows it | evidently intended | confidence | as-written member | corrected member |
|---|---|---|---|---|---|---|
| server/utils/homeLocation.js:87 | `STATE_TO_ABBR[s] \|\| null` also finds properties inherited from `Object.prototype`. A state key "__proto__" yields an object, so `cityStateKey` calls `toLowerCase` on a non-string and throws. | the home "Lyme __proto__" | only the table's own state names map to a code; any other key gives `null`, and the home stays unresolved | not executed | HomeLocation.ResolveAsWritten (exhibited by HomeLocation.ProtoHomeThrows) | HomeLocation.Resolve (proved by HomeLocation.ResolveRecord and HomeLocation.InheritedStateThrows) |
| server/routes/auth.js:38 | The signup name goes into the case-insensitive pattern `^name$` without escaping, so regular-expression characters in a name act as wildcards. | a member "John" and a signup with the name "J.hn": the new user is linked to John's record | the new user is linked only to a member whose name equals the given one up to case | not executed | Auth.FindMemberByPattern (exhibited by Auth.DotNameLinksOtherMember) | Auth.FindMemberByName (used by Auth.AuthStore.Signup) |
