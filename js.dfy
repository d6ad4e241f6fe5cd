/** The pieces of JavaScript's value and string semantics that the server code
    relies on: optional values, JSON documents, ASCII whitespace and case,
    `trim`, `split`, `join`, `includes`, `parseInt(s, 10)` and `Number(s)` on
    integer text. Whitespace and case folding are ASCII only. */
module Js {

  datatype Option<T> = None | Some(value: T)

  /** A JSON value as `JSON.parse` produces it; a missing key is `None`
      wherever a field is read. */
  datatype Json =
    | JNull
    | JBool(b: bool)
    | JNum(n: real)
    | JStr(s: string)
    | JArr(items: seq<Json>)
    | JObj(fields: map<string, Json>)

  /** JavaScript truthiness of an optional string: present and non-empty. */
  predicate Truthy(o: Option<string>) {
    o.Some? && o.value != ""
  }

  // ---------------------------------------------------------------------
  // Characters
  // ---------------------------------------------------------------------

  /** The ASCII members of the regular-expression class `\s`. */
  predicate IsSpace(c: char) {
    c == ' ' || c == '\t' || c == '\n' || c == '\r' || c == '\U{000B}' || c == '\U{000C}'
  }

  predicate IsDigit(c: char) {
    '0' <= c <= '9'
  }

  predicate IsUpperAscii(c: char) {
    'A' <= c <= 'Z'
  }

  predicate IsLowerAscii(c: char) {
    'a' <= c <= 'z'
  }

  /** The characters `\w` (and hence `\b`) treats as word characters. */
  predicate IsWordChar(c: char) {
    IsUpperAscii(c) || IsLowerAscii(c) || IsDigit(c) || c == '_'
  }

  function LowerChar(c: char): (r: char)
    ensures !IsUpperAscii(r)
    ensures IsUpperAscii(c) ==> IsLowerAscii(r)
    ensures !IsUpperAscii(c) ==> r == c
  {
    if IsUpperAscii(c) then (c as int + 32) as char else c
  }

  function UpperChar(c: char): (r: char)
    ensures !IsLowerAscii(r)
    ensures IsLowerAscii(c) ==> IsUpperAscii(r)
    ensures !IsLowerAscii(c) ==> r == c
  {
    if IsLowerAscii(c) then (c as int - 32) as char else c
  }

  // ---------------------------------------------------------------------
  // Case
  // ---------------------------------------------------------------------

  /** `s.toLowerCase()` on ASCII letters. */
  function ToLower(s: string): (r: string)
    ensures |r| == |s|
    ensures forall i :: 0 <= i < |s| ==> r[i] == LowerChar(s[i])
  {
    seq(|s|, i requires 0 <= i < |s| => LowerChar(s[i]))
  }

  /** `s.toUpperCase()` on ASCII letters. */
  function ToUpper(s: string): (r: string)
    ensures |r| == |s|
    ensures forall i :: 0 <= i < |s| ==> r[i] == UpperChar(s[i])
  {
    seq(|s|, i requires 0 <= i < |s| => UpperChar(s[i]))
  }

  /** Case-insensitive equality, as a `^...$` pattern with the `i` flag
      compares a literal name. */
  predicate EqualsIgnoreCase(a: string, b: string) {
    ToLower(a) == ToLower(b)
  }

  // ---------------------------------------------------------------------
  // Trimming and whitespace runs
  // ---------------------------------------------------------------------

  function TrimStart(s: string): (r: string)
    ensures |r| <= |s| && r == s[|s| - |r|..]
    ensures r == [] || !IsSpace(r[0])
    ensures forall i :: 0 <= i < |s| - |r| ==> IsSpace(s[i])
  {
    if |s| > 0 && IsSpace(s[0]) then TrimStart(s[1..]) else s
  }

  function TrimEnd(s: string): (r: string)
    ensures |r| <= |s| && r == s[..|r|]
    ensures r == [] || !IsSpace(r[|r| - 1])
    ensures forall i :: |r| <= i < |s| ==> IsSpace(s[i])
  {
    if |s| > 0 && IsSpace(s[|s| - 1]) then TrimEnd(s[..|s| - 1]) else s
  }

  /** Text made of whitespace only, read character by character. */
  predicate AllSpace(s: string) {
    s == [] || (IsSpace(s[0]) && AllSpace(s[1..]))
  }

  lemma {:induction false} AllSpaceAt(s: string)
    ensures AllSpace(s) <==> forall i :: 0 <= i < |s| ==> IsSpace(s[i])
  {
    if s != [] {
      AllSpaceAt(s[1..]);
      assert forall i :: 1 <= i < |s| ==> s[i] == s[1..][i - 1];
    }
  }

  /** `p` sits at position `k` of `s` with only whitespace before and
      after it. */
  predicate TrimmedAt(s: string, p: string, k: int) {
    OccursAt(s, p, k) && AllSpace(s[..k]) && AllSpace(s[k + |p|..])
  }

  /** `s.trim()`: the result is a contiguous piece of `s` with no whitespace
      at either end, and everything cut off before and after it is
      whitespace. These facts determine the result (`TrimUnique`). */
  function Trim(s: string): (r: string)
    ensures |r| <= |s|
    ensures r == [] || (!IsSpace(r[0]) && !IsSpace(r[|r| - 1]))
    ensures exists k :: OccursAt(s, r, k)
    ensures exists k :: TrimmedAt(s, r, k)
  {
    var t := TrimStart(s);
    var r := TrimEnd(t);
    TrimPiece(s, t, r);
    r
  }

  /** Cutting whitespace off the front (`t`) and then off the back (`r`)
      leaves one contiguous piece with only whitespace around it. */
  lemma TrimPiece(s: string, t: string, r: string)
    requires |t| <= |s| && t == s[|s| - |t|..]
    requires forall i :: 0 <= i < |s| - |t| ==> IsSpace(s[i])
    requires |r| <= |t| && r == t[..|r|]
    requires forall i :: |r| <= i < |t| ==> IsSpace(t[i])
    ensures TrimmedAt(s, r, |s| - |t|)
  {
    var k := |s| - |t|;
    assert s[k..k + |r|] == t[..|r|];
    forall i | k + |r| <= i < |s|
      ensures IsSpace(s[i])
    {
      assert s[i] == t[i - k];
    }
    AllSpaceAt(s[..k]);
    AllSpaceAt(s[k + |r|..]);
  }

  /** The trim is the only piece with those properties: a piece of `s`
      with no edge whitespace and only whitespace around it is `Trim(s)`. */
  lemma TrimUnique(s: string, k: nat, p: string)
    requires TrimmedAt(s, p, k)
    requires p == [] || (!IsSpace(p[0]) && !IsSpace(p[|p| - 1]))
    ensures Trim(s) == p
  {
    var r := Trim(s);
    var j :| TrimmedAt(s, r, j);
    PieceUnique(s, j, r, k, p);
  }

  /** Two pieces of `s` without edge whitespace and with only whitespace
      around them are the same piece. */
  lemma PieceUnique(s: string, j: int, r: string, k: int, p: string)
    requires TrimmedAt(s, r, j) && TrimmedAt(s, p, k)
    requires r == [] || (!IsSpace(r[0]) && !IsSpace(r[|r| - 1]))
    requires p == [] || (!IsSpace(p[0]) && !IsSpace(p[|p| - 1]))
    ensures r == p
  {
    AllSpaceAt(s[..j]);
    AllSpaceAt(s[j + |r|..]);
    AllSpaceAt(s[..k]);
    AllSpaceAt(s[k + |p|..]);
    assert forall i :: 0 <= i < j ==> IsSpace(s[..j][i]);
    assert forall i :: 0 <= i < k ==> IsSpace(s[..k][i]);
    forall i | j + |r| <= i < |s| ensures IsSpace(s[i]) {
      assert s[i] == s[j + |r|..][i - j - |r|];
    }
    forall i | k + |p| <= i < |s| ensures IsSpace(s[i]) {
      assert s[i] == s[k + |p|..][i - k - |p|];
    }
    if r != [] {
      assert s[j] == r[0] && s[j + |r| - 1] == r[|r| - 1];
    }
    if p != [] {
      assert s[k] == p[0] && s[k + |p| - 1] == p[|p| - 1];
    }
    if r != [] && p != [] {
      assert j == k && |r| == |p|;
      assert r == s[j..j + |r|];
    }
  }

  /** Text with no whitespace at either end is its own trim. */
  lemma TrimKeeps(s: string)
    requires s == [] || (!IsSpace(s[0]) && !IsSpace(s[|s| - 1]))
    ensures Trim(s) == s
  {
    assert TrimStart(s) == s;
    assert TrimEnd(s) == s;
  }

  /** Lower-casing keeps whitespace where it is, so it commutes with
      trimming. */
  lemma {:induction false} TrimStartLower(s: string)
    ensures ToLower(TrimStart(s)) == TrimStart(ToLower(s))
  {
    if |s| > 0 {
      assert ToLower(s)[1..] == ToLower(s[1..]);
      if IsSpace(s[0]) {
        TrimStartLower(s[1..]);
      }
    }
  }

  lemma {:induction false} TrimEndLower(s: string)
    ensures ToLower(TrimEnd(s)) == TrimEnd(ToLower(s))
  {
    if |s| > 0 {
      assert ToLower(s)[..|s| - 1] == ToLower(s[..|s| - 1]);
      if IsSpace(s[|s| - 1]) {
        TrimEndLower(s[..|s| - 1]);
      }
    }
  }

  lemma TrimLower(s: string)
    ensures ToLower(Trim(s)) == Trim(ToLower(s))
  {
    TrimStartLower(s);
    TrimEndLower(TrimStart(s));
  }

  /** The same rewrite read one character at a time: a character that is
      not whitespace is copied; a whitespace character becomes a space when
      the character before it was not whitespace, and is dropped when it
      was. */
  function SpaceRunHeads(s: string, afterSpace: bool): string {
    if s == [] then []
    else if !IsSpace(s[0]) then [s[0]] + SpaceRunHeads(s[1..], false)
    else if afterSpace then SpaceRunHeads(s[1..], true)
    else [' '] + SpaceRunHeads(s[1..], true)
  }

  /** Whitespace after whitespace is dropped, so a run's tail can be
      trimmed away first. */
  lemma {:induction false} SpaceRunHeadsTrim(s: string)
    ensures SpaceRunHeads(s, true) == SpaceRunHeads(TrimStart(s), false)
  {
    if s != [] && IsSpace(s[0]) {
      SpaceRunHeadsTrim(s[1..]);
    }
  }

  /** No two spaces stand next to each other in `s`. */
  predicate NoDoubleSpace(s: string) {
    forall i, j :: 0 <= i < |s| && j == i + 1 && j < |s| ==> !(s[i] == ' ' && s[j] == ' ')
  }

  /** `s.replace(/\s+/g, " ")`: every maximal run of whitespace becomes one
      space, which is the character-by-character rule of `SpaceRunHeads`
      (`CollapseSpacesRuns`). The result has no whitespace but single
      spaces. */
  function CollapseSpaces(s: string): (r: string)
    ensures |r| <= |s|
    ensures forall i :: 0 <= i < |r| && IsSpace(r[i]) ==> r[i] == ' '
    ensures NoDoubleSpace(r)
    ensures r != [] && s != [] ==> (IsSpace(r[0]) <==> IsSpace(s[0]))
  {
    if s == [] then []
    else if IsSpace(s[0]) then
      var tail := CollapseSpaces(TrimStart(s[1..]));
      assert tail != [] ==> !IsSpace(tail[0]);
      var r := [' '] + tail;
      assert forall i :: 1 <= i < |r| ==> r[i] == tail[i - 1];
      r
    else
      var tail := CollapseSpaces(s[1..]);
      var r := [s[0]] + tail;
      assert forall i :: 1 <= i < |r| ==> r[i] == tail[i - 1];
      r
  }

  lemma {:induction false} CollapseSpacesRuns(s: string)
    ensures CollapseSpaces(s) == SpaceRunHeads(s, false)
    decreases |s|
  {
    if s != [] {
      if IsSpace(s[0]) {
        CollapseSpacesRuns(TrimStart(s[1..]));
        SpaceRunHeadsTrim(s[1..]);
      } else {
        CollapseSpacesRuns(s[1..]);
      }
    }
  }

  /** Text whose only whitespace is single spaces is left unchanged. */
  lemma {:induction false} CollapseSpacesKeeps(s: string)
    requires forall i :: 0 <= i < |s| && IsSpace(s[i]) ==> s[i] == ' '
    requires NoDoubleSpace(s)
    ensures CollapseSpaces(s) == s
  {
    if s != [] {
      CollapseSpacesKeeps(s[1..]);
      if IsSpace(s[0]) {
        assert TrimStart(s[1..]) == s[1..];
      }
    }
  }

  // ---------------------------------------------------------------------
  // split / join / filter(Boolean)
  // ---------------------------------------------------------------------

  /** `s.split(sep)` for a one-character separator. */
  function Split(s: string, sep: char): (r: seq<string>)
    ensures |r| >= 1
    ensures forall i :: 0 <= i < |r| ==> sep !in r[i]
  {
    if s == [] then [[]]
    else
      var rest := Split(s[1..], sep);
      if s[0] == sep then [[]] + rest
      else [[s[0]] + rest[0]] + rest[1..]
  }

  /** `parts.join(sep)` for a one-character separator. */
  function Join(parts: seq<string>, sep: char): string {
    if parts == [] then []
    else if |parts| == 1 then parts[0]
    else parts[0] + [sep] + Join(parts[1..], sep)
  }

  /** Splitting and joining again on the same character gives back the
      original text. */
  lemma {:induction false} JoinSplit(s: string, sep: char)
    ensures Join(Split(s, sep), sep) == s
  {
    if s != [] {
      var rest := Split(s[1..], sep);
      JoinSplit(s[1..], sep);
      if s[0] == sep {
        assert Split(s, sep) == [[]] + rest;
      } else {
        assert Split(s, sep) == [[s[0]] + rest[0]] + rest[1..];
        if |rest| == 1 {
          assert Join(rest, sep) == rest[0];
        } else {
          assert Join(rest, sep) == rest[0] + [sep] + Join(rest[1..], sep);
          assert ([[s[0]] + rest[0]] + rest[1..])[1..] == rest[1..];
        }
      }
    }
  }

  /** Text without the separator splits into itself alone. */
  lemma {:induction false} SplitWithout(s: string, sep: char)
    requires sep !in s
    ensures Split(s, sep) == [s]
  {
    if s != [] {
      SplitWithout(s[1..], sep);
      assert [s[0]] + s[1..] == s;
    }
  }

  /** Splitting at the first separator: the text before it, then the split
      of the rest. */
  lemma {:induction false} SplitAtFirst(a: string, b: string, sep: char)
    requires sep !in a
    ensures Split(a + [sep] + b, sep) == [a] + Split(b, sep)
  {
    if a == [] {
      assert (a + [sep] + b)[1..] == b;
    } else {
      var s := a + [sep] + b;
      assert s[0] == a[0] && s[1..] == a[1..] + [sep] + b;
      SplitAtFirst(a[1..], b, sep);
      var rest := Split(s[1..], sep);
      assert rest[0] == a[1..] && rest[1..] == Split(b, sep);
      assert [a[0]] + a[1..] == a;
    }
  }

  /** `.filter(Boolean)` on strings: drop the empty ones, keep the order. */
  function NonEmpty(parts: seq<string>): (r: seq<string>)
    ensures |r| <= |parts|
    ensures forall i :: 0 <= i < |r| ==> r[i] != [] && r[i] in parts
    ensures forall p :: p in parts && p != [] ==> p in r
  {
    if parts == [] then []
    else if parts[0] == [] then NonEmpty(parts[1..])
    else [parts[0]] + NonEmpty(parts[1..])
  }

  /** `.map((p) => p.trim())`. */
  function TrimAll(parts: seq<string>): (r: seq<string>)
    ensures |r| == |parts|
    ensures forall i :: 0 <= i < |r| ==> r[i] == Trim(parts[i])
  {
    seq(|parts|, i requires 0 <= i < |parts| => Trim(parts[i]))
  }

  // ---------------------------------------------------------------------
  // includes
  // ---------------------------------------------------------------------

  predicate StartsWith(s: string, p: string) {
    |p| <= |s| && s[..|p|] == p
  }

  /** `p` occurs in `s` starting at position `k`. */
  predicate OccursAt(s: string, p: string, k: int) {
    0 <= k <= |s| - |p| && s[k..k + |p|] == p
  }

  /** `s.includes(p)`. */
  predicate Includes(s: string, p: string)
    decreases |s|
  {
    StartsWith(s, p) || (s != [] && Includes(s[1..], p))
  }

  /** `includes` holds exactly when `p` occurs at some position of `s`. */
  lemma {:induction false} IncludesAt(s: string, p: string)
    ensures Includes(s, p) <==> exists k :: OccursAt(s, p, k)
  {
    if s == [] {
      if Includes(s, p) {
        assert OccursAt(s, p, 0);
      }
    } else {
      IncludesAt(s[1..], p);
      if StartsWith(s, p) {
        assert OccursAt(s, p, 0);
      }
      if Includes(s[1..], p) {
        var k :| OccursAt(s[1..], p, k);
        assert s[k + 1..k + 1 + |p|] == s[1..][k..k + |p|];
        assert OccursAt(s, p, k + 1);
      }
      if exists k :: OccursAt(s, p, k) {
        var k :| OccursAt(s, p, k);
        if k > 0 {
          assert s[1..][k - 1..k - 1 + |p|] == s[k..k + |p|];
          assert OccursAt(s[1..], p, k - 1);
        } else {
          assert StartsWith(s, p);
        }
      }
    }
  }

  lemma EmptyIncluded(s: string)
    ensures Includes(s, "")
  {
  }

  // ---------------------------------------------------------------------
  // Decimal numbers
  // ---------------------------------------------------------------------

  predicate AllDigits(s: string) {
    forall i :: 0 <= i < |s| ==> IsDigit(s[i])
  }

  /** The value of a string of decimal digits. */
  function DecimalValue(ds: string): (n: nat)
    requires AllDigits(ds)
  {
    if ds == [] then 0
    else DecimalValue(ds[..|ds| - 1]) * 10 + (ds[|ds| - 1] as int - '0' as int)
  }

  /** The longest prefix of `s` made of decimal digits. */
  function DigitPrefix(s: string): (r: string)
    ensures AllDigits(r) && |r| <= |s| && r == s[..|r|]
    ensures |r| < |s| ==> !IsDigit(s[|r|])
  {
    if s != [] && IsDigit(s[0]) then [s[0]] + DigitPrefix(s[1..]) else []
  }

  /** The text after one leading sign character, if there is one. */
  function Unsigned(t: string): (b: string)
    ensures |b| <= |t| && b == t[|t| - |b|..]
  {
    if |t| > 0 && (t[0] == '-' || t[0] == '+') then t[1..] else t
  }

  /** `parseInt(s, 10)`: skip leading whitespace, an optional sign, then the
      longest run of digits; `None` is `NaN` (no digit at all).
      `ParseIntOf` and `ParseIntNaN` give the result by the shape of `s`. */
  function ParseInt(s: string): (r: Option<int>)
    ensures r.None? <==> Unsigned(TrimStart(s)) == [] || !IsDigit(Unsigned(TrimStart(s))[0])
  {
    ParseSigned(TrimStart(s))
  }

  /** `parseInt` once the leading whitespace is gone. */
  function ParseSigned(t: string): (r: Option<int>)
    ensures r.None? <==> Unsigned(t) == [] || !IsDigit(Unsigned(t)[0])
  {
    var digits := DigitPrefix(Unsigned(t));
    if digits == [] then None
    else
      var v: int := DecimalValue(digits);
      Some(if |t| > 0 && t[0] == '-' then -v else v)
  }

  /** `Math.min(x, y)` on numbers that are not `NaN`. */
  function Min(x: int, y: int): int {
    if x <= y then x else y
  }

  /** `Number(s)` on integer text, paired with `Number.isInteger`: surrounding
      whitespace is ignored, blank text is 0, otherwise an optional sign and
      one or more digits; `None` stands for every other outcome.
      `NumberAsIntegerOf` gives the value by the shape of `s`. */
  function NumberAsInteger(s: string): (r: Option<int>)
    ensures Trim(s) == [] ==> r == Some(0)
    ensures r.None? <==> Trim(s) != [] && (Unsigned(Trim(s)) == [] || !AllDigits(Unsigned(Trim(s))))
  {
    NumberText(Trim(s))
  }

  /** `Number` once the surrounding whitespace is gone. */
  function NumberText(t: string): (r: Option<int>)
    ensures t == [] ==> r == Some(0)
    ensures r.None? <==> t != [] && (Unsigned(t) == [] || !AllDigits(Unsigned(t)))
  {
    if t == [] then Some(0)
    else if Unsigned(t) != [] && AllDigits(Unsigned(t)) then
      var v: int := DecimalValue(Unsigned(t));
      Some(if t[0] == '-' then -v else v)
    else None
  }

  /** Whitespace before text that does not start with whitespace is what
      `trimStart` removes. */
  lemma {:induction false} TrimStartAfterSpace(w: string, x: string)
    requires AllSpace(w)
    requires x == [] || !IsSpace(x[0])
    ensures TrimStart(w + x) == x
  {
    if w == [] {
      assert w + x == x;
    } else {
      var s := w + x;
      assert s[0] == w[0] && s[1..] == w[1..] + x;
      TrimStartAfterSpace(w[1..], x);
    }
  }

  /** The digit prefix of digits followed by text that does not start with
      a digit is those digits. */
  lemma {:induction false} DigitPrefixOf(ds: string, rest: string)
    requires AllDigits(ds)
    requires rest == [] || !IsDigit(rest[0])
    ensures DigitPrefix(ds + rest) == ds
  {
    if ds == [] {
      assert ds + rest == rest;
    } else {
      var s := ds + rest;
      assert s[0] == ds[0] && IsDigit(s[0]) && s[1..] == ds[1..] + rest;
      DigitPrefixOf(ds[1..], rest);
      assert ds == [ds[0]] + ds[1..];
    }
  }

  lemma Regroup3(a: string, b: string, c: string)
    ensures a + b + c == a + (b + c)
  {
  }

  lemma Regroup(a: string, b: string, c: string, d: string)
    ensures a + b + c + d == a + (b + c + d)
  {
  }

  /** `parseInt` skips the whitespace in front of the number. */
  lemma ParseIntAfterSpace(w: string, x: string)
    requires AllSpace(w)
    requires x == [] || !IsSpace(x[0])
    ensures ParseInt(w + x) == ParseSigned(x)
  {
    TrimStartAfterSpace(w, x);
  }

  /** `ParseSigned` on an optional sign, digits and then anything that does
      not start with a digit. */
  lemma ParseSignedOf(sign: string, ds: string, rest: string)
    requires sign == "" || sign == "+" || sign == "-"
    requires ds != [] && AllDigits(ds)
    requires rest == [] || !IsDigit(rest[0])
    ensures var v: int := DecimalValue(ds); ParseSigned(sign + ds + rest) == Some(if sign == "-" then -v else v)
  {
    SignedDigitsOf(sign, ds, rest);
    ParseSignedDigits(sign + ds + rest, ds, sign == "-");
  }

  /** After an optional sign, digits followed by a non-digit are the digit
      prefix. */
  lemma SignedDigitsOf(sign: string, ds: string, rest: string)
    requires sign == "" || sign == "+" || sign == "-"
    requires ds != [] && AllDigits(ds)
    requires rest == [] || !IsDigit(rest[0])
    ensures DigitPrefix(Unsigned(sign + ds + rest)) == ds
    ensures (sign + ds + rest)[0] == '-' <==> sign == "-"
  {
    var y := ds + rest;
    Regroup3(sign, ds, rest);
    assert y[0] == ds[0];
    SignOf(sign, y);
    DigitPrefixOf(ds, rest);
  }

  /** When digits follow the optional sign, `ParseSigned` is their value,
      negated after a minus sign. */
  lemma ParseSignedDigits(t: string, ds: string, negative: bool)
    requires DigitPrefix(Unsigned(t)) == ds && ds != []
    requires t[0] == '-' <==> negative
    ensures var v: int := DecimalValue(ds); ParseSigned(t) == Some(if negative then -v else v)
  {
  }

  /** One optional sign in front of text that starts with a digit. */
  lemma SignOf(sign: string, y: string)
    requires sign == "" || sign == "+" || sign == "-"
    requires y != [] && IsDigit(y[0])
    ensures Unsigned(sign + y) == y
    ensures (sign + y)[0] == '-' <==> sign == "-"
  {
    var x := sign + y;
    if sign == "" {
      assert x == y;
    } else {
      assert x[0] == sign[0] && x[1..] == y;
    }
  }

  /** `parseInt` on leading whitespace, an optional sign, digits and then
      anything that does not start with a digit: the value of the digits,
      negated after a minus sign; what follows the digits is ignored. */
  lemma ParseIntOf(w: string, sign: string, ds: string, rest: string)
    requires AllSpace(w)
    requires sign == "" || sign == "+" || sign == "-"
    requires ds != [] && AllDigits(ds)
    requires rest == [] || !IsDigit(rest[0])
    ensures var v: int := DecimalValue(ds); ParseInt(w + sign + ds + rest) == Some(if sign == "-" then -v else v)
  {
    var x := sign + ds + rest;
    Regroup(w, sign, ds, rest);
    assert x[0] == if sign == "" then ds[0] else sign[0];
    ParseIntAfterSpace(w, x);
    ParseSignedOf(sign, ds, rest);
  }

  /** `ParseSigned` is `NaN` when no digit follows the optional sign. */
  lemma ParseSignedNaN(sign: string, rest: string)
    requires sign == "" || sign == "+" || sign == "-"
    requires rest == [] || !IsDigit(rest[0])
    requires sign == "" && rest != [] ==> rest[0] != '+' && rest[0] != '-'
    ensures ParseSigned(sign + rest) == None
  {
    var x := sign + rest;
    if sign == "" {
      assert x == rest;
    } else {
      assert x[0] == sign[0] && x[1..] == rest;
    }
    assert Unsigned(x) == rest;
  }

  /** `parseInt` is `NaN` when no digit follows the leading whitespace and
      the optional sign; whitespace after a sign is not skipped. */
  lemma ParseIntNaN(w: string, sign: string, rest: string)
    requires AllSpace(w)
    requires sign == "" || sign == "+" || sign == "-"
    requires rest == [] || !IsDigit(rest[0])
    requires sign == "" && rest != [] ==> !IsSpace(rest[0]) && rest[0] != '+' && rest[0] != '-'
    ensures ParseInt(w + sign + rest) == None
  {
    var x := sign + rest;
    Regroup3(w, sign, rest);
    assert x == [] || x[0] == if sign == "" then rest[0] else sign[0];
    ParseIntAfterSpace(w, x);
    ParseSignedNaN(sign, rest);
  }

  /** `Number` on an optional sign and digits, with whitespace around them:
      the value of the digits, negated after a minus sign. */
  lemma NumberAsIntegerOf(w1: string, sign: string, ds: string, w2: string)
    requires AllSpace(w1) && AllSpace(w2)
    requires sign == "" || sign == "+" || sign == "-"
    requires ds != [] && AllDigits(ds)
    ensures var v: int := DecimalValue(ds); NumberAsInteger(w1 + sign + ds + w2) == Some(if sign == "-" then -v else v)
  {
    var x := sign + ds;
    Regroup(w1, sign, ds, w2);
    assert x[0] == if sign == "" then ds[0] else sign[0];
    assert x[|x| - 1] == ds[|ds| - 1];
    TrimAround(w1, x, w2);
    NumberTextOf(sign, ds);
  }

  /** `trim` removes exactly the whitespace around text whose ends are not
      whitespace. */
  lemma TrimAround(w1: string, x: string, w2: string)
    requires AllSpace(w1) && AllSpace(w2)
    requires x == [] || (!IsSpace(x[0]) && !IsSpace(x[|x| - 1]))
    ensures Trim(w1 + (x + w2)) == x
  {
    TrimmedBetween(w1, x, w2);
    TrimUnique(w1 + (x + w2), |w1|, x);
  }

  lemma TrimmedBetween(w1: string, x: string, w2: string)
    requires AllSpace(w1) && AllSpace(w2)
    ensures TrimmedAt(w1 + (x + w2), x, |w1|)
  {
    ConcatFront(w1, x, w2);
    ConcatMiddle(w1, x, w2);
    ConcatBack(w1, x, w2);
  }

  lemma ConcatFront(a: string, b: string, c: string)
    ensures (a + (b + c))[..|a|] == a
  {
  }

  lemma ConcatMiddle(a: string, b: string, c: string)
    ensures (a + (b + c))[|a|..|a| + |b|] == b
  {
  }

  lemma ConcatBack(a: string, b: string, c: string)
    ensures (a + (b + c))[|a| + |b|..] == c
  {
  }

  /** `NumberText` on an optional sign and digits. */
  lemma NumberTextOf(sign: string, ds: string)
    requires sign == "" || sign == "+" || sign == "-"
    requires ds != [] && AllDigits(ds)
    ensures var v: int := DecimalValue(ds); NumberText(sign + ds) == Some(if sign == "-" then -v else v)
  {
    SignOf(sign, ds);
    NumberTextDigits(sign + ds, ds, sign == "-");
  }

  /** When only digits follow the optional sign, `NumberText` is their
      value, negated after a minus sign. */
  lemma NumberTextDigits(t: string, ds: string, negative: bool)
    requires t != [] && Unsigned(t) == ds && ds != [] && AllDigits(ds)
    requires t[0] == '-' <==> negative
    ensures var v: int := DecimalValue(ds); NumberText(t) == Some(if negative then -v else v)
  {
  }

  function DigitChar(d: nat): (c: char)
    requires d < 10
    ensures IsDigit(c) && c as int - '0' as int == d
  {
    ('0' as int + d) as char
  }

  /** `n.toString()` for a natural number. */
  function NatToString(n: nat): (s: string)
    ensures |s| >= 1 && AllDigits(s)
  {
    if n < 10 then [DigitChar(n)] else NatToString(n / 10) + [DigitChar(n % 10)]
  }

  lemma {:induction false} DecimalOfNatToString(n: nat)
    ensures DecimalValue(NatToString(n)) == n
  {
    var s := NatToString(n);
    if n < 10 {
      assert s[..|s| - 1] == [];
    } else {
      DecimalOfNatToString(n / 10);
      assert s[..|s| - 1] == NatToString(n / 10);
    }
  }

  lemma AllDigitsPrefix(s: string)
    requires AllDigits(s)
    ensures DigitPrefix(s) == s
  {
  }

  /** `parseInt` reads back what `toString` wrote: decimal ids round-trip. */
  lemma ParseIntOfNatToString(n: nat)
    ensures ParseInt(NatToString(n)) == Some(n)
  {
    var s := NatToString(n);
    assert !IsSpace(s[0]);
    assert TrimStart(s) == s;
    assert s[0] != '-' && s[0] != '+';
    AllDigitsPrefix(s);
    DecimalOfNatToString(n);
  }

  /** Distinct indexes have distinct decimal strings. */
  lemma NatToStringInjective(a: nat, b: nat)
    requires NatToString(a) == NatToString(b)
    ensures a == b
  {
    ParseIntOfNatToString(a);
    ParseIntOfNatToString(b);
  }
}
