/** The prefix and fuzzy patterns on a JSON subfield that bypass the index's own query parser. */
module SpecialQuery {
  import opened Wrappers
  import Keys

  /** The term query to build: a path inside the document, a lowercased token and, for fuzzy, a distance. */
  datatype Special = PrefixQuery(path: string, token: string) | FuzzyQuery(path: string, token: string, distance: nat)

  const DOCUMENT := "document."

  predicate IsWhitespace(c: char) {
    '\U{9}' <= c <= '\U{D}' || c == ' ' || c == '\U{85}' || c == '\U{A0}' || c == '\U{1680}' ||
    '\U{2000}' <= c <= '\U{200A}' || c == '\U{2028}' || c == '\U{2029}' || c == '\U{202F}' ||
    c == '\U{205F}' || c == '\U{3000}'
  }

  function Trim(s: string): string
    decreases |s|
  {
    if s == "" then ""
    else if IsWhitespace(s[0]) then Trim(s[1..])
    else if IsWhitespace(s[|s| - 1]) then Trim(s[..|s| - 1])
    else s
  }

  /** `find`. */
  function FirstIndex(s: string, c: char): (r: Option<nat>)
    ensures r.Some? ==> r.value < |s| && s[r.value] == c
  {
    if s == "" then None
    else if s[0] == c then Some(0)
    else match FirstIndex(s[1..], c) case None => None case Some(i) => Some(i + 1)
  }

  /** `rfind`. */
  function LastIndex(s: string, c: char): (r: Option<nat>)
    ensures r.Some? ==> r.value < |s| && s[r.value] == c
    decreases |s|
  {
    if s == "" then None
    else if s[|s| - 1] == c then Some(|s| - 1)
    else LastIndex(s[..|s| - 1], c)
  }

  predicate IsCompound(s: string) {
    ' ' in s || '(' in s || '"' in s
  }

  function RecogniseValue(path: string, value: string, lower: string -> string): Option<Special> {
    if value != "" && value[|value| - 1] == '*' && |value| > 1 && '*' !in value[..|value| - 1] then
      Some(PrefixQuery(path, lower(value[..|value| - 1])))
    else
      match LastIndex(value, '~')
      case None => None
      case Some(i) =>
        var distance := Keys.ParseU8(value[i + 1..]);
        if i > 0 && '~' !in value[..i] && distance.Some? && distance.value <= 2 then
          Some(FuzzyQuery(path, lower(value[..i]), distance.value))
        else
          None
  }

  /** `try_build_json_special_query`; full Unicode lowercasing is a parameter. */
  function Recognise(query: string, lower: string -> string): Option<Special> {
    var trimmed := Trim(query);
    if IsCompound(trimmed) then None
    else
      match FirstIndex(trimmed, ':')
      case None => None
      case Some(i) =>
        if DOCUMENT <= trimmed[..i]
        then RecogniseValue(trimmed[..i][|DOCUMENT|..], trimmed[i + 1..], lower)
        else None
  }

  // ------------------------------------------------------------------------
  // The grammar
  // ------------------------------------------------------------------------

  function Clause(path: string, value: string): string {
    "document." + path + ":" + value
  }

  /** A single clause on one path: no blank, no parenthesis and no quote. */
  predicate IsClause(s: string, path: string, value: string) {
    s == Clause(path, value) && ':' !in path && ' ' !in s && '(' !in s && '"' !in s
  }

  /** The value pattern `token*`. */
  predicate IsPrefixPattern(value: string, token: string) {
    value == token + "*" && token != "" && '*' !in token
  }

  /** The value pattern `token~N` with N a spelling of a distance up to 2. */
  ghost predicate IsFuzzyPattern(value: string, token: string, numeral: string, distance: nat) {
    value == token + "~" + numeral && token != "" && '~' !in token && distance <= 2 &&
    (Keys.Spells(numeral, distance) || (numeral != "" && numeral[0] == '+' && Keys.Spells(numeral[1..], distance)))
  }

  /** The query is the text with white space around it. */
  ghost predicate Padded(query: string, s: string) {
    exists i: nat, j: nat :: PaddedAt(query, s, i, j)
  }

  predicate PaddedAt(query: string, s: string, i: nat, j: nat) {
    i <= j <= |query| && s == query[i..j] &&
    (forall k :: 0 <= k < i ==> IsWhitespace(query[k])) && (forall k :: j <= k < |query| ==> IsWhitespace(query[k]))
  }

  /** The text neither begins nor ends with white space. */
  predicate Bare(s: string) {
    s != "" ==> !IsWhitespace(s[0]) && !IsWhitespace(s[|s| - 1])
  }

  // ------------------------------------------------------------------------
  // Trimming
  // ------------------------------------------------------------------------

  lemma {:induction false} TrimIsBare(query: string)
    ensures Padded(query, Trim(query)) && Bare(Trim(query))
    decreases |query|
  {
    if query == "" {
      assert PaddedAt(query, "", 0, 0);
    } else if IsWhitespace(query[0]) {
      TrimIsBare(query[1..]);
      var i: nat, j: nat :| PaddedAt(query[1..], Trim(query[1..]), i, j);
      assert PaddedAt(query, Trim(query), i + 1, j + 1);
    } else if IsWhitespace(query[|query| - 1]) {
      TrimIsBare(query[..|query| - 1]);
      var i: nat, j: nat :| PaddedAt(query[..|query| - 1], Trim(query[..|query| - 1]), i, j);
      assert PaddedAt(query, Trim(query), i, j);
    } else {
      assert PaddedAt(query, query, 0, |query|);
    }
  }

  lemma PaddedOnce(query: string, s: string, t: string)
    requires Padded(query, s) && Bare(s) && Padded(query, t) && Bare(t)
    ensures s == t
  {
    var i: nat, j: nat :| PaddedAt(query, s, i, j);
    var k: nat, l: nat :| PaddedAt(query, t, k, l);
    if s != "" {
      assert s[0] == query[i] && s[|s| - 1] == query[j - 1];
    }
    if t != "" {
      assert t[0] == query[k] && t[|t| - 1] == query[l - 1];
    }
  }

  /** Trimming takes away all the white space around the text and nothing else. */
  lemma TrimIff(query: string, s: string)
    ensures Trim(query) == s <==> Padded(query, s) && Bare(s)
  {
    TrimIsBare(query);
    if Padded(query, s) && Bare(s) {
      PaddedOnce(query, s, Trim(query));
    }
  }

  // ------------------------------------------------------------------------
  // Searching strings
  // ------------------------------------------------------------------------

  lemma {:induction false} FirstIndexOf(head: string, c: char, rest: string)
    requires c !in head
    ensures FirstIndex(head + [c] + rest, c) == Some(|head|)
  {
    var s := head + [c] + rest;
    if head != "" {
      assert s[1..] == head[1..] + [c] + rest;
      FirstIndexOf(head[1..], c, rest);
    }
  }

  lemma {:induction false} FirstIndexSplits(s: string, c: char)
    ensures match FirstIndex(s, c)
            case None => c !in s
            case Some(i) => i < |s| && s == s[..i] + [c] + s[i + 1..] && c !in s[..i]
  {
    if s != "" && s[0] != c {
      FirstIndexSplits(s[1..], c);
      match FirstIndex(s[1..], c)
      case None =>
        assert s == [s[0]] + s[1..];
      case Some(i) =>
        assert s[..i + 1] == [s[0]] + s[1..][..i];
    }
  }

  lemma {:induction false} LastIndexOf(front: string, c: char, tail: string)
    requires c !in tail
    ensures LastIndex(front + [c] + tail, c) == Some(|front|)
    decreases |tail|
  {
    var s := front + [c] + tail;
    if tail != "" {
      var t := tail[..|tail| - 1];
      assert s[..|s| - 1] == front + [c] + t;
      LastIndexOf(front, c, t);
    }
  }

  lemma {:induction false} LastIndexSplits(s: string, c: char)
    ensures match LastIndex(s, c)
            case None => c !in s
            case Some(i) => i < |s| && s == s[..i] + [c] + s[i + 1..]
    decreases |s|
  {
    if s != "" && s[|s| - 1] != c {
      LastIndexSplits(s[..|s| - 1], c);
      assert s == s[..|s| - 1] + [s[|s| - 1]];
    }
  }

  lemma NumeralShape(s: string)
    requires Keys.ParseU8(s).Some?
    ensures s != "" && '0' <= s[|s| - 1] <= '9' && '~' !in s
  {
    if s[0] == '+' {
      Keys.DigitsOnly(s[1..]);
      assert s == [s[0]] + s[1..];
    } else {
      Keys.DigitsOnly(s);
    }
  }

  // ------------------------------------------------------------------------
  // Recognition is exactly the grammar
  // ------------------------------------------------------------------------

  /** The path and value of a clause are the recogniser's. */
  lemma ClauseIsSplit(s: string, path: string, value: string)
    ensures IsClause(s, path, value) <==>
            !IsCompound(s) && FirstIndex(s, ':').Some? &&
            var i := FirstIndex(s, ':').value;
            DOCUMENT <= s[..i] && path == s[..i][|DOCUMENT|..] && value == s[i + 1..]
  {
    FirstIndexSplits(s, ':');
    if IsClause(s, path, value) {
      var head := DOCUMENT + path;
      assert s == head + [':'] + value;
      FirstIndexOf(head, ':', value);
      assert s[..|head|] == head;
    }
    if FirstIndex(s, ':').Some? {
      var i := FirstIndex(s, ':').value;
      if DOCUMENT <= s[..i] && path == s[..i][|DOCUMENT|..] && value == s[i + 1..] {
        assert s[..i] == DOCUMENT + path;
        assert s == DOCUMENT + path + ":" + value;
      }
    }
  }

  lemma PrefixValues(path: string, value: string, lower: string -> string, q: Special)
    requires q.PrefixQuery?
    ensures RecogniseValue(path, value, lower) == Some(q) <==>
            q.path == path && exists token :: IsPrefixPattern(value, token) && q.token == lower(token)
  {
    if exists token :: IsPrefixPattern(value, token) && q.token == lower(token) {
      var token :| IsPrefixPattern(value, token) && q.token == lower(token);
      assert value[..|value| - 1] == token;
    }
    if RecogniseValue(path, value, lower) == Some(q) {
      assert IsPrefixPattern(value, value[..|value| - 1]);
    }
  }

  lemma FuzzyPatternIsRecognised(
      path: string, value: string, token: string, numeral: string, distance: nat, lower: string -> string)
    requires IsFuzzyPattern(value, token, numeral, distance)
    ensures RecogniseValue(path, value, lower) == Some(FuzzyQuery(path, lower(token), distance))
  {
    Keys.ParseU8Iff(numeral, distance);
    NumeralShape(numeral);
    assert value == token + ['~'] + numeral;
    LastIndexOf(token, '~', numeral);
    assert value[..|token|] == token && value[|token| + 1..] == numeral;
    assert value[|value| - 1] == numeral[|numeral| - 1];
  }

  lemma FuzzyValues(path: string, value: string, lower: string -> string, q: Special)
    requires q.FuzzyQuery?
    ensures RecogniseValue(path, value, lower) == Some(q) <==>
            q.path == path &&
            exists token, numeral :: IsFuzzyPattern(value, token, numeral, q.distance) && q.token == lower(token)
  {
    if exists token, numeral :: IsFuzzyPattern(value, token, numeral, q.distance) && q.token == lower(token) {
      var token, numeral :| IsFuzzyPattern(value, token, numeral, q.distance) && q.token == lower(token);
      FuzzyPatternIsRecognised(path, value, token, numeral, q.distance, lower);
    }
    if RecogniseValue(path, value, lower) == Some(q) {
      LastIndexSplits(value, '~');
      var i := LastIndex(value, '~').value;
      assert value == value[..i] + "~" + value[i + 1..];
      Keys.ParseU8Iff(value[i + 1..], q.distance);
      assert IsFuzzyPattern(value, value[..i], value[i + 1..], q.distance);
    }
  }

  lemma TrimmedPrefixQueries(query: string, lower: string -> string, q: Special)
    requires q.PrefixQuery?
    ensures Recognise(query, lower) == Some(q) <==>
            exists value, token ::
              IsClause(Trim(query), q.path, value) && IsPrefixPattern(value, token) && q.token == lower(token)
  {
    var s := Trim(query);
    forall path, value
      ensures IsClause(s, path, value) ==> Recognise(query, lower) == RecogniseValue(path, value, lower)
    {
      ClauseIsSplit(s, path, value);
    }
    if Recognise(query, lower) == Some(q) {
      var i := FirstIndex(s, ':').value;
      ClauseIsSplit(s, s[..i][|DOCUMENT|..], s[i + 1..]);
      PrefixValues(s[..i][|DOCUMENT|..], s[i + 1..], lower, q);
    }
    if exists value, token ::
         IsClause(s, q.path, value) && IsPrefixPattern(value, token) && q.token == lower(token) {
      var value, token :| IsClause(s, q.path, value) && IsPrefixPattern(value, token) && q.token == lower(token);
      PrefixValues(q.path, value, lower, q);
    }
  }

  lemma TrimmedFuzzyQueries(query: string, lower: string -> string, q: Special)
    requires q.FuzzyQuery?
    ensures Recognise(query, lower) == Some(q) <==>
            exists value, token, numeral ::
              IsClause(Trim(query), q.path, value) && IsFuzzyPattern(value, token, numeral, q.distance) &&
              q.token == lower(token)
  {
    var s := Trim(query);
    forall path, value
      ensures IsClause(s, path, value) ==> Recognise(query, lower) == RecogniseValue(path, value, lower)
    {
      ClauseIsSplit(s, path, value);
    }
    if Recognise(query, lower) == Some(q) {
      var i := FirstIndex(s, ':').value;
      ClauseIsSplit(s, s[..i][|DOCUMENT|..], s[i + 1..]);
      FuzzyValues(s[..i][|DOCUMENT|..], s[i + 1..], lower, q);
    }
    if exists value, token, numeral ::
         IsClause(s, q.path, value) && IsFuzzyPattern(value, token, numeral, q.distance) && q.token == lower(token) {
      var value, token, numeral :|
        IsClause(s, q.path, value) && IsFuzzyPattern(value, token, numeral, q.distance) && q.token == lower(token);
      FuzzyValues(q.path, value, lower, q);
    }
  }

  lemma PatternsAreBare(s: string, path: string, value: string)
    requires IsClause(s, path, value) && value != "" && !IsWhitespace(value[|value| - 1])
    ensures Bare(s)
  {
    assert s[0] == 'd' && s[|s| - 1] == value[|value| - 1];
  }

  /** A prefix query is built exactly for `document.<path>:<token>*`, up to surrounding white space. */
  lemma PrefixQueriesAreTheGrammar(query: string, lower: string -> string, q: Special)
    requires q.PrefixQuery?
    ensures Recognise(query, lower) == Some(q) <==>
            exists s, value, token ::
              Padded(query, s) && IsClause(s, q.path, value) && IsPrefixPattern(value, token) && q.token == lower(token)
  {
    TrimmedPrefixQueries(query, lower, q);
    TrimIff(query, Trim(query));
    if s, value, token :|
         Padded(query, s) && IsClause(s, q.path, value) && IsPrefixPattern(value, token) && q.token == lower(token)
    {
      PatternsAreBare(s, q.path, value);
      TrimIff(query, s);
    }
  }

  /** A fuzzy query is built exactly for `document.<path>:<token>~<N>` with N at most 2. */
  lemma FuzzyQueriesAreTheGrammar(query: string, lower: string -> string, q: Special)
    requires q.FuzzyQuery?
    ensures Recognise(query, lower) == Some(q) <==>
            exists s, value, token, numeral ::
              Padded(query, s) && IsClause(s, q.path, value) && IsFuzzyPattern(value, token, numeral, q.distance) &&
              q.token == lower(token)
  {
    TrimmedFuzzyQueries(query, lower, q);
    TrimIff(query, Trim(query));
    if s, value, token, numeral :|
         Padded(query, s) && IsClause(s, q.path, value) && IsFuzzyPattern(value, token, numeral, q.distance) &&
         q.token == lower(token)
    {
      FuzzyIsTrimmed(query, s, q.path, value, token, numeral, q.distance);
    }
  }

  lemma FuzzyIsTrimmed(
      query: string, s: string, path: string, value: string, token: string, numeral: string, distance: nat)
    requires Padded(query, s) && IsClause(s, path, value) && IsFuzzyPattern(value, token, numeral, distance)
    ensures Trim(query) == s
  {
    Keys.ParseU8Iff(numeral, distance);
    NumeralShape(numeral);
    assert value[|value| - 1] == numeral[|numeral| - 1];
    PatternsAreBare(s, path, value);
    TrimIff(query, s);
  }

  lemma BareIsTrimmed(s: string)
    requires Bare(s)
    ensures Trim(s) == s
  {
  }

  /** Rendering a pattern over reserved-character-free parts and recognising it gives the parts back. */
  lemma RenderedPatternsAreRecognised(path: string, token: string, distance: nat, lower: string -> string)
    requires ':' !in path && !IsCompound(path) && token != "" && !IsCompound(token) && distance <= 2
    ensures '*' !in token ==> Recognise(Clause(path, token + "*"), lower) == Some(PrefixQuery(path, lower(token)))
    ensures '~' !in token ==>
              Recognise(Clause(path, token + "~" + Keys.PrintNat(distance)), lower) ==
              Some(FuzzyQuery(path, lower(token), distance))
  {
    if '*' !in token {
      RenderedPrefix(path, token, lower);
    }
    if '~' !in token {
      RenderedFuzzy(path, token, distance, lower);
    }
  }

  lemma RenderedPrefix(path: string, token: string, lower: string -> string)
    requires ':' !in path && !IsCompound(path) && token != "" && !IsCompound(token) && '*' !in token
    ensures Recognise(Clause(path, token + "*"), lower) == Some(PrefixQuery(path, lower(token)))
  {
    var s := Clause(path, token + "*");
    assert IsClause(s, path, token + "*") && IsPrefixPattern(token + "*", token);
    PatternsAreBare(s, path, token + "*");
    BareIsTrimmed(s);
    TrimmedPrefixQueries(s, lower, PrefixQuery(path, lower(token)));
  }

  lemma RenderedFuzzy(path: string, token: string, distance: nat, lower: string -> string)
    requires ':' !in path && !IsCompound(path) && token != "" && !IsCompound(token) && '~' !in token && distance <= 2
    ensures Recognise(Clause(path, token + "~" + Keys.PrintNat(distance)), lower) ==
            Some(FuzzyQuery(path, lower(token), distance))
  {
    var numeral := Keys.PrintNat(distance);
    var value := token + "~" + numeral;
    var s := Clause(path, value);
    assert numeral == [Keys.Digit(distance)];
    Keys.ParsePrintNat(distance);
    Keys.ParseU8Iff(numeral, distance);
    assert IsClause(s, path, value) && IsFuzzyPattern(value, token, numeral, distance);
    assert value[|value| - 1] == Keys.Digit(distance);
    PatternsAreBare(s, path, value);
    BareIsTrimmed(s);
    TrimmedFuzzyQueries(s, lower, FuzzyQuery(path, lower(token), distance));
  }
}
