/** The text validation and sanitisation utilities of the portfolio site:
    `validateInput` and its two wrappers, and the display and logging
    rewrites. Each regular expression of the source is a predicate on a
    start position; `test` is the scan over all start positions. The HTML
    sanitiser the source calls is a parameter `purify`. */
module InputValidation {
  import opened Wrappers
  import opened Text
  import opened Js

  /** The longest text `validateInput` accepts, in UTF-16 code units. */
  const MaxLength: nat := 1000

  /** Why `validateInput` throws. */
  datatype ValidationError = Empty | TooLong | InvalidCharacters

  /** The message of the thrown Error. */
  function Message(e: ValidationError): (m: string)
    ensures m != ""
  {
    match e
    case Empty => "Input cannot be empty"
    case TooLong => "Input too long (max 1000 characters)"
    case InvalidCharacters => "Invalid characters detected"
  }

  lemma MessagesDistinct(e1: ValidationError, e2: ValidationError)
    ensures Message(e1) == Message(e2) <==> e1 == e2
  {
    if e1 != e2 {
      assert Message(e1)[0] != Message(e2)[0] || Message(e1)[6] != Message(e2)[6];
    }
  }

  // ---------------------------------------------------------------------------
  // The dangerous-content patterns (tested case-insensitively on the trimmed input)
  // ---------------------------------------------------------------------------

  /** The element names of the `<tag\b ... </tag>` patterns, in source order. */
  const DangerousTags: seq<string> := ["script", "iframe", "object", "embed", "form", "input", "link", "meta"]

  /** `/<tag\b[^<]*(?:(?!<\/tag>)<[^<]*)*<\/tag>/i` matches at `i`: an opening
      `<tag` ending on a word boundary, and a closing `</tag>` somewhere after
      it. (The body between them matches up to the first closing tag.) */
  predicate TagPairAt(s: string, tag: string, i: nat)
  {
    var open := "<" + tag;
    OccursAtIgnoringCase(s, open, i) && BoundaryAt(s, i + |open|)
    && FindIgnoringCase(s, "</" + tag + ">", i + |open|).Some?
  }

  /** `/javascript:/i` matches at `i`. */
  predicate ScriptSchemeAt(s: string, i: nat)
  {
    OccursAtIgnoringCase(s, "javascript:", i)
  }

  /** `/on\w+\s*=/i` matches at `i`. The greedy runs cannot usefully give
      characters back: the class after each run excludes the run's class. */
  predicate EventHandlerAt(s: string, i: nat)
  {
    OccursAtIgnoringCase(s, "on", i)
    && var w := RunFrom(s, i + 2, IsWordChar);
       w > 0
       && var e := i + 2 + w + RunFrom(s, i + 2 + w, IsWhiteSpace);
          e < |s| && s[e] == '='
  }

  /** Some dangerous pattern matches at `i`. */
  predicate DangerousAt(s: string, i: nat)
  {
    ScriptSchemeAt(s, i) || EventHandlerAt(s, i)
    || SomeBelow(|DangerousTags|, (k: nat) => k < |DangerousTags| && TagPairAt(s, DangerousTags[k], i))
  }

  /** Some dangerous pattern matches somewhere in `s`. Every pattern
      consumes a character, so the start positions are the indices of `s`. */
  predicate Dangerous(s: string)
  {
    SomeBelow(|s|, (i: nat) => DangerousAt(s, i))
  }

  // ---------------------------------------------------------------------------
  // The SQL patterns (tested case-insensitively on the sanitised input)
  // ---------------------------------------------------------------------------

  const SqlKeywords: seq<string> :=
    ["SELECT", "INSERT", "UPDATE", "DELETE", "DROP", "CREATE", "ALTER", "EXEC", "UNION", "SCRIPT"]

  /** The alternatives of the second SQL pattern, in source order. */
  const SqlSymbols: seq<string> :=
    ["'", "\\'", ";", "--", "|", "||", "&&", "%27", "%22", "%3B", "%2D%2D", "%7C", "%7C%7C", "%26%26"]

  /** `/\b(SELECT|...|SCRIPT)\b/i` matches at `i` with keyword number `k`. */
  predicate KeywordMatchAt(s: string, k: nat, i: nat)
  {
    k < |SqlKeywords| && OccursAtIgnoringCase(s, SqlKeywords[k], i)
    && BoundaryAt(s, i) && BoundaryAt(s, i + |SqlKeywords[k]|)
  }

  /** Some SQL pattern matches at `i`. */
  predicate SqlAt(s: string, i: nat)
  {
    SomeBelow(|SqlKeywords|, (k: nat) => KeywordMatchAt(s, k, i))
    || SomeBelow(|SqlSymbols|, (k: nat) => k < |SqlSymbols| && OccursAtIgnoringCase(s, SqlSymbols[k], i))
  }

  /** Some SQL pattern matches somewhere in `s` (start positions as in Dangerous). */
  predicate SqlSuspicious(s: string)
  {
    SomeBelow(|s|, (i: nat) => SqlAt(s, i))
  }

  // ---------------------------------------------------------------------------
  // validateInput and its wrappers
  // ---------------------------------------------------------------------------

  /** What `validateInput` accepts, stated on the trimmed text `t`. */
  predicate Acceptable(t: string, purify: string -> string)
  {
    t != [] && Utf16Length(t) <= MaxLength && purify(t) == t && !Dangerous(t) && !SqlSuspicious(t)
  }

  /** validateInput: the checks in source order, the first failing one
      deciding the error; on success the sanitised text, which then equals
      the trimmed input. */
  function ValidateInput(input: Value, purify: string -> string): (r: Result<string, ValidationError>)
    ensures r.Ok? <==> input.Str? && Acceptable(Trim(input.s), purify)
    ensures r.Ok? ==> r.value == Trim(input.s)
    ensures r == Err(Empty) <==> !input.Str? || All(input.s, IsWhiteSpace)
    ensures r == Err(TooLong) <==>
              input.Str? && !All(input.s, IsWhiteSpace) && Utf16Length(Trim(input.s)) > MaxLength
    ensures r == Err(InvalidCharacters) <==>
              input.Str? && !All(input.s, IsWhiteSpace) && Utf16Length(Trim(input.s)) <= MaxLength
              && !Acceptable(Trim(input.s), purify)
  {
    if !Truthy(input) || !input.Str? then Err(Empty)
    else
      var trimmed := Trim(input.s);
      if |trimmed| == 0 then Err(Empty)
      else if Utf16Length(trimmed) > MaxLength then Err(TooLong)
      else
        var sanitized := purify(trimmed);
        if sanitized != trimmed then Err(InvalidCharacters)
        else if Dangerous(trimmed) then Err(InvalidCharacters)
        else if SqlSuspicious(sanitized) then Err(InvalidCharacters)
        else Ok(sanitized)
  }

  /** isValidMessage: whether validateInput returns rather than throws. */
  function IsValidMessage(message: Value, purify: string -> string): (b: bool)
    ensures b <==> message.Str? && Acceptable(Trim(message.s), purify)
  {
    ValidateInput(message, purify).Ok?
  }

  /** The `{isValid, error}` record validateMessageForAPI returns; a null
      error is None. */
  datatype ApiCheck = ApiCheck(isValid: bool, error: Option<string>)

  /** validateMessageForAPI: the outcome of validateInput as a record. */
  function ValidateMessageForApi(message: Value, purify: string -> string): (c: ApiCheck)
    ensures c.isValid <==> IsValidMessage(message, purify)
    ensures c.isValid <==> c.error.None?
    ensures c.error.Some? ==> c.error == Some(Message(ValidateInput(message, purify).error))
  {
    match ValidateInput(message, purify)
    case Ok(_) => ApiCheck(true, None)
    case Err(e) => ApiCheck(false, Some(Message(e)))
  }

  /** The error text validateMessageForAPI reports names exactly the check
      that failed. */
  lemma ApiCheckNamesError(message: Value, purify: string -> string, e: ValidationError)
    ensures ValidateMessageForApi(message, purify).error == Some(Message(e))
            <==> ValidateInput(message, purify) == Err(e)
  {
    var r := ValidateInput(message, purify);
    if r.Err? {
      MessagesDistinct(r.error, e);
    }
  }

  // ---------------------------------------------------------------------------
  // What the patterns reject, stated without the scanners
  // ---------------------------------------------------------------------------

  /** A dangerous pattern matching at one position makes the text dangerous. */
  lemma DangerousOfAt(t: string, i: nat)
    requires i < |t| && DangerousAt(t, i)
    ensures Dangerous(t)
  {
    var p := (j: nat) => DangerousAt(t, j);
    assert p(i);
  }

  /** An SQL pattern matching at one position makes the text suspicious. */
  lemma SqlOfAt(t: string, i: nat)
    requires i < |t| && SqlAt(t, i)
    ensures SqlSuspicious(t)
  {
    var p := (j: nat) => SqlAt(t, j);
    assert p(i);
  }

  /** Each dangerous tag pair is a dangerous pattern. */
  lemma TagPairIsDangerous(t: string, k: nat, i: nat)
    requires k < |DangerousTags| && TagPairAt(t, DangerousTags[k], i)
    ensures DangerousAt(t, i)
  {
    var p := (k': nat) => k' < |DangerousTags| && TagPairAt(t, DangerousTags[k'], i);
    assert p(k);
  }

  /** Each SQL keyword standing as a whole word is an SQL pattern. */
  lemma KeywordIsSql(t: string, k: nat, i: nat)
    requires KeywordMatchAt(t, k, i)
    ensures SqlAt(t, i)
  {
    var p := (k': nat) => KeywordMatchAt(t, k', i);
    assert p(k);
  }

  /** Each alternative of the SQL symbol pattern is an SQL pattern. */
  lemma SymbolIsSql(t: string, k: nat, i: nat)
    requires k < |SqlSymbols| && OccursAtIgnoringCase(t, SqlSymbols[k], i)
    ensures SqlAt(t, i)
  {
    var p := (k': nat) => k' < |SqlSymbols| && OccursAtIgnoringCase(t, SqlSymbols[k'], i);
    assert p(k);
  }

  /** A text the length check lets through that contains a dangerous
      pattern at some position is rejected as invalid. */
  lemma RejectsDangerousAt(input: Value, purify: string -> string, i: nat)
    requires input.Str? && Utf16Length(Trim(input.s)) <= MaxLength
    requires i < |Trim(input.s)| && DangerousAt(Trim(input.s), i)
    ensures ValidateInput(input, purify) == Err(InvalidCharacters)
  {
    DangerousOfAt(Trim(input.s), i);
  }

  /** As RejectsDangerousAt, for the SQL patterns. */
  lemma RejectsSqlAt(input: Value, purify: string -> string, i: nat)
    requires input.Str? && Utf16Length(Trim(input.s)) <= MaxLength
    requires i < |Trim(input.s)| && SqlAt(Trim(input.s), i)
    ensures ValidateInput(input, purify) == Err(InvalidCharacters)
  {
    SqlOfAt(Trim(input.s), i);
  }

  /** Any single quote, semicolon or pipe is rejected. */
  lemma RejectsQuoteSemicolonPipe(input: Value, purify: string -> string, i: nat)
    requires input.Str? && Utf16Length(Trim(input.s)) <= MaxLength
    requires i < |Trim(input.s)| && Trim(input.s)[i] in {'\'', ';', '|'}
    ensures ValidateInput(input, purify) == Err(InvalidCharacters)
  {
    var t := Trim(input.s);
    var k := if t[i] == '\'' then 0 else if t[i] == ';' then 2 else 4;
    assert OccursAtIgnoringCase(t, SqlSymbols[k], i);
    SymbolIsSql(t, k, i);
    RejectsSqlAt(input, purify, i);
  }

  /** A `javascript:` scheme in any letter case is rejected. */
  lemma RejectsScriptScheme(input: Value, purify: string -> string, i: nat)
    requires input.Str? && Utf16Length(Trim(input.s)) <= MaxLength
    requires OccursAtIgnoringCase(Trim(input.s), "javascript:", i)
    ensures ValidateInput(input, purify) == Err(InvalidCharacters)
  {
    RejectsDangerousAt(input, purify, i);
  }

  /** The regular-expression reading of `on\w+\s*=`: "on" in any case, a
      non-empty run of word characters, any whitespace, then '='. Each such
      match is one EventHandlerAt finds, whatever run lengths witness it. */
  lemma {:induction false} EventHandlerOfMatch(s: string, i: nat, w: nat, m: nat)
    requires OccursAtIgnoringCase(s, "on", i) && w > 0
    requires i + 2 + w + m < |s|
    requires forall k :: i + 2 <= k < i + 2 + w ==> IsWordChar(s[k])
    requires forall k :: i + 2 + w <= k < i + 2 + w + m ==> IsWhiteSpace(s[k])
    requires s[i + 2 + w + m] == '='
    ensures EventHandlerAt(s, i)
  {
    var a := i + 2 + w;
    SpaceOrEqualsNotWord(s[a]);
    SpaceOrEqualsNotWord(s[a + m]);
    RunFromExact(s, i + 2, IsWordChar, w);
    RunFromExact(s, a, IsWhiteSpace, m);
    EventHandlerAtRuns(s, i, w, m);
  }

  /** EventHandlerAt from the lengths of its two runs. */
  lemma EventHandlerAtRuns(s: string, i: nat, w: nat, m: nat)
    requires OccursAtIgnoringCase(s, "on", i) && w > 0 && i + 2 + w + m < |s|
    requires RunFrom(s, i + 2, IsWordChar) == w && RunFrom(s, i + 2 + w, IsWhiteSpace) == m
    requires s[i + 2 + w + m] == '='
    ensures EventHandlerAt(s, i)
  {
  }

  /** White space and '=' are not word characters, and '=' is not white space. */
  lemma SpaceOrEqualsNotWord(c: char)
    ensures IsWhiteSpace(c) || c == '=' ==> !IsWordChar(c)
    ensures c == '=' ==> !IsWhiteSpace(c)
  {
  }

  /** An event-handler attribute such as `onerror=` is rejected. */
  lemma RejectsEventHandler(input: Value, purify: string -> string, i: nat, w: nat, m: nat)
    requires input.Str? && Utf16Length(Trim(input.s)) <= MaxLength
    requires var t := Trim(input.s);
             OccursAtIgnoringCase(t, "on", i) && w > 0 && i + 2 + w + m < |t|
             && (forall k :: i + 2 <= k < i + 2 + w ==> IsWordChar(t[k]))
             && (forall k :: i + 2 + w <= k < i + 2 + w + m ==> IsWhiteSpace(t[k]))
             && t[i + 2 + w + m] == '='
    ensures ValidateInput(input, purify) == Err(InvalidCharacters)
  {
    var t := Trim(input.s);
    EventHandlerOfMatch(t, i, w, m);
    assert DangerousAt(t, i);
    RejectsDangerousAt(input, purify, i);
  }

  /** The regular-expression reading of a tag pattern: `<tag` at `i` on a
      word boundary and `</tag>` at any later `j`. */
  lemma TagPairOfMatch(t: string, tag: string, i: nat, j: nat)
    requires OccursAtIgnoringCase(t, "<" + tag, i) && BoundaryAt(t, i + 1 + |tag|)
    requires i + 1 + |tag| <= j && OccursAtIgnoringCase(t, "</" + tag + ">", j)
    ensures TagPairAt(t, tag, i)
  {
    var close := "</" + tag + ">";
    var found := FindIgnoringCase(t, close, i + 1 + |tag|);
    assert found.Some?;
  }

  /** An element among the dangerous tags, opened at `i` and closed at `j`,
      is rejected. */
  lemma RejectsTagPair(input: Value, purify: string -> string, k: nat, i: nat, j: nat)
    requires input.Str? && Utf16Length(Trim(input.s)) <= MaxLength && k < |DangerousTags|
    requires OccursAtIgnoringCase(Trim(input.s), "<" + DangerousTags[k], i)
    requires BoundaryAt(Trim(input.s), i + 1 + |DangerousTags[k]|)
    requires i + 1 + |DangerousTags[k]| <= j
    requires OccursAtIgnoringCase(Trim(input.s), "</" + DangerousTags[k] + ">", j)
    ensures ValidateInput(input, purify) == Err(InvalidCharacters)
  {
    var t := Trim(input.s);
    TagPairOfMatch(t, DangerousTags[k], i, j);
    TagPairIsDangerous(t, k, i);
    RejectsDangerousAt(input, purify, i);
  }

  /** The SQL keywords are rejected in any letter case when they stand as
      whole words. */
  lemma RejectsKeyword(input: Value, purify: string -> string, k: nat, i: nat)
    requires input.Str? && Utf16Length(Trim(input.s)) <= MaxLength
    requires KeywordMatchAt(Trim(input.s), k, i)
    ensures ValidateInput(input, purify) == Err(InvalidCharacters)
  {
    KeywordIsSql(Trim(input.s), k, i);
    RejectsSqlAt(input, purify, i);
  }

  /** A keyword glued to a preceding word character, as "Script" in
      "JavaScript", is no keyword match there. */
  lemma KeywordInsideWord(s: string, k: nat, i: nat)
    requires k < |SqlKeywords| && OccursAtIgnoringCase(s, SqlKeywords[k], i)
    requires WordAt(s, i - 1)
    ensures forall k' :: !KeywordMatchAt(s, k', i)
  {
    assert LowerAscii(s[i]) == LowerAscii(SqlKeywords[k][0]);
    assert IsWordChar(s[i]);
  }

  // ---------------------------------------------------------------------------
  // sanitizeForDisplay
  // ---------------------------------------------------------------------------

  /** sanitizeForDisplay: falsy or non-string input gives ''; otherwise the
      five global replacements in source order. The first four replace a
      character by itself. */
  function SanitizeForDisplay(message: Value): string
  {
    if !Truthy(message) || !message.Str? then ""
    else
      var s := message.s;
      ReplaceChar(ReplaceChar(ReplaceChar(ReplaceChar(ReplaceChar(s, '&', "&"), '<', "<"), '>', ">"), '"', "\""), '\'', "&#039;")
  }

  /** The per-character effect of the display rewrite. */
  function DisplayChar(c: char): string
  {
    if c == '\'' then "&#039;" else [c]
  }

  /** The display rewrite of a string is the per-character rewrite DisplayChar. */
  lemma DisplayIsPerChar(s: string)
    ensures SanitizeForDisplay(Str(s)) == MapChars(s, DisplayChar)
  {
    ReplaceCharSelf(s, '&');
    ReplaceCharSelf(s, '<');
    ReplaceCharSelf(s, '>');
    ReplaceCharSelf(s, '"');
    MapCharsExtensional(s, x => if x == '\'' then "&#039;" else [x], DisplayChar);
  }

  /** No single quote survives the display rewrite. */
  lemma DisplayHasNoQuote(message: Value)
    ensures '\'' !in SanitizeForDisplay(message)
  {
    if message.Str? && message.s != [] {
      DisplayIsPerChar(message.s);
      MapCharsMember(message.s, DisplayChar, '\'');
    }
  }

  /** The display rewrite leaves a string unchanged exactly when it holds no
      single quote; `&`, `<`, `>` and `"` pass through. */
  lemma DisplayIdentityIff(s: string)
    ensures SanitizeForDisplay(Str(s)) == s <==> '\'' !in s
  {
    DisplayIsPerChar(s);
    if '\'' !in s {
      MapCharsIdentity(s, DisplayChar);
    } else {
      DisplayHasNoQuote(Str(s));
    }
  }

  /** Each single quote grows the output by five characters. */
  lemma DisplayLength(s: string)
    ensures |SanitizeForDisplay(Str(s))| == |s| + 5 * CountWhere(s, c => c == '\'')
  {
    DisplayIsPerChar(s);
    MapCharsLength(s, DisplayChar, c => c == '\'', 5);
  }

  // ---------------------------------------------------------------------------
  // sanitizeForLogging
  // ---------------------------------------------------------------------------

  /** The four redaction patterns, in the order they are applied. */
  datatype LogPattern = Password | Token | Address | Email

  const PasswordKeys: seq<string> := ["password", "passwd", "pwd"]
  const TokenKeys: seq<string> := ["token", "api_key", "apikey"]

  predicate IsNonSpace(c: char)
  {
    !IsWhiteSpace(c)
  }

  /** After the key at `p`: `\s*[:=]\s*\S+`. The length from `p` to the end
      of the match, or 0 when it does not match; each run is greedy and the
      class after it excludes it, so no backtracking can help. */
  function AssignmentTail(s: string, p: nat): (n: nat)
    requires p <= |s|
    ensures n > 0 ==> p + n <= |s|
  {
    var colon := p + RunFrom(s, p, IsWhiteSpace);
    if colon == |s| || (s[colon] != ':' && s[colon] != '=') then 0
    else
      var value := colon + 1 + RunFrom(s, colon + 1, IsWhiteSpace);
      var v := RunFrom(s, value, IsNonSpace);
      if v == 0 then 0 else value + v - p
  }

  /** `\b(k0|k1|...)\s*[:=]\s*\S+` with the `i` flag at `i`, trying the keys
      from `j` on in order: the match length, or 0. */
  function KeyedValueMatch(s: string, keys: seq<string>, j: nat, i: nat): (n: nat)
    requires i <= |s|
    ensures n > 0 ==> i + n <= |s|
    decreases |keys| - j
  {
    if j >= |keys| || !BoundaryAt(s, i) then 0
    else if OccursAtIgnoringCase(s, keys[j], i) && AssignmentTail(s, i + |keys[j]|) > 0 then
      |keys[j]| + AssignmentTail(s, i + |keys[j]|)
    else KeyedValueMatch(s, keys, j + 1, i)
  }

  /** A run of one to three digits starting at `p`. */
  function DigitGroup(s: string, p: nat): (n: nat)
    requires p <= |s|
    ensures p + n <= |s|
  {
    var n := RunFrom(s, p, IsAsciiDigit);
    if 1 <= n <= 3 then n else 0
  }

  /** `\b\d{1,3}\.\d{1,3}\.\d{1,3}\.\d{1,3}\b` at `i`: the match length, or 0.
      A longer digit run cannot be split, since what follows a group must be
      '.' or a word boundary and a digit is neither. */
  function AddressMatch(s: string, i: nat): (n: nat)
    requires i <= |s|
    ensures n > 0 ==> i + n <= |s|
  {
    if !BoundaryAt(s, i) then 0 else DottedGroups(s, i, 4, i)
  }

  /** `groups` more digit groups separated by '.' from `p`; the match length
      counted from `i`, or 0. */
  function DottedGroups(s: string, p: nat, groups: nat, i: nat): (n: nat)
    requires i <= p <= |s|
    ensures n > 0 ==> i + n <= |s|
    decreases groups
  {
    var g := DigitGroup(s, p);
    if groups == 0 || g == 0 then 0
    else if groups == 1 then (if BoundaryAt(s, p + g) then p + g - i else 0)
    else if p + g < |s| && s[p + g] == '.' then DottedGroups(s, p + g + 1, groups - 1, i)
    else 0
  }

  predicate IsLocalChar(c: char)
  {
    ('A' <= c <= 'Z') || ('a' <= c <= 'z') || IsAsciiDigit(c) || c in {'.', '_', '%', '+', '-'}
  }

  predicate IsDomainChar(c: char)
  {
    ('A' <= c <= 'Z') || ('a' <= c <= 'z') || IsAsciiDigit(c) || c == '.' || c == '-'
  }

  /** The class `[A-Z|a-z]`, which includes '|'. */
  predicate IsSuffixChar(c: char)
  {
    ('A' <= c <= 'Z') || ('a' <= c <= 'z') || c == '|'
  }

  /** `[A-Z|a-z]{2,}\b` from `b`, trying the longest of the first `t`
      suffix characters first: the end of the match, if any. */
  function SuffixEnd(s: string, b: nat, t: nat): (r: Option<nat>)
    requires b + t <= |s|
    ensures r.Some? ==> b + 2 <= r.value <= b + t && BoundaryAt(s, r.value)
    decreases t
  {
    if t < 2 then None
    else if BoundaryAt(s, b + t) then Some(b + t)
    else SuffixEnd(s, b, t - 1)
  }

  /** `[A-Za-z0-9.-]+\.[A-Z|a-z]{2,}\b` from `a`, where the domain run from `a`
      is at least `k` long, giving the domain part back from length `k` down
      to 1 as backtracking does: the end of the match, if any. */
  function DomainEnd(s: string, a: nat, k: nat): (r: Option<nat>)
    requires a + k <= |s|
    ensures r.Some? ==> a + 4 <= r.value <= |s|
    decreases k
  {
    if k == 0 then None
    else if a + k < |s| && s[a + k] == '.' then
      var t := RunFrom(s, a + k + 1, IsSuffixChar);
      var e := SuffixEnd(s, a + k + 1, t);
      if e.Some? then e else DomainEnd(s, a, k - 1)
    else DomainEnd(s, a, k - 1)
  }

  /** `\b[A-Za-z0-9._%+-]+@[A-Za-z0-9.-]+\.[A-Z|a-z]{2,}\b` at `i`: the match
      length, or 0. */
  function EmailMatch(s: string, i: nat): (n: nat)
    requires i <= |s|
    ensures n > 0 ==> i + n <= |s|
  {
    var l := RunFrom(s, i, IsLocalChar);
    if !BoundaryAt(s, i) || l == 0 || i + l == |s| || s[i + l] != '@' then 0
    else
      var a := i + l + 1;
      var e := DomainEnd(s, a, RunFrom(s, a, IsDomainChar));
      if e.Some? then e.value - i else 0
  }

  /** The length of the match of `pat` at `i`, or 0 when it does not match there. */
  function MatchAt(pat: LogPattern, s: string, i: nat): (n: nat)
    requires i <= |s|
    ensures n > 0 ==> i + n <= |s|
  {
    match pat
    case Password => KeyedValueMatch(s, PasswordKeys, 0, i)
    case Token => KeyedValueMatch(s, TokenKeys, 0, i)
    case Address => AddressMatch(s, i)
    case Email => EmailMatch(s, i)
  }

  function Redaction(pat: LogPattern): string
  {
    match pat
    case Password => "[REDACTED_PASSWORD]"
    case Token => "[REDACTED_TOKEN]"
    case Address => "[REDACTED_IP]"
    case Email => "[REDACTED_EMAIL]"
  }

  /** The match length of `pat` at every index of `s` (0: no match there). */
  function MatchLengths(pat: LogPattern, s: string): (m: seq<nat>)
    ensures |m| == |s|
    ensures forall i :: 0 <= i < |s| ==> m[i] == MatchAt(pat, s, i)
    ensures Fits(s, m)
  {
    seq(|s|, (i: int) requires 0 <= i < |s| => MatchAt(pat, s, i))
  }

  /** Every match recorded in `m` stays inside `s`. */
  predicate Fits(s: string, m: seq<nat>)
  {
    |m| == |s| && forall i :: 0 <= i < |s| ==> i + m[i] <= |s|
  }

  /** `s.replace(re, token)` with the `g` flag, from index `p` on, where `m`
      holds the match length at each index: the leftmost match is replaced
      and the scan resumes after it. */
  function ReplaceFrom(s: string, m: seq<nat>, p: nat, token: string): string
    requires p <= |s| && Fits(s, m)
    decreases |s| - p
  {
    if p == |s| then []
    else if m[p] > 0 then token + ReplaceFrom(s, m, p + m[p], token)
    else [s[p]] + ReplaceFrom(s, m, p + 1, token)
  }

  function ReplaceAll(pat: LogPattern, s: string): string
  {
    ReplaceFrom(s, MatchLengths(pat, s), 0, Redaction(pat))
  }

  /** Where nothing matches, the replacement copies the text. */
  lemma {:induction false} ReplaceFromNoMatch(s: string, m: seq<nat>, p: nat, token: string)
    requires p <= |s| && Fits(s, m)
    requires forall q :: p <= q < |s| ==> m[q] == 0
    ensures ReplaceFrom(s, m, p, token) == s[p..]
    decreases |s| - p
  {
    if p < |s| {
      ReplaceFromNoMatch(s, m, p + 1, token);
      assert s[p..] == [s[p]] + s[p + 1..];
    }
  }

  /** The text before the first match is copied and the match is replaced by
      the token. */
  lemma {:induction false} ReplaceFromFirstMatch(s: string, m: seq<nat>, p: nat, q: nat, token: string)
    requires Fits(s, m) && p <= q < |s| && m[q] > 0
    requires forall k :: p <= k < q ==> m[k] == 0
    ensures ReplaceFrom(s, m, p, token) == s[p..q] + token + ReplaceFrom(s, m, q + m[q], token)
    decreases q - p
  {
    if p < q {
      ReplaceFromFirstMatch(s, m, p + 1, q, token);
      var rest := ReplaceFrom(s, m, p + 1, token);
      assert ReplaceFrom(s, m, p, token) == [s[p]] + rest;
      assert s[p..q] == [s[p]] + s[p + 1..q];
    }
  }

  /** The first index from `p` with a match, given one at `q`. */
  function FirstMatch(m: seq<nat>, p: nat, q: nat): (f: nat)
    requires p <= q < |m| && m[q] > 0
    ensures p <= f <= q && m[f] > 0
    ensures forall k :: p <= k < f ==> m[k] == 0
    decreases q - p
  {
    if m[p] > 0 then p else FirstMatch(m, p + 1, q)
  }

  /** A pattern that matches somewhere leaves its token in the output. */
  lemma ReplaceAllRedacts(pat: LogPattern, s: string, q: nat)
    requires q < |s| && MatchAt(pat, s, q) > 0
    ensures Contains(ReplaceAll(pat, s), Redaction(pat))
  {
    var m := MatchLengths(pat, s);
    var tok := Redaction(pat);
    var first := FirstMatch(m, 0, q);
    ReplaceFromFirstMatch(s, m, 0, first, tok);
    var out := ReplaceAll(pat, s);
    assert out == s[0..first] + tok + ReplaceFrom(s, m, first + m[first], tok);
    assert out[first..first + |tok|] == tok;
    assert OccursAt(out, tok, first);
  }

  /** A pattern that matches nowhere leaves the text unchanged. */
  lemma ReplaceAllNoMatch(pat: LogPattern, s: string)
    requires forall q :: 0 <= q < |s| ==> MatchAt(pat, s, q) == 0
    ensures ReplaceAll(pat, s) == s
  {
    ReplaceFromNoMatch(s, MatchLengths(pat, s), 0, Redaction(pat));
    assert s[0..] == s;
  }

  /** sanitizeForLogging: falsy or non-string input gives ''; otherwise the
      password, token, address and e-mail redactions, in that order. */
  function SanitizeForLogging(input: Value): string
  {
    if !Truthy(input) || !input.Str? then ""
    else ReplaceAll(Email, ReplaceAll(Address, ReplaceAll(Token, ReplaceAll(Password, input.s))))
  }

  /** Text that none of the four patterns matches is logged unchanged. */
  lemma LoggingKeepsSafeText(s: string)
    requires forall pat: LogPattern, q :: 0 <= q < |s| ==> MatchAt(pat, s, q) == 0
    ensures SanitizeForLogging(Str(s)) == s
  {
    ReplaceAllNoMatch(Password, s);
    ReplaceAllNoMatch(Token, s);
    ReplaceAllNoMatch(Address, s);
    ReplaceAllNoMatch(Email, s);
  }

  /** A password assignment anywhere is redacted. */
  lemma LoggingRedactsPassword(s: string, q: nat)
    requires q < |s| && MatchAt(Password, s, q) > 0
    ensures Contains(ReplaceAll(Password, s), "[REDACTED_PASSWORD]")
  {
    ReplaceAllRedacts(Password, s, q);
  }

  /** `password=secret` matches from its first character to its last. */
  lemma PasswordAssignmentMatches()
    ensures MatchAt(Password, "password=secret", 0) == 15
  {
    var s := "password=secret";
    assert OccursAtIgnoringCase(s, "password", 0);
    RunFromExact(s, 8, IsWhiteSpace, 0);
    RunFromExact(s, 9, IsWhiteSpace, 0);
    RunFromExact(s, 9, IsNonSpace, 6);
  }
}
