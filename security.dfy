/** The security helpers of the portfolio site: the HTML and regular-expression
    escapes, the e-mail and URL checks, and the project and skill record
    validators. The URL parser the source calls is a parameter `urlParses`,
    true when `new URL(s)` does not throw. */
module Security {
  import opened Wrappers
  import opened Text
  import opened Js

  // ---------------------------------------------------------------------------
  // sanitizeHtml
  // ---------------------------------------------------------------------------

  /** sanitizeHtml: '' for a non-string; otherwise five global replacements
      in source order, of which the first three replace a character by itself. */
  function SanitizeHtml(input: Value): string
  {
    if !input.Str? then ""
    else
      var s := input.s;
      ReplaceChar(ReplaceChar(ReplaceChar(ReplaceChar(ReplaceChar(s, '<', "<"), '>', ">"), '"', "\""), '\'', "&#x27;"), '/', "&#x2F;")
  }

  /** The per-character effect of sanitizeHtml. */
  function HtmlChar(c: char): string
  {
    if c == '\'' then "&#x27;" else if c == '/' then "&#x2F;" else [c]
  }

  /** sanitizeHtml is the per-character rewrite HtmlChar: the '/' pass does
      not touch what the quote pass inserted. */
  lemma SanitizeHtmlIsPerChar(s: string)
    ensures SanitizeHtml(Str(s)) == MapChars(s, HtmlChar)
  {
    ReplaceCharSelf(s, '<');
    ReplaceCharSelf(s, '>');
    ReplaceCharSelf(s, '"');
    var quote := x => if x == '\'' then "&#x27;" else [x];
    var slash := x => if x == '/' then "&#x2F;" else [x];
    MapCharsCompose(s, quote, slash);
    forall c ensures MapChars(quote(c), slash) == HtmlChar(c) {
      if c == '\'' {
        MapCharsIdentity("&#x27;", slash);
      }
    }
    MapCharsExtensional(s, c => MapChars(quote(c), slash), HtmlChar);
  }

  /** No single quote and no '/' survives sanitizeHtml. */
  lemma SanitizeHtmlRemovesQuoteAndSlash(input: Value)
    ensures '\'' !in SanitizeHtml(input) && '/' !in SanitizeHtml(input)
  {
    if input.Str? {
      var s := input.s;
      SanitizeHtmlIsPerChar(s);
      MapCharsMember(s, HtmlChar, '\'');
      MapCharsMember(s, HtmlChar, '/');
      forall i | 0 <= i < |s| ensures '\'' !in HtmlChar(s[i]) && '/' !in HtmlChar(s[i]) {
        HtmlCharSafe(s[i]);
      }
    }
  }

  lemma HtmlCharSafe(c: char)
    ensures '\'' !in HtmlChar(c) && '/' !in HtmlChar(c)
  {
    if c == '\'' {
      assert HtmlChar(c) == ['&', '#', 'x', '2', '7', ';'];
    } else if c == '/' {
      assert HtmlChar(c) == ['&', '#', 'x', '2', 'F', ';'];
    }
  }

  /** sanitizeHtml leaves a string unchanged exactly when it holds neither a
      single quote nor '/'; `<`, `>` and `"` pass through. */
  lemma SanitizeHtmlIdentityIff(s: string)
    ensures SanitizeHtml(Str(s)) == s <==> ('\'' !in s && '/' !in s)
  {
    SanitizeHtmlIsPerChar(s);
    if '\'' !in s && '/' !in s {
      MapCharsIdentity(s, HtmlChar);
    } else {
      SanitizeHtmlRemovesQuoteAndSlash(Str(s));
    }
  }

  /** Each single quote and each '/' grows the output by five characters. */
  lemma SanitizeHtmlLength(s: string)
    ensures |SanitizeHtml(Str(s))| == |s| + 5 * CountWhere(s, c => c == '\'' || c == '/')
  {
    SanitizeHtmlIsPerChar(s);
    MapCharsLength(s, HtmlChar, c => c == '\'' || c == '/', 5);
  }

  // ---------------------------------------------------------------------------
  // isValidEmail: /^[^\s@]+@[^\s@]+\.[^\s@]+$/
  // ---------------------------------------------------------------------------

  /** The class `[^\s@]`. */
  predicate NotSpaceOrAt(c: char)
  {
    !IsWhiteSpace(c) && c != '@'
  }

  /** The regular expression matches `s` with its '@' at `a` and the
      separating '.' at `d`: every other character is in `[^\s@]` and each
      of the three parts is non-empty. */
  predicate EmailSplit(s: string, a: nat, d: nat)
  {
    0 < a && a + 1 < d && d + 1 < |s| && s[a] == '@' && s[d] == '.'
    && forall k :: 0 <= k < |s| && k != a ==> NotSpaceOrAt(s[k])
  }

  /** The regular expression matches `s`. */
  ghost predicate EmailShape(s: string)
  {
    exists a: nat, d: nat :: EmailSplit(s, a, d)
  }

  /** The test on a string: the local part is the longest `[^\s@]` run; it
      must end at an '@' after which a `[^\s@]` run reaches the end and
      holds a '.' with a character on each side. */
  function EmailTest(s: string): bool
  {
    var a := RunFrom(s, 0, NotSpaceOrAt);
    0 < a < |s| && s[a] == '@'
    && a + 1 + RunFrom(s, a + 1, NotSpaceOrAt) == |s|
    && var d := IndexOf(s, ".", a + 2);
       d.Some? && d.value + 1 < |s|
  }

  /** isValidEmail: false for a non-string. */
  function IsValidEmail(email: Value): (b: bool)
    ensures b <==> email.Str? && EmailShape(email.s)
  {
    if email.Str? then EmailTestIsShape(email.s); EmailTest(email.s) else false
  }

  lemma EmailTestIsShape(s: string)
    ensures EmailTest(s) <==> EmailShape(s)
  {
    var a := RunFrom(s, 0, NotSpaceOrAt);
    if EmailTest(s) {
      var d := IndexOf(s, ".", a + 2).value;
      assert s[d..d + 1] == ".";
      assert EmailSplit(s, a, d);
    }
    if EmailShape(s) {
      var a': nat, d: nat :| EmailSplit(s, a', d);
      RunFromExact(s, 0, NotSpaceOrAt, a');
      RunFromExact(s, a' + 1, NotSpaceOrAt, |s| - a' - 1);
      assert OccursAt(s, ".", d) by { assert s[d..d + 1] == [s[d]]; }
    }
  }

  /** The characterisation in words: no whitespace, exactly one '@' with
      something before it, and a '.' after it with a character on each side. */
  lemma EmailInWords(s: string)
    ensures EmailShape(s) <==>
              (forall k :: 0 <= k < |s| ==> !IsWhiteSpace(s[k]))
              && exists a: nat :: 0 < a < |s| && s[a] == '@'
                   && (forall k :: 0 <= k < |s| && k != a ==> s[k] != '@')
                   && (exists d :: a + 1 < d < |s| - 1 && s[d] == '.')
  {
    if EmailShape(s) {
      var a: nat, d: nat :| EmailSplit(s, a, d);
      assert s[a] == '@' && a + 1 < d < |s| - 1 && s[d] == '.';
    }
    if (forall k :: 0 <= k < |s| ==> !IsWhiteSpace(s[k]))
       && exists a: nat :: 0 < a < |s| && s[a] == '@'
            && (forall k :: 0 <= k < |s| && k != a ==> s[k] != '@')
            && (exists d :: a + 1 < d < |s| - 1 && s[d] == '.')
    {
      var a: nat :| 0 < a < |s| && s[a] == '@'
            && (forall k :: 0 <= k < |s| && k != a ==> s[k] != '@')
            && (exists d :: a + 1 < d < |s| - 1 && s[d] == '.');
      var d :| a + 1 < d < |s| - 1 && s[d] == '.';
      assert EmailSplit(s, a, d);
    }
  }

  /** 'user@domain' is rejected: there is no '.' after the '@'. */
  lemma EmailNeedsDot()
    ensures !IsValidEmail(Str("user@domain"))
  {
    var s := "user@domain";
    if EmailShape(s) {
      var a: nat, d: nat :| EmailSplit(s, a, d);
      assert false;
    }
  }

  // ---------------------------------------------------------------------------
  // isValidUrl and escapeRegex
  // ---------------------------------------------------------------------------

  /** isValidUrl: false for a non-string, otherwise whether the URL parser
      accepts it. */
  predicate IsValidUrl(url: Value, urlParses: string -> bool)
  {
    url.Str? && urlParses(url.s)
  }

  /** The characters of the class `[.*+?^${}()|[\]\\]`. */
  predicate IsRegexSpecial(c: char)
  {
    c in {'.', '*', '+', '?', '^', '$', '{', '}', '(', ')', '|', '[', ']', '\\'}
  }

  function EscapeChar(c: char): string
  {
    if IsRegexSpecial(c) then ['\\', c] else [c]
  }

  /** escapeRegex: a backslash before each special character (`'\\$&'`
      inserts a backslash and the matched character). */
  function EscapeRegex(s: string): string
  {
    MapChars(s, EscapeChar)
  }

  /** Reading an escaped string back: a backslash and the character after
      it stand for that character. */
  function Unescape(t: string): string
    decreases |t|
  {
    if t == [] then []
    else if t[0] == '\\' && |t| >= 2 then [t[1]] + Unescape(t[2..])
    else [t[0]] + Unescape(t[1..])
  }

  lemma {:induction false} UnescapeEscape(s: string)
    ensures Unescape(EscapeRegex(s)) == s
  {
    if s != [] {
      var rest := EscapeRegex(s[1..]);
      assert EscapeRegex(s) == EscapeChar(s[0]) + rest;
      UnescapeEscape(s[1..]);
      if IsRegexSpecial(s[0]) {
        assert (['\\', s[0]] + rest)[2..] == rest;
      } else {
        assert ([s[0]] + rest)[1..] == rest;
      }
    }
  }

  /** The output grows by one character per special character. */
  lemma EscapeRegexLength(s: string)
    ensures |EscapeRegex(s)| == |s| + CountWhere(s, IsRegexSpecial)
  {
    MapCharsLength(s, EscapeChar, IsRegexSpecial, 1);
  }

  /** escapeRegex changes a string exactly when it holds a special character. */
  lemma EscapeRegexIdentityIff(s: string)
    ensures EscapeRegex(s) == s <==> forall k :: 0 <= k < |s| ==> !IsRegexSpecial(s[k])
  {
    EscapeRegexLength(s);
    CountWhereZero(s, IsRegexSpecial);
    if forall k :: 0 <= k < |s| ==> !IsRegexSpecial(s[k]) {
      MapCharsIdentity(s, EscapeChar);
    }
  }

  // ---------------------------------------------------------------------------
  // validateProjectData
  // ---------------------------------------------------------------------------

  /** A string value of at most `n` UTF-16 code units. */
  predicate ShortString(v: Value, n: nat)
  {
    v.Str? && Utf16Length(v.s) <= n
  }

  /** validateProjectData, the guards in source order. */
  function ValidateProjectData(project: Value, urlParses: string -> bool): bool
  {
    if !Truthy(project) || !IsObjectType(project) then false
    else
      var title := Get(project, "title");
      var description := Get(project, "description");
      var skills := Get(project, "skills");
      var demo := Get(project, "demo");
      var source := Get(project, "source");
      if !Truthy(title) || !Truthy(description) || !skills.Arr? then false
      else if !title.Str? || Utf16Length(title.s) > 100 then false
      else if !description.Str? || Utf16Length(description.s) > 500 then false
      else if !(forall k :: 0 <= k < |skills.items| ==> ShortString(skills.items[k], 50)) then false
      else if Truthy(demo) && !IsValidUrl(demo, urlParses) then false
      else if Truthy(source) && !IsValidUrl(source, urlParses) then false
      else true
  }

  /** What validateProjectData accepts: a plain object whose title (at most
      100) and description (at most 500) are non-empty strings, whose skills
      are an array of strings of at most 50, and whose demo and source, when
      present (truthy), are URLs. */
  lemma ProjectDataIff(project: Value, urlParses: string -> bool)
    ensures ValidateProjectData(project, urlParses) <==>
              project.Obj?
              && (var title := Get(project, "title"); title.Str? && title.s != "" && Utf16Length(title.s) <= 100)
              && (var d := Get(project, "description"); d.Str? && d.s != "" && Utf16Length(d.s) <= 500)
              && (var skills := Get(project, "skills");
                  skills.Arr? && forall k :: 0 <= k < |skills.items| ==> skills.items[k].Str? && Utf16Length(skills.items[k].s) <= 50)
              && (Truthy(Get(project, "demo")) ==> Get(project, "demo").Str? && urlParses(Get(project, "demo").s))
              && (Truthy(Get(project, "source")) ==> Get(project, "source").Str? && urlParses(Get(project, "source").s))
  {
  }

  /** An array passes `typeof === 'object'` but has no title, so it is rejected. */
  lemma ProjectDataRejectsArray(items: seq<Value>, urlParses: string -> bool)
    ensures !ValidateProjectData(Arr(items), urlParses)
  {
  }

  // ---------------------------------------------------------------------------
  // validateSkillData
  // ---------------------------------------------------------------------------

  /** validateSkillData, the guards in source order; the level is read with
      parseInt(level, 10), which first converts it to a string. */
  function ValidateSkillData(skill: Value): bool
  {
    if !Truthy(skill) || !IsObjectType(skill) then false
    else
      var name := Get(skill, "name");
      var level := Get(skill, "level");
      var category := Get(skill, "category");
      if !Truthy(name) || !Truthy(level) || !Truthy(category) then false
      else if !name.Str? || Utf16Length(name.s) > 50 then false
      else
        var levelNum := ParseInt(ToString(level));
        if levelNum.None? || levelNum.value < 1 || levelNum.value > 100 then false
        else if !category.Str? || Utf16Length(category.s) > 30 then false
        else true
  }

  /** The name and category guards of validateSkillData. */
  predicate SkillNamesValid(skill: Value)
  {
    var name := Get(skill, "name");
    var category := Get(skill, "category");
    name.Str? && name.s != "" && Utf16Length(name.s) <= 50
    && category.Str? && category.s != "" && Utf16Length(category.s) <= 30
  }

  /** What validateSkillData accepts: a plain object with valid name and
      category and a truthy level from which parseInt reads 1..100. */
  lemma SkillDataIff(skill: Value)
    ensures ValidateSkillData(skill) <==>
              skill.Obj? && SkillNamesValid(skill) && Truthy(Get(skill, "level"))
              && var n := ParseInt(ToString(Get(skill, "level"))); n.Some? && 1 <= n.value <= 100
  {
  }

  /** A numeric level written positionally is accepted exactly in 1..100. */
  lemma SkillNumericLevel(skill: Value, n: int)
    requires skill.Obj? && SkillNamesValid(skill) && Get(skill, "level") == Num(n)
    requires -(Pow10(21) as int) < n < Pow10(21)
    ensures ValidateSkillData(skill) <==> 1 <= n <= 100
  {
    SkillDataIff(skill);
    ParseIntNumberToString(n);
  }

  /** The test vectors: levels 0, 150 and 'not-a-number' are rejected, 80 accepted. */
  lemma SkillLevelExamples(skill: Value)
    requires skill.Obj? && SkillNamesValid(skill)
    ensures Get(skill, "level") == Num(0) ==> !ValidateSkillData(skill)
    ensures Get(skill, "level") == Num(150) ==> !ValidateSkillData(skill)
    ensures Get(skill, "level") == Num(80) ==> ValidateSkillData(skill)
    ensures Get(skill, "level") == Str("not-a-number") ==> !ValidateSkillData(skill)
  {
    assert Pow10(21) > 150 by {
      PowMonotone(3, 21);
    }
    if Get(skill, "level") == Num(150) {
      SkillNumericLevel(skill, 150);
    }
    if Get(skill, "level") == Num(80) {
      SkillNumericLevel(skill, 80);
    }
    if Get(skill, "level") == Str("not-a-number") {
      NotANumber();
    }
  }

  lemma NotANumber()
    ensures ParseInt("not-a-number") == None
  {
    var s := "not-a-number";
    ParseIntNoLeadingSpace(s);
    assert RunFrom(s, 0, IsAsciiDigit) == 0;
  }

  /** A numeric level of 22 digits or more is rendered in exponent form and
      parseInt reads only its first digit, so it is accepted. */
  lemma SkillHugeLevelAccepted(skill: Value, n: int)
    requires skill.Obj? && SkillNamesValid(skill) && Get(skill, "level") == Num(n)
    requires Pow10(21) <= n
    ensures ValidateSkillData(skill)
  {
    DecimalLengthBound(n, 21);
    ParseIntLargeNumber(n);
    LeadingDigitPositive(n);
    SkillLevelRead(skill, DigitValue(DecimalString(n)[0]));
  }

  /** A level from which parseInt reads 1..100 is accepted. */
  lemma SkillLevelRead(skill: Value, v: int)
    requires skill.Obj? && SkillNamesValid(skill) && Truthy(Get(skill, "level"))
    requires ParseInt(ToString(Get(skill, "level"))) == Some(v) && 1 <= v <= 100
    ensures ValidateSkillData(skill)
  {
    SkillDataIff(skill);
  }

  lemma LeadingDigitPositive(n: nat)
    requires n > 0
    ensures 1 <= DigitValue(DecimalString(n)[0]) <= 9
  {
    DecimalStringNoLeadingZero(n);
  }
}
