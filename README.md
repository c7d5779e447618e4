# Verified model of the DriveDoo utility cores

This project models, in Dafny, the parts of the DriveDoo repository that hold
self-contained logic, and proves what they promise:

- **Text validation and sanitisation** of the portfolio site
  (`inputValidation.js`): `validateInput` with its ordered guards (empty,
  longer than 1000 UTF-16 units, changed by the HTML sanitiser, a dangerous
  markup pattern, an SQL pattern), the wrappers `isValidMessage` and
  `validateMessageForAPI`, and the display and logging rewrites. Every regular
  expression is written out as a scanner over `seq<char>` (module
  `InputValidation`).
- **Security helpers** (`security.js`): `sanitizeHtml`, `isValidEmail`,
  `isValidUrl`, `escapeRegex`, `validateProjectData`, `validateSkillData`
  (module `Security`), `CSPUtils.isUrlAllowed` and
  `CSPUtils.generateCSPHeader`, including JavaScript's key order for
  `{...defaults, ...policies}` (module `Csp`), and `FormValidator.validate`
  with `defaultValidationRules` (module `FormValidation`).
- **Image helpers** (`performance.js`): `generateSrcset` and
  `getOptimizedImage` (module `Performance`).
- **API error classification** (`api.js`): the error branch of the response
  interceptor (module `ApiErrors`).
- **Two page state machines**: the progress/theme page of `new-code/`
  (module `ProgressPage`) and the counter of `my-app/` (module `CounterPage`).
- **The grade book** (`Agents/asdsa/lb.py`): `Grade.from_score`, `Subject`,
  `Student` and `GradeManager`. The value-level rules live in module `Grades`.
  The classes, whose methods update fields in place, live in module
  `GradeBook`. Grades are integer hundredths.

Shared modules: `Wrappers` (Option, Result), `Text` (search, per-character
rewrite, join, trim, ASCII case folding, decimal digits) and `Js` (JavaScript
values, truthiness, `trim`'s white-space class, `\w`, UTF-16 length,
`String(v)`, `parseInt`).

Calls into code outside the repository are parameters:

- DOMPurify's `sanitize` is `purify: string -> string`.
- `new URL(s)` succeeding is `urlParses: string -> bool`.
- `new URL(s).hostname` is `hostnameOf: string -> Option<string>`.
- The canvas WebP probe is `webpSupported: bool`.
- `localStorage.getItem('theme')` is `saved: Option<string>`.

Where the code does less than its own comments and tests say, the model
follows the code:

- `sanitizeForDisplay` (inputValidation.js:104-109) is introduced by the
  comment "Basic HTML escaping for display", but as written it replaces `&`,
  `<`, `>` and `"` by themselves. Only `'` is escaped.
- `sanitizeHtml` (security.js:17-22) replaces `<`, `>` and `"` by themselves,
  and escapes only `'` and `/`. The test file
  `__tests__/utils/security.test.js:16-18` and `:226-227` expects
  `</script>` to come through as it is; as written its `/` becomes `&#x2F;`.

`validateInput` (inputValidation.js:65-74) rejects `'`, `;`, `|`, `||`, `--`,
`&&` and the percent-encoded forms `%27`, `%22`, `%3B`, `%2D%2D`, `%7C`,
`%7C%7C` and `%26%26` anywhere in the text, and the ten SQL keywords only as
whole words.

## Model

| member | source | states |
|---|---|---|
| `InputValidation.ValidateInput` | react-portfolio/react-portfolio/src/utils/inputValidation.js:14-77 | succeeds exactly for a string whose trimmed text is non-empty, at most 1000 UTF-16 units, unchanged by the sanitiser and matched by no dangerous or SQL pattern, and then returns the trimmed text; fails with Empty exactly for non-strings and blank strings, with TooLong exactly when the trimmed text exceeds 1000, with InvalidCharacters otherwise |
| `InputValidation.MessagesDistinct` | react-portfolio/react-portfolio/src/utils/inputValidation.js:17-72 | the three error messages are pairwise different, so a message identifies its failure |
| `InputValidation.IsValidMessage` | react-portfolio/react-portfolio/src/utils/inputValidation.js:84-91 | true exactly when validateInput would return rather than throw |
| `InputValidation.ValidateMessageForApi` | react-portfolio/react-portfolio/src/utils/inputValidation.js:117-130 | isValid agrees with isValidMessage; error is null exactly when valid, and otherwise the message of validateInput's failure |
| `InputValidation.ApiCheckNamesError` | react-portfolio/react-portfolio/src/utils/inputValidation.js:117-130 | the reported error text is a given failure's message if and only if validateInput fails with that failure |
| `InputValidation.RejectsDangerousAt` | react-portfolio/react-portfolio/src/utils/inputValidation.js:58-62 | a dangerous pattern matching anywhere in the trimmed text makes validation fail with 'Invalid characters detected' |
| `InputValidation.RejectsSqlAt` | react-portfolio/react-portfolio/src/utils/inputValidation.js:70-74 | an SQL pattern matching anywhere makes validation fail with 'Invalid characters detected' |
| `InputValidation.RejectsQuoteSemicolonPipe` | react-portfolio/react-portfolio/src/utils/inputValidation.js:67 | a single quote, semicolon or pipe anywhere in the trimmed text is rejected |
| `InputValidation.RejectsScriptScheme` | react-portfolio/react-portfolio/src/utils/inputValidation.js:47 | `javascript:` in any letter case is rejected |
| `InputValidation.EventHandlerOfMatch` | react-portfolio/react-portfolio/src/utils/inputValidation.js:48 | every regular-expression match of `on\w+\s*=` is found by the scanner, whatever run lengths witness it |
| `InputValidation.RejectsEventHandler` | react-portfolio/react-portfolio/src/utils/inputValidation.js:48 | `on`, a word run, optional white space and `=` (as in `onerror=`) is rejected |
| `InputValidation.TagPairOfMatch` | react-portfolio/react-portfolio/src/utils/inputValidation.js:46-55 | an opening `<tag` on a word boundary followed later by `</tag>` is a tag-pattern match |
| `InputValidation.RejectsTagPair` | react-portfolio/react-portfolio/src/utils/inputValidation.js:46-55 | script, iframe, object, embed, form, input, link and meta elements, opened and closed, are rejected |
| `InputValidation.RejectsKeyword` | react-portfolio/react-portfolio/src/utils/inputValidation.js:66 | the ten SQL keywords standing as whole words, in any case, are rejected |
| `InputValidation.KeywordInsideWord` | react-portfolio/react-portfolio/src/utils/inputValidation.js:66 | a keyword glued to a preceding word character (Script in JavaScript) is no keyword match |
| `InputValidation.SanitizeForDisplay` | react-portfolio/react-portfolio/src/utils/inputValidation.js:98-110 | characterised by `InputValidation.DisplayIsPerChar` and the display lemmas beside it |
| `InputValidation.DisplayIsPerChar` | react-portfolio/react-portfolio/src/utils/inputValidation.js:98-110 | the five chained replacements equal the single per-character rewrite that changes only `'` into `&#039;` |
| `InputValidation.DisplayHasNoQuote` | react-portfolio/react-portfolio/src/utils/inputValidation.js:98-110 | no single quote survives sanitizeForDisplay, for any input (falsy and non-string inputs give '') |
| `InputValidation.DisplayIdentityIff` | react-portfolio/react-portfolio/src/utils/inputValidation.js:104-109 | sanitizeForDisplay leaves a string unchanged if and only if it has no single quote |
| `InputValidation.DisplayLength` | react-portfolio/react-portfolio/src/utils/inputValidation.js:109 | the output is five characters longer per single quote |
| `InputValidation.ReplaceAllRedacts` | react-portfolio/react-portfolio/src/utils/inputValidation.js:143-147 | a redaction pass whose pattern matches somewhere leaves its token in the output |
| `InputValidation.ReplaceAllNoMatch` | react-portfolio/react-portfolio/src/utils/inputValidation.js:143-147 | a redaction pass whose pattern matches nowhere leaves the text unchanged |
| `InputValidation.SanitizeForLogging` | react-portfolio/react-portfolio/src/utils/inputValidation.js:137-148 | characterised by `InputValidation.LoggingKeepsSafeText` and `InputValidation.LoggingRedactsPassword` |
| `InputValidation.LoggingKeepsSafeText` | react-portfolio/react-portfolio/src/utils/inputValidation.js:137-148 | text matched by none of the four patterns is logged unchanged |
| `InputValidation.LoggingRedactsPassword` | react-portfolio/react-portfolio/src/utils/inputValidation.js:144 | a password assignment anywhere yields `[REDACTED_PASSWORD]` after the first pass |
| `InputValidation.PasswordAssignmentMatches` | react-portfolio/react-portfolio/src/utils/inputValidation.js:144 | `password=secret` is matched whole, from the key to the end of the value |
| `Security.SanitizeHtml` | react-portfolio/react-portfolio/src/utils/security.js:12-23 | characterised by `Security.SanitizeHtmlIsPerChar`, `Security.SanitizeHtmlRemovesQuoteAndSlash`, `Security.SanitizeHtmlIdentityIff` and `Security.SanitizeHtmlLength` |
| `Security.SanitizeHtmlIsPerChar` | react-portfolio/react-portfolio/src/utils/security.js:12-23 | the five chained replacements equal one per-character rewrite: `'` to `&#x27;`, `/` to `&#x2F;`, all else kept |
| `Security.SanitizeHtmlRemovesQuoteAndSlash` | react-portfolio/react-portfolio/src/utils/security.js:12-23 | the output never holds `'` or `/` (non-strings give '') |
| `Security.SanitizeHtmlIdentityIff` | react-portfolio/react-portfolio/src/utils/security.js:17-22 | a string is unchanged if and only if it holds neither `'` nor `/` |
| `Security.SanitizeHtmlLength` | react-portfolio/react-portfolio/src/utils/security.js:21-22 | the output grows by five characters per `'` or `/` |
| `Security.IsValidEmail` | react-portfolio/react-portfolio/src/utils/security.js:30-37 | false for non-strings; for strings true exactly when the regular expression's shape holds |
| `Security.EmailTestIsShape` | react-portfolio/react-portfolio/src/utils/security.js:35-36 | the left-to-right test agrees with the existential reading of the regular expression |
| `Security.EmailInWords` | react-portfolio/react-portfolio/src/utils/security.js:35 | valid exactly when there is no white space, exactly one '@' with something before it, and a '.' after it with a character on each side |
| `Security.EmailNeedsDot` | react-portfolio/react-portfolio/src/utils/security.js:35-36 | 'user@domain' is rejected |
| `Security.EscapeRegex` | react-portfolio/react-portfolio/src/utils/security.js:62-64 | characterised by `Security.UnescapeEscape`, `Security.EscapeRegexLength` and `Security.EscapeRegexIdentityIff` |
| `Security.UnescapeEscape` | react-portfolio/react-portfolio/src/utils/security.js:62-64 | reading the escaped string back (a backslash stands for the next character) gives the original |
| `Security.EscapeRegexLength` | react-portfolio/react-portfolio/src/utils/security.js:62-64 | the output is one character longer per special character |
| `Security.EscapeRegexIdentityIff` | react-portfolio/react-portfolio/src/utils/security.js:62-64 | escapeRegex changes a string if and only if it holds a special character |
| `Security.ValidateProjectData` | react-portfolio/react-portfolio/src/utils/security.js:97-134 | characterised by `Security.ProjectDataIff` and `Security.ProjectDataRejectsArray` |
| `Security.ProjectDataIff` | react-portfolio/react-portfolio/src/utils/security.js:97-134 | accepted exactly for a plain object with a non-empty title of at most 100, a non-empty description of at most 500, an array of skills each a string of at most 50, and a valid URL for each present demo and source |
| `Security.ProjectDataRejectsArray` | react-portfolio/react-portfolio/src/utils/security.js:98-107 | an array passes the `typeof` test but is rejected |
| `Security.ValidateSkillData` | react-portfolio/react-portfolio/src/utils/security.js:141-170 | characterised by `Security.SkillDataIff` |
| `Security.SkillDataIff` | react-portfolio/react-portfolio/src/utils/security.js:141-170 | accepted exactly for a plain object with a non-empty name of at most 50, a non-empty category of at most 30, and a truthy level from which parseInt reads 1..100 |
| `Security.SkillNumericLevel` | react-portfolio/react-portfolio/src/utils/security.js:158-162 | a numeric level below 10^21 in magnitude is accepted exactly in 1..100 |
| `Security.SkillLevelExamples` | react-portfolio/react-portfolio/src/utils/security.js:158-162 | levels 0, 150 and 'not-a-number' are rejected, 80 accepted |
| `Security.SkillLevelRead` | react-portfolio/react-portfolio/src/utils/security.js:158-162 | a truthy level from which parseInt reads 1..100 is accepted, given valid name and category |
| `Security.SkillHugeLevelAccepted` | react-portfolio/react-portfolio/src/utils/security.js:159-160 | a level of 10^21 or more is accepted, since String renders it in exponent form and parseInt reads one digit |
| `Csp.IsUrlAllowed` | react-portfolio/react-portfolio/src/utils/security.js:182-193 | characterised by `Csp.UrlAllowedMonotone` and `Csp.UrlAllowedBySet` |
| `Csp.UrlAllowedMonotone` | react-portfolio/react-portfolio/src/utils/security.js:182-193 | with the default empty domain list nothing is allowed; an allowed URL is a non-empty string that parses to a host among the allowed domains; more domains never withdraw a permission |
| `Csp.UrlAllowedBySet` | react-portfolio/react-portfolio/src/utils/security.js:182-193 | only the set of allowed domains matters; a non-empty string that parses to a listed host is allowed |
| `Csp.Parts` | react-portfolio/react-portfolio/src/utils/security.js:217-223 | characterised by `Csp.GenerateCspHeader` and `Csp.DefaultParts` |
| `Csp.GenerateCspHeader` | react-portfolio/react-portfolio/src/utils/security.js:200-224 | the header is the parts of the merged directives, in order, joined by '; ' |
| `Csp.Merged` | react-portfolio/react-portfolio/src/utils/security.js:214 | characterised by `Csp.MergedIsSpread`, `Csp.MergedDistinct` and `Csp.OverrideKeepsPosition` |
| `Csp.MergedIsSpread` | react-portfolio/react-portfolio/src/utils/security.js:214 | a directive's merged value is the caller's when given and the default's otherwise |
| `Csp.MergedDistinct` | react-portfolio/react-portfolio/src/utils/security.js:214 | no directive appears twice in the merged policy |
| `Csp.OverrideKeepsPosition` | react-portfolio/react-portfolio/src/utils/security.js:201-214 | an overridden default keeps its position and takes the caller's value; new directives come after |
| `Csp.DefaultPartLists` | react-portfolio/react-portfolio/src/utils/security.js:201-219 | each default directive contributes 'directive s1 s2…', and frame-src, with no sources, contributes nothing |
| `Csp.DefaultParts` | react-portfolio/react-portfolio/src/utils/security.js:201-223 | with no policies the nine non-empty defaults are emitted in declaration order |
| `FormValidation.FieldOutcome` | react-portfolio/react-portfolio/src/utils/security.js:241-279 | a field is accepted exactly when its value meets the whole rule, and then stores the sanitised text, or '' for a falsy value |
| `FormValidation.RequiredRejectsFirst` | react-portfolio/react-portfolio/src/utils/security.js:245-248 | a required field that is falsy or blank is rejected as "<field> is required", whatever its other checks |
| `FormValidation.OptionalEmptyAccepted` | react-portfolio/react-portfolio/src/utils/security.js:250-253 | an optional falsy field is accepted as '' with no type or length check |
| `FormValidation.EmailRejectsBeforeLength` | react-portfolio/react-portfolio/src/utils/security.js:256-259 | past the required check, a truthy value that is not an email is rejected as "Invalid email format", whatever its length |
| `FormValidation.UrlRejectsBeforeLength` | react-portfolio/react-portfolio/src/utils/security.js:261-264 | past the required check, a truthy value that is not a URL is rejected as "Invalid URL format", whatever its length |
| `FormValidation.MinLengthRejects` | react-portfolio/react-portfolio/src/utils/security.js:267-270 | a value past the required and type checks that is shorter than a present minimum is rejected with the minimum message, whatever its maximum |
| `FormValidation.MaxLengthRejects` | react-portfolio/react-portfolio/src/utils/security.js:272-275 | a value past every earlier check that is longer than a present maximum is rejected with the maximum message |
| `FormValidation.RejectionMessages` | react-portfolio/react-portfolio/src/utils/security.js:245-275 | every rejection carries one of the five messages |
| `FormValidation.Validate` | react-portfolio/react-portfolio/src/utils/security.js:237-286 | the loop builds the errors and data of the field-by-field specification; isValid holds exactly when errors is empty |
| `FormValidation.ValidatedField` | react-portfolio/react-portfolio/src/utils/security.js:241-279 | each rule field lands in exactly one of errors (with its message) or data (with its text) |
| `FormValidation.ValidatedFieldAbsent` | react-portfolio/react-portfolio/src/utils/security.js:241 | a field no rule names appears in neither object |
| `FormValidation.ValidatedKeys` | react-portfolio/react-portfolio/src/utils/security.js:237-286 | errors and data hold only rule fields |
| `FormValidation.ValidIffAllPass` | react-portfolio/react-portfolio/src/utils/security.js:281-285 | the form is valid exactly when every field meets its rule |
| `FormValidation.DataSanitized` | react-portfolio/react-portfolio/src/utils/security.js:278 | no stored text holds `'` or `/` |
| `FormValidation.DefaultRulesRequired` | react-portfolio/react-portfolio/src/utils/security.js:245-247 | under the default rules a missing, empty or blank field gets '<f> is required' |
| `FormValidation.TooShortRejected` | react-portfolio/react-portfolio/src/utils/security.js:267-270 | a non-blank string shorter than minLength gets '<f> must be at least N characters' |
| `FormValidation.PlainTextAccepted` | react-portfolio/react-portfolio/src/utils/security.js:272-278 | a non-blank string within the bounds with no `'` or `/` is stored unchanged |
| `FormValidation.DefaultRulesTooShort` | react-portfolio/react-portfolio/src/utils/security.js:306-310 | under the default rules a non-blank message under ten units is too short |
| `FormValidation.DefaultRulesAcceptName` | react-portfolio/react-portfolio/src/utils/security.js:311-315 | under the default rules a plain name of 2 to 50 units is stored unchanged |
| `Performance.Srcset` | react-portfolio/react-portfolio/src/utils/performance.js:120-122 | characterised by `Performance.SrcsetEmpty`, `Performance.SrcsetAppend`, `Performance.SrcsetSingle`, `Performance.SrcsetDefault` and `Performance.SrcsetEntryWidth` |
| `Performance.SrcsetEmpty` | react-portfolio/react-portfolio/src/utils/performance.js:120-121 | an empty list of sizes gives '' |
| `Performance.SrcsetAppend` | react-portfolio/react-portfolio/src/utils/performance.js:121 | the srcset of two lists of sizes is their srcsets joined by ', ' |
| `Performance.SrcsetSingle` | react-portfolio/react-portfolio/src/utils/performance.js:121 | one size gives one entry |
| `Performance.SrcsetDefault` | react-portfolio/react-portfolio/src/utils/performance.js:120 | omitting sizes lists 300, 600, 900 and 1200 in order |
| `Performance.SrcsetEntryWidth` | react-portfolio/react-portfolio/src/utils/performance.js:121 | each entry ends with ' {size}w' whose digits read back as the size |
| `Performance.OptimizedImage` | react-portfolio/react-portfolio/src/utils/performance.js:90-100 | the result is one character longer exactly when WebP is supported and the path holds '.png' |
| `Performance.OptimizedImageUnchanged` | react-portfolio/react-portfolio/src/utils/performance.js:94-99 | without WebP support, or without '.png', the path is unchanged |
| `Performance.OptimizedImageFirstPng` | react-portfolio/react-portfolio/src/utils/performance.js:94-96 | with support, only the first '.png' becomes '.webp' |
| `Performance.OptimizedImageRestore` | react-portfolio/react-portfolio/src/utils/performance.js:96 | putting '.png' back where '.webp' was inserted restores the path |
| `ApiErrors.HandleError` | react-portfolio/react-portfolio/src/services/api.js:67-119 | the message is never falsy; with a response the status is copied, without one status and details stay null |
| `ApiErrors.KindOf` | react-portfolio/react-portfolio/src/services/api.js:75-115 | characterised by `ApiErrors.HandleErrorByKind` |
| `ApiErrors.StatusKind` | react-portfolio/react-portfolio/src/services/api.js:80-106 | every status selects one of the switch's cases |
| `ApiErrors.NetworkKind` | react-portfolio/react-portfolio/src/services/api.js:107-115 | a request without response is classified as network error, timeout or unreachable |
| `ApiErrors.FixedMessage` | react-portfolio/react-portfolio/src/services/api.js:80-115 | characterised by `ApiErrors.KindOfFixedMessage` and `ApiErrors.FixedMessagesDistinct` |
| `ApiErrors.HandleErrorByKind` | react-portfolio/react-portfolio/src/services/api.js:80-115 | the message is the fixed message of the error's kind whenever that kind has one (400, 401, 403, 404, 429, 500, 502/503/504, NETWORK_ERROR, ECONNABORTED, other codes) |
| `ApiErrors.KindOfFixedMessage` | react-portfolio/react-portfolio/src/services/api.js:80-115 | each fixed message reads back as its kind |
| `ApiErrors.FixedMessagesDistinct` | react-portfolio/react-portfolio/src/services/api.js:80-115 | different kinds never share a fixed message |
| `ApiErrors.OtherStatusMessage` | react-portfolio/react-portfolio/src/services/api.js:104-105 | another status reports data.error when truthy, else 'Server error (<status>)' |
| `ApiErrors.LocalMessage` | react-portfolio/react-portfolio/src/services/api.js:116-119 | with neither response nor request the message is error.message, else 'An unexpected error occurred.' |
| `ApiErrors.DetailsPreferBody` | react-portfolio/react-portfolio/src/services/api.js:77-78 | details are data.error when truthy, else statusText |
| `ProgressPage.StepUp` | new-code/script.js:116-124 | keeps progress a multiple of ten in 0..100 and changes it by 0 or +10 |
| `ProgressPage.StepDown` | new-code/script.js:126-134 | keeps progress a multiple of ten in 0..100 and changes it by 0 or -10 |
| `ProgressPage.Toggled` | new-code/script.js:196-201 | the theme after a toggle is 'light' or 'dark' |
| `ProgressPage.RestoredTheme` | new-code/script.js:203-207 | the restored theme is never empty |
| `ProgressPage.ShortcutOf` | new-code/script.js:168-193 | without Ctrl or Meta no shortcut fires |
| `ProgressPage.PageState.constructor` | new-code/script.js:4-7 | progress 0, theme 'light' |
| `ProgressPage.PageState.IncrementProgress` | new-code/script.js:116-124 | progress becomes StepUp of the old value, the theme is kept, validity is preserved, and the toast text matches the branch |
| `ProgressPage.PageState.DecrementProgress` | new-code/script.js:126-134 | progress becomes StepDown of the old value, the theme is kept, validity is preserved, and the toast text matches the branch |
| `ProgressPage.PageState.ResetProgress` | new-code/script.js:136-140 | progress becomes 0 from any state; the theme is kept |
| `ProgressPage.PageState.ToggleTheme` | new-code/script.js:196-201 | the theme becomes its toggle; progress is kept |
| `ProgressPage.PageState.CheckTheme` | new-code/script.js:203-207 | the theme becomes the stored one, or 'light' |
| `ProgressPage.GenerateToast` | new-code/script.js:91-104 | no toast without the input and output elements; otherwise the success text exactly when the trimmed input is non-empty, the prompt to enter text exactly when it is empty |
| `ProgressPage.PageState.HandleKeyboardShortcuts` | new-code/script.js:168-193 | progress changes as the shortcut dictates, the theme is kept, the default is prevented exactly for a shortcut; P and R show their progress toasts, G shows generateText's toast, K and other keys none |
| `ProgressPage.StepsUndo` | new-code/script.js:116-134 | a step up from below 100 is undone by a step down, and vice versa |
| `ProgressPage.StepsSaturate` | new-code/script.js:116-134 | stepping up changes nothing exactly at 100 or above, stepping down exactly at 0 or below |
| `ProgressPage.RunStaysValid` | new-code/script.js:116-134 | any run of steps keeps progress a multiple of ten in 0..100 |
| `ProgressPage.TenUpsReachTop` | new-code/script.js:116-124 | enough steps up reach 100 and stay there |
| `ProgressPage.ToggledDarkIff` | new-code/script.js:197 | the toggle yields 'dark' exactly from 'light' |
| `ProgressPage.ToggleTwice` | new-code/script.js:197 | two toggles restore 'light' or 'dark'; any other theme ends as 'dark' |
| `ProgressPage.RestoredThemeIff` | new-code/script.js:204 | a stored non-empty theme is restored as it is; nothing stored gives 'light' |
| `ProgressPage.ShortcutEffects` | new-code/script.js:168-193 | Ctrl/Meta+P steps up, Ctrl/Meta+R resets, any other key or no modifier leaves progress alone |
| `CounterPage.Decremented` | my-app/script.js:18-26 | never takes a non-negative count below zero; changes it by 0 or -1 |
| `CounterPage.AfterKey` | my-app/script.js:75-92 | no key takes a non-negative count below zero |
| `CounterPage.Counter.constructor` | my-app/script.js:3 | the count starts at 0 |
| `CounterPage.Counter.Increment` | my-app/script.js:12-16 | the count grows by one, without bound |
| `CounterPage.Counter.Decrement` | my-app/script.js:18-26 | the count goes down by one only when positive |
| `CounterPage.Counter.Reset` | my-app/script.js:28-32 | the count becomes 0 |
| `CounterPage.Counter.HandleKey` | my-app/script.js:75-92 | ArrowUp increments, ArrowDown decrements, r and R reset, other keys change nothing; only space prevents the default |
| `CounterPage.AfterKeysNonNegative` | my-app/script.js:12-32 | no sequence of keys makes the count negative |
| `CounterPage.ArrowUpsAdd` | my-app/script.js:12-16 | n presses of ArrowUp add n |
| `CounterPage.DecrementFacts` | my-app/script.js:18-26 | decrementing reaches zero exactly from 0 or 1 and undoes an increment |
| `CounterPage.ResetForgets` | my-app/script.js:28-32 | the count after a reset does not depend on anything before it |
| `Grades.RoundHalfUp` | Agents/asdsa/lb.py:71 | rounds to the nearest integer, halves away from zero, as ROUND_HALF_UP does |
| `Grades.QuantizeHundredths` | Agents/asdsa/lb.py:71 | a value that already has two decimals is kept by the rounding |
| `Grades.QuantizeClose` | Agents/asdsa/lb.py:71 | rounding to hundredths moves a value by at most 0.005 |
| `Grades.BandOf` | Agents/asdsa/lb.py:34-39 | each letter names its own member of the enumeration |
| `Grades.Classify` | Agents/asdsa/lb.py:42-49 | infinities and scores outside 0..100 are invalid, NaN is out of valid range, and a returned letter's band contains the score |
| `Grades.FromScore` | Agents/asdsa/lb.py:41-49 | the range test and the scan over the members in declaration order compute Classify |
| `Grades.BandsDisjoint` | Agents/asdsa/lb.py:34-39 | no score lies in two bands |
| `Grades.ClassifyHundredths` | Agents/asdsa/lb.py:42-49 | every two-decimal score in 0..100 gets A from 90, B from 80, C from 70, D from 60, F below |
| `Grades.ClassifyGap` | Agents/asdsa/lb.py:45-49 | 89.995 lies between bands B and A and is rejected as out of valid range |
| `Grades.NormalizeSubjectName` | Agents/asdsa/lb.py:65-67 | the result has the stripped length, no surrounding white space, no lower-case first letter and no capitals after it; it is empty exactly for a blank name (ASCII case mapping only) |
| `Grades.NormalizeIdempotent` | Agents/asdsa/lb.py:65-67 | normalising twice is normalising once |
| `Grades.NormalFormIff` | Agents/asdsa/lb.py:65-67 | normalisation fixes exactly the names in normal form, and always yields one |
| `Grades.NormalizeSameIff` | Agents/asdsa/lb.py:65-67 | two names normalise alike exactly when they agree after strip and lower |
| `Grades.NormalizeExamples` | Agents/asdsa/lb.py:65-67 | 'MATH', 'math' and 'Math ' all become 'Math' |
| `Grades.NewSubjectValid` | Agents/asdsa/lb.py:55-63 | a new subject, with the name hook run, is valid |
| `Grades.AddGradeTo` | Agents/asdsa/lb.py:69-84 | succeeds exactly for a finite score whose half-up rounding lies in 0..100 while below the limit, appending exactly that rounded value; the range is checked before the limit; an infinity or a rounding of 29 or more digits is a format error; failures are grade errors |
| `Grades.AddGradePreservesValid` | Agents/asdsa/lb.py:69-81 | adding a grade keeps a subject valid |
| `Grades.AddGradeAsWritten` | Agents/asdsa/lb.py:83-84 | as written, every rejection surfaces as AttributeError |
| `Grades.NegativeGradeRaisesAttributeError` | Agents/asdsa/lb.py:74-84 | grade -10 raises AttributeError as written, GradeError as intended |
| `Grades.AverageOf` | Agents/asdsa/lb.py:86-95 | the average is None exactly when there are no grades |
| `Grades.AverageInRange` | Agents/asdsa/lb.py:86-95 | the average of stored grades lies in 0..100 and within half a hundredth of the mean |
| `Grades.AverageOfEqual` | Agents/asdsa/lb.py:92-93 | equal grades average to that grade |
| `Grades.AverageExample` | Agents/asdsa/lb.py:92-93 | 85.5, 90.5 and 88.0 average to 88.0 |
| `Grades.LetterGradeOf` | Agents/asdsa/lb.py:97-101 | characterised by `Grades.LetterGradeAgrees` and `Grades.LetterGradeSingle` |
| `Grades.LetterGradeAgrees` | Agents/asdsa/lb.py:97-101 | for stored grades letter_grade never raises, is None exactly without grades, and is otherwise the letter of the average |
| `Grades.LetterGradeSingle` | Agents/asdsa/lb.py:97-101 | a single grade gives that grade's letter |
| `Grades.ValidateStudentData` | Agents/asdsa/lb.py:119-124 | succeeds exactly for an id of at least 1 and a non-blank name, returning the stripped name; failures are student errors |
| `Grades.ValidatedNameRevalidates` | Agents/asdsa/lb.py:119-124 | a validated name passes validation again unchanged |
| `Grades.ValidateStudentDataAsWritten` | Agents/asdsa/lb.py:119-124 | as written, any non-empty name passes and is stored stripped |
| `Grades.BlankNameBreaksReload` | Agents/asdsa/lb.py:122-124 | as written, '   ' is stored as '', which the same check refuses on reload |
| `Grades.AddSubject` | Agents/asdsa/lb.py:126-129 | the normalised subject is added when absent; existing subjects are never replaced |
| `Grades.AddSubjectCases` | Agents/asdsa/lb.py:126-129 | add_subject is the identity when the subject exists and adds a fresh subject otherwise |
| `Grades.AddSubjectPreservesValid` | Agents/asdsa/lb.py:126-129 | add_subject keeps a student valid |
| `Grades.StudentAddGrade` | Agents/asdsa/lb.py:131-135 | characterised by `Grades.StudentAddGradeEffect`, `Grades.StudentAddGradeSteps` and `Grades.StudentAddGradePreservesValid` |
| `Grades.StudentAddGradeEffect` | Agents/asdsa/lb.py:131-135 | the grade goes to the subject of the normalised name, created when absent; id, name and every other subject stay |
| `Grades.StudentAddGradeSteps` | Agents/asdsa/lb.py:131-135 | Student.add_grade is add_subject followed by the subject's add_grade |
| `Grades.StudentAddGradePreservesValid` | Agents/asdsa/lb.py:131-135 | Student.add_grade keeps a student valid |
| `Grades.AddToExisting` | Agents/asdsa/lb.py:131-135 | a grade for an existing subject is appended to it, adding no subject |
| `Grades.ThreeGradesOneSubject` | Agents/asdsa/lb.py:131-135 | three grades under three spellings with one normal form land, in order, in the single subject of that name |
| `Grades.StudentMergesSpellings` | Agents/asdsa/lb.py:131-135 | grades under 'MATH', 'math' and 'Math ' land in the one subject 'Math', in order |
| `Grades.SubjectAsWritten` | Agents/asdsa/lb.py:55-63 | without the hook the subject keeps the name as given |
| `Grades.StudentAsWritten` | Agents/asdsa/lb.py:110-117 | without the hook the student keeps id and name as given |
| `Grades.UnhookedStateInvalid` | Agents/asdsa/lb.py:62-63 | without the hooks, a student with id -1 and the subject 'MATH' are both created, in invalid states |
| `Grades.BookAddStudent` | Agents/asdsa/lb.py:152-157 | an existing id fails with a duplicate error; otherwise the student is added exactly when its data validates |
| `Grades.BookAddStudentPreservesValid` | Agents/asdsa/lb.py:152-157 | add_student keeps the manager valid |
| `Grades.BookAddStudentRejects` | Agents/asdsa/lb.py:152-157 | a duplicate id, id -1 and an empty name are refused with their errors |
| `Grades.BookAddGrade` | Agents/asdsa/lb.py:161-171 | an unknown id fails with StudentNotFound; otherwise only that student changes, as Student.add_grade dictates |
| `Grades.BookAddGradePreservesValid` | Agents/asdsa/lb.py:161-166 | add_grade keeps the manager valid |
| `Grades.GradeValues` | Agents/asdsa/lb.py:103-108 | the saved grades are the stored hundredths as numbers, in order |
| `Grades.SubjectToDict` | Agents/asdsa/lb.py:103-108 | characterised by `Grades.SubjectRoundTrip` |
| `Grades.StudentToDict` | Agents/asdsa/lb.py:137-142 | characterised by `Grades.SubjectDicts` and `Grades.StudentRoundTrip` |
| `Grades.SubjectDicts` | Agents/asdsa/lb.py:137-142 | a student's saved subjects are each subject's dictionary under its name |
| `Grades.SavedData` | Agents/asdsa/lb.py:176 | the saved keys are exactly str(id) of the stored ids |
| `Grades.SavedUnderId` | Agents/asdsa/lb.py:176 | each student is saved under str(id) |
| `Grades.PyIntSignedDecimal` | Agents/asdsa/lb.py:206 | int(str(id)) gives back id |
| `Grades.LoadedSubject` | Agents/asdsa/lb.py:209-215 | characterised by `Grades.SubjectRoundTrip` |
| `Grades.AddAll` | Agents/asdsa/lb.py:214-215 | characterised by `Grades.SubjectRoundTrip` |
| `Grades.SubjectRoundTrip` | Agents/asdsa/lb.py:209-216 | a saved valid subject loads back as itself |
| `Grades.SubjectsRoundTrip` | Agents/asdsa/lb.py:209-216 | a student's saved subjects load back as those subjects, whatever the visiting order |
| `Grades.StudentRoundTrip` | Agents/asdsa/lb.py:204-217 | a student loaded from a saved entry is the student saved there |
| `Grades.SaveLoadRoundTrip` | Agents/asdsa/lb.py:203-217 | every saved entry loads, and the load loop rebuilds the same ids, names, subjects, grade lists and limits |
| `Grades.LoadedBookValid` | Agents/asdsa/lb.py:203-217 | whatever order the load loop takes, it builds a valid manager |
| `GradeBook.Subject.constructor` | Agents/asdsa/lb.py:55-63 | a subject with the normalised name, no grades and an empty cache |
| `GradeBook.Subject.AddGrade` | Agents/asdsa/lb.py:69-84 | on success the state is AddGradeTo's and the cache is cleared; on rejection nothing changes and the error is reported; the cache stays consistent |
| `GradeBook.Subject.Average` | Agents/asdsa/lb.py:86-95 | returns the average of the grades, fills the cache with it, changes no grade |
| `GradeBook.Subject.LetterGrade` | Agents/asdsa/lb.py:97-101 | returns the letter of the average, None without grades |
| `GradeBook.Student.constructor` | Agents/asdsa/lb.py:110-114 | a student with the given id and name and no subjects |
| `GradeBook.Student.ValidateStudentData` | Agents/asdsa/lb.py:119-124 | reports Grades.ValidateStudentData's error, or stores the stripped name |
| `GradeBook.Student.AddSubject` | Agents/asdsa/lb.py:126-129 | the student's state becomes Grades.AddSubject of the old one |
| `GradeBook.Student.AddGrade` | Agents/asdsa/lb.py:131-135 | the student's state and error are Grades.StudentAddGrade of the old state |
| `GradeBook.Student.GradeSubject` | Agents/asdsa/lb.py:135 | only the subject under the name takes the grade |
| `GradeBook.Student.PutSubject` | Agents/asdsa/lb.py:216 | the subject is stored under its name |
| `GradeBook.GradeManager.constructor` | Agents/asdsa/lb.py:145-146 | the manager starts with no students |
| `GradeBook.GradeManager.AddStudent` | Agents/asdsa/lb.py:152-159 | the students become Grades.BookAddStudent's result, or stay unchanged with its error |
| `GradeBook.GradeManager.AddGrade` | Agents/asdsa/lb.py:161-171 | the students and error are Grades.BookAddGrade's |
| `GradeBook.GradeManager.LoadData` | Agents/asdsa/lb.py:203-217 | succeeds exactly when every entry loads, and then the students are built from the saved data; on a failure the earlier students are gone and the students are built from a part of the saved data that misses an entry that does not load; the manager stays valid |
| `GradeBook.GradeManager.LoadEntry` | Agents/asdsa/lb.py:204-217 | one entry loads into the students under its id, or fails leaving them unchanged |
| `GradeBook.LoadSubject` | Agents/asdsa/lb.py:209-215 | builds the subject and adds its grades in order, agreeing with Grades.LoadedSubject |
| `GradeBook.LoadStudent` | Agents/asdsa/lb.py:204-217 | builds the student exactly when the entry loads, agreeing with the value-level load |
| `GradeBook.LoadSubjects` | Agents/asdsa/lb.py:209-216 | loads every stored subject under its name, or reports the first that fails |
| `GradeBook.LoadSubjectInto` | Agents/asdsa/lb.py:209-216 | one stored subject loads and is put under its name |

## Findings

| source | as written | input that shows it | evidently intended | confidence | as-written member | corrected member |
|---|---|---|---|---|---|---|
| Agents/asdsa/lb.py:62 | the hooks are spelt `_post_init_` and `_init_`, so Python never calls them | `Student(-1, "Invalid ID")` is created; `Subject("MATH")` keeps 'MATH' | `__post_init__` normalises the subject name and validates the student | high, not executed | `Grades.UnhookedStateInvalid` | `Grades.NewSubjectValid` |
| Agents/asdsa/lb.py:83 | the handler names `Decimal.InvalidOperation`, which the Decimal class does not have | `add_grade(-10)` raises AttributeError instead of GradeError | catch `decimal.InvalidOperation` so rejections raise GradeError | high, not executed | `Grades.NegativeGradeRaisesAttributeError` | `Grades.AddGradeTo` |
| Agents/asdsa/lb.py:122-124 | the name is tested before it is stripped | name '   ' is stored as '', and reloading that entry then fails | reject a name that is blank after stripping | medium, not executed | `Grades.BlankNameBreaksReload` | `Grades.ValidatedNameRevalidates` |

The rest of the model uses the corrected readings: the hooks run, rejections
raise GradeError, and a blank name is refused.

## Left out

- DOMPurify, the URL parser, the canvas WebP probe and `localStorage` are parameters of the members that use them. Their behaviour is not modelled.
- JavaScript numbers are integers in the model. NaN, Infinity, fractions and negative zero are not modelled. So `parseInt` of a fractional level and `String` of a fraction are out of scope.
- `escapeRegex` is modelled on strings only. On a non-string the source throws.
- `InputValidation.LoggingRedactsPassword`: states that `[REDACTED_PASSWORD]` appears after the password pass. It does not prove that the later token, IP and e-mail passes leave that token in place.
- The IP and e-mail redaction passes are modelled as scanners, with the generic facts `ReplaceAllRedacts` and `ReplaceAllNoMatch`. There is no lemma about concrete addresses.
- `generateSecureRandomString` and the random template pick of `generateCreativeText` depend on randomness, so they are left out.
- `debounce`, `throttle`, `BundleOptimizer` and `PerformanceMonitor` depend on timers, promises and the performance API, so they are left out.
- The axios client, its request interceptor, the `PortfolioService` methods and the development-mode error logging are network and console plumbing, so they are left out.
- Toast timers, DOM updates, focusing the input (Ctrl+K) and the generated text itself (Ctrl+G) are outside the model. Only the toast texts, including generateText's, and the prevented default are kept.
- In `my-app/script.js` every toast reaches the zero-argument `showMessage`, which calls itself without end. Only the count updates, which happen before that call, are modelled.
- lb.py grades are integer hundredths. The source's float sum in `average` can differ from the exact sum in the last binary digit, and the model does not capture that.
- lb.py file I/O is left out: `_save_data` with its backup rotation, the file read and existence check of `load_data`, `generate_report` and logging. `LoadData` starts from the dictionary that `json.load` returns.
- Malformed saved data is left out. The model does not cover missing keys (KeyError) or wrong JSON types. Python's `int()` on keys with underscores or non-ASCII digits is not modelled either.
- `GradeBook.GradeManager` stores each student as its value (`Grades.StudentState`) rather than as a shared `Student` object. Aliasing of student objects outside the manager is not modelled.
- `Grades.NormalizeSubjectName`: the case map (`Grades.LowerAll`, `Grades.Capitalize`) covers ASCII letters only, while Python's `str.lower` and `str.capitalize` use full Unicode case mapping. Non-ASCII letters are not case-folded, so spellings such as 'MATHÉMATIQUES' and 'mathématiques' are not merged into one subject, and mappings that change length ('ß'.capitalize() is 'Ss') are not captured.
- `ApiErrors.HandleError`: requires an error that is neither undefined nor null. The source reads `error.response` unguarded, so for those values the handler throws a TypeError instead of rejecting with an error response; that throw is not modelled.
- `isinstance` checks on non-int ids and non-string names are not modelled, because the model's types rule such values out.
