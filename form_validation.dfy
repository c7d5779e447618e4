/** FormValidator.validate and defaultValidationRules: each field named by
    the rules is either rejected with one message or accepted with its
    sanitized text. The rules object is the sequence of its entries in
    enumeration order; the form data is a map from field names to values,
    a missing field reading as `undefined`. */
module FormValidation {
  import opened Wrappers
  import opened Text
  import opened Js
  import opened Security

  /** The `type` of a rule: 'email', 'url', or anything else (no check). */
  datatype FieldType = Email | Url | Other

  /** A field's rule. A zero length bound is an absent one, exactly as a
      falsy `rule.minLength` or `rule.maxLength` is skipped. */
  datatype Rule = Rule(required: bool, kind: FieldType, minLength: nat, maxLength: nat)

  type Rules = seq<(string, Rule)>

  /** The field names of a rules object are distinct, as an object's keys are. */
  predicate DistinctFields(rules: Rules)
  {
    forall i, j :: 0 <= i < j < |rules| ==> rules[i].0 != rules[j].0
  }

  function FieldNames(rules: Rules): set<string>
  {
    set i | 0 <= i < |rules| :: rules[i].0
  }

  /** `data[field]`: undefined when the form has no such field. */
  function Field(data: map<string, Value>, field: string): Value
  {
    if field in data then data[field] else Undefined
  }

  /** `value.length` as a number: a string's UTF-16 length, an array's size,
      an object's numeric `length` property. None stands for `undefined`,
      against which every `<` and `>` is false. */
  function LengthOf(v: Value): Option<int>
  {
    match v
    case Str(s) => Some(Utf16Length(s))
    case Arr(items) => Some(|items|)
    case Obj(_) => (var l := Get(v, "length"); if l.Num? then Some(l.n) else None)
    case _ => None
  }

  /** What one field comes to: an error message, or the text stored in the
      sanitized data. */
  datatype Outcome = Rejected(message: string) | Accepted(clean: string)

  /** The value meets its rule: every check of the rule holds at once. The
      type and length checks apply only to a truthy value. */
  predicate Passes(rule: Rule, value: Value, urlParses: string -> bool)
  {
    (!rule.required || (Truthy(value) && Trim(ToString(value)) != ""))
    && (Truthy(value) ==>
          (rule.kind == Email ==> IsValidEmail(value))
          && (rule.kind == Url ==> IsValidUrl(value, urlParses))
          && (rule.minLength > 0 && LengthOf(value).Some? ==> LengthOf(value).value >= rule.minLength)
          && (rule.maxLength > 0 && LengthOf(value).Some? ==> LengthOf(value).value <= rule.maxLength))
  }

  function RequiredMessage(field: string): string
  {
    field + " is required"
  }

  function MinLengthMessage(field: string, n: nat): string
  {
    field + " must be at least " + NumberToString(n) + " characters"
  }

  function MaxLengthMessage(field: string, n: nat): string
  {
    field + " must be no more than " + NumberToString(n) + " characters"
  }

  /** The body of the forEach callback: the checks in source order, the
      first that fails giving the message. A field passes exactly when its
      value meets the whole rule, and then it is stored sanitized, or as ''
      when the value is falsy. */
  function FieldOutcome(field: string, rule: Rule, value: Value, urlParses: string -> bool): (o: Outcome)
    ensures o.Accepted? <==> Passes(rule, value, urlParses)
    ensures o.Accepted? ==> o.clean == if Truthy(value) then SanitizeHtml(Str(ToString(value))) else ""
  {
    var length := LengthOf(value);
    if rule.required && (!Truthy(value) || Trim(ToString(value)) == "") then Rejected(RequiredMessage(field))
    else if !Truthy(value) then Accepted("")
    else if rule.kind == Email && !IsValidEmail(value) then Rejected("Invalid email format")
    else if rule.kind == Url && !IsValidUrl(value, urlParses) then Rejected("Invalid URL format")
    else if rule.minLength > 0 && length.Some? && length.value < rule.minLength then
      Rejected(MinLengthMessage(field, rule.minLength))
    else if rule.maxLength > 0 && length.Some? && length.value > rule.maxLength then
      Rejected(MaxLengthMessage(field, rule.maxLength))
    else Accepted(SanitizeHtml(Str(ToString(value))))
  }

  /** The required check comes first: a required field that is falsy or
      blank is rejected as missing, whatever its other checks would say. */
  lemma RequiredRejectsFirst(field: string, rule: Rule, value: Value, urlParses: string -> bool)
    requires rule.required && (!Truthy(value) || Trim(ToString(value)) == "")
    ensures FieldOutcome(field, rule, value, urlParses) == Rejected(RequiredMessage(field))
  {
  }

  /** The required check passed: a falsy value is accepted as '' with no
      type or length check, so an optional field may be left empty. */
  lemma OptionalEmptyAccepted(field: string, rule: Rule, value: Value, urlParses: string -> bool)
    requires !rule.required && !Truthy(value)
    ensures FieldOutcome(field, rule, value, urlParses) == Accepted("")
  {
  }

  /** The email check comes before the length checks. */
  lemma EmailRejectsBeforeLength(field: string, rule: Rule, value: Value, urlParses: string -> bool)
    requires !rule.required || Trim(ToString(value)) != ""
    requires Truthy(value) && rule.kind == Email && !IsValidEmail(value)
    ensures FieldOutcome(field, rule, value, urlParses) == Rejected("Invalid email format")
  {
  }

  /** The URL check comes before the length checks. */
  lemma UrlRejectsBeforeLength(field: string, rule: Rule, value: Value, urlParses: string -> bool)
    requires !rule.required || Trim(ToString(value)) != ""
    requires Truthy(value) && rule.kind == Url && !IsValidUrl(value, urlParses)
    ensures FieldOutcome(field, rule, value, urlParses) == Rejected("Invalid URL format")
  {
  }

  /** A value that passed the required and type checks but is shorter than
      a present minimum is rejected for that, whatever its maximum. */
  lemma MinLengthRejects(field: string, rule: Rule, value: Value, urlParses: string -> bool)
    requires !rule.required || Trim(ToString(value)) != ""
    requires Truthy(value)
    requires rule.kind == Email ==> IsValidEmail(value)
    requires rule.kind == Url ==> IsValidUrl(value, urlParses)
    requires rule.minLength > 0 && LengthOf(value).Some? && LengthOf(value).value < rule.minLength
    ensures FieldOutcome(field, rule, value, urlParses) == Rejected(MinLengthMessage(field, rule.minLength))
  {
  }

  /** A value that passed every earlier check but is longer than a present
      maximum is rejected for that. */
  lemma MaxLengthRejects(field: string, rule: Rule, value: Value, urlParses: string -> bool)
    requires !rule.required || Trim(ToString(value)) != ""
    requires Truthy(value)
    requires rule.kind == Email ==> IsValidEmail(value)
    requires rule.kind == Url ==> IsValidUrl(value, urlParses)
    requires !(rule.minLength > 0 && LengthOf(value).Some? && LengthOf(value).value < rule.minLength)
    requires rule.maxLength > 0 && LengthOf(value).Some? && LengthOf(value).value > rule.maxLength
    ensures FieldOutcome(field, rule, value, urlParses) == Rejected(MaxLengthMessage(field, rule.maxLength))
  {
  }

  /** Every rejection carries one of the source's five messages. */
  lemma RejectionMessages(field: string, rule: Rule, value: Value, urlParses: string -> bool)
    ensures var o := FieldOutcome(field, rule, value, urlParses);
            o.Rejected? ==>
              o.message in {RequiredMessage(field), "Invalid email format", "Invalid URL format",
                            MinLengthMessage(field, rule.minLength), MaxLengthMessage(field, rule.maxLength)}
  {
  }

  /** The `errors` and `data` objects the loop builds. */
  datatype Collected = Collected(errors: map<string, string>, data: map<string, string>)

  /** The two objects after the rules' entries have been visited in order. */
  function Validated(data: map<string, Value>, rules: Rules, urlParses: string -> bool): Collected
  {
    if rules == [] then Collected(map[], map[])
    else
      var prev := Validated(data, rules[..|rules| - 1], urlParses);
      var (field, rule) := rules[|rules| - 1];
      match FieldOutcome(field, rule, Field(data, field), urlParses)
      case Rejected(m) => prev.(errors := prev.errors[field := m])
      case Accepted(c) => prev.(data := prev.data[field := c])
  }

  datatype FormResult = FormResult(isValid: bool, errors: map<string, string>, data: map<string, string>)

  /** validate: visits the rules in order, records an error or the sanitized
      value for each field, and is valid exactly when no error was recorded. */
  method Validate(data: map<string, Value>, rules: Rules, urlParses: string -> bool) returns (result: FormResult)
    ensures result.errors == Validated(data, rules, urlParses).errors
    ensures result.data == Validated(data, rules, urlParses).data
    ensures result.isValid <==> result.errors == map[]
  {
    var errors: map<string, string> := map[];
    var sanitizedData: map<string, string> := map[];
    for i := 0 to |rules|
      invariant Collected(errors, sanitizedData) == Validated(data, rules[..i], urlParses)
    {
      var (field, rule) := rules[i];
      var value := Field(data, field);
      assert rules[..i + 1][..i] == rules[..i];
      if rule.required && (!Truthy(value) || Trim(ToString(value)) == "") {
        errors := errors[field := RequiredMessage(field)];
        continue;
      }
      if !Truthy(value) {
        sanitizedData := sanitizedData[field := ""];
        continue;
      }
      if rule.kind == Email && !IsValidEmail(value) {
        errors := errors[field := "Invalid email format"];
        continue;
      }
      if rule.kind == Url && !IsValidUrl(value, urlParses) {
        errors := errors[field := "Invalid URL format"];
        continue;
      }
      var length := LengthOf(value);
      if rule.minLength > 0 && length.Some? && length.value < rule.minLength {
        errors := errors[field := MinLengthMessage(field, rule.minLength)];
        continue;
      }
      if rule.maxLength > 0 && length.Some? && length.value > rule.maxLength {
        errors := errors[field := MaxLengthMessage(field, rule.maxLength)];
        continue;
      }
      sanitizedData := sanitizedData[field := SanitizeHtml(Str(ToString(value)))];
    }
    assert rules[..|rules|] == rules;
    result := FormResult(|errors| == 0, errors, sanitizedData);
  }

  /** Every field named by the rules lands in exactly one of the two
      objects: in `errors` with its message when rejected, in `data` with
      its sanitized text when accepted. */
  lemma {:induction false} ValidatedField(data: map<string, Value>, rules: Rules, urlParses: string -> bool, i: nat)
    requires DistinctFields(rules) && i < |rules|
    ensures var v := Validated(data, rules, urlParses);
            var o := FieldOutcome(rules[i].0, rules[i].1, Field(data, rules[i].0), urlParses);
            (o.Rejected? ==> rules[i].0 in v.errors && v.errors[rules[i].0] == o.message && rules[i].0 !in v.data)
            && (o.Accepted? ==> rules[i].0 in v.data && v.data[rules[i].0] == o.clean && rules[i].0 !in v.errors)
  {
    var init := rules[..|rules| - 1];
    if i < |rules| - 1 {
      assert init[i] == rules[i];
      assert DistinctFields(init);
      ValidatedField(data, init, urlParses, i);
      assert rules[|rules| - 1].0 != rules[i].0;
    } else {
      ValidatedFieldAbsent(data, init, urlParses, rules[i].0);
    }
  }

  /** A field no rule names appears in neither object. */
  lemma {:induction false} ValidatedFieldAbsent(data: map<string, Value>, rules: Rules, urlParses: string -> bool, f: string)
    requires f !in FieldNames(rules)
    ensures f !in Validated(data, rules, urlParses).errors && f !in Validated(data, rules, urlParses).data
  {
    if rules != [] {
      var init := rules[..|rules| - 1];
      assert FieldNames(init) <= FieldNames(rules) by {
        forall x | x in FieldNames(init) ensures x in FieldNames(rules) {
          var j :| 0 <= j < |init| && init[j].0 == x;
          assert rules[j].0 == x;
        }
      }
      ValidatedFieldAbsent(data, init, urlParses, f);
      assert rules[|rules| - 1].0 in FieldNames(rules);
    }
  }

  /** Nothing but the rules' fields is reported or stored. */
  lemma ValidatedKeys(data: map<string, Value>, rules: Rules, urlParses: string -> bool)
    ensures var v := Validated(data, rules, urlParses);
            v.errors.Keys <= FieldNames(rules) && v.data.Keys <= FieldNames(rules)
  {
    var v := Validated(data, rules, urlParses);
    forall f | f in v.errors || f in v.data ensures f in FieldNames(rules) {
      if f !in FieldNames(rules) {
        ValidatedFieldAbsent(data, rules, urlParses, f);
      }
    }
  }

  /** The form is valid exactly when every field meets its rule. */
  lemma ValidIffAllPass(data: map<string, Value>, rules: Rules, urlParses: string -> bool)
    requires DistinctFields(rules)
    ensures Validated(data, rules, urlParses).errors == map[] <==>
            forall i :: 0 <= i < |rules| ==> Passes(rules[i].1, Field(data, rules[i].0), urlParses)
  {
    var v := Validated(data, rules, urlParses);
    if v.errors == map[] {
      forall i | 0 <= i < |rules| ensures Passes(rules[i].1, Field(data, rules[i].0), urlParses) {
        ValidatedField(data, rules, urlParses, i);
      }
    } else {
      var f :| f in v.errors;
      ValidatedKeys(data, rules, urlParses);
      var i :| 0 <= i < |rules| && rules[i].0 == f;
      ValidatedField(data, rules, urlParses, i);
    }
  }

  /** No stored text holds a single quote or a '/'. */
  predicate Escaped(d: map<string, string>)
  {
    forall f :: f in d ==> '\'' !in d[f] && '/' !in d[f]
  }

  /** The stored data never holds a single quote or a '/'. */
  lemma {:induction false} DataSanitized(data: map<string, Value>, rules: Rules, urlParses: string -> bool)
    ensures Escaped(Validated(data, rules, urlParses).data)
  {
    if rules != [] {
      var init := rules[..|rules| - 1];
      DataSanitized(data, init, urlParses);
      var (field, rule) := rules[|rules| - 1];
      var value := Field(data, field);
      var o := FieldOutcome(field, rule, value, urlParses);
      var prev := Validated(data, init, urlParses);
      var d := Validated(data, rules, urlParses).data;
      assert d == if o.Accepted? then prev.data[field := o.clean] else prev.data;
      SanitizeHtmlRemovesQuoteAndSlash(Str(ToString(value)));
      forall f | f in d ensures '\'' !in d[f] && '/' !in d[f] {
        if f == field && o.Accepted? {
          assert d[f] == o.clean;
          if Truthy(value) {
            assert o.clean == SanitizeHtml(Str(ToString(value)));
          } else {
            assert o.clean == "";
          }
        } else {
          assert f in prev.data && d[f] == prev.data[f];
        }
      }
    }
  }

  /** defaultValidationRules, in source order. */
  function DefaultRules(): Rules
  {
    [ ("email", Rule(true, Email, 0, 100)),
      ("message", Rule(true, Other, 10, 1000)),
      ("name", Rule(true, Other, 2, 50)) ]
  }

  /** With the default rules a missing or blank field is reported as required. */
  lemma DefaultRulesRequired(urlParses: string -> bool)
    ensures FieldOutcome("message", DefaultRules()[1].1, Undefined, urlParses) == Rejected("message is required")
    ensures FieldOutcome("name", DefaultRules()[2].1, Str(""), urlParses) == Rejected("name is required")
    ensures FieldOutcome("name", DefaultRules()[2].1, Str("   "), urlParses) == Rejected("name is required")
  {
    ThreeSpacesBlank();
    var message := DefaultRules()[1].1;
    var name := DefaultRules()[2].1;
    assert message.required && name.required;
    RequiredRejectsFirst("message", message, Undefined, urlParses);
    RequiredRejectsFirst("name", name, Str(""), urlParses);
    RequiredRejectsFirst("name", name, Str("   "), urlParses);
    assert RequiredMessage("message") == "message is required";
    assert RequiredMessage("name") == "name is required";
  }

  lemma ThreeSpacesBlank()
    ensures Trim("   ") == ""
  {
    assert All("   ", IsWhiteSpace);
  }

  /** A non-blank string of another type shorter than the rule's minimum
      gets the minimum's message. */
  lemma TooShortRejected(field: string, rule: Rule, s: string, urlParses: string -> bool)
    requires rule.kind == Other && Trim(s) != "" && 0 < rule.minLength && Utf16Length(s) < rule.minLength
    ensures FieldOutcome(field, rule, Str(s), urlParses) == Rejected(MinLengthMessage(field, rule.minLength))
  {
    assert s != [];
    assert Truthy(Str(s)) && ToString(Str(s)) == s && LengthOf(Str(s)) == Some(Utf16Length(s));
  }

  /** A non-blank string of another type within the rule's bounds and free
      of quotes and slashes is stored unchanged. */
  lemma PlainTextAccepted(field: string, rule: Rule, s: string, urlParses: string -> bool)
    requires rule.kind == Other && Trim(s) != ""
    requires rule.minLength <= Utf16Length(s) && (rule.maxLength == 0 || Utf16Length(s) <= rule.maxLength)
    requires '\'' !in s && '/' !in s
    ensures FieldOutcome(field, rule, Str(s), urlParses) == Accepted(s)
  {
    assert s != [];
    assert Truthy(Str(s)) && ToString(Str(s)) == s && LengthOf(Str(s)) == Some(Utf16Length(s));
    SanitizeHtmlIdentityIff(s);
  }

  /** With the default rules a non-blank message under ten UTF-16 units is too short. */
  lemma DefaultRulesTooShort(s: string, urlParses: string -> bool)
    requires Trim(s) != "" && Utf16Length(s) < 10
    ensures FieldOutcome("message", DefaultRules()[1].1, Str(s), urlParses) == Rejected(MinLengthMessage("message", 10))
  {
    TooShortRejected("message", DefaultRules()[1].1, s, urlParses);
  }

  /** With the default rules a non-blank name of 2 to 50 units with no quote
      or slash is stored unchanged. */
  lemma DefaultRulesAcceptName(s: string, urlParses: string -> bool)
    requires Trim(s) != "" && 2 <= Utf16Length(s) <= 50 && '\'' !in s && '/' !in s
    ensures FieldOutcome("name", DefaultRules()[2].1, Str(s), urlParses) == Accepted(s)
  {
    PlainTextAccepted("name", DefaultRules()[2].1, s, urlParses);
  }
}
