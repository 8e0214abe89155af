/** The declarative form validator `validateSchema` (frontend/util.ts): a schema maps
    field names to rule sets; the validator walks the schema's fields in order, applies
    the rules of each field in a fixed order to the field's value, and stops at the first
    rule that is violated. */
module Validation {
  import opened JsValues

  datatype RuleName =
    | Required | IsNumeric | MinValue | MaxValue | MinLen | MaxLen | Match | MatchRegex
    | Contains | NotContains | IsIn | NotIn | CustomValidation

  /** The order in which the rules of one field are checked. */
  const CheckOrder: seq<RuleName> :=
    [Required, IsNumeric, MinValue, MaxValue, MinLen, MaxLen, Match, MatchRegex,
     Contains, NotContains, IsIn, NotIn, CustomValidation]

  /** `ValidationRule`. An absent rule is `false`, `None`, `Undef` or the empty string,
      which is what the validator makes of a missing property. `matchRegex` is the
      regular expression's `test`, and `customValidation` the caller's predicate. */
  datatype Rule = Rule(
    required: bool,
    isNumeric: bool,
    minValue: Value,
    maxValue: Value,
    minLen: Option<int>,
    maxLen: Option<int>,
    matchValue: Value,
    matchRegex: Option<Value -> bool>,
    contains: string,
    notContains: string,
    isIn: Option<seq<Value>>,
    notIn: Option<seq<Value>>,
    customValidation: Option<Value -> bool>,
    errorText: string)

  const NoRules: Rule :=
    Rule(false, false, Undef, Undef, None, None, Undef, None, "", "", None, None, None, "")

  /** `ValidationSchema`, with its keys in the order a `for...in` loop visits them. */
  type Schema = seq<(string, Rule)>

  type Data = map<string, Value>

  /** The result of checking one rule: it holds, it is violated, or evaluating it throws
      a TypeError. */
  datatype Status = Pass | Fail | Crash

  function FailIf(b: bool): Status {
    if b then Fail else Pass
  }

  /** The result of `validateSchema`: `true`, a thrown `ValidationError` naming the field
      and the rule that failed, or a TypeError thrown while a rule was evaluated. */
  datatype Outcome =
    | Valid
    | Invalid(field: string, rule: RuleName, message: string)
    | TypeError(field: string, rule: RuleName)

  /** `data[key]`: a property the data does not have reads as undefined. */
  function Lookup(data: Data, key: string): (v: Value)
    ensures key !in data ==> v == Undef
    ensures key in data ==> v == data[key]
    ensures v != Undef ==> key in data && data[key] == v
  {
    if key in data then data[key] else Undef
  }

  /** A default message: it always opens with the field's name. */
  function Says(key: string, tail: string): (m: string)
    ensures |m| >= 7 + |key| && m[..7 + |key|] == "Field " + key + " "
  {
    "Field " + key + " " + tail
  }

  /** `err || default`: an empty `errorText` does not override. */
  function Message(errorText: string, detail: string): (m: string)
    ensures errorText != "" ==> m == errorText
    ensures errorText == "" ==> m == detail
  {
    if errorText != "" then errorText else detail
  }

  function Quoted(v: Value): string {
    "\"" + Stringify(v) + "\""
  }

  /** `required` fails on every falsy value except `false`. */
  function RequiredBroken(rule: Rule, v: Value): (broken: bool)
    ensures broken <==> rule.required && v in {Undef, Null, Num(0), Str("")}
  {
    rule.required && !(v.Bool? && v.b == false) && !Truthy(v)
  }

  /** `isNumeric` fails when `+v` is NaN. */
  function NumericBroken(host: Host, rule: Rule, v: Value): (broken: bool)
    ensures !rule.isNumeric ==> !broken
    ensures rule.isNumeric && (v.Num? || v.Bool? || v == Null) ==> !broken
    ensures rule.isNumeric && v == Undef ==> broken
  {
    rule.isNumeric && ToNumber(host, v).None?
  }

  /** `bound || typeof bound === 'number' && bound === 0`: a bound of 0 is enforced, the
      other falsy bounds switch the check off. */
  function BoundEnforced(bound: Value): (on: bool)
    ensures on <==> bound !in {Undef, Null, Bool(false), Str("")}
  {
    Truthy(bound) || bound == Num(0)
  }

  function MinValueBroken(host: Host, rule: Rule, v: Value): (broken: bool)
    ensures !BoundEnforced(rule.minValue) ==> !broken
    ensures v.Num? && rule.minValue.Num? ==> (broken <==> v.n < rule.minValue.n)
    ensures v == rule.minValue ==> !broken
  {
    JsLessIrreflexive(host, v);
    BoundEnforced(rule.minValue) && JsLess(host, v, rule.minValue)
  }

  function MaxValueBroken(host: Host, rule: Rule, v: Value): (broken: bool)
    ensures !BoundEnforced(rule.maxValue) ==> !broken
    ensures v.Num? && rule.maxValue.Num? ==> (broken <==> v.n > rule.maxValue.n)
    ensures v == rule.maxValue ==> !broken
  {
    JsLessIrreflexive(host, v);
    BoundEnforced(rule.maxValue) && JsLess(host, rule.maxValue, v)
  }

  /** `minLen` and `maxLen` read `v.length`: undefined and null make that read throw a
      TypeError, a value whose `length` is not a number fails, and otherwise the length
      is compared with the bound, which is enforced even when it is 0. */
  function LengthStatus(bound: Option<int>, atLeast: bool, v: Value): (r: Status)
    ensures bound.None? ==> r == Pass
    ensures bound.Some? ==> (r == Crash <==> v == Undef || v == Null)
    ensures bound.Some? && ReadLength(v).NotNumeric? ==> r == Fail
    ensures bound.Some? && ReadLength(v).Length? ==>
      (r == Fail <==> if atLeast then ReadLength(v).n < bound.value else ReadLength(v).n > bound.value)
  {
    if bound.None? then Pass
    else
      match ReadLength(v)
      case Throws => Crash
      case NotNumeric => Fail
      case Length(n) => FailIf(if atLeast then n < bound.value else n > bound.value)
  }

  /** `match` is skipped when the expected value is falsy, and is otherwise `===`. */
  function MatchBroken(rule: Rule, v: Value): (broken: bool)
    ensures !Truthy(rule.matchValue) ==> !broken
    ensures Truthy(rule.matchValue) && !IsObject(rule.matchValue) ==> (broken <==> v != rule.matchValue)
    ensures rule.matchValue.Pattern? && !v.Pattern? ==> broken
  {
    Truthy(rule.matchValue) && !StrictEq(v, rule.matchValue)
  }

  /** `matchRegex` tests every value, falsy ones included, and an absent one never fails. */
  function MatchRegexBroken(rule: Rule, v: Value): (broken: bool)
    ensures rule.matchRegex.None? ==> !broken
    ensures rule.matchRegex.Some? ==> (broken <==> !rule.matchRegex.value(v))
  {
    rule.matchRegex.Some? && !rule.matchRegex.value(v)
  }

  /** `contains` is skipped for a falsy value, fails for any other non-string, and on a
      string asks for the substring. */
  function ContainsBroken(rule: Rule, v: Value): (broken: bool)
    ensures rule.contains == "" ==> !broken
    ensures !Truthy(v) ==> !broken
    ensures rule.contains != "" && Truthy(v) && !v.Str? ==> broken
    ensures v.Str? ==> (broken <==> rule.contains != "" && v.s != "" && !IsSubstring(rule.contains, v.s))
  {
    rule.contains != "" && Truthy(v) && !(v.Str? && Includes(v.s, rule.contains))
  }

  function NotContainsBroken(rule: Rule, v: Value): (broken: bool)
    ensures rule.notContains == "" ==> !broken
    ensures !Truthy(v) ==> !broken
    ensures rule.notContains != "" && Truthy(v) && !v.Str? ==> broken
    ensures v.Str? ==> (broken <==> rule.notContains != "" && v.s != "" && IsSubstring(rule.notContains, v.s))
  {
    rule.notContains != "" && Truthy(v) && !(v.Str? && !Includes(v.s, rule.notContains))
  }

  function IsInBroken(rule: Rule, v: Value): (broken: bool)
    ensures rule.isIn.None? ==> !broken
    ensures !Truthy(v) ==> !broken
    ensures rule.isIn.Some? && Truthy(v) ==>
      (broken <==> forall i :: 0 <= i < |rule.isIn.value| ==> !StrictEq(rule.isIn.value[i], v))
  {
    rule.isIn.Some? && Truthy(v) && !ListIncludes(rule.isIn.value, v)
  }

  function NotInBroken(rule: Rule, v: Value): (broken: bool)
    ensures rule.notIn.None? ==> !broken
    ensures !Truthy(v) ==> !broken
    ensures rule.notIn.Some? && Truthy(v) ==>
      (broken <==> exists i :: 0 <= i < |rule.notIn.value| && StrictEq(rule.notIn.value[i], v))
  {
    rule.notIn.Some? && Truthy(v) && ListIncludes(rule.notIn.value, v)
  }

  /** `customValidation` is called on every value, falsy ones included, and an absent one
      never fails. */
  function CustomBroken(rule: Rule, v: Value): (broken: bool)
    ensures rule.customValidation.None? ==> !broken
    ensures rule.customValidation.Some? ==> (broken <==> !rule.customValidation.value(v))
  {
    rule.customValidation.Some? && !rule.customValidation.value(v)
  }

  /** The status of one named rule of `rule` on the value `v`. Only the length rules can
      throw, and only on undefined and null; a rule set with nothing set passes every value. */
  function RuleStatus(host: Host, rule: Rule, v: Value, name: RuleName): (r: Status)
    ensures r == Crash ==> (name == MinLen || name == MaxLen) && (v == Undef || v == Null)
    ensures rule == NoRules ==> r == Pass
  {
    match name
    case Required => FailIf(RequiredBroken(rule, v))
    case IsNumeric => FailIf(NumericBroken(host, rule, v))
    case MinValue => FailIf(MinValueBroken(host, rule, v))
    case MaxValue => FailIf(MaxValueBroken(host, rule, v))
    case MinLen => LengthStatus(rule.minLen, true, v)
    case MaxLen => LengthStatus(rule.maxLen, false, v)
    case Match => FailIf(MatchBroken(rule, v))
    case MatchRegex => FailIf(MatchRegexBroken(rule, v))
    case Contains => FailIf(ContainsBroken(rule, v))
    case NotContains => FailIf(NotContainsBroken(rule, v))
    case IsIn => FailIf(IsInBroken(rule, v))
    case NotIn => FailIf(NotInBroken(rule, v))
    case CustomValidation => FailIf(CustomBroken(rule, v))
  }

  /** The end of a length rule's message: the length read, or that there is none. */
  function LengthText(v: Value): (t: string)
    ensures ReadLength(v).Length? ==> t == "length of " + IntToDecimal(ReadLength(v).n)
    ensures !ReadLength(v).Length? ==> t == "no 'length' property"
  {
    match ReadLength(v)
    case Length(n) => "length of " + IntToDecimal(n)
    case _ => "no 'length' property"
  }

  /** A length rule's message: `head` about the bound, then what was read. */
  function LengthMessage(key: string, head: string, v: Value): (m: string)
    ensures |m| >= 7 + |key| && m[..7 + |key|] == "Field " + key + " "
    ensures EndsWith(m, LengthText(v))
  {
    EndsWithConcat("Field " + key + " " + head, LengthText(v));
    Says(key, head + LengthText(v))
  }

  /** The default message of rule `name` failing on the value `v` of field `key`. */
  function Detail(key: string, rule: Rule, v: Value, name: RuleName): (m: string)
    ensures |m| >= 7 + |key| && m[..7 + |key|] == "Field " + key + " "
    ensures name == MinLen || name == MaxLen ==> EndsWith(m, LengthText(v))
  {
    if name == MinLen then
      LengthMessage(key, "is expected to have at least " + IntToDecimal(if rule.minLen.Some? then rule.minLen.value else 0)
                         + " elements in it, but it has ", v)
    else if name == MaxLen then
      LengthMessage(key, "is expected to have " + IntToDecimal(if rule.maxLen.Some? then rule.maxLen.value else 0)
                         + " elements at most in it, but it has ", v)
    else Says(key, OtherDetail(rule, v, name))
  }

  /** What the default message of a rule other than the length rules says after
      "Field <key> ". */
  function OtherDetail(rule: Rule, v: Value, name: RuleName): string
    requires name != MinLen && name != MaxLen
  {
    match name
    case Required => "is required by the provided schema, but value is " + Quoted(v)
    case IsNumeric => "is expected to be numeric, but it's value is " + Quoted(v)
    case MinValue => "is expected to be greater than " + Stringify(rule.minValue) + ", but it's value is " + Quoted(v)
    case MaxValue => "is expected to be less than " + Stringify(rule.maxValue) + ", but it's value is " + Quoted(v)
    case Match => "did not match " + Stringify(rule.matchValue)
    case MatchRegex => "is expected to match the certain Regular Expression, but it does not"
    case Contains => "is expected to contain " + rule.contains + ", but it does not"
    case NotContains => "is expected not to contain " + rule.notContains + ", but it does"
    case IsIn => "does not match the permitted range of values"
    case NotIn => "does not match the permitted range of values"
    case CustomValidation => "failed on custom validation"
  }

  /** A length rule's default message tells a value without a numeric `length` apart
      from one that is too long or too short: the first ends in "no 'length' property",
      the second in the length it read. */
  lemma LengthDetailEnding(key: string, rule: Rule, v: Value, name: RuleName)
    requires name == MinLen || name == MaxLen
    ensures ReadLength(v).NotNumeric? ==> EndsWith(Detail(key, rule, v, name), "no 'length' property")
    ensures ReadLength(v).Length? ==>
      EndsWith(Detail(key, rule, v, name), "length of " + IntToDecimal(ReadLength(v).n))
  {
  }

  /** The position of a rule in `CheckOrder`. */
  function Rank(name: RuleName): (k: nat)
    ensures k < |CheckOrder| && CheckOrder[k] == name
  {
    match name
    case Required => 0
    case IsNumeric => 1
    case MinValue => 2
    case MaxValue => 3
    case MinLen => 4
    case MaxLen => 5
    case Match => 6
    case MatchRegex => 7
    case Contains => 8
    case NotContains => 9
    case IsIn => 10
    case NotIn => 11
    case CustomValidation => 12
  }

  /** The first rule, in check order, that does not pass on `v`: every rule ranked before
      it passed, and when there is none every rule passed. */
  function FirstFailing(host: Host, rule: Rule, v: Value): (r: Option<RuleName>)
    ensures r.Some? ==> RuleStatus(host, rule, v, r.value) != Pass
    ensures r.Some? ==> forall m :: Rank(m) < Rank(r.value) ==> RuleStatus(host, rule, v, m) == Pass
    ensures r.None? <==> forall m :: RuleStatus(host, rule, v, m) == Pass
  {
    if RuleStatus(host, rule, v, Required) != Pass then Some(Required)
    else if RuleStatus(host, rule, v, IsNumeric) != Pass then Some(IsNumeric)
    else if RuleStatus(host, rule, v, MinValue) != Pass then Some(MinValue)
    else if RuleStatus(host, rule, v, MaxValue) != Pass then Some(MaxValue)
    else if RuleStatus(host, rule, v, MinLen) != Pass then Some(MinLen)
    else if RuleStatus(host, rule, v, MaxLen) != Pass then Some(MaxLen)
    else if RuleStatus(host, rule, v, Match) != Pass then Some(Match)
    else if RuleStatus(host, rule, v, MatchRegex) != Pass then Some(MatchRegex)
    else if RuleStatus(host, rule, v, Contains) != Pass then Some(Contains)
    else if RuleStatus(host, rule, v, NotContains) != Pass then Some(NotContains)
    else if RuleStatus(host, rule, v, IsIn) != Pass then Some(IsIn)
    else if RuleStatus(host, rule, v, NotIn) != Pass then Some(NotIn)
    else if RuleStatus(host, rule, v, CustomValidation) != Pass then Some(CustomValidation)
    else None
  }

  /** The rule that fails while every rule ranked before it passes is the one reported. */
  lemma FailsAt(host: Host, rule: Rule, v: Value, name: RuleName)
    requires RuleStatus(host, rule, v, name) != Pass
    requires forall m :: Rank(m) < Rank(name) ==> RuleStatus(host, rule, v, m) == Pass
    ensures FirstFailing(host, rule, v) == Some(name)
  {
    var r := FirstFailing(host, rule, v);
    assert r.Some?;
    if Rank(r.value) < Rank(name) {
    } else if Rank(name) < Rank(r.value) {
    } else {
      assert CheckOrder[Rank(name)] == name;
    }
  }

  /** The body of the loop of `validateSchema` for one field: its rules in check order,
      stopping at the first that does not pass. Every failure names the field; the message
      is the field's `errorText` when one is set, whichever rule failed, and otherwise a
      default message that opens with "Field <key> ". */
  function CheckField(host: Host, key: string, rule: Rule, v: Value): (o: Outcome)
    ensures o.Valid? <==> FirstFailing(host, rule, v).None?
    ensures !o.Valid? ==> FirstFailing(host, rule, v) == Some(o.rule)
    ensures !o.Valid? ==> (o.TypeError? <==> RuleStatus(host, rule, v, o.rule) == Crash)
    ensures !o.Valid? ==> o.field == key
    ensures o.Invalid? && rule.errorText != "" ==> o.message == rule.errorText
    ensures o.Invalid? && rule.errorText == "" ==>
      |o.message| >= 7 + |key| && o.message[..7 + |key|] == "Field " + key + " "
  {
    match FirstFailing(host, rule, v)
    case None => Valid
    case Some(name) =>
      if RuleStatus(host, rule, v, name) == Crash then TypeError(key, name)
      else Invalid(key, name, Message(rule.errorText, Detail(key, rule, v, name)))
  }

  /** `required` is checked before any other rule, so a required field whose value is
      missing, null, 0 or the empty string is always reported as `required`. */
  lemma RequiredComesFirst(host: Host, key: string, rule: Rule, v: Value)
    requires RequiredBroken(rule, v)
    ensures CheckField(host, key, rule, v)
         == Invalid(key, Required, Message(rule.errorText, Detail(key, rule, v, Required)))
  {
  }
  /** A required field that the data does not have at all is reported as `required`. */
  lemma MissingRequiredField(host: Host, key: string, rule: Rule, data: Data)
    requires rule.required && key !in data
    ensures CheckField(host, key, rule, Lookup(data, key)).Invalid?
    ensures CheckField(host, key, rule, Lookup(data, key)).rule == Required
  {
    RequiredComesFirst(host, key, rule, Lookup(data, key));
  }

  /** A field passes exactly when every one of its rules passes, and the check throws
      only when evaluating one of its rules throws. */
  lemma CheckFieldPasses(host: Host, key: string, rule: Rule, v: Value)
    ensures CheckField(host, key, rule, v).Valid? <==> forall m :: RuleStatus(host, rule, v, m) == Pass
    ensures CheckField(host, key, rule, v).TypeError? ==> exists m :: RuleStatus(host, rule, v, m) == Crash
  {
    var r := FirstFailing(host, rule, v);
    if r.Some? && RuleStatus(host, rule, v, r.value) == Crash {
      assert RuleStatus(host, rule, v, r.value) == Crash;
    }
  }


  /** A check applied to one schema entry: its key, its rules and the value under that key. */
  type FieldCheck = (string, Rule, Value) -> Outcome

  function Checker(host: Host): FieldCheck {
    (key: string, rule: Rule, v: Value) => CheckField(host, key, rule, v)
  }

  /** What `check` gives for the i-th schema entry. */
  function EntryOutcome(check: FieldCheck, schema: Schema, data: Data, i: nat): Outcome
    requires i < |schema|
  {
    check(schema[i].0, schema[i].1, Lookup(data, schema[i].0))
  }

  /** The walk over the schema's entries in order, stopping at the first whose check does
      not pass: the result is either a pass or what the check gave for one of the entries. */
  function Walk(check: FieldCheck, schema: Schema, data: Data): (o: Outcome)
    ensures schema == [] ==> o == Valid
    ensures o == Valid || exists i :: 0 <= i < |schema| && o == EntryOutcome(check, schema, data, i)
    decreases |schema|
  {
    if schema == [] then Valid
    else
      var o := check(schema[0].0, schema[0].1, Lookup(data, schema[0].0));
      if o.Valid? then
        var rest := Walk(check, schema[1..], data);
        assert forall i :: 0 <= i < |schema| - 1 ==>
          EntryOutcome(check, schema[1..], data, i) == EntryOutcome(check, schema, data, i + 1);
        rest
      else
        assert o == EntryOutcome(check, schema, data, 0);
        o
  }
  /** A first entry that passes hands the walk on to the remaining entries. */
  lemma WalkSkipsPassingHead(check: FieldCheck, schema: Schema, data: Data)
    requires schema != [] && EntryOutcome(check, schema, data, 0) == Valid
    ensures Walk(check, schema, data) == Walk(check, schema[1..], data)
  {
  }

  /** A first entry that does not pass is what the walk reports. */
  lemma WalkStopsAtFailingHead(check: FieldCheck, schema: Schema, data: Data)
    requires schema != [] && EntryOutcome(check, schema, data, 0) != Valid
    ensures Walk(check, schema, data) == EntryOutcome(check, schema, data, 0)
  {
  }

  /** A schema of one field reports exactly that field's check. */
  lemma OneFieldWalk(check: FieldCheck, key: string, rule: Rule, data: Data)
    ensures Walk(check, [(key, rule)], data) == check(key, rule, Lookup(data, key))
  {
    assert [(key, rule)][1..] == [];
  }


  /** `validateSchema(schema, data)` as a function. An empty schema accepts any data, and
      a failure always names a field the schema declares. */
  function Validate(host: Host, schema: Schema, data: Data): (o: Outcome)
    ensures schema == [] ==> o == Valid
    ensures !o.Valid? ==> exists i :: 0 <= i < |schema| && schema[i].0 == o.field
  {
    var o := Walk(Checker(host), schema, data);
    assert forall i :: 0 <= i < |schema| ==> !EntryOutcome(Checker(host), schema, data, i).Valid? ==>
      EntryOutcome(Checker(host), schema, data, i).field == schema[i].0;
    o
  }

  /** What the loop body computes for the i-th schema entry. */
  function FieldOutcome(host: Host, schema: Schema, data: Data, i: nat): Outcome
    requires i < |schema|
  {
    EntryOutcome(Checker(host), schema, data, i)
  }

  /** The walk passes iff every entry passes; otherwise it reports the first entry, in
      schema order, that does not pass. */
  lemma {:induction false} WalkIsFirstFailure(check: FieldCheck, schema: Schema, data: Data)
    ensures var o := Walk(check, schema, data);
      (o == Valid <==> forall i :: 0 <= i < |schema| ==> EntryOutcome(check, schema, data, i) == Valid)
      && (o != Valid ==>
            exists i :: 0 <= i < |schema|
              && (forall j :: 0 <= j < i ==> EntryOutcome(check, schema, data, j) == Valid)
              && o == EntryOutcome(check, schema, data, i))
    decreases |schema|
  {
    if schema != [] {
      var tail := schema[1..];
      WalkIsFirstFailure(check, tail, data);
      if EntryOutcome(check, schema, data, 0) == Valid {
        forall i | 0 <= i < |tail|
          ensures EntryOutcome(check, tail, data, i) == EntryOutcome(check, schema, data, i + 1)
        {
          assert tail[i] == schema[i + 1];
        }
        var o := Walk(check, tail, data);
        if o != Valid {
          var i :| 0 <= i < |tail|
            && (forall j :: 0 <= j < i ==> EntryOutcome(check, tail, data, j) == Valid)
            && o == EntryOutcome(check, tail, data, i);
          forall j | 0 <= j < i + 1 ensures EntryOutcome(check, schema, data, j) == Valid {
            if j > 0 { assert EntryOutcome(check, tail, data, j - 1) == Valid; }
          }
        } else {
          forall i | 0 <= i < |schema| ensures EntryOutcome(check, schema, data, i) == Valid {
            if i > 0 { assert EntryOutcome(check, tail, data, i - 1) == Valid; }
          }
        }
      }
    }
  }

  /** The validator returns true iff every field of the schema passes; otherwise it
      reports the first failing field in schema order, so of two failing fields the one
      declared first is reported. */
  lemma ValidateIsFirstFailure(host: Host, schema: Schema, data: Data)
    ensures var o := Validate(host, schema, data);
      (o == Valid <==> forall i :: 0 <= i < |schema| ==> FieldOutcome(host, schema, data, i) == Valid)
      && (o != Valid ==>
            exists i :: 0 <= i < |schema|
              && (forall j :: 0 <= j < i ==> FieldOutcome(host, schema, data, j) == Valid)
              && o == FieldOutcome(host, schema, data, i))
  {
    var check := Checker(host);
    WalkIsFirstFailure(check, schema, data);
    forall i | 0 <= i < |schema|
      ensures FieldOutcome(host, schema, data, i) == EntryOutcome(check, schema, data, i)
    {
    }
    var o := Validate(host, schema, data);
    if o != Valid {
      var i :| 0 <= i < |schema|
        && (forall j :: 0 <= j < i ==> EntryOutcome(check, schema, data, j) == Valid)
        && o == EntryOutcome(check, schema, data, i);
      assert o == FieldOutcome(host, schema, data, i);
    }
  }

  /** Only the keys the schema declares are read: two data records that agree on those
      keys are walked alike, whatever else they hold. */
  lemma {:induction false} OnlySchemaKeysMatter(check: FieldCheck, schema: Schema, d1: Data, d2: Data)
    requires forall i :: 0 <= i < |schema| ==> Lookup(d1, schema[i].0) == Lookup(d2, schema[i].0)
    ensures Walk(check, schema, d1) == Walk(check, schema, d2)
    decreases |schema|
  {
    if schema != [] {
      assert Lookup(d1, schema[0].0) == Lookup(d2, schema[0].0);
      var tail := schema[1..];
      forall i | 0 <= i < |tail| ensures Lookup(d1, tail[i].0) == Lookup(d2, tail[i].0) {
        assert tail[i] == schema[i + 1];
      }
      OnlySchemaKeysMatter(check, tail, d1, d2);
    }
  }

  /** A data key the schema does not declare never affects the result. */
  lemma UndeclaredKeyIgnored(host: Host, schema: Schema, data: Data, k: string, v: Value)
    requires forall i :: 0 <= i < |schema| ==> schema[i].0 != k
    ensures Validate(host, schema, data[k := v]) == Validate(host, schema, data)
  {
    OnlySchemaKeysMatter(Checker(host), schema, data[k := v], data);
  }

  /** `validateSchema`: the `for...in` loop over the schema's keys, which throws at the
      first violated rule and otherwise returns true. The arguments are values, so the
      validator cannot change the caller's schema or data. */
  method ValidateSchema(host: Host, schema: Schema, data: Data) returns (r: Outcome)
    ensures r == Validate(host, schema, data)
    ensures r.Valid? <==> forall i :: 0 <= i < |schema| ==> FieldOutcome(host, schema, data, i).Valid?
  {
    var i := 0;
    while i < |schema|
      invariant 0 <= i <= |schema|
      invariant Validate(host, schema, data) == Walk(Checker(host), schema[i..], data)
    {
      var key := schema[i].0;
      var outcome := CheckField(host, key, schema[i].1, Lookup(data, key));
      assert schema[i..][0] == schema[i];
      if !outcome.Valid? {
        r := outcome;
        ValidateIsFirstFailure(host, schema, data);
        return;
      }
      assert schema[i..][1..] == schema[i + 1..];
      i := i + 1;
    }
    r := Valid;
    ValidateIsFirstFailure(host, schema, data);
  }
}
