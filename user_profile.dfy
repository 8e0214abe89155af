/** The password-change schema of the profile form (frontend/components/UserProfile.tsx),
    run through the validator. Its `alphaNum` entries name a rule the validator does not
    have, so they are not part of the schema here. */
module UserProfileSchema {
  import opened JsValues
  import opened Validation

  const PasswordRule: Rule := NoRules.(required := true, minLen := Some(6), maxLen := Some(30))

  /** `passwordSchema`, built from the current `newPassword` state. */
  function PasswordSchema(newPassword: Value): Schema {
    [("password", PasswordRule),
     ("newPassword", PasswordRule),
     ("newPasswordRep", NoRules.(required := true, matchValue := newPassword))]
  }

  predicate GoodPassword(v: Value) {
    v.Str? && 6 <= |v.s| <= 30
  }

  lemma {:induction false} GoodPasswordPasses(host: Host, key: string, v: Value)
    requires GoodPassword(v)
    ensures CheckField(host, key, PasswordRule, v) == Valid
  {
    forall name: RuleName ensures RuleStatus(host, PasswordRule, v, name) == Pass {
      assert ReadLength(v) == Length(|v.s|);
    }
  }

  /** A password of 5 characters is reported by `minLen`, not `maxLen`. */
  lemma {:induction false} ShortPasswordFailsMinLen(host: Host, s: string)
    requires |s| == 5
    ensures CheckField(host, "password", PasswordRule, Str(s))
         == Invalid("password", MinLen, Detail("password", PasswordRule, Str(s), MinLen))
  {
    var v := Str(s);
    assert ReadLength(v) == Length(5);
    forall m | Rank(m) < Rank(MinLen) ensures RuleStatus(host, PasswordRule, v, m) == Pass {
    }
    FailsAt(host, PasswordRule, v, MinLen);
  }

  /** With an empty new password the repeated-password `match` rule would be skipped
      (its expected value is falsy), but the `required` rule of `newPassword`, declared
      earlier, already rejects the form. */
  lemma {:induction false} EmptyNewPasswordRejected(host: Host, data: Data)
    requires GoodPassword(Lookup(data, "password"))
    requires Lookup(data, "newPassword") == Str("")
    ensures Validate(host, PasswordSchema(Str("")), data)
         == Invalid("newPassword", Required, Detail("newPassword", PasswordRule, Str(""), Required))
    ensures RuleStatus(host, PasswordSchema(Str(""))[2].1, Lookup(data, "newPasswordRep"), Match) == Pass
  {
    var schema := PasswordSchema(Str(""));
    var check := Checker(host);
    GoodPasswordPasses(host, "password", Lookup(data, "password"));
    assert EntryOutcome(check, schema, data, 0) == Valid;
    WalkSkipsPassingHead(check, schema, data);
    var tail := schema[1..];
    assert tail[0] == ("newPassword", PasswordRule);
    RequiredComesFirst(host, "newPassword", PasswordRule, Str(""));
    assert EntryOutcome(check, tail, data, 0)
        == Invalid("newPassword", Required, Detail("newPassword", PasswordRule, Str(""), Required));
    WalkStopsAtFailingHead(check, tail, data);
    assert Validate(host, schema, data) == Walk(check, schema, data);
    EmptyRepeatMatchSkipped(host, Lookup(data, "newPasswordRep"));
  }

  /** With an empty new password the repeat's `match` rule has a falsy expected value and
      is skipped. */
  lemma EmptyRepeatMatchSkipped(host: Host, rep: Value)
    ensures RuleStatus(host, PasswordSchema(Str(""))[2].1, rep, Match) == Pass
  {
  }

  /** The repeated-password rule passes exactly on the new password itself. */
  lemma RepeatRulePasses(host: Host, p: string, rep: Value)
    requires p != ""
    ensures (forall m :: RuleStatus(host, PasswordSchema(Str(p))[2].1, rep, m) == Pass) <==> rep == Str(p)
  {
    var rule := PasswordSchema(Str(p))[2].1;
    if rep == Str(p) {
      forall m ensures RuleStatus(host, rule, rep, m) == Pass {
      }
    } else {
      assert RuleStatus(host, rule, rep, Match) == Fail;
    }
  }

  /** With well-formed passwords the form passes exactly when the repetition equals the
      new password. */
  lemma {:induction false} RepeatMustMatch(host: Host, data: Data, p: string)
    requires GoodPassword(Lookup(data, "password"))
    requires Lookup(data, "newPassword") == Str(p) && 6 <= |p| <= 30
    ensures Validate(host, PasswordSchema(Str(p)), data) == Valid
        <==> Lookup(data, "newPasswordRep") == Str(p)
  {
    var schema := PasswordSchema(Str(p));
    var check := Checker(host);
    var rule := schema[2].1;
    var rep := Lookup(data, "newPasswordRep");
    GoodPasswordPasses(host, "password", Lookup(data, "password"));
    GoodPasswordPasses(host, "newPassword", Str(p));
    assert check("password", PasswordRule, Lookup(data, "password")) == Valid;
    assert check("newPassword", PasswordRule, Str(p)) == Valid;
    assert schema[1..][0] == ("newPassword", PasswordRule);
    assert schema[1..][1..] == schema[2..] == [("newPasswordRep", rule)];
    assert Walk(check, schema, data) == Walk(check, [("newPasswordRep", rule)], data);
    OneFieldWalk(check, "newPasswordRep", rule, data);
    CheckFieldPasses(host, "newPasswordRep", rule, rep);
    RepeatRulePasses(host, p, rep);
  }
}
