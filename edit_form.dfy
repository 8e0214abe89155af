/** The custom-link part of the post edit form (frontend/components/EditForm.tsx): the
    `validateSlug` predicate, the form's validation schema for the link, and `saveLink`,
    which validates the typed link, asks the API whether it is free and then stores it.

    The schema as written gives `match` a regular expression. The validator's `match` is
    strict equality, so the schema as written rejects every link; the model keeps that
    schema (`SchemaAsWritten`) to show it, and uses `SchemaCorrected`, which hands the
    same expression to `matchRegex`, for the form's intended behaviour. */
module EditForm {
  import opened JsValues
  import opened Validation
  import opened SlugChars
  import PostController

  /** `validateSlug`: a non-empty link that neither starts nor ends with `-` or `_`. */
  function ValidateSlug(slug: string): (ok: bool)
    ensures ok ==> |slug| >= 1
    ensures ok <==> slug != "" && slug[0] != '-' && slug[0] != '_'
                    && slug[|slug| - 1] != '-' && slug[|slug| - 1] != '_'
  {
    if slug == "" then false
    else if StartsWith(slug, "-") || StartsWith(slug, "_") then false
    else if EndsWith(slug, "-") || EndsWith(slug, "_") then false
    else true
  }

  /** `validateSlug` as the schema's `customValidation`. The form only ever passes it a
      string. */
  function SlugCustom(v: Value): (ok: bool)
    ensures v.Str? ==> (ok <==> ValidateSlug(v.s))
    ensures !v.Str? ==> !ok
  {
    v.Str? && ValidateSlug(v.s)
  }

  /** The source of the regular expression literal `/^[a-zA-Z0-9-_]*$/`. */
  const SlugPatternSource := "^[a-zA-Z0-9-_]*$"

  /** The heap identity of that literal. */
  const SlugPatternRef: nat := 0

  /** `/^[a-zA-Z0-9-_]*$/.test(v)`: the value is turned into a string and every character
      of it must be in the class. */
  function SlugRegexTest(v: Value): (ok: bool)
    ensures v.Str? ==> (ok <==> forall i :: 0 <= i < |v.s| ==> IsSlugChar(v.s[i]))
    ensures v == Undef ==> ok
  {
    assert v.Str? ==> Stringify(v) == v.s;
    MatchesSlugClass(Stringify(v))
  }

  /** The form's schema as written: the regular expression sits under `match`. */
  const SchemaAsWritten: Schema :=
    [("slug", NoRules.(matchValue := Pattern(SlugPatternRef, SlugPatternSource),
                       customValidation := Some(SlugCustom)))]

  /** The schema the form evidently means: the regular expression under `matchRegex`. */
  const SchemaCorrected: Schema :=
    [("slug", NoRules.(matchRegex := Some(SlugRegexTest), customValidation := Some(SlugCustom)))]

  /** The data `saveLink` validates: `{ slug: customLink }`. */
  function LinkData(link: string): Data {
    map["slug" := Str(link)]
  }

  lemma SlugPatternText()
    ensures Stringify(Pattern(SlugPatternRef, SlugPatternSource)) == "/^[a-zA-Z0-9-_]*$/"
  {
  }

  lemma MatchMessageText()
    ensures Says("slug", "did not match " + "/^[a-zA-Z0-9-_]*$/")
         == "Field slug did not match /^[a-zA-Z0-9-_]*$/"
  {
  }

  /** The default message of a `match` rule holding the slug expression writes the
      expression as its source between slashes, whatever the link. */
  lemma AsWrittenMatchMessage(rule: Rule, v: Value)
    requires rule.matchValue == Pattern(SlugPatternRef, SlugPatternSource)
    ensures Detail("slug", rule, v, Match) == "Field slug did not match /^[a-zA-Z0-9-_]*$/"
  {
    var shown := "/^[a-zA-Z0-9-_]*$/";
    SlugPatternText();
    MatchMessageText();
    calc {
      Detail("slug", rule, v, Match);
      Says("slug", "did not match " + Stringify(rule.matchValue));
      Says("slug", "did not match " + shown);
      "Field slug did not match /^[a-zA-Z0-9-_]*$/";
    }
  }

  /** With the schema as written, no link passes: a string is never `===` to a regular
      expression object, so `match` reports every link, the empty one included. */
  lemma AsWrittenRejectsEveryLink(host: Host, link: string)
    ensures Validate(host, SchemaAsWritten, LinkData(link))
         == Invalid("slug", Match, "Field slug did not match /^[a-zA-Z0-9-_]*$/")
  {
    var rule := SchemaAsWritten[0].1;
    var v := Str(link);
    assert Lookup(LinkData(link), "slug") == v;
    forall m | Rank(m) < Rank(Match) ensures RuleStatus(host, rule, v, m) == Pass {
    }
    assert RuleStatus(host, rule, v, Match) == Fail;
    FailsAt(host, rule, v, Match);
    AsWrittenMatchMessage(rule, v);
    var expected := Invalid("slug", Match, Detail("slug", rule, v, Match));
    assert Checker(host)("slug", rule, v) == expected;
  }

  /** With the corrected schema a link passes exactly when every character is a letter,
      a digit, `-` or `_`, and it is non-empty and neither starts nor ends with `-` or `_`.
      A rejected link is always a `ValidationError`, never a TypeError. */
  lemma CorrectedSchemaAcceptsExactly(host: Host, link: string)
    ensures Validate(host, SchemaCorrected, LinkData(link)).Valid?
        <==> (forall i :: 0 <= i < |link| ==> IsSlugChar(link[i])) && ValidateSlug(link)
    ensures !Validate(host, SchemaCorrected, LinkData(link)).TypeError?
  {
    var rule := SchemaCorrected[0].1;
    var v := Str(link);
    assert Lookup(LinkData(link), "slug") == v;
    OneFieldWalk(Checker(host), "slug", rule, LinkData(link));
    assert Validate(host, SchemaCorrected, LinkData(link)) == CheckField(host, "slug", rule, v);
    CheckFieldPasses(host, "slug", rule, v);
    CorrectedRuleStatus(host, link);
  }

  /** On a link, the corrected rule set can only fail its regular expression or its
      custom validation, and never throws. */
  lemma CorrectedRuleStatus(host: Host, link: string)
    ensures forall m :: RuleStatus(host, SchemaCorrected[0].1, Str(link), m) != Crash
    ensures forall m :: m != MatchRegex && m != CustomValidation ==>
      RuleStatus(host, SchemaCorrected[0].1, Str(link), m) == Pass
    ensures RuleStatus(host, SchemaCorrected[0].1, Str(link), MatchRegex)
         == FailIf(!MatchesSlugClass(link))
    ensures RuleStatus(host, SchemaCorrected[0].1, Str(link), CustomValidation)
         == FailIf(!ValidateSlug(link))
  {
    assert Stringify(Str(link)) == link;
  }

  /** The part of the form's state that `saveLink` changes: the post's custom link
      (`null` is `None`), whether the link dialog is shown, and its loading flag. */
  datatype LinkState = LinkState(slug: Option<string>, shown: bool, slugLoading: bool)

  /** The answer of `GET /api/post/check-slug/<link>`: free or taken, or a failed request. */
  datatype Reply = Available(free: bool) | RequestFailed

  /** The toast `saveLink` shows, if any. */
  datatype Toast = NoToast | InvalidLinkToast | LinkSavedToast | LinkTakenToast | CheckErrorToast

  /** `saveLink` on the typed link `link`, with `reply` standing for the API's answer. A
      `ValidationError` shows a toast; any other exception is swallowed. An empty link
      that passes validation only sets the loading flag. */
  function SaveLink(host: Host, schema: Schema, s: LinkState, link: string, reply: Reply): (r: (LinkState, Toast))
    ensures Validate(host, schema, LinkData(link)).Invalid? ==> r == (s, InvalidLinkToast)
    ensures Validate(host, schema, LinkData(link)).TypeError? ==> r == (s, NoToast)
    ensures r.0.slug != s.slug ==>
      r.0.slug == Some(link) && link != "" && reply == Available(true)
      && Validate(host, schema, LinkData(link)).Valid?
    ensures Validate(host, schema, LinkData(link)).Valid? && link != "" ==> !r.0.slugLoading
  {
    match Validate(host, schema, LinkData(link))
    case Invalid(_, _, _) => (s, InvalidLinkToast)
    case TypeError(_, _) => (s, NoToast)
    case Valid =>
      if link == "" then (s.(slugLoading := true), NoToast)
      else
        match reply
        case Available(free) =>
          if free then (s.(slugLoading := false, slug := Some(link), shown := false), LinkSavedToast)
          else (s.(slugLoading := false), LinkTakenToast)
        case RequestFailed => (s.(slugLoading := false), CheckErrorToast)
  }

  /** As written, `saveLink` never stores a link and never asks the API: every link ends
      in the "Invalid link" toast. */
  lemma AsWrittenNeverSavesLink(host: Host, s: LinkState, link: string, reply: Reply)
    ensures SaveLink(host, SchemaAsWritten, s, link, reply) == (s, InvalidLinkToast)
  {
    AsWrittenRejectsEveryLink(host, link);
  }

  /** With the corrected schema, `saveLink` stores a link exactly when it is well formed
      and the API reports it free. */
  lemma CorrectedSavesExactlyWellFormedFreeLinks(host: Host, s: LinkState, link: string, reply: Reply)
    ensures SaveLink(host, SchemaCorrected, s, link, reply).1 == LinkSavedToast
        <==> (forall i :: 0 <= i < |link| ==> IsSlugChar(link[i])) && ValidateSlug(link)
             && reply == Available(true)
    ensures SaveLink(host, SchemaCorrected, s, link, reply).1 == LinkSavedToast ==>
      SaveLink(host, SchemaCorrected, s, link, reply).0 == s.(slug := Some(link), shown := false, slugLoading := false)
  {
    CorrectedSchemaAcceptsExactly(host, link);
  }

  /** A link the corrected form stores also passes the post API's custom-link check when
      the post is saved. */
  lemma SavedLinkPassesUpdateCheck(host: Host, s: LinkState, link: string, reply: Reply,
                                   id: int, title: Value, content: Value)
    requires SaveLink(host, SchemaCorrected, s, link, reply).1 == LinkSavedToast
    requires id > 0 && Truthy(title) && Truthy(content)
    ensures PostController.UpdateCheck(id, title, content, Str(link)).None?
  {
    CorrectedSavesExactlyWellFormedFreeLinks(host, s, link, reply);
  }
}
