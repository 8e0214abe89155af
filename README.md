# blog-react-nest: the form validator and the input rules of the blog, in Dafny

This project models the decision logic of a small blog (a Next.js front end, a NestJS post
API and a NestJS image service) and proves properties of it.

- `validation.dfy` models `validateSchema` of `frontend/util.ts`, the declarative form
  validator. A schema maps field names to rule sets. The validator walks the fields in schema
  order, applies the rules of each field in a fixed order and throws at the first violated
  rule. `ValidateSchema` is the loop, proved equal to the specification function `Validate`.
  Lemmas about `Validate` state that the first failing field wins and that only the
  schema's keys matter. The rules of one field are stated in the contracts of `CheckField`
  and of the per-rule functions: the `errorText` override, the `required` exception for
  `false`, inclusive bounds, a bound of `0` still enforced, and the skip conditions.
- `js_values.dfy` holds the JavaScript values the validator inspects and the language
  operations it relies on: truthiness, `===`, template-literal text, `+v`, `<`, reading
  `.length`, `String.prototype.includes` and `Array.prototype.includes`.
- `user_profile.dfy` runs the password-change schema of `frontend/components/UserProfile.tsx`
  through the validator.
- `post_controller.dfy` models the post API of `backend/src/post.controller.ts`: paging
  arithmetic, the list filter, the checks of `createPost` and the in-place normalisation of
  `published`, the checks of `updatePost`, the "visible post" predicate, and the soft delete.
  The stored posts are a class whose `posts` map the update and delete methods change.
- `slug_chars.dfy` is the custom-link character class `[a-zA-Z0-9-_]`, used by the API and
  by the edit form.
- `edit_form.dfy` models `validateSlug`, the custom-link schema and `saveLink` of
  `frontend/components/EditForm.tsx`.
- `upload.dfy` models the image service of `images/src/app.controller.ts`: the extension
  filter, the stored file name, the size limit and the returned URL.

Three points where the code's behaviour is easy to misread, modelled as the code has them:

- `minLen` and `maxLen` read `val.length`. On `undefined` or `null` that read throws a
  TypeError, not a `ValidationError`. The model reports it as `Outcome.TypeError`.
- `ValidationRule` has no `type`, `dontMatch` or `alphaNum` rule, and `validateSchema`
  ignores such properties. The model leaves them out in the same way. The tests in
  `frontend/test/validation.ts` exercise `type`, and `UserProfile.tsx` passes `alphaNum`.
  A grouped `contains` is different: the typed interface rules it out, but
  `validateSchema` would pass an array under `contains` to `val.includes`, which searches
  for its comma-joined text. The model's `contains: string` cannot express it.
- `path.extname` follows Node's rule for a name without `/`. The extension is the text from
  the last dot on. There is none when the name has no dot, when its last dot is its first
  character, or when the name is `..`.

## Model

| member | source | states |
|---|---|---|
| JsValues.FalsyValues | frontend/util.ts:53-55 | the falsy values are exactly undefined, null, false, 0 and "" |
| JsValues.StrictEqNeverAcrossKinds | frontend/util.ts:97-99 | `===` never holds between a string and a non-string, or between an object and a primitive |
| JsValues.JsLessNumbers | frontend/util.ts:63-73 | `<` on two numbers is integer order |
| JsValues.JsLessIrreflexive | frontend/util.ts:63-73 | no value is `<` itself, so a value equal to its bound passes `minValue`/`maxValue` |
| JsValues.NatToDecimal | frontend/util.ts:79-81 | the digits written for a number read back as that number, with no leading zero |
| JsValues.IntToDecimal | frontend/util.ts:64-66 | a number is written with a minus sign iff it is negative, followed by digits that read back as its magnitude |
| JsValues.Includes | frontend/util.ts:105-111 | `includes` is true iff the needle occurs as a contiguous substring |
| Validation.Says | frontend/util.ts:54-123 | every default message starts with "Field <key> " |
| Validation.Lookup | frontend/util.ts:50 | a key the data has reads as its value, and a key it lacks reads as undefined |
| Validation.RequiredBroken | frontend/util.ts:53-55 | `required` fails exactly on undefined, null, 0 and ""; `false` passes |
| Validation.NumericBroken | frontend/util.ts:57-61 | `isNumeric` is off unless set; numbers, booleans and null pass; undefined fails |
| Validation.BoundEnforced | frontend/util.ts:63-73 | a bound is enforced unless it is undefined, null, false or ""; a bound of 0 is enforced |
| Validation.MinValueBroken | frontend/util.ts:63-67 | on numbers `minValue` fails iff the value is below the bound; the bound itself passes |
| Validation.MaxValueBroken | frontend/util.ts:69-73 | on numbers `maxValue` fails iff the value is above the bound; the bound itself passes |
| Validation.LengthStatus | frontend/util.ts:75-95 | a length rule throws on undefined/null, fails without a numeric length, else compares the length inclusively |
| Validation.MatchBroken | frontend/util.ts:97-99 | `match` is skipped for a falsy expected value, else demands `===`; a regular expression never equals a non-object |
| Validation.MatchRegexBroken | frontend/util.ts:101-103 | an absent `matchRegex` never fails; a present one fails exactly when its test is false, on falsy values too |
| Validation.ContainsBroken | frontend/util.ts:105-107 | `contains` is skipped for falsy values, fails for other non-strings, and on strings demands the substring |
| Validation.NotContainsBroken | frontend/util.ts:109-111 | `notContains` is skipped for falsy values, fails for other non-strings, and on strings forbids the substring |
| Validation.IsInBroken | frontend/util.ts:113-115 | `isIn` is skipped for falsy values and otherwise fails iff no list element is `===` the value |
| Validation.NotInBroken | frontend/util.ts:117-119 | `notIn` is skipped for falsy values and otherwise fails iff some list element is `===` the value |
| Validation.CustomBroken | frontend/util.ts:121-125 | an absent `customValidation` never fails; a present one fails exactly when it returns false, on falsy values too |
| Validation.RuleStatus | frontend/util.ts:53-125 | only `minLen`/`maxLen` can throw, and only on undefined or null; a rule set with nothing set passes every value |
| Validation.Detail | frontend/util.ts:54-123 | every default message starts with "Field <key> ", and a length rule's message ends with what reading `length` gave |
| Validation.LengthDetailEnding | frontend/util.ts:75-95 | a length rule's message ends in "no 'length' property" when the length is not a number, else in "length of <n>" |
| Validation.Rank | frontend/util.ts:53-125 | each rule has its place in the fixed check order |
| Validation.FirstFailing | frontend/util.ts:53-125 | the reported rule does not pass and every rule checked before it passes; none is reported iff all pass |
| Validation.FailsAt | frontend/util.ts:53-125 | a failing rule whose predecessors all pass is the first failing rule, which `CheckField` reports |
| Validation.CheckField | frontend/util.ts:49-125 | a field passes iff no rule fails; otherwise it reports the first failing rule in check order, as a TypeError iff that rule throws, naming the field and carrying `errorText` when set, else a "Field <key> " message |
| Validation.RequiredComesFirst | frontend/util.ts:53-55 | a broken `required` is always the rule reported, before any other rule is evaluated |
| Validation.MissingRequiredField | frontend/util.ts:50-55 | a required field missing from the data is reported by `required` |
| Validation.CheckFieldPasses | frontend/util.ts:53-125 | a field passes iff every rule passes, and throws only when a rule throws |
| Validation.Walk | frontend/util.ts:48-128 | the walk over an empty schema passes; otherwise its result is a pass or the outcome of one of the schema's entries |
| Validation.OneFieldWalk | frontend/util.ts:48-128 | a one-field schema reports exactly that field's check |
| Validation.WalkIsFirstFailure | frontend/util.ts:48-128 | the walk passes iff every entry passes, else reports the first failing entry in schema order |
| Validation.Validate | frontend/util.ts:47-128 | an empty schema accepts any data, and a failure always names a field the schema declares |
| Validation.ValidateIsFirstFailure | frontend/util.ts:48-128 | `validateSchema` returns true iff every field passes, else reports the first failing field |
| Validation.OnlySchemaKeysMatter | frontend/util.ts:48-50 | two data records that agree on the schema's keys give the same result |
| Validation.UndeclaredKeyIgnored | frontend/util.ts:48-50 | a data key the schema does not declare never changes the result |
| Validation.ValidateSchema | frontend/util.ts:47-128 | the loop computes `Validate`, and returns Valid iff every field passes |
| UserProfileSchema.GoodPasswordPasses | frontend/components/UserProfile.tsx:57-69 | a string of 6 to 30 characters passes the password rules |
| UserProfileSchema.ShortPasswordFailsMinLen | frontend/components/UserProfile.tsx:57-63 | a 5-character password is reported by `minLen` |
| UserProfileSchema.EmptyNewPasswordRejected | frontend/components/UserProfile.tsx:57-74 | an empty new password skips the repeat's `match` but is rejected by `required` first |
| UserProfileSchema.RepeatRulePasses | frontend/components/UserProfile.tsx:70-73 | for a non-empty new password, the repeat rule passes exactly on that password |
| UserProfileSchema.RepeatMustMatch | frontend/components/UserProfile.tsx:57-74 | with good passwords the form passes iff the repetition equals the new password |
| SlugChars.MatchesSlugClass | backend/src/post.controller.ts:138 | the anchored class test holds iff every character is a letter, digit, `-` or `_` |
| PostController.PageCount | backend/src/post.controller.ts:43 | `ceil(count/20)`: 0 for no posts, otherwise the fewest pages of 20 that hold them |
| PostController.PageCountExamples | backend/src/post.controller.ts:43 | 0, 20 and 21 posts give 0, 1 and 2 pages |
| PostController.PageOf | backend/src/post.controller.ts:38 | a truthy numeric query gives its number as the page; any other query gives page 1 |
| PostController.Offset | backend/src/post.controller.ts:39 | the offset is a multiple of 20, 0 for page 1, and non-negative exactly for pages from 1 |
| PostController.MissingPageIsFirst | backend/src/post.controller.ts:38-39 | a missing, empty or non-numeric page gives page 1 and offset 0 |
| PostController.PagesCoverPositions | backend/src/post.controller.ts:38-43 | every post position lies in the window of exactly one page from 1 to the page count |
| PostController.PastLastPageIsEmpty | backend/src/post.controller.ts:39-43 | a page past the last one starts after every post |
| PostController.ListFilter | backend/src/post.controller.ts:40 | the filter always asks for published, non-archived posts, and has an author iff `+author` is a number |
| PostController.ListedPostsAreVisible | backend/src/post.controller.ts:40-43 | every listed post is one the single-post handlers treat as existing |
| PostController.VisiblePostsAreListed | backend/src/post.controller.ts:40-41 | a post is visible (published, not archived) iff the list without an author query selects it |
| PostController.CreateAccepts | backend/src/post.controller.ts:57-68 | creation needs a truthy title and content and a boolean or non-empty string `published` |
| PostController.NormalisedPublished | backend/src/post.controller.ts:70-75 | the normalised `published` is a boolean, and a boolean input is kept |
| PostController.NormalisedPublishedMeaning | backend/src/post.controller.ts:57-75 | after the check, `published` is true iff the input was `true` or "true" |
| PostController.NormalisationIdempotent | backend/src/post.controller.ts:70-75 | normalising twice is normalising once |
| PostController.CreatePost | backend/src/post.controller.ts:56-80 | rejects with the required-fields message, or rewrites `data.published` in place and builds the post with the author's id |
| PostController.GetPost | backend/src/post.controller.ts:93-101 | a post is returned iff the id is non-zero and the post is visible; id 0 is a bad request; a missing, unpublished or archived post is a not-found naming the id |
| PostController.GetPostBySlug | backend/src/post.controller.ts:109-117 | a post is returned iff the slug is non-empty and the post is visible; an empty slug is a bad request; an invisible post is a not-found naming the slug |
| PostController.UpdateCheck | backend/src/post.controller.ts:132-140 | an update passes iff the id is positive, title and content are truthy, and a truthy slug is in the character class |
| PostController.PatchIdempotent | backend/src/post.controller.ts:146 | sending the same update twice stores the same post as sending it once |
| PostController.PatchWithStoredValues | backend/src/post.controller.ts:146 | an update that writes back the stored values leaves the post unchanged |
| PostController.PatchVisibility | backend/src/post.controller.ts:143-146 | an update without `published`/`archive` keeps the post visible; `archive: true` hides it |
| PostController.PostTable.UpdatePost | backend/src/post.controller.ts:128-151 | bad request on a failed check, not found on an invisible post, else the stored post is patched, returned under its own id, and nothing else changes |
| PostController.PostTable.DeletePost | backend/src/post.controller.ts:162-172 | a soft delete: only `archive` of the one post is set, no post is removed, and the post is no longer visible |
| PostController.DeletedPostIsHidden | backend/src/post.controller.ts:166-168 | an archived post is not visible, `getPost` answers not found, and no list filter selects it |
| EditForm.ValidateSlug | frontend/components/EditForm.tsx:44-54 | a link passes iff it is non-empty and neither starts nor ends with `-` or `_` |
| EditForm.SlugCustom | frontend/components/EditForm.tsx:60 | on a string the custom validation is `validateSlug`; any other value is rejected |
| EditForm.SlugRegexTest | frontend/components/EditForm.tsx:59 | on a string the expression's test holds iff every character is a letter, digit, `-` or `_`; undefined, read as "undefined", passes |
| EditForm.AsWrittenMatchMessage | frontend/components/EditForm.tsx:56-62 | the schema's `match` message prints the expression as "/^[a-zA-Z0-9-_]*$/" |
| EditForm.AsWrittenRejectsEveryLink | frontend/components/EditForm.tsx:56-62 | with the schema as written every link, the empty one included, fails `match` |
| EditForm.CorrectedRuleStatus | frontend/components/EditForm.tsx:56-62 | on a link the corrected rules never throw and only the expression and `validateSlug` can fail |
| EditForm.CorrectedSchemaAcceptsExactly | frontend/components/EditForm.tsx:56-62 | the corrected schema accepts a link iff it is in the character class and passes `validateSlug` |
| EditForm.SaveLink | frontend/components/EditForm.tsx:89-133 | a rejected link leaves the state unchanged; the link changes only to a validated, non-empty link the API reports free |
| EditForm.AsWrittenNeverSavesLink | frontend/components/EditForm.tsx:89-101 | as written, every call ends in the "Invalid link" toast with the state unchanged |
| EditForm.CorrectedSavesExactlyWellFormedFreeLinks | frontend/components/EditForm.tsx:89-121 | with the corrected schema a link is saved iff it is well formed and free, and then the dialog closes |
| EditForm.SavedLinkPassesUpdateCheck | frontend/components/EditForm.tsx:110-116 | a link the form saves also passes the post API's custom-link check |
| Upload.WithinSizeLimit | images/src/app.controller.ts:36-46 | the size limit is 10485760 bytes, inclusive |
| Upload.LowerChar | images/src/app.controller.ts:18 | lower-casing maps each ASCII capital to the same letter in small case and changes nothing else |
| Upload.Lower | images/src/app.controller.ts:18 | the lower-cased name has the same length and no capital letter left |
| Upload.LowerIdempotent | images/src/app.controller.ts:18 | lower-casing twice is lower-casing once, and text without capitals is kept |
| Upload.LastDot | images/src/app.controller.ts:27 | the index found holds a dot with no dot after it; none is found iff the name has no dot |
| Upload.ImageFileFilter | images/src/app.controller.ts:17-23 | the callback gets no error and `true` iff the name is an image name, else the error and `false` |
| Upload.ExtensionsHaveOneDot | images/src/app.controller.ts:18 | each accepted extension is a dot followed by dot-free text |
| Upload.ImageNameHasExtensionAtLastDot | images/src/app.controller.ts:18 | a name ending in an extension has its last dot where the extension starts |
| Upload.ImageNameByLastDot | images/src/app.controller.ts:18 | a name is accepted iff the text from its last dot, lower-cased, is one of the extensions |
| Upload.UpperCaseExtensionAccepted | images/src/app.controller.ts:18 | "a.PNG" is accepted |
| Upload.UnanchoredExtensionRejected | images/src/app.controller.ts:18 | "a.png.exe" and "png" are rejected |
| Upload.DotDotRejected | images/src/app.controller.ts:18 | the name "..", which `path.extname` treats apart, is rejected |
| Upload.BaseName | images/src/app.controller.ts:26 | the base is the dot-free prefix up to the first dot, or the whole name |
| Upload.ExtName | images/src/app.controller.ts:27 | the extension is the text from a last dot that is not the first character, or nothing |
| Upload.HexChunk | images/src/app.controller.ts:30 | a chunk is hex text that reads back as its number: one digit below 16, two for 16 |
| Upload.HexChunks | images/src/app.controller.ts:28-31 | n chunks give n to 2n hex digits |
| Upload.RandomName | images/src/app.controller.ts:28-31 | the random part is 4 to 8 hex digits |
| Upload.StoredName | images/src/app.controller.ts:26-33 | the stored name is the base name and `-`, then 4 to 8 hex digits, then the extension |
| Upload.StoredNameKeepsExtension | images/src/app.controller.ts:25-33 | the stored name has the extension of the uploaded name, and no dot when that has none |
| Upload.AcceptedNameWithoutExtension | images/src/app.controller.ts:18-27 | an accepted name has no extension iff it is nothing but an extension, such as ".png" |
| Upload.AcceptedUploadStaysImage | images/src/app.controller.ts:17-33 | an accepted upload is stored under an accepted name unless it is nothing but an extension |
| Upload.DotOnlyNameLosesExtension | images/src/app.controller.ts:17-33 | ".png" is accepted but stored under a name the filter would reject |
| Upload.UploadUrl | images/src/app.controller.ts:56-58 | the URL is the endpoint, `/files/` and the file name |
| Upload.UrlRoundTrip | images/src/app.controller.ts:56-58 | the file name is recovered from the URL, and only its own URL gives it back |

## Findings

| source | as written | input that shows it | evidently intended | confidence | as-written member | corrected member |
|---|---|---|---|---|---|---|
| frontend/components/EditForm.tsx:59 | the custom-link schema puts the regular expression under `match`, which the validator compares with `===` | any link, for example "my-post": the validator throws "Field slug did not match /^[a-zA-Z0-9-_]*$/", so `saveLink` never asks the API and never stores a link | the expression under `matchRegex`, so a link passes iff it is in `[a-zA-Z0-9-_]` and passes `validateSlug` | high, not executed | EditForm.AsWrittenRejectsEveryLink | EditForm.CorrectedSchemaAcceptsExactly |

## Left out

- Numbers are integers. NaN, fractions and infinities are not modelled. Turning text into a number (`+s`) is the `parseNumber` parameter of `Host`, and `None` stands for NaN.
- `matchRegex` and `customValidation` are predicate parameters. The state of a global or sticky regular expression (`lastIndex`) is not modelled.
- String lengths count characters, not UTF-16 code units.
- Upload.LowerChar: `toLocaleLowerCase` is modelled for ASCII only; other characters are left as they are.
- The schema is a sequence in the order `for...in` visits its keys. Inherited enumerable keys and the reordering of integer-like keys are not modelled.
- Symbols, BigInt and functions are not values of the model. Every plain object prints as "[object Object]", because a custom `toString` is not modelled.
- The `type`, `alphaNum` and `dontMatch` rules are not modelled, because `validateSchema` does not implement them.
- A grouped `contains` (an array under `contains`) is not modelled: the typed `ValidationRule` rules it out and the model's `contains: string` cannot express it. At run time `val.includes` would search for the array's comma-joined text.
- Validation.Lookup: a plain object's inherited properties (`constructor`, `toString`) do not read as undefined in JavaScript; the model's data holds only its own keys, so a key it lacks reads as undefined.
- EditForm.SlugCustom: a truthy non-string would make `validateSlug` throw; the model returns false. The form only passes strings.
- EditForm.SaveLink: the availability request is the `reply` parameter; toasts are names, not texts; the 100 ms `setTimeout` of `openDialog` and the rest of the React state and rendering are not modelled.
- PostController.CreatePost: the service call and its "Could not create a post" error are not modelled; fields of the body other than `title`, `content` and `published` are not carried into the created post.
- PostController.PostTable.UpdatePost: the database error path ("Could not update a post") and unknown body fields are not modelled.
- PostController.PostTable.DeletePost: the "Could not delete a post" path, taken when the update returns nothing, is not modelled.
- The database queries of `getPosts` (order, `skip`, `take`, `count`) are not modelled; only the paging arithmetic is. A page of 0 or below gives a negative offset, which the model computes but does not pass to a database.
- `ParseIntPipe` runs before the handlers: non-integer ids are rejected there and are not modelled.
- `checkSlug`, `getFavourite` and `toggleFavourites` of the post API are not part of this model.
- Upload: names containing `/` are not modelled (`path.extname` looks only after the last `/`). Disk storage, the multer pipeline and its size-limit error are not modelled; `Math.random` is replaced by the `digits` parameter.
- JSON serialisation of responses and authentication guards are not modelled.
