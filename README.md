# MakeMySite.ai core, modelled in Dafny

MakeMySite.ai turns a one-line prompt into a single-file website. A language model writes the site. Each attempt costs 5 credits, and the credits are bought through Stripe. This project models the parts of the system that decide state, writes them in Dafny, and proves what they promise:

- **The project pipeline** (`project_pipeline.dfy`, with `accounts.dfy`). A `Store` class holds the user balances, the projects, the append-only version log and the conversation trail. Its methods are the request handlers `createUserProject`, `makeRevision`, `rollbackToVersion`, `deleteProject` and `getProjectPreview`, plus the two background completions. Each completion either commits exactly one version and moves the project's pointer to it, or refunds the 5 credits. Every method keeps the store invariant `Valid()`: every pointer that is set names one of the project's own versions, whose code is the project's code; a pending project has neither pointer nor code. The project-name truncation and the code-fence sanitiser are pure functions with their own lemmas.
- **The payment webhook** (`stripe_webhook.dfy`). `Grant` is the pure rule both event paths share. `PaymentStore.StripWebhook` is the handler on the transaction and user tables, proved equal to that rule. Replaying an event is a no-op.
- **Colour normalisation and the element editor** (`editor_panel.dfy`). `toHexColor` is modelled with a declarative account of its `rgb()`/`rgba()` regular expression, and the hex formatting is inverted by a round-trip lemma. `handleChange` and `handleStyleChange` are methods on an `Editor` holding the panel's record.
- **Preview injection and selection** (`project_preview.dfy`):
  - `injectPreview`, including the `$` patterns of `String.prototype.replace`;
  - the message handler that sets or clears the selected element.
- **Shared pieces.** `text.dfy` models the JavaScript string operations the core relies on: `trim` with ECMAScript's whitespace set, `toLowerCase` on ASCII, `indexOf` and a global literal `replace`. Its `Split` and `Join` on one character are the model's way of reading the comma-separated groups of the colour pattern. `wrappers.dfy` holds `Option`. `scenarios.dfy` has three walk-throughs on a fresh store.

The language model is a function parameter `model: (systemInstruction, userContent) -> Completion`. A completion is `Threw` or `Returned(content)`, and the content may be null.

Identifiers are natural-number counters of the store. A missing session user is the empty `UserId`. A request-body field is a `BodyValue`: absent, a string, or another JSON value with its truthiness.

The sanitiser deletes only the triple backticks and then trims. A language tag after the opening fence therefore stays in the committed code: `SanitiseKeepsLanguageTag` proves that ```` ```html\n<body>\n``` ```` becomes `html\n<body>`.

The emptiness check runs on the trimmed raw output, before the fences are removed. A model answer that is nothing but a fence therefore commits an empty version rather than failing.

## Model

| member | source | states |
|---|---|---|
| Text.Trim | server/controllers/projectController.ts:263 | `trim` leaves no whitespace at either end and never lengthens the text |
| Text.TrimStart | server/controllers/projectController.ts:263 | the leading part dropped is all whitespace, and what is left is a suffix that does not start with whitespace |
| Text.TrimEnd | server/controllers/projectController.ts:263 | the trailing part dropped is all whitespace, and what is left is a prefix that does not end with whitespace |
| Text.TrimSplits | server/controllers/projectController.ts:266 | the input is whitespace, then the trimmed text, then whitespace |
| Text.TrimmedIsFixed | server/controllers/projectController.ts:266 | trimming already trimmed text changes nothing, so `trim` is idempotent |
| Text.IsBlank | server/controllers/projectController.ts:86 | `s.trim() === ""` holds exactly when every character is whitespace |
| Text.ToLower | client/src/componets/EditorPanel.tsx:27 | lower-casing keeps the length, turns each ASCII capital into its own small letter and keeps every other character, so no capital is left and text without capitals is unchanged |
| Text.IndexOf | client/src/componets/ProjectPreview.tsx:68 | the index found is an occurrence with none before it; none is found exactly when there is no occurrence |
| Text.RemoveAll | server/controllers/projectController.ts:266 | the global removal of a literal pattern; its behaviour is stated by `Text.RemoveAllKeeps`, `ProjectPipeline.RemovedFencesAreGone` and `ProjectPipeline.FenceFreeUnchanged` |
| Text.RemoveAllKeeps | server/controllers/projectController.ts:266 | the global fence removal introduces no character that was not in the input |
| Text.Split | client/src/componets/EditorPanel.tsx:32 | splitting gives at least one part, no part holds the separator, and joining the parts gives the input back |
| Text.SplitJoin | client/src/componets/EditorPanel.tsx:32 | joining separator-free parts and splitting again gives the same parts |
| Accounts.AddCredits | server/controllers/projectController.ts:286-289 | the named user's balance moves by the amount, nothing else changes, and a missing user leaves the table as it was |
| ProjectPipeline.ProjectName | server/controllers/projectController.ts:31-34 | the name is the prompt when it has at most 50 characters, else its first 47 and `...`; it never exceeds 50 |
| ProjectPipeline.Sanitise | server/controllers/projectController.ts:266 | sanitised code contains no triple backtick and has no whitespace at either end |
| ProjectPipeline.RemovedFencesAreGone | server/controllers/projectController.ts:266 | after the left-to-right global removal no triple backtick remains anywhere, including ones formed across a removed fence |
| ProjectPipeline.FenceFreeUnchanged | server/controllers/projectController.ts:332 | removing fences from fence-free code leaves it unchanged |
| ProjectPipeline.SanitiseIdempotent | server/controllers/projectController.ts:266 | sanitising twice equals sanitising once |
| ProjectPipeline.SanitiseTrim | server/controllers/projectController.ts:263-266 | sanitising the trimmed content equals sanitising the content: the trim before the blank check does not change the code |
| ProjectPipeline.RemoveAllBacktickFreeTail | server/controllers/projectController.ts:266 | removing fences keeps backtick-free text at the end of the input unchanged at the end of the output |
| Text.TrimDropsLeadingWhitespace | server/controllers/projectController.ts:266 | a whitespace character added in front of a string does not change its `trim()` |
| Text.TrimDropsTrailingWhitespace | server/controllers/projectController.ts:266 | a whitespace character added behind a string does not change its `trim()` |
| ProjectPipeline.SanitiseTrimStart | server/controllers/projectController.ts:266 | sanitising the `trimStart()` of the content equals sanitising the content |
| ProjectPipeline.SanitiseTrimEnd | server/controllers/projectController.ts:266 | sanitising the `trimEnd()` of the content equals sanitising the content |
| ProjectPipeline.SanitiseKeepsLanguageTag | server/controllers/projectController.ts:266 | a fenced answer with a language tag sanitises to the tag, a newline and the body; the tag is not stripped |
| ProjectPipeline.Enhanced | server/controllers/projectController.ts:252-253 | `content \|\| fallback`; stated by `EmptyEnhancementUsesPrompt` and `EmptyEnhancementUsesMessage` |
| ProjectPipeline.RevisionRequest | server/controllers/projectController.ts:324 | the revision's user message opens with `Current code: `, and the current code and the change can each be read back from their places around the `\nChange: ` label |
| ProjectPipeline.GeneratedCode | server/controllers/projectController.ts:263-266 | a completion yields no code exactly when the call threw, the content is null, or it is blank; any code is the sanitised content, fence-free and trimmed |
| ProjectPipeline.InitialGeneration | server/controllers/projectController.ts:244-266 | a failed enhancement call yields no code; otherwise the code call on the enhanced prompt decides: no code exactly when it threw or returned null or blank content, and else its sanitised content; any code is fence-free and trimmed |
| ProjectPipeline.RevisionGeneration | server/controllers/projectController.ts:299-332 | a failed enhancement call or a missing or empty current code yields no code; otherwise the revision call on the current code and the enhanced message decides: no code exactly when it threw or returned null or blank content, and else its sanitised content; any code is fence-free and trimmed |
| ProjectPipeline.EmptyEnhancementUsesPrompt | server/controllers/projectController.ts:252-253 | a null or empty enhancement makes generation work from the raw prompt |
| ProjectPipeline.EmptyEnhancementUsesMessage | server/controllers/projectController.ts:307-308 | a null or empty enhancement makes the revision request carry the raw message |
| ProjectPipeline.FindVersion | server/controllers/projectController.ts:153 | the version found is the first one in the log with the project and the id; none is found exactly when the log holds no such version |
| ProjectPipeline.FindVersionAppend | server/controllers/projectController.ts:268-274 | appending a version does not change which version an already present id finds |
| ProjectPipeline.VersionsWithout | server/controllers/projectController.ts:195-197 | the cascaded log keeps every version of another project as often as it occurred, and drops every version of the deleted one |
| ProjectPipeline.VersionsWithoutConcat | server/controllers/projectController.ts:195-197 | the cascade keeps the order of the log: removing a project's versions from two joined logs is removing them from each |
| ProjectPipeline.FindVersionWithout | server/controllers/projectController.ts:195-197 | deleting one project does not change what a version lookup in another project finds |
| ProjectPipeline.ConversationsWithout | server/controllers/projectController.ts:195-197 | the cascaded trail keeps every entry of another project as often as it occurred, so a message sent twice stays twice, and drops every entry of the deleted one |
| ProjectPipeline.ConversationsWithoutConcat | server/controllers/projectController.ts:195-197 | the cascade keeps the order of the trail: removing a project's entries from two joined trails is removing them from each |
| ProjectPipeline.DeleteKeepsConsistent | server/controllers/projectController.ts:195-197 | deleting a project with its versions and entries keeps the store invariant: every remaining pointer still finds its own version |
| ProjectPipeline.Store.GetProjectPreview | server/controllers/projectController.ts:210-227 | the project is returned exactly when the session user owns it; otherwise 401 without a user, else 404 |
| ProjectPipeline.Store.CreateUserProject | server/controllers/projectController.ts:9-57 | 401, 400 or 403 with no change, in that order; otherwise the project is created pending with the truncated name, the balance drops by exactly 5, `totalCreation` rises by 1, and one conversation entry is logged |
| ProjectPipeline.RevisionRejection | server/controllers/projectController.ts:79-102 | the guard chain of `makeRevision`: 401, then 400 for a missing or blank message or 500 when `trim` throws on a non-string, then 403, then 404 for a project the user does not own; accepted exactly when the user is signed in, the message is not blank, the balance covers 5 credits and the project is the user's |
| ProjectPipeline.RevisionKeepsConsistent | server/controllers/projectController.ts:104-111 | an accepted revision keeps the store invariant: the debit leaves no balance negative and the new conversation entry belongs to an existing project |
| ProjectPipeline.Store.MakeRevision | server/controllers/projectController.ts:75-114 | rejects exactly when `RevisionRejection` does, with its status and no change; on acceptance only the balance (less exactly 5) and one conversation entry change |
| ProjectPipeline.Store.RecordRevision | server/controllers/projectController.ts:104-111 | an accepted revision appends exactly one user entry with the message and takes exactly 5 credits, keeping the store invariant |
| ProjectPipeline.Store.RollbackToVersion | server/controllers/projectController.ts:132-175 | succeeds exactly when the owner's project has the version; it then points the project at that version's code and id, logs one note, and leaves the version log untouched |
| ProjectPipeline.Store.DeleteProject | server/controllers/projectController.ts:186-203 | succeeds exactly for the owner, removing the project row, with its versions and conversation removed by the cascade the model assumes; otherwise 401, or 500 when the delete matches no row, with no change |
| ProjectPipeline.Store.Refund | server/controllers/projectController.ts:283-290 | the catch block gives the attempt's 5 credits back |
| ProjectPipeline.Store.Commit | server/controllers/projectController.ts:268-282 | exactly one version is appended under a fresh id, and the project's code and pointer become that version's |
| ProjectPipeline.Store.Conclude | server/controllers/projectController.ts:263-290 | with code and an existing project, one version is committed and the pointer moves to it; otherwise, after the thrown "failed" error or the refused version row, exactly 5 credits are refunded and nothing else changes |
| ProjectPipeline.Store.ProcessProjectInBackground | server/controllers/projectController.ts:238-291 | when the generation yields code and the project exists, one "Initial version" is committed and the pointer moves to it; otherwise exactly 5 credits are refunded and nothing else changes |
| ProjectPipeline.Store.ProcessRevisionInBackground | server/controllers/projectController.ts:293-357 | when the revision yields code, one "Revision" version is committed and the pointer moves to it; otherwise exactly 5 credits are refunded and the project keeps its code |
| StripeWebhook.EffectiveAppId | server/controllers/stripWebhook.ts:41 | `appId` is used when present and non-empty, otherwise `appid` |
| StripeWebhook.ApplyEvent | server/controllers/stripWebhook.ts:36-137 | the event switch; stated by `ReplayIsNoOp`, `BothPathsAgree`, `NoGrantWithoutSession` and `UnhandledEventIsNoOp` |
| StripeWebhook.Grant | server/controllers/stripWebhook.ts:45-70 | the ledger changes exactly when the metadata names the app and an existing unpaid transaction; then that transaction becomes paid and its user gains exactly its credits, with no other row changed |
| StripeWebhook.GrantIdempotent | server/controllers/stripWebhook.ts:56-59 | granting the same metadata twice equals granting it once |
| StripeWebhook.ReplayIsNoOp | server/controllers/stripWebhook.ts:36-137 | delivering the same event twice has the effect of delivering it once |
| StripeWebhook.BothPathsAgree | server/controllers/stripWebhook.ts:37-134 | a completed checkout and a succeeded payment whose first session has the same metadata have the same effect |
| StripeWebhook.NoGrantWithoutSession | server/controllers/stripWebhook.ts:85-93 | a succeeded payment whose session lookup failed or found nothing changes nothing |
| StripeWebhook.UnhandledEventIsNoOp | server/controllers/stripWebhook.ts:135-136 | any other event type changes nothing |
| StripeWebhook.PaymentStore.GrantFromMetadata | server/controllers/stripWebhook.ts:45-70 | the handler's checks and paired update leave the tables equal to `Grant` of the old tables |
| StripeWebhook.PaymentStore.StripWebhook | server/controllers/stripWebhook.ts:11-140 | an unparsable event gets 400 with no change; a parsed one gets `{received: true}` and the tables become the event's effect |
| EditorPanel.MatchRgb | client/src/componets/EditorPanel.tsx:32 | a match has well-formed groups that spell out the input exactly |
| EditorPanel.MatchRgbComplete | client/src/componets/EditorPanel.tsx:32 | every well-formed `rgb(...)`/`rgba(...)` text is matched, with the same groups |
| EditorPanel.ParseChannel | client/src/componets/EditorPanel.tsx:34 | `parseInt` of a channel group; `DecimalIsGroup` states that a decimal numeral reads back as its number |
| EditorPanel.Clamp | client/src/componets/EditorPanel.tsx:34-36 | the result lies in 0..255, keeps values there, sends larger ones to 255 and negative ones to 0 |
| EditorPanel.HexString | client/src/componets/EditorPanel.tsx:37 | `toString(16)` gives lower-case hex digits that read back as the number, one digit below 16 and two below 256 |
| EditorPanel.PadStart | client/src/componets/EditorPanel.tsx:37 | `padStart`; stated by `PadStartShape` |
| EditorPanel.PadStartShape | client/src/componets/EditorPanel.tsx:37 | the padded text has the width, or its own length when longer, and is fill characters followed by the text |
| EditorPanel.ToHex | client/src/componets/EditorPanel.tsx:37 | a channel becomes exactly two lower-case hex digits that read back as its value |
| EditorPanel.HexTriple | client/src/componets/EditorPanel.tsx:38 | `#` and three pairs of lower-case hex digits, each pair reading back as its channel |
| EditorPanel.SaturatedChannelIsFF | client/src/componets/EditorPanel.tsx:34-37 | a channel above 255 is shown as `ff` |
| EditorPanel.Normalise | client/src/componets/EditorPanel.tsx:27 | the working text is the trimmed input with each ASCII capital turned into its small letter and every other character kept |
| EditorPanel.ToHexColor | client/src/componets/EditorPanel.tsx:25-39 | an empty input gives `#ffffff`; every colour it resolves is in `#` form; what it cannot resolve goes to the browser lookup as the trimmed, lower-cased text |
| EditorPanel.Resolve | client/src/componets/EditorPanel.tsx:28-39 | every resolved colour is in `#` form; the browser lookup is reached exactly when the text is no spelling of transparent, not in `#` form and not matched by the pattern, and it gets the text itself |
| EditorPanel.NoColourIsWhite | client/src/componets/EditorPanel.tsx:26-30 | an empty input and the three spellings of transparent give `#ffffff` |
| EditorPanel.HashPassesThrough | client/src/componets/EditorPanel.tsx:31 | a colour starting with `#` is returned trimmed and lower-cased, unchecked |
| EditorPanel.RgbBecomesHex | client/src/componets/EditorPanel.tsx:32-38 | a matching non-transparent colour becomes 7 characters, `#` and six lower-case hex digits, whose pairs are the clamped channels; alpha is ignored |
| EditorPanel.RgbRoundTrip | client/src/componets/EditorPanel.tsx:32-38 | for channels in 0..255 the hex pairs of the colour of `rgb(r,g,b)` read back as r, g and b |
| EditorPanel.Editor.HandleChange | client/src/componets/EditorPanel.tsx:64-71 | the field is set, the style of the same name too when one exists, nothing else changes, and the whole new record is reported |
| EditorPanel.Editor.HandleStyleChange | client/src/componets/EditorPanel.tsx:73-77 | only that style changes, and only `{styles: {name: value}}` is reported |
| ProjectPreview.ExpandLiteral | client/src/componets/ProjectPreview.tsx:69 | a replacement without `$` is inserted literally |
| ProjectPreview.ReplaceFirst | client/src/componets/ProjectPreview.tsx:69 | a string-pattern `replace` on text without the pattern returns it unchanged |
| ProjectPreview.Expand | client/src/componets/ProjectPreview.tsx:69 | the `$` patterns of a string-pattern `replace`; stated by `ExpandLiteral` and `ExpandMatched` |
| ProjectPreview.ExpandMatched | client/src/componets/ProjectPreview.tsx:69 | `$&` followed by literal text expands to the matched text followed by that text |
| ProjectPreview.InsertionPoint | client/src/componets/ProjectPreview.tsx:68-71 | the script goes at the first `</body>`, or at the end of the page when there is none; no `</body>` lies before it |
| ProjectPreview.InjectPreview | client/src/componets/ProjectPreview.tsx:64-74 | `injectPreview`; stated by `EmptyPageStaysEmpty`, `DisabledPanelLeavesPage`, `InjectAt`, `InsertsBeforeFirstBodyClose`, `AppendsWithoutBodyClose` and `InjectionIsSplice` |
| ProjectPreview.EmptyPageStaysEmpty | client/src/componets/ProjectPreview.tsx:65 | empty html gives the empty string |
| ProjectPreview.DisabledPanelLeavesPage | client/src/componets/ProjectPreview.tsx:66 | with the editor panel off the html is returned unchanged |
| ProjectPreview.InsertsBeforeFirstBodyClose | client/src/componets/ProjectPreview.tsx:68-69 | the script lands just before the first `</body>`, with everything before and from there on kept |
| ProjectPreview.AppendsWithoutBodyClose | client/src/componets/ProjectPreview.tsx:70-71 | without `</body>` the script is appended |
| ProjectPreview.InjectionIsSplice | client/src/componets/ProjectPreview.tsx:67-72 | with the panel on, the length grows by exactly the script's, and cutting the script out recovers the html |
| ProjectPreview.InjectAt | client/src/componets/ProjectPreview.tsx:68-69 | with the panel on, the first `</body>` is replaced by the `$`-expansion of the script followed by `</body>`, and the rest of the page is kept |
| ProjectPreview.PatternInScriptIsExpanded | client/src/componets/ProjectPreview.tsx:69 | a `$&` at the head of the script is not inserted literally: it puts a second copy of the `</body>` it replaces in front of the rest of the script |
| ProjectPreview.Preview.ShowsEditor | client/src/componets/ProjectPreview.tsx:87-90 | the panel is on screen when the project has code, the panel is enabled and an element is selected; stated through `HandleMessage` and `Close` |
| ProjectPreview.Preview.HandleMessage | client/src/componets/ProjectPreview.tsx:53-59 | an `ELEMENT_SELECTED` message selects its payload, any other message clears the selection, and a message without data throws and keeps it; the panel shows afterwards exactly when an `ELEMENT_SELECTED` message brought a payload, or, without data, when something was selected before |
| ProjectPreview.Preview.Close | client/src/componets/ProjectPreview.tsx:92 | closing the panel clears the selection, so the panel is off screen whatever the flags |
| Scenarios.FirstGenerationScenario | server/controllers/projectController.ts:268-282 | with 5 credits, creating a project leaves 0 and pending code; a successful run commits one "Initial version" with the sanitised code, and the balance stays 0 |
| Scenarios.PoorRevisionScenario | server/controllers/projectController.ts:90-94 | with 3 credits a revision is refused with 403, with no debit and no conversation entry |
| Scenarios.FailedRevisionScenario | server/controllers/projectController.ts:349-356 | with 10 credits before a revision (5 after it is accepted), a throwing code generation brings the balance back to 10 and keeps the code |

## Left out

- The language-model calls are inputs (`Model`). Their model name, message roles, choice selection and network behaviour are not modelled. A response with no `choices[0]` counts as a call that threw.
- Prisma I/O is modelled as maps and sequences in one `Store`. Store failures that the model does not derive are not modelled. The modelled ones are: an insert whose project is gone, a delete that matches no row, and an update of a missing user.
- Generated identifiers are natural-number counters rather than store-generated strings.
- HTTP bodies other than the status are not modelled, and neither are logging or `res.headersSent` bookkeeping.
- `process.nextTick` scheduling and concurrent requests are not modelled. This includes the check-then-debit race, because that is concurrency. A background completion is a separate later method call.
- A refund for a user that no longer exists leaves the table unchanged. In the source the failed update is an unhandled rejection.
- Stripe signature checking, JSON parsing and `stripe.checkout.sessions.list` are inputs: `parsed: Option<Event>` and `SessionList`.
- `ProjectPipeline.ProjectName`: lengths count Unicode scalar values, not JavaScript's UTF-16 code units. The two differ for characters outside the Basic Multilingual Plane.
- `Text.ToLower` folds only ASCII capitals. JavaScript's full Unicode case mapping is not modelled, because Dafny has no Unicode tables.
- The named-colour fallback of `toHexColor` needs the browser's computed style, so it is not modelled (`client/src/componets/EditorPanel.tsx:40-54`). It is the `BrowserLookup` outcome.
- `getCode` mutates the DOM (`client/src/componets/ProjectPreview.tsx:29-50`), so it is not modelled.
- `postMessage` to the frame (`client/src/componets/ProjectPreview.tsx:76-83`, and line 94) is not modelled, because it needs browser APIs.
- The `iframeScript` constant's contents are not part of this model. It is the `script` parameter of `InjectPreview`.
- `EditorPanel.Editor.HandleChange` requires `field != "styles"`. The panel only ever passes `text` and `className`.
- JavaScript's `in` also finds inherited properties such as `toString`. The model checks own keys only.
- The panel resynchronises its record when the selection changes (`useEffect`). That resynchronisation is the `Editor` constructor.
- The alpha group of the colour pattern is taken with its surrounding whitespace. Its value is never read.
- `parseInt` of a digit string beyond 2^53 loses precision in JavaScript but not in the model. Such a channel clamps to 255 either way.
- The delete removes only the project row. The model assumes the schema cascades the delete to the project's versions and conversation entries; the schema is not part of this model. Without the cascade, deleting a project that has versions would fail with 500.
- `req.body` is taken to be a parsed JSON object. When a request carries no JSON body, Express 5 leaves `req.body` undefined, and the destructuring at `server/controllers/projectController.ts:17` and `:84` throws inside the try block, which answers 500; the model's absent field answers 400 instead.
- `manualSave`, `togglePublish` and the published-code endpoint are not defined in this controller, so they are not part of this model.
