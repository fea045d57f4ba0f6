# lantern-pine core, modelled in Dafny

lantern-pine is a bilingual (English/Farsi) podcast site. This project models
the parts of it that decide what gets stored and what a visitor or an
administrator sees:

- **content sync webhook** (`app/api/sync-content/route.ts`). GitHub posts a
  signed push event. The handler checks the `X-Hub-Signature-256` HMAC and
  only acts on a `push` to a `.../main` ref. It collects the changed
  `episodes/*.md` files and de-duplicates them by file name. For each file it
  fetches the file at the pushed revision, validates the front matter,
  splits the body at `:::fa:::` into the English and Farsi halves, renders
  both, and publishes the first episode row with that `contentName`.
  Modules `SyncSignature`, `SyncCandidates`, `SyncMarkdown`, `SyncRoute`.
- **sessions** (`lib/db/session.ts`). A session is keyed by the SHA-256 of
  its token and lives 30 days. On use, a session with less than 7 days left
  is renewed. It is deleted once it has expired. Module `Sessions`.
- **database schema** (`lib/db/schema.ts`). Users, sessions and episodes,
  with their keys, unique columns, the `sessions.user_id` reference and its
  cascade. Module `Schema`, class `Schema.Database`.
- **GitHub OAuth callback** (`app/api/auth/github/callback/route.ts`). It
  checks the state, exchanges the code, finds or creates the user by GitHub
  id, creates a session, sets the cookie and redirects. Module `Callback`.
- **logout** (`lib/actions/auth.ts`). Module `Auth`.
- **episode creation** (`lib/actions/episodes.ts`), with its form schema
  (`lib/validations/episodes.ts`). Modules `EpisodeActions`,
  `EpisodeValidation`.
- **locale middleware** (`middleware.ts`). Admin paths and paths with a dot
  pass through. Anything without a leading `/en` or `/fa` segment is
  redirected under the negotiated locale. Module `Middleware`.
- **persistent audio player** (`components/audio-player.tsx`). The player
  state, seeking with clamping, the progress bar, click-to-seek, keyboard
  skipping and the `m:ss` clock. Module `AudioPlayer`, class
  `AudioPlayer.Player`.
- `getLangDir` and the dashboard setting (`lib/utils.ts`), in module `Utils`.

Module `Text` holds the JavaScript string operations these files use: the
semantics of `startsWith`, `endsWith`, `indexOf`, `includes`, `split`,
`toLowerCase`, `trimStart`, `parseInt` and `String(n)`, and string lengths in
UTF-8 bytes and UTF-16 units. `Wrappers` holds `Option` and `Result`.

Some things are not values the program computes, and they are parameters of
the model:
- cryptography: HMAC-SHA-256, the SHA-256 of a session token, token
  generation;
- JSON parsing, GitHub's content API and OAuth endpoints;
- the front-matter parser, the Markdown renderer, zod's URL and date
  coercion, and the locale matcher;
- the clock, and the site settings that live outside `lib/utils.ts`.

A library call that can throw is a function returning `Option` (or a
three-way result), and `None` stands for the throw.

The tables live in one `Database` object whose fields the handlers update.
Episodes are a sequence, because the sync's `limit 1` lookup depends on row
order.

Each state-changing handler is a method. Its `ensures` ties the new state and
the answer to a specification function of the old state: `Post` to
`PostSpec`, `ValidateSessionToken` to `Validate`, `Logout` to `LogoutSpec`,
and so on. The properties the site relies on are proved about those
functions.

## Model

| member | source | states |
|---|---|---|
| Text.IndexOfFirst | app/api/sync-content/route.ts:195 | a separator occurring at `i` is found, at `i` or earlier (`indexOf` finds the first occurrence) |
| Text.JoinSplit | app/api/sync-content/route.ts:195 | `split` loses nothing: joining the parts with the separator gives back the original string |
| Text.SplitPartsAvoidSeparator | app/api/sync-content/route.ts:195 | no part produced by `split` contains the separator |
| Text.SplitAroundOne | app/api/sync-content/route.ts:59 | splitting `a=b`, where neither side contains `=`, gives exactly the two sides |
| Text.ToLower | lib/actions/episodes.ts:14 | `toLowerCase` keeps the length and lower-cases each ASCII letter in place, leaving every other character unchanged |
| Text.NatToStringRoundTrip | components/audio-player.tsx:173 | the decimal text of `n` is all digits and reads back as `n` |
| Text.TrimStart | lib/actions/episodes.ts:17 | `parseInt`'s leading-whitespace skip: the result is a suffix that starts with no JavaScript white space (tab, line breaks, vertical tab, form feed, byte order mark, line and paragraph separators, and every Unicode space separator) |
| Text.LeadingSpaceSkipped | lib/actions/episodes.ts:17 | a white-space character in front of the text never changes what `parseInt` reads |
| Text.IdeographicSpaceSkipped | lib/actions/episodes.ts:17 | `parseInt` skips a leading ideographic space: `"\u30005"` reads as 5 |
| Text.DigitPrefix | lib/actions/episodes.ts:17 | the digits `parseInt` reads: a prefix made of digits, stopped by the first non-digit |
| Text.ParseIntOfNatToString | lib/actions/episodes.ts:17 | `parseInt(String(n), 10)` is `n` for every natural `n` |
| Text.Utf16Length | lib/validations/episodes.ts:23-26 | a JavaScript string length is between the number of characters and twice that |
| SyncSignature.VerifySignature | app/api/sync-content/route.ts:45-87 | a missing secret or header always fails; success needs the header to begin with `sha256=` followed by the expected HMAC digest; the comparison throws only when the two digests have different byte lengths |
| SyncSignature.SignedBodyVerifies | app/api/sync-content/route.ts:59-86 | a header `sha256=<HMAC of the body>` is accepted |
| SyncSignature.WrongDigestRejected | app/api/sync-content/route.ts:71-86 | any other 64-digit hex digest is rejected without throwing |
| SyncSignature.ShortDigestThrows | app/api/sync-content/route.ts:71-74 | a shorter, non-empty digest makes `timingSafeEqual` throw (the route then crashes instead of answering 401) |
| SyncMarkdown.SplitBilingual | app/api/sync-content/route.ts:195-197 | no marker: all English, empty Farsi; otherwise English is everything before the first `:::fa:::` and Farsi is a prefix of what follows it; neither half contains the marker |
| SyncMarkdown.OneMarkerReassembles | app/api/sync-content/route.ts:195-197 | with exactly one marker, English + marker + Farsi is the whole body |
| SyncMarkdown.SecondMarkerTruncates | app/api/sync-content/route.ts:195-197 | with a second marker, the Farsi half stops at it and the rest of the body is dropped |
| SyncMarkdown.ValidateFrontmatter | app/api/sync-content/route.ts:25-43 | passes exactly when both titles are non-empty strings, `audioUrl` is a URL string and `publishedAt` coerces to a date; the values returned are those fields |
| SyncMarkdown.ExtraKeysIgnored | app/api/sync-content/route.ts:43 | `passthrough`: keys other than the four checked never change the outcome |
| SyncCandidates.BasenameIsSlashFreeSuffix | app/api/sync-content/route.ts:135 | the file name is a slash-free suffix of the path, preceded by `/` unless it is the whole path |
| SyncCandidates.BasenameIsLastSplitPart | app/api/sync-content/route.ts:135 | the file name is the last part of `split("/")`, that is what `pop()` returns |
| SyncCandidates.BasenameOfEpisodeFile | app/api/sync-content/route.ts:133-152 | for `episodes/<name>` with a slash-free name, the file name is `name`, so the fetch path is the pushed path |
| SyncCandidates.NestedPathCollapses | app/api/sync-content/route.ts:133-152 | `episodes/<folder>/<name>` is reduced to `name`, and the file fetched is `episodes/<name>`, not the pushed file |
| SyncCandidates.CollectMarkdownFiles | app/api/sync-content/route.ts:127-140 | the two nested loops compute the candidate list `CollectSpec`, or fail as it does |
| SyncCandidates.ScanPathsNoneIff | app/api/sync-content/route.ts:128-136 | scanning one commit throws exactly when it has no `added` list and one of its paths is an episode Markdown file |
| SyncCandidates.CollectFailsIff | app/api/sync-content/route.ts:127-140 | collecting throws exactly when some commit has no `added` list but changes an episode Markdown file |
| SyncCandidates.CollectedExactly | app/api/sync-content/route.ts:127-140 | every candidate comes from an episode Markdown path of some commit, and every such path yields a candidate with its file name and added/modified status |
| SyncCandidates.UniqueByFilename | app/api/sync-content/route.ts:142-145 | the de-duplicated list has distinct file names, takes its entries from the input, and keeps every name |
| SyncCandidates.UniqueKeepsFirstSeen | app/api/sync-content/route.ts:145 | each kept entry is the first entry pushed under its name (`find`) |
| SyncRoute.Gate | app/api/sync-content/route.ts:98-120 | bad JSON or a missing `ref` gives 400 "Invalid payload"; a non-push event gives 200 "Ignoring non-push event"; a push whose ref does not end in `/main` gives 200 "Ignoring push to non-main branch"; processing continues exactly for a `push` whose ref ends in `/main` |
| SyncRoute.FindByContentName | app/api/sync-content/route.ts:217-230 | the lookup returns the first row whose `contentName` is the file name, and nothing when there is none |
| SyncRoute.Plan | app/api/sync-content/route.ts:152-230 | a file is published only when `episodes/<name>` at the pushed revision is a file, its metadata passes the schema and both halves render; a failed fetch, a non-file or a missing row skips it |
| SyncRoute.Published | app/api/sync-content/route.ts:237-249 | the update sets the status to published, the titles, the audio URL, the two HTML descriptions and the publication date, and keeps every other column |
| SyncRoute.UpdateWhereId | app/api/sync-content/route.ts:237-249 | only the rows with that id change, and they become published |
| SyncRoute.RevalidatedPaths | app/api/sync-content/route.ts:256-260 | the five paths revalidated after an update: `/`, `/episodes` and the episode page with no locale, with `/en` and with `/fa` (`null` when there is no slug) |
| SyncRoute.SyncOne | app/api/sync-content/route.ts:151-264 | one file: a skipped file changes nothing; otherwise exactly the first matching row is published and its five paths revalidated; keys and creation-time columns never change |
| SyncRoute.SyncAll | app/api/sync-content/route.ts:151-264 | over all files, every row that changed is published and carries the name of some processed file |
| SyncRoute.SyncOneIdempotent | app/api/sync-content/route.ts:151-264 | delivering the same file again leaves the table as the first delivery left it |
| SyncRoute.PostSpec | app/api/sync-content/route.ts:89-269 | a delivery never changes keys or creation-time columns, and any write is followed by 200 "Sync process initiated" |
| SyncRoute.BadSignatureRejected | app/api/sync-content/route.ts:90-96 | a delivery with no secret, no header or a wrong signature is answered 401 and writes nothing |
| SyncRoute.WritesOnlyOnSignedMainPush | app/api/sync-content/route.ts:90-140 | the table changes only for a correctly signed `push` to a `.../main` ref whose candidates were all collected |
| SyncRoute.CollectedPushAnswers200 | app/api/sync-content/route.ts:151-268 | once candidates are collected the answer is 200 whatever happens to single files |
| SyncRoute.SyncFile | app/api/sync-content/route.ts:152-263 | one loop iteration updates the table and returns the paths as `SyncOne` says; the other tables are untouched |
| SyncRoute.SyncFiles | app/api/sync-content/route.ts:151-264 | the per-file loop leaves the table and the revalidated paths as `SyncAll` says |
| SyncRoute.Post | app/api/sync-content/route.ts:89-269 | the handler's answer, episodes table and revalidated paths are those of `PostSpec`; users and sessions are untouched |
| Sessions.Validate | lib/db/session.ts:38-66 | no row or no user: no session; expired: the row is deleted; otherwise the user and a session with at least 7 days left, renewed to 30 days when fewer than 7 remained; no other row changes |
| Sessions.RemoveSession | lib/db/session.ts:68-70 | exactly that session id is removed |
| Sessions.RemoveUserSessions | lib/db/session.ts:72-74 | exactly the user's sessions are removed |
| Sessions.RemovalKeepsSessionsValid | lib/db/session.ts:68-74 | deleting sessions keeps every remaining session attached to an existing user |
| Sessions.CreateSession | lib/db/session.ts:24-36 | stores a session keyed by the token's hash that expires 30 days from now; the insert fails exactly on a duplicate id or an unknown user |
| Sessions.ValidateSessionToken | lib/db/session.ts:38-66 | answer and new table are `Validate` of the token's hash |
| Sessions.InvalidateSession | lib/db/session.ts:68-70 | the table becomes `RemoveSession` |
| Sessions.InvalidateAllSessions | lib/db/session.ts:72-74 | the table becomes `RemoveUserSessions` |
| Sessions.SetSessionTokenCookie | lib/db/session.ts:76-88 | the `session` cookie holds the token with the session's expiry |
| Sessions.DeleteSessionTokenCookie | lib/db/session.ts:90-99 | the `session` cookie is cleared (empty, max-age 0) |
| Sessions.CookieJar.Get | lib/db/session.ts:105 | a cookie's value, or nothing when it is absent |
| Sessions.SessionToken | lib/db/session.ts:105-108 | a token exists exactly when the `session` cookie is present and non-empty |
| Sessions.CurrentSession | lib/db/session.ts:102-113 | without a usable cookie the table is neither read nor written; otherwise it is `Validate` of the cookie's hash |
| Sessions.GetCurrentSession | lib/db/session.ts:102-113 | answer and new table are `CurrentSession` |
| Sessions.CreatedSessionValidates | lib/db/session.ts:24-66 | a newly created session validates for its user until its expiry, renewed once fewer than 7 days remain |
| Sessions.ExpiredSessionIsDeleted | lib/db/session.ts:55-58 | a session past its expiry is refused and its row is gone |
| Sessions.ValidateIdempotent | lib/db/session.ts:38-66 | validating twice at the same instant gives the same answer and the same table as validating once |
| Schema.InsertUser | lib/db/schema.ts:5-16 | the insert is refused exactly when the GitHub id is taken; otherwise it adds one user with the next id and keeps the constraints |
| Schema.InsertSession | lib/db/schema.ts:18-25 | the insert is refused exactly on a duplicate id or an unknown user; otherwise it adds that one row |
| Schema.InsertEpisode | lib/db/schema.ts:31-52 | the insert is refused exactly when the slug is taken; otherwise it appends one row with the next id, status `upcoming` by default, and no synced fields |
| Schema.CascadeDeleteUser | lib/db/schema.ts:18-25 | deleting a user removes exactly that user's sessions, and the reference still holds |
| Schema.Database.DeleteUser | lib/db/schema.ts:18-25 | the tables become `CascadeDeleteUser` of the old ones |
| Auth.LogoutSpec | lib/actions/auth.ts:11-18 | logs out exactly when the cookie names a live session, and then removes that session and no other; without a cookie nothing changes |
| Auth.Logout | lib/actions/auth.ts:11-18 | answer and table are `LogoutSpec`; the cookie is cleared only on logout |
| Callback.CheckRequest | app/api/auth/github/callback/route.ts:16-29 | 400 "Invalid request" exactly when code, state or stored state is missing or empty; 400 "Invalid state" exactly when they are all present but the states differ |
| Callback.FindByGithubId | app/api/auth/github/callback/route.ts:51-55 | finds a user exactly when one has that GitHub id, and returns that user |
| Callback.SignIn | app/api/auth/github/callback/route.ts:51-82 | reuses the user with that GitHub id, or else inserts exactly one (impossible only for a new user without a login, which `username NOT NULL` refuses); then adds exactly one 30-day session, failing only on a duplicate session id |
| Callback.SignInTwiceCreatesOneUser | app/api/auth/github/callback/route.ts:51-82 | signing in twice with the same GitHub account creates one user, not two |
| Callback.HandleCallback | app/api/auth/github/callback/route.ts:14-89 | a bad request or state, or a failed code exchange, answers 400 and writes nothing; a throwing GitHub user request, or a new user without a login, crashes before any write; otherwise the tables are those of `SignIn`, and once the session is stored the answer is the redirect to `/admin` with the session cookie set |
| EpisodeValidation.BaseErrors | lib/validations/episodes.ts:3-27 | a field is reported exactly when it breaks its rule |
| EpisodeValidation.NoErrorsIffValid | lib/validations/episodes.ts:3-27 | no errors exactly when every field rule holds |
| EpisodeValidation.ContentNameIffAllNameChars | lib/validations/episodes.ts:17-20 | a content name is exactly a string of name characters ending in `.md` with at least one character before it |
| EpisodeValidation.ContentNameHasNoSlash | lib/validations/episodes.ts:20 | a valid content name has no `/` |
| EpisodeValidation.SlugIsLowerCase | lib/validations/episodes.ts:7 | a valid slug is unchanged by lower-casing |
| EpisodeValidation.FourCharacterTitleOk | lib/validations/episodes.ts:23-24 | any title of four or more characters passes |
| EpisodeActions.Get | lib/actions/episodes.ts:35-39 | `formData.get` gives a string or `null` |
| EpisodeActions.ParsedData | lib/actions/episodes.ts:34-47 | titles and descriptions are never taken from the form; a missing resources URL becomes `""`; an empty or missing date is undefined, an unparsable one is `Invalid Date` |
| EpisodeActions.TopicValue | lib/actions/episodes.ts:17-18 | null or empty gives no topic; otherwise the topic is `parseInt`'s number, or NaN exactly when `parseInt` finds no digits |
| EpisodeActions.TopicOfDigits | lib/actions/episodes.ts:17 | the decimal text of `n` becomes topic `n` |
| EpisodeActions.ExtendedErrors | lib/actions/episodes.ts:13-19 | the extended schema replaces the slug and topic rules and keeps every other field's rule |
| EpisodeActions.ExtendedParse | lib/actions/episodes.ts:13-19 | fails exactly when some field is reported; on success the slug is lower-cased and the other values are those in the form |
| EpisodeActions.ActionValidationAlwaysFails | lib/actions/episodes.ts:34-60 | as written, validation fails for every form, and both titles are always reported |
| EpisodeActions.ExtendedSlugSkipsRegex | lib/actions/episodes.ts:14 | the extended slug rule accepts an empty slug and upper case and spaces, which the base rule refuses |
| EpisodeActions.NewEpisodeOf | lib/actions/episodes.ts:62-73 | the row to insert is `upcoming` with the validated values; a NaN or absent topic is stored as null |
| EpisodeActions.InsertValidated | lib/actions/episodes.ts:75-99 | a taken slug gives the "already exists" message and no row; otherwise one row is added and `/admin` is revalidated and redirected to |
| EpisodeActions.CreateEpisode | lib/actions/episodes.ts:21-100 | as written: "unauthorized" for non-admins, otherwise "Validation failed." with the errors; no episode is ever inserted |
| EpisodeActions.CorrectedParsedData | lib/actions/episodes.ts:34-47 | the corrected form also passes the titles on to validation |
| EpisodeActions.CorrectedAcceptsCompleteForm | lib/validations/episodes.ts:3-27 | with the correction, any form meeting every rule validates, with the slug lower-cased |
| EpisodeActions.CreateEpisodeCorrected | lib/actions/episodes.ts:21-100 | with the correction: non-admins and invalid forms add no row; a valid form from an admin inserts one `upcoming` episode unless its slug is taken |
| Middleware.GetLocale | middleware.ts:11-21 | the matched locale, or `fa` when matching throws; always `en` or `fa` |
| Middleware.Route | middleware.ts:24-52 | admin and dotted paths pass; paths with a locale pass; any other path is redirected to `/<locale><path>` |
| Middleware.RedirectTargetPassesThrough | middleware.ts:38-51 | the redirect target is never redirected again |
| Middleware.AdministratorSkipped | middleware.ts:29-35 | `/administrator` counts as an admin path, since the test is a plain prefix |
| Middleware.EnglishRedirected | middleware.ts:38-48 | `/english` does not count as having the `en` locale, and it is redirected |
| AudioPlayer.Clamp | components/audio-player.tsx:62 | the result lies in the range and is the input whenever the input does |
| AudioPlayer.Player.constructor | components/audio-player.tsx:31-35 | no audio, paused, at 0 of 0 |
| AudioPlayer.Player.Render | components/audio-player.tsx:128-139 | an audio element exists exactly when an audio URL is set and non-empty |
| AudioPlayer.Player.LoadAudio | components/audio-player.tsx:37-42 | sets the URL and resets to paused at 0 of 0 |
| AudioPlayer.Player.TogglePlay | components/audio-player.tsx:44-56 | flips playing when there is an element and does nothing otherwise |
| AudioPlayer.Player.Seek | components/audio-player.tsx:59-66 | with an element and a non-zero duration, moves to the time clamped to [0, duration]; otherwise does nothing |
| AudioPlayer.Player.MetadataLoaded | components/audio-player.tsx:80-82 | the duration becomes the reported one, or 0 when it is NaN |
| AudioPlayer.Player.TimeUpdate | components/audio-player.tsx:84-86 | the position follows the element |
| AudioPlayer.Player.Ended | components/audio-player.tsx:88-91 | stops, with the position at the end |
| AudioPlayer.Player.HandleKeyDown | components/audio-player.tsx:201-221 | the default is prevented exactly for the left arrow, right arrow or space with no modifier and audio loaded; the arrows seek 5 s back or forward, clamped, and leave the position alone without an element or a duration; space toggles play |
| AudioPlayer.Player.HandleClick | components/audio-player.tsx:188-197 | with a duration, seeks to the clicked share of it (always within [0, duration]); otherwise does nothing |
| AudioPlayer.ClickPercentage | components/audio-player.tsx:194 | the click position as a percentage of the bar's width, clamped to [0, 100] |
| AudioPlayer.TargetTime | components/audio-player.tsx:195 | the seek target lies in [0, duration] |
| AudioPlayer.ProgressValue | components/audio-player.tsx:182-185 | 0 without a positive duration; otherwise the position's share of the duration in percent, within [0, 100] while the position is |
| AudioPlayer.ClickShowsClickedShare | components/audio-player.tsx:182-197 | after a click, the progress bar shows exactly the clicked percentage |
| AudioPlayer.TwoDigits | components/audio-player.tsx:172-173 | a number below 60 is printed as exactly two digits that read back as it |
| AudioPlayer.FormatTime | components/audio-player.tsx:166-174 | the placeholder `--:--` appears exactly for NaN, infinities and negative values |
| AudioPlayer.ClockSeconds | components/audio-player.tsx:173 | a clock reading has the `:` three places from the end |
| AudioPlayer.FormatTimeRoundTrip | components/audio-player.tsx:166-174 | the `m:ss` text reads back as the whole seconds, so no two whole-second times look alike |
| AudioPlayer.PlaceholderHasNoReading | components/audio-player.tsx:168 | the placeholder cannot be mistaken for a time |
| Utils.GetLangDir | lib/utils.ts:2-4 | `rtl` exactly for `fa`, `ltr` for everything else |

## Left out

- Cryptography (HMAC-SHA-256, SHA-256 of tokens, random token generation) is modelled as functions passed in. Signature forgery resistance is outside the model.
- `JSON.parse`, GitHub's content and OAuth APIs, `gray-matter`, the unified/remark Markdown pipeline, zod's URL check and date coercion, and `Negotiator` with the locale matcher are functions passed in. A call that throws returns `None`. The handler then does what the source does with the throw: the code exchange is caught (400), while the GitHub user request and its `.json()` are not, so the callback crashes.
- Logging, `console` output, and React's rendering, effects and `cache` are left out. Each handler's state change is modelled directly.
- Concurrency between requests and between the webhook's `await`s is not modelled. Each request runs alone against the tables.
- The clock is one `now` per request. The source reads `Date.now()` more than once.
- Database errors other than the unique and reference constraints are not modelled. A failing update inside the sync's per-file `try` is covered by the skip path. Outside it, such an error would crash the handler.
- The `topics` table and the `episodes.topic_id` reference are not modelled. Whether the driver stores a NaN topic as null is unknown. `NewEpisodeOf` stores it as null.
- Cookie attributes other than value, expiry and max-age (path, `httpOnly`, `secure`, `sameSite`) are left out.
- Callback.HandleCallback: a GitHub body without an `id` is folded into the failed user request (`None`). The model does not say whether the lookup or the insert throws first. Either way the handler crashes and nothing is written.
- Text.ToLower: lower-cases ASCII letters only; JavaScript's full Unicode case mapping is not modelled. The action's extended slug rule (lib/actions/episodes.ts:14) accepts any string, so a slug with non-ASCII capitals reaches the insert: for `Ä` JavaScript stores `ä` and the model stores `Ä`. Slugs that pass the base rule are ASCII and are not affected.
- `Text.ParseInt` returns an exact integer. Precision loss above 2^53 is not modelled.
- The settings `contentRepo`, `admin.githubUsers` and `logoutRedirect` are parameters. `lib/utils.ts` defines only `admin.dashboard`, and `lib/settings.ts` is not part of this model.
- AudioPlayer: time is a real number. IEEE floating point, NaN other than a NaN duration, and infinite durations are not modelled. `FormatTime` does take NaN and both infinities as inputs.
- AudioPlayer.Player.MetadataLoaded: does not model the element's raw `onLoadedMetadata` handler (components/audio-player.tsx:134-137), which stores the duration without the NaN check. A `Known` duration must not be negative.
- AudioPlayer.Player.TimeUpdate: requires a non-negative position, as the browser reports.
- AudioPlayer.Player.HandleClick: requires a bar of positive width. A zero-width bar gives an IEEE infinity or NaN percentage in the source.
- AudioPlayer.Player.TogglePlay: the asynchronous `play()` rejection handler is not modelled.
- The reset effect at components/audio-player.tsx:69-73 repeats what `loadAudio` already does. The effect that re-registers listeners when `duration` changes (76-113) is folded into the event methods.
- `Ended` uses the current duration, not a value captured earlier.
- SyncCandidates.UniqueKeepsFirstSeen: proves that each kept entry is the first one pushed under its name, and that the names are distinct and complete. It does not prove that the output order is first-seen name order.
- SyncRoute.PostSpec: `Crashed` stands for any throw outside a `try`. These are a missing `commits` list, a commit without `added`, and the `timingSafeEqual` length throw. The model does not name the 500 response Next.js then sends.
- The shapes of the library values (the Octokit content entry, the base64 decoding of its content, the matter result) are reduced to the outcomes the handler distinguishes.

## Findings

| source | as written | input that shows it | evidently intended | confidence | as-written member | corrected member |
|---|---|---|---|---|---|---|
| lib/actions/episodes.ts:34-50 | the object given to `createEpisodeSchema.safeParse` holds only `slug`, `scheduledAt`, `resourcesUrl`, `contentName` and `topicId`, but the schema requires `titleEn` and `titleFa` (at least 4 characters each), so every submission fails validation and no episode is ever created | any form, for example slug `ep-1`, contentName `ep-1.md`, a valid date, titles `Hello` / `سلام` | read `titleEn`, `titleFa`, `descriptionEn` and `descriptionFa` from the form too, so that a complete form validates and inserts an `upcoming` episode | not executed | EpisodeActions.ActionValidationAlwaysFails | EpisodeActions.CorrectedAcceptsCompleteForm |
