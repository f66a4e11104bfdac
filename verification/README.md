# nametag relationship types, reminders and export: a Dafny model

This project models the relationship-type machinery of nametag, a personal
contact manager, together with the small pure rules around it.

- **Labels.** How a relationship type chooses between its stored label and
  a translated default (`getRelationshipTypeDisplayLabel`).
- **Preloaded catalogue.** The catalogue every new user receives
  (`PRELOADED_RELATIONSHIP_TYPES`) and the two-pass routine that creates it
  and links each type to its inverse (`createPreloadedRelationshipTypes`).
- **Production repair pass.** `createDefaultRelationshipTypes` makes sure
  an existing user owns every default type. It removes an unused legacy
  RELATIVE type, creates missing defaults, back-fills empty inverse links
  and migrates blank or legacy colours.
- **Recurring reminders.** The schedule rule (`getIntervalMs`,
  `shouldSendRecurringReminder`).
- **Account export.** The pure shaping step: parsing the `groupIds`
  parameter, choosing people and groups, dropping links that leave the
  export, and composing display names.
- **UI and configuration rules.** The delete-group confirmation dialog as a
  state machine; the locale-cookie synchronisation and its one-shot reload
  guard; the locale tables; the database-URL composition.

The database is an immutable store `map<Id, TypeRecord>` with a `nextId`
counter that stands in for id generation. The model assumes that listing a
user's types visits ids in ascending order, that is, creation order. The
original's query has no `orderBy`, so the database is free to return
another order. The order only matters for a user with two types of one
name. `SeedProduction.IndexOfUniqueName` shows that otherwise the index
entry is the user's only type of that name. `SeedProduction.EnsureDefaultsKeepsNamesUnique`
shows that the pass never creates a second type of a name. Every Prisma call becomes a
pure function on that store (`TypeStore.Create`, `SetInverse`, `SetColor`,
`DeleteNamed`). The two usage counts the repair pass reads from the
database are parameters. The repair-pass lemmas are stated for any table
with one entry per canonical name, in order. `DefaultTypesShape` shows
that DEFAULT_RELATIONSHIP_TYPES is such a table.

Dates in the reminder rule are whole day numbers (days since 1970-01-01).
Their calendar view is the proleptic Gregorian calendar (`CivilFromDays`).
The browser (cookie jar, session storage, protocol) and the environment
variables are parameters.

One module per source file: `RelationshipTypeLabels`, `RelationshipTypes`,
`SeedProduction`, `RecurringReminder`, `UserExport`, `DeleteGroupButton`,
`LocaleSync`, `I18nConfig` and `DatabaseUrl`. Three shared modules support
them:

- `Common`: optional values, JavaScript truthiness and `Array.filter`.
- `Strings`: ASCII upper-casing and JavaScript `split`/`join` with their
  round-trip lemmas.
- `TypeStore`: the relationship-type table.

## Model

| member | source | states |
|---|---|---|
| RelationshipTypeLabels.LookupDefaultName | lib/relationship-type-labels.ts:56-58 | a name is found in the label table only under its exact spelling |
| RelationshipTypeLabels.LookupNameText | lib/relationship-type-labels.ts:1-43 | every key of the two tables is found under its own spelling (lookup and spelling are inverse) |
| RelationshipTypeLabels.DefaultNamesComplete | lib/relationship-type-labels.ts:1-43 | the label table and the key table share exactly the same 19 canonical names, each once |
| RelationshipTypeLabels.DisplayLabel | lib/relationship-type-labels.ts:47-71 | the stored label is shown when the name is missing or empty, not a table key, customised, or no translator is given; in every case the result is the stored label or the translation of some table key |
| RelationshipTypeLabels.DisplayLabelCharacterised | lib/relationship-type-labels.ts:60-70 | with a translator, an unedited default shows the translation of its key, and every other type shows its stored label |
| RelationshipTypeLabels.DisplayLabelCaseInsensitive | lib/relationship-type-labels.ts:55 | the name is matched case-insensitively: upper-casing it beforehand changes nothing |
| TypeStore.Create | prisma/seed.production.ts:71-78 | a create adds one record under a fresh id, with no inverse, and keeps every other record |
| TypeStore.SetInverse | prisma/seed.production.ts:92-95 | an inverse update changes only the inverse link of the one record |
| TypeStore.SetColor | prisma/seed.production.ts:126-129 | a colour update changes only the colour of the one record |
| TypeStore.DeleteNamed | prisma/seed.production.ts:48-50 | deleteMany removes exactly the user's records of that name and keeps every other record unchanged |
| RelationshipTypes.PreloadedTableWellFormed | lib/relationship-types.ts:10-30 | the preloaded table has 19 entries with distinct names, in the order of the label table, each carrying the default label of its name |
| RelationshipTypes.PresetLabelMatches | lib/relationship-types.ts:10-30 | each preloaded entry's label equals the default label of its name, so fresh types are eligible for translation |
| RelationshipTypes.InverseNameInvolutive | lib/relationship-types.ts:11-21 | inverse naming is an involution, and an entry is its own inverse exactly when it is symmetric |
| RelationshipTypes.CreatePresetsStore | lib/relationship-types.ts:44-54 | the first pass hands out one fresh consecutive id per entry and keeps every earlier record |
| RelationshipTypes.CreatePresetsRecord | lib/relationship-types.ts:44-54 | the record created for an entry carries the entry's name, label and colour, the given user, and no inverse |
| RelationshipTypes.CreatePresetsId | lib/relationship-types.ts:44-54 | with distinct names, the id map sends each entry's name to the id created for it |
| RelationshipTypes.LinkInversesSpec | lib/relationship-types.ts:57-77 | the second pass gives each created record its own id when symmetric, otherwise the id of its inverse name, and touches no other record |
| RelationshipTypes.CreatePreloadedRelationshipTypes | lib/relationship-types.ts:36-78 | 19 new records with distinct fresh ids, one per name, with catalogue label and colour, each linked to the record of its inverse name; every earlier record unchanged |
| RelationshipTypes.PreloadedInversesPair | lib/relationship-types.ts:57-77 | following a created type's inverse link twice returns to it, and a type links to itself exactly when its entry is symmetric |
| SeedProduction.SeedAgreesWithPreloaded | prisma/seed.production.ts:11-31 | each production entry has the preloaded entry's name, label and colour, and its inverse name is the preloaded inverse (itself when symmetric) |
| SeedProduction.DefaultTypesShape | prisma/seed.production.ts:11-31 | the production table holds one entry per canonical name, in order, so every repair-pass lemma stated for a well-shaped table applies to it |
| SeedProduction.SeedOrderAgreesWithPreloaded | prisma/seed.production.ts:11-31 | the production table lists the same names as the preloaded table, in the same order |
| SeedProduction.LegacyNameNotDefault | prisma/seed.production.ts:11-31 | no default name is spelled RELATIVE, so the cleanup never removes a default type |
| SeedProduction.CleanupRelative | prisma/seed.production.ts:36-51 | the user's RELATIVE types are removed exactly when both usage counts are zero; otherwise the store is unchanged; no other record changes |
| SeedProduction.IndexByNameSpec | prisma/seed.production.ts:53-61 | the name index holds exactly the names of the user's types, each pointing at the newest type of that name with its current inverse and colour |
| SeedProduction.CreateMissingStore | prisma/seed.production.ts:63-81 | creation hands out consecutive fresh ids, keeps every record and index entry, and leaves every table name indexed |
| SeedProduction.CreateMissingCount | prisma/seed.production.ts:63-81 | createdCount is the number of table entries whose name was not indexed |
| SeedProduction.CreateMissingNew | prisma/seed.production.ts:66-81 | a missing entry gets a fresh type with its default name, label and colour and no inverse |
| SeedProduction.InverseToSet | prisma/seed.production.ts:83-96 | an inverse is written exactly when the type and its inverse are both indexed and the type has no inverse yet, and it is the inverse's id |
| SeedProduction.BackfillInverses | prisma/seed.production.ts:83-96 | the back-fill keeps every record's owner, name, label and colour |
| SeedProduction.BackfillInversesAt | prisma/seed.production.ts:84-96 | each indexed entry's type ends the back-fill with exactly the inverse the guard allows |
| SeedProduction.ColorToSet | prisma/seed.production.ts:112-124 | a colour is written exactly when the current colour differs from the default and is blank, or is the legacy family colour on a family type; it is then the default |
| SeedProduction.MigrateColors | prisma/seed.production.ts:112-131 | the migration keeps every record's owner, name, label and inverse link |
| SeedProduction.MigrateColorsAt | prisma/seed.production.ts:112-131 | each indexed entry's type ends the migration with exactly the colour the rule allows |
| SeedProduction.EnsureDefaultsOthersUntouched | prisma/seed.production.ts:48-61 | for any table, types of other users are neither deleted nor changed |
| SeedProduction.EnsureDefaultsShape | prisma/seed.production.ts:36-81 | the store afterwards is the old one minus the unused RELATIVE types, plus createdCount fresh ones; surviving types keep owner, name and label |
| SeedProduction.EnsureDefaultsCount | prisma/seed.production.ts:63-81 | createdCount is the number of table entries whose name the user had no type for after the cleanup |
| SeedProduction.EnsureDefaultsComplete | prisma/seed.production.ts:63-81 | afterwards the user owns a type of every canonical name |
| SeedProduction.EnsureDefaultsNewTypes | prisma/seed.production.ts:63-96 | every created type is the table entry of a name the user lacked, with its label and colour, linked to the user's type of the entry's inverse name |
| SeedProduction.EnsureDefaultsKeepsInverse | prisma/seed.production.ts:88 | on every type that survives the pass, an inverse link that was already set is never overwritten |
| SeedProduction.EnsureDefaultsInverseTarget | prisma/seed.production.ts:83-96 | an inverse link the pass writes is on a type named after a table entry and points at the user's type of that entry's inverse name |
| SeedProduction.EnsureDefaultsColorRule | prisma/seed.production.ts:98-124 | a colour changes only from blank, or from the legacy colour on a family type, and only to the table colour of the type's name; any other colour the user chose is kept |
| SeedProduction.NoLegacyAfterRun | prisma/seed.production.ts:45-51 | with both usage counts zero, no RELATIVE type of the user remains |
| SeedProduction.SettledAfterRun | prisma/seed.production.ts:83-131 | after a run, a second index finds every default with an inverse and no colour left to migrate |
| SeedProduction.EnsureDefaultsWithIdempotent | prisma/seed.production.ts:33-138 | over any well-shaped table, an immediate second run deletes, creates and changes nothing and reports zero created |
| SeedProduction.EnsureDefaultsIdempotent | prisma/seed.production.ts:33-138 | an immediate second run of the repair pass deletes, creates and changes nothing and reports zero created |
| SeedProduction.IndexOfUniqueName | prisma/seed.production.ts:53-61 | for a name the user has at most one type of, the index entry is exactly that type, the one any listing order leaves there |
| SeedProduction.OwnedAfterRun | prisma/seed.production.ts:45-81 | a type of the user after the pass either survived the cleanup under the same name, or is the new indexed type of a name the user had no type of |
| SeedProduction.NewTypeOfRun | prisma/seed.production.ts:63-81 | every created type carries a name the user had no type of, and is that name's index entry |
| SeedProduction.EnsureDefaultsKeepsNamesUnique | prisma/seed.production.ts:33-138 | a user with at most one type of a name still has at most one after the pass |
| RecurringReminder.IntervalDaysScales | scripts/test-recurring-logic.ts:8-23 | the interval is n days, 7n, 30n or 365n for the four units, and 365 days for any other unit whatever n is |
| RecurringReminder.FloorDiv | scripts/test-recurring-logic.ts:86 | `Math.floor` of a quotient: the largest whole number of divisors not above the dividend, for either sign of divisor |
| RecurringReminder.ShouldSend | scripts/test-recurring-logic.ts:25-102 | nothing is sent before the event day |
| RecurringReminder.FloorStepExact | scripts/test-recurring-logic.ts:85-90 | adding the floored number of whole intervals lands on today exactly when today is a whole number of intervals after the base |
| RecurringReminder.CivilFromDays | scripts/test-recurring-logic.ts:46-49 | the calendar view of a day has a month of 1 to 12 and a day of 1 to 31 |
| RecurringReminder.CivilRoundTrip | scripts/test-recurring-logic.ts:46-60 | converting a day to its civil date and back gives the same day, so distinct days have distinct dates |
| RecurringReminder.CivilInjective | scripts/test-recurring-logic.ts:52 | two days with the same year, month and day of month are the same day |
| RecurringReminder.YearsRule | scripts/test-recurring-logic.ts:44-68 | YEARS sends exactly on the anniversary (same month and day), when never sent or at least `interval` years after the year last sent |
| RecurringReminder.IntervalRuleAfterSend | scripts/test-recurring-logic.ts:70-91 | after a send, other units send exactly when at least one interval has passed and today is a whole number of intervals after the last send |
| RecurringReminder.IntervalRuleNeverSent | scripts/test-recurring-logic.ts:93-101 | never sent, other units send exactly when today is a whole number of intervals after the event day |
| RecurringReminder.NoSecondSendSameDay | scripts/test-recurring-logic.ts:73-83 | with a positive interval of a unit other than YEARS, a reminder already sent today is not sent again |
| RecurringReminder.SendsOnEventDay | scripts/test-recurring-logic.ts:93-101 | a reminder never sent goes out on the event day itself for every non-zero interval |
| RecurringReminder.ScenarioDailyNeverSent | scripts/test-recurring-logic.ts:107-115 | daily, event two days ago, never sent: send |
| RecurringReminder.ScenarioDailySentYesterday | scripts/test-recurring-logic.ts:117-127 | daily, sent yesterday: send |
| RecurringReminder.ScenarioDailySentToday | scripts/test-recurring-logic.ts:129-139 | daily, already sent today: no send |
| RecurringReminder.ScenarioWeeklyNeverSent | scripts/test-recurring-logic.ts:141-149 | every 7 days, event 14 days ago, never sent: send |
| RecurringReminder.ScenarioBirthday | scripts/test-recurring-logic.ts:151-159 | yearly birthday on its anniversary, never sent: send |
| UserExport.ParseGroupIds | app/api/user/export/route.ts:62-63 | no filter exactly when the parameter is absent or empty; otherwise non-empty comma-free pieces that spell the parameter without its commas |
| UserExport.ParseJoined | app/api/user/export/route.ts:62-63 | comma-free pieces joined by commas parse back to exactly those pieces, empty ones dropped, order kept: the split happens at every comma and only there |
| UserExport.ParseOnlyCommas | app/api/user/export/route.ts:63 | a parameter of commas only gives an empty filter list |
| UserExport.SelectPeople | app/api/user/export/route.ts:77-89 | everyone when the filter is inactive; otherwise exactly the people in a listed group, in order |
| UserExport.AllGroupIds | app/api/user/export/route.ts:143-147 | the union of the group ids of the given people |
| UserExport.ExportedGroupIds | app/api/user/export/route.ts:141-147 | the filter's ids when it is active, otherwise the ids of every group some exported person is in |
| UserExport.RelatedPersonName | app/api/user/export/route.ts:195 | name, then ` 'nickname'` when the nickname is non-empty, then ` surname` when the surname is non-empty |
| UserExport.ProjectType | app/api/user/export/route.ts:186-191 | a null type stays null; otherwise only its name and label are kept |
| UserExport.ExportRelationship | app/api/user/export/route.ts:193-203 | the exported relationship keeps relatedPersonId and notes, composes the display name and projects the type |
| UserExport.ExportPerson | app/api/user/export/route.ts:179-204 | the exported person keeps its own fields and lists only its links to exported groups and relationships to exported people |
| UserExport.Export | app/api/user/export/route.ts:137-204 | one exported record per selected person; every exported relationship points at an exported person; the exported groups are exactly the user's groups whose id is exported |
| UserExport.EmptyFilterIsNoFilter | app/api/user/export/route.ts:77-147 | an empty filter list exports exactly what no filter exports |
| UserExport.CommasOnlyExportsAll | app/api/user/export/route.ts:61-63 | a parameter of commas only exports exactly what an absent parameter exports |
| UserExport.ExportIsClosed | app/api/user/export/route.ts:149-157 | every exported relationship points at an exported person and every kept group link at an exported group; nothing inside the export is dropped and order is kept |
| UserExport.FilteredExport | app/api/user/export/route.ts:141-160 | with an active filter the exported groups are exactly the listed ones, and exactly the people in them are exported |
| UserExport.UnfilteredExport | app/api/user/export/route.ts:141-160 | without a filter everyone is exported, and exactly the groups some person belongs to |
| DeleteGroupButton.DeleteUrlCarriesFlag | components/DeleteGroupButton.tsx:28-31 | the URL names the group and ends with `?deletePeople=true` exactly when "delete people" is ticked |
| DeleteGroupButton.Step | components/DeleteGroupButton.tsx:23-59 | every handler keeps "confirmation implies delete people"; a request is sent only from the open, enabled dialog, with deleting set, the error cleared and the right URL |
| DeleteGroupButton.RunKeepsInv | components/DeleteGroupButton.tsx:95-120 | along any sequence of events the confirmation is never ticked without "delete people" |
| DeleteGroupButton.CloseResets | components/DeleteGroupButton.tsx:51-56 | closing resets the dialog flags, both check-boxes and the error |
| DeleteGroupButton.UntickClearsConfirmation | components/DeleteGroupButton.tsx:95-100 | from any state, unticking "delete people" also unticks the confirmation and changes nothing else; ticking it keeps the confirmation |
| DeleteGroupButton.DisabledOnlyWhenUnconfirmed | components/DeleteGroupButton.tsx:59 | the confirm action sends exactly when not ("delete people" and not confirmed) |
| DeleteGroupButton.FailureMessages | components/DeleteGroupButton.tsx:37-48 | a failed answer shows the server's message or the fixed fallback, a network failure the connection message, and deleting ends |
| DeleteGroupButton.ScenarioCloseResets | tests/components/DeleteGroupButton.test.tsx:32-56 | a reopened dialog has "delete people" unticked |
| DeleteGroupButton.ScenarioDisableEnable | tests/components/DeleteGroupButton.test.tsx:84-144 | ticking "delete people" disables confirm; ticking the confirmation enables it |
| DeleteGroupButton.ScenarioResetConfirmation | tests/components/DeleteGroupButton.test.tsx:167-191 | unticking and re-ticking "delete people" leaves the confirmation unticked |
| DeleteGroupButton.ScenarioRequests | tests/components/DeleteGroupButton.test.tsx:195-256 | no flag by default, the flag with both boxes ticked, no request with one box |
| DeleteGroupButton.ScenarioServerError | tests/components/DeleteGroupButton.test.tsx:316-336 | a failed delete shows the server's error text |
| I18nConfig.TablesConsistent | lib/i18n-config.ts:1-15 | the default locale is supported; the picker offers exactly the supported codes in order, each once; flags and label keys are distinct |
| LocaleSync.SupportedLocalesAgree | components/LocaleSync.tsx:7-11 | exactly `en`, `es-ES` and `it-IT` are supported, the same list as the locale configuration |
| LocaleSync.FindFirst | components/LocaleSync.tsx:22-25 | `find` returns an entry with the prefix, and returns nothing only when no entry has it |
| LocaleSync.FindFirstAt | components/LocaleSync.tsx:22-25 | `find` returns the first entry with the prefix |
| LocaleSync.CookieLocale | components/LocaleSync.tsx:22-25 | the value read from the cookie never contains `=` |
| LocaleSync.CookieLocaleOfJar | components/LocaleSync.tsx:22-25 | in a jar `a=b; c=d; …` the lookup returns the value of the first `NEXT_LOCALE` entry: the text between its first and second `=` |
| LocaleSync.EntryValueWithTail | components/LocaleSync.tsx:22-25 | splitting an entry `NEXT_LOCALE=v` or `NEXT_LOCALE=v=…` on `=` yields `v` as the second piece |
| LocaleSync.MaxAgeText | components/LocaleSync.tsx:37 | the max-age is written as 31536000 |
| LocaleSync.CookiePartsFormat | components/LocaleSync.tsx:31-37 | the cookie is `NEXT_LOCALE=<lang>; path=/; max-age=31536000; samesite=lax`, plus `secure` exactly on https and `domain=<d>` exactly when a domain is configured |
| LocaleSync.CookieStringRoundTrip | components/LocaleSync.tsx:22-41 | splitting the written cookie on `; ` gives back its attributes, and the component's own lookup reads back the language |
| LocaleSync.Sync | components/LocaleSync.tsx:16-49 | a reload implies a cookie write; session storage changes at most in the language's reload key |
| LocaleSync.NothingToDo | components/LocaleSync.tsx:17-29 | a missing, empty or unsupported language, or a cookie that already matches, writes nothing, stores nothing and does not reload |
| LocaleSync.SyncDecision | components/LocaleSync.tsx:31-48 | otherwise the cookie is written; a reload happens exactly when the cookie now reads the language and the flag was unset, and sets the flag; a set flag is removed |
| LocaleSync.NoSecondReload | components/LocaleSync.tsx:43-48 | after a reload, the next run for the same language does not reload, whatever the cookies say |
| DatabaseUrl.ComposedUrl | prisma.config.ts:14 | the composed URL starts with `postgresql://` and the user |
| DatabaseUrl.ResolveUrl | prisma.config.ts:12-15 | a defined `DATABASE_URL`, even empty, wins; otherwise a URL exactly when all four components are non-empty, and then the composed one |
| DatabaseUrl.LoadUrl | prisma.config.ts:12-19 | a loaded URL is never empty; a failure carries the configuration error text |
| DatabaseUrl.LoadUrlFailsIff | prisma.config.ts:12-19 | loading fails exactly when `DATABASE_URL` is empty, or undefined with a component missing or empty |
| DatabaseUrl.ExplicitUrlWins | prisma.config.ts:12 | with `DATABASE_URL` defined, the `DB_*` variables do not matter |
| DatabaseUrl.ComposedUrlSplits | prisma.config.ts:13-14 | after the scheme, the URL splits at `@` into `user[:password]` and `host:port/name`; the password is present exactly when non-empty |

## Left out

- The ego-network graph route that would use the labels and inverses (app/api/people/[id]/graph/route.ts) is not part of this model.
- Prisma and database I/O, `Promise.all` and the `console` output are left out. Each query becomes a pure function on the store, or an input.
- The seeding `main` loop is left out; the model covers one user's pass.
- From the export route, the user row, `exportDate`, `version` and the pass-through `relationshipTypes` list are left out. They are database reads and a clock, with no logic to prove.
- `document.cookie`, `sessionStorage` and `window.location` are parameters. Whether the browser accepts the cookie is the `cookieAfter` input.
- `reload()` is reported as a flag in the outcome.
- The `ConfirmationModal` component (its rendering and loading state) is not part of this model. So are `fetch`, the router and lib/error-messages.ts (static strings).
- The dotenv import in prisma.config.ts is left out; the environment is an input record.
- i18n.ts, app/actions/auth.ts, components/ProfileForm.tsx, scripts/send-test-reminder.ts, scripts/reset-reminders.ts, and the routes and components behind the other test files are not part of this model.
- RelationshipTypeLabels.DisplayLabel: upper-cases ASCII letters only. JavaScript's full Unicode `toUpperCase` is not modelled. It also maps some non-ASCII letters onto ASCII ones, such as `ı` to `I` and `ſ` to `S`, so a stored name like `frıend` would match `FRIEND` in the original but not in the model. The application only ever writes type names from its ASCII tables.
- RecurringReminder.ShouldSend: dates are whole day numbers after local-midnight normalisation. Time zones, daylight-saving days (23 or 25 hours long) and millisecond or floating-point rounding are not modelled. A zero-length interval never sends, as the original's `NaN` date comparison does.
- SeedProduction.IndexByNameSpec: unnamed types are left out of the name index, since the routine only looks up default names.
- SeedProduction.IndexByNameSpec: the listing order is fixed to ascending id, so of two types with one name the newer one wins. The original's `findMany` has no `orderBy`, and with duplicate names its outcome depends on whatever order the database returns.
- SeedProduction.SettledAfterRun: for a user with two types of one name, this holds only under the fixed ascending-id listing order. A second listing in another order could pick the other type, which may still lack its inverse or colour.
- SeedProduction.EnsureDefaultsWithIdempotent: for a user with two types of one name, idempotence holds only under the fixed ascending-id listing order. In another order, a second run of the original could write an inverse or colour to the other type. For users without duplicate names the order does not matter (`IndexOfUniqueName`), and the pass creates no duplicates (`EnsureDefaultsKeepsNamesUnique`).
- SeedProduction.EnsureDefaultsIdempotent: the same ordering assumption as EnsureDefaultsWithIdempotent.
- RecurringReminder.YearsRule: the anniversary test uses `CivilFromDays`, the proleptic Gregorian calendar, with month and day ranges and the day-to-date-to-day round trip proved (`CivilRoundTrip`). The converse, that every valid calendar date is reached, and the exact month lengths are not proved.
- SeedProduction.MigrateColors: the in-memory `current.color` update after a colour write is not modelled. No later step reads it.
- DeleteGroupButton.DeleteUrlCarriesFlag: assumes an origin and group id without `?`, as generated ids are. A `?` in the id would start the query, and `searchParams.append` would then add the flag after `&`. That case and the URL constructor's percent-encoding are not modelled.
- DatabaseUrl.ComposedUrlSplits: assumes components without `@`. Percent-encoding of credentials is not modelled.
- LocaleSync.CookieStringRoundTrip: assumes a cookie domain without `;`.
