# tool_userupsert in Dafny

A functional model of the reconciliation core of the Moodle admin tool
`tool_userupsert`. Given one incoming record (web-service field → value),
the plugin settings and the site's users, `upsert_user` decides to refuse the
record, create a user, update the user it matches, or soft-delete that user.
The model covers four parts, one module each, on top of small library modules:

- `FieldConfig` (`field_config.dfy`): the `config` constructor's parser for the
  `name | description` field list, and `get_fields`.
- `ProfileFields` (`profile_fields.dfy`): the `profile_field_` naming helpers
  and `get_supported_match_fields`.
- `UserExtractor` (`user_extractor.php` → `user_extractor.dfy`): `get_user` and
  the "taken" checks, over a sequence of user rows rather than SQL.
- `UserManager` (`user_manager.dfy`): the manager's constructor checks and
  `upsert_user` with `validate_status`, `validate_email`, `delete_user` and
  `update_user_profile`. `Upsert` returns the new database, or a `Rejection`
  that carries the error and the database the failure leaves behind.

The supporting modules are:

- `Wrappers`: `Option` and `Result`.
- `Text`: PHP's `empty`, `trim`, `explode`/`implode`, `str_replace("\r\n", "\n", …)`, `strpos` used as a boolean, and case-insensitive comparison.
- `OrderedMap`: PHP's string-keyed ordered arrays, with read, assignment, `unset` and `array_merge`.
- `UserDirectory`: the user table, profile data and profile field definitions, with the database's insert, in-place update and soft delete.

Two modules hold the properties of `upsert_user` as a whole:

- `UpsertProperties`: what is written to the matched or created user.
- `UpsertOutcomes`: refusal order, what a refusal leaves behind, deletion and its idempotence, and uniqueness of usernames and emails among live local users.

The Moodle services the manager calls are fields of an `Env` value. These are
`validate_email`, `email_is_not_allowed`, `exists_auth_plugin`, whether
`create_user_record` or `delete_user` throws, whether `delete_user` refuses a user, the error array of
`profile_validation`, and whether the final save throws. `$CFG->mnet_localhost_id`
and `$CFG->allowaccountssameemail` are `Env` fields too. The config accessors
that `user_manager.php` calls but `config.php` does not define (`is_ready`,
`get_data_mapping`, `get_user_match_field`, `get_mandatory_fields`,
`get_default_auth`) are the fields of an input `Config` value.

PHP details the model keeps:

- `empty()` treats `""` and `"0"` as empty (`Text.Empty`).
- `!strpos($name, ' ')` only rejects a space after position 0. This is harmless because the name is trimmed first (`Text.StrposFalsyMeansAbsent`).
- A mapping key that is absent reads as `null`, and `$data[null]` is `$data[""]` (`UserManager.KeyOf`).
- `if ($excludeuserid)` ignores an id of 0 (`UserExtractor.ExcludeZeroIsNoExclusion`).
- The description that `get_complete_user_data` replaces by `true` is dropped before the save. Left in place it would be written as `"1"`.
- `create_user_record` commits before the profile update can fail, so a failure in the update leaves the created user behind (`UpsertOutcomes.RejectionLeavesDirectory`).
- An auth field supplied as `""` or `"0"` is modelled as written. The check uses the default auth plugin, but the mapping loop still assigns the empty value, because `isset` holds.

## Model

| member | source | states |
|---|---|---|
| Text.Trim | classes/config.php:57-58 | the result is a slice of the input that neither starts nor ends with a character PHP's `trim` strips |
| Text.Split | classes/config.php:55 | `explode`: one more piece than separators, no piece holds the separator, and joining the pieces restores the input |
| Text.SplitJoin | classes/config.php:55 | exploding separator-free pieces joined by the separator gives the pieces back |
| Text.NormalizeNewlines | classes/config.php:51 | `str_replace("\r\n", "\n", …)` keeps every LF, shortens the text by exactly the CRs it removes, and leaves text without a CRLF pair unchanged |
| Text.NormalizeCrlfJoin | classes/config.php:51 | lines joined by CRLF normalise to the same lines joined by LF |
| Text.StrposFalsyMeansAbsent | classes/config.php:88 | on a string not starting with the character, a falsy `strpos` means the character does not occur |
| Text.CaseEquivalence | classes/user_extractor.php:131-132 | the case-insensitive comparison is reflexive, symmetric and transitive |
| OrderedMap.Get | classes/user_manager.php:97 | reading an array key gives nothing exactly when the key is absent, and otherwise that key's value |
| OrderedMap.Put | classes/config.php:61 | assignment replaces an existing key's value in place, or appends a new key at the end |
| OrderedMap.PutGet | classes/config.php:61 | reading a key right after assigning it gives the assigned value |
| OrderedMap.PutGetOther | classes/config.php:61 | assigning one key leaves every other key's value unchanged |
| OrderedMap.Remove | classes/profile_fields.php:95 | `unset` removes the key, keeps distinct keys drawn from the old ones, and changes nothing when the key is absent |
| OrderedMap.RemoveKeepsOrder | classes/profile_fields.php:95 | `unset` of the key at position `j` splices out exactly that entry, the others staying in order |
| OrderedMap.RemoveGet | classes/profile_fields.php:95 | after `unset` the key reads as absent and every other key reads as before |
| OrderedMap.Merge | classes/profile_fields.php:98 | `array_merge` keeps keys distinct and holds exactly the keys of both arrays |
| OrderedMap.MergeGetOther | classes/profile_fields.php:98 | a key the second array lacks keeps its value from the first |
| OrderedMap.MergeGetLast | classes/profile_fields.php:98 | the second array's last entry wins: its key reads as its value after the merge |
| OrderedMap.MergeDisjoint | classes/profile_fields.php:98 | `array_merge` of arrays with disjoint string keys is concatenation |
| FieldConfig.IsValidField | classes/config.php:83-89 | a valid field has a name and a description other than `""` and `"0"`; for a name not starting with a space, validity means no space in it; a name starting with a space passes the `strpos` test |
| FieldConfig.ParseLine | classes/config.php:53-63 | a kept line holds exactly one bar, and its field has a non-empty name without spaces and a non-empty description |
| FieldConfig.ParseLineOfPair | classes/config.php:55-62 | a line `a|b` yields the field (trim a, trim b) exactly when that field is valid, and is dropped otherwise |
| FieldConfig.ParseFields | classes/config.php:47-66 | the field list has distinct names, every entry passes `is_valid_field`, and an absent or empty setting gives no fields |
| FieldConfig.Assign | classes/config.php:53-62 | assigning the kept lines in turn gives distinct names, each with a valid description and no space in it |
| FieldConfig.AssignKeys | classes/config.php:60-62 | a name is in the list exactly when some kept line carries it |
| FieldConfig.AssignLastWins | classes/config.php:61 | a repeated name keeps the description of its last kept line |
| FieldConfig.AssignFirstOrder | classes/config.php:61 | names stand in the order of their first kept line |
| FieldConfig.CrlfParsesLikeLf | classes/config.php:51 | CRLF-separated text gives the same fields as LF-separated text, namely the fields of its lines |
| FieldConfig.NoCrNormalizes | classes/config.php:51 | text without CR is unchanged by the line-ending normalisation |
| ProfileFields.GetFieldShortName | classes/profile_fields.php:120-126 | a prefixed name loses the prefix exactly once, and any other name is returned unchanged |
| ProfileFields.CustomIffPrefixed | classes/profile_fields.php:110-112 | a name is a profile field name exactly when it is some shortname with the prefix in front |
| ProfileFields.ShortNameRoundTrip | classes/profile_fields.php:67-69 | a prefixed shortname is a profile field name, and stripping the prefix gives the shortname back |
| ProfileFields.PrefixRoundTrip | classes/profile_fields.php:120-126 | re-prefixing the shortname of a profile field name gives the name back |
| ProfileFields.NamingExamples | tests/profile_fields_test.php:127-174 | the cases fixed by the plugin's tests, including the bare prefix and a doubled prefix |
| ProfileFields.QualifyingColumns | classes/profile_fields.php:86-91 | one entry per qualifying field (text type, unique values) |
| ProfileFields.QualifyingColumnAt | classes/profile_fields.php:86-91 | every qualifying field appears, at its rank among the qualifying fields |
| ProfileFields.QualifyingColumnFrom | classes/profile_fields.php:86-91 | every entry comes from a qualifying field |
| ProfileFields.PrefixedIsNotUserColumn | classes/profile_fields.php:43-47 | a prefixed name is never one of the three user-table match fields |
| ProfileFields.PrefixInjective | classes/profile_fields.php:67-69 | distinct shortnames have distinct prefixed names |
| ProfileFields.QualifyingDistinct | classes/profile_fields.php:91 | with unique shortnames, the `array_column` keys are distinct |
| ProfileFields.PrefixedDistinct | classes/profile_fields.php:93-98 | the fixed fields together with the prefixed columns have distinct keys |
| ProfileFields.SupportedMatchFields | classes/profile_fields.php:76-102 | the match field list as intended: `username`, `idnumber`, `email` first, with distinct keys, and one more entry per qualifying field |
| ProfileFields.IntendedPosition | classes/profile_fields.php:86-98 | every qualifying field is offered under its prefixed shortname with its name, after the fixed three, in input order |
| ProfileFields.IntendedOnlyQualifying | classes/profile_fields.php:86-98 | nothing but the fixed fields and qualifying profile fields is offered |
| ProfileFields.SupportedMatchFieldsAsWritten | classes/profile_fields.php:76-102 | the list as the code builds it starts with the fixed three and has distinct keys |
| ProfileFields.RenamePass | classes/profile_fields.php:94-95 | one pass of the loop body keeps the keys distinct |
| ProfileFields.RenamePassGet | classes/profile_fields.php:94-95 | one pass removes the original key, gives the prefixed key the value, and leaves every other key present and valued as before |
| ProfileFields.RenameKeysAsWritten | classes/profile_fields.php:93-96 | the renaming loop as written keeps the keys distinct |
| ProfileFields.RenameKeysAsWrittenKeys | classes/profile_fields.php:93-96 | the loop leaves only keys of the live array and prefixed keys of the snapshot |
| ProfileFields.RenameKeysAsWrittenLast | classes/profile_fields.php:93-96 | after the loop the last original key is gone and its prefixed key holds its value |
| ProfileFields.RenameWithoutCollision | classes/profile_fields.php:93-96 | when no key collides with a prefixed key, the renaming loop moves every entry, prefixed and in order, behind the rest |
| ProfileFields.AsWrittenAgreesWithoutCollision | classes/profile_fields.php:76-102 | when no qualifying shortname is the prefixed form of another, the code and the intended list agree |
| ProfileFields.CollidingShortnamesDropField | classes/profile_fields.php:93-96 | fields `s` and `profile_field_` + `s`: the code loses field `s`, and the intended list offers both |
| ProfileFields.CollidingShortnamesExample | classes/profile_fields.php:93-96 | concretely, fields `a` and `profile_field_a` yield only `profile_field_profile_field_a` |
| UserDirectory.NextId | classes/user_manager.php:187 | the id of a newly created user is above every id in use |
| UserDirectory.Insert | classes/user_manager.php:187 | inserting a row with a fresh id appends it and keeps the database well formed |
| UserDirectory.Replace | classes/user_manager.php:289 | updating a row rewrites the row with that id and leaves every other row unchanged |
| UserDirectory.MarkDeleted | classes/user_manager.php:248 | soft delete marks the rows with that id deleted, keeps them in place and changes nothing else |
| UserDirectory.MarkDeletedIdempotent | classes/user_manager.php:246-252 | soft-deleting twice is soft-deleting once |
| UserExtractor.Matches | classes/user_extractor.php:53-67 | the query's condition on one row: live and local, and the column, or the defined profile field's data, equal to the value (its meaning is stated through MatchIndices and GetUser) |
| UserExtractor.MatchIndices | classes/user_extractor.php:65-69 | the positions, in increasing order, of exactly the rows that answer the query |
| UserExtractor.GetUser | classes/user_extractor.php:49-92 | no user exactly when no live local row matches; more than one exactly when two rows match; otherwise the one matching row |
| UserExtractor.FoundIsTheMatch | classes/user_extractor.php:74-75 | the user returned is the row that matches |
| UserExtractor.UndefinedFieldFindsNobody | classes/user_extractor.php:57-59 | a profile-field query for a shortname no field defines finds nobody, without error |
| UserExtractor.AnyHolds | classes/user_extractor.php:145 | `record_exists_select` is true exactly when some row satisfies the condition |
| UserExtractor.IsUserFieldTaken | classes/user_extractor.php:127-151 | taken exactly when the field name is non-empty and some live local user other than the excluded one holds the value, ignoring case |
| UserExtractor.IsEmailTaken | classes/user_extractor.php:102-104 | the taken check on the `email` column |
| UserExtractor.IsUsernameTaken | classes/user_extractor.php:114-116 | the taken check on the `username` column |
| UserExtractor.TakenIgnoresCase | classes/user_extractor.php:131-132 | values differing only in case are taken alike |
| UserExtractor.ExcludeZeroIsNoExclusion | classes/user_extractor.php:139-142 | excluding id 0 is the same as excluding nobody |
| UserExtractor.OwnValueIsNotTaken | classes/user_extractor.php:139-142 | a value only the excluded user holds is free |
| UserManager.KeyOf | classes/user_manager.php:136 | a mapping entry used as a record key is the mapped field, or `""` when the mapping lacks the entry |
| UserManager.NewManager | classes/user_manager.php:90-124 | construction succeeds exactly when the settings are ready and the match field, username, email and status are mapped; auth and password fields are kept exactly when mapped |
| UserManager.CheckMandatory | classes/user_manager.php:135-140 | passes exactly when every mandatory field is supplied; otherwise reports the first missing one by its web-service name |
| UserManager.MandatorySupplied | classes/user_manager.php:135-145 | once the mandatory check passes, the status, match, username and email fields are present and non-empty |
| UserManager.ValidateStatus | classes/user_manager.php:218-223 | only `active`, `suspended` and `deleted` pass; any other status is reported |
| UserManager.Checks | classes/user_manager.php:162-181 | passes exactly when the email is valid and allowed, free unless shared addresses are allowed, the username is free and the auth plugin exists; a failure is the first failing check in that order |
| UserManager.ChooseAuth | classes/user_manager.php:174-177 | the record's auth when an auth field is mapped and supplied, else the default |
| UserManager.Load | classes/user_manager.php:271-275 | every column becomes a property, except that a non-empty description becomes the `true` sentinel |
| UserManager.NewUser | classes/user_manager.php:183-187 | a created user is a live local row with a fresh id, the username and auth given, an empty password and no profile data |
| UserManager.AssignMapped | classes/user_manager.php:264-268 | the mapping loop keeps every property and changes none that the mapping does not name |
| UserManager.AssignMappedAgrees | classes/user_manager.php:264-268 | a property takes the record's value exactly when the record sets its mapped field, and is otherwise left as it was |
| UserManager.PrepareAccount | classes/user_manager.php:200-275 | the prepared user keeps its id, gets the status flag unless `suspended` is mapped, never keeps the description sentinel, and keeps every other unmapped property |
| UserManager.SavedRow | classes/user_manager.php:288-289 | saving keeps the id, host, deleted flag and set of columns |
| UserManager.Save | classes/user_manager.php:288-289 | saving rewrites the row with the user's id and leaves the other rows unchanged |
| UserManager.Finish | classes/user_manager.php:205-209 | a failure in profile validation or in the save is reported as a fields-update error and writes nothing more |
| UserManager.DeleteBranch | classes/user_manager.php:147-150 | no match changes nothing; a matched user whom `delete_user` refuses stays as is; otherwise the user is soft-deleted, or the thrown message is a deletion error that leaves the database unchanged |
| UserManager.TargetOf | classes/user_manager.php:152-198 | the matched user as loaded, over the unchanged database, with the password written exactly when the record carries it; or the created user appended with a fresh id, carrying the record's password exactly when a password field is mapped and set |
| UserManager.LiveBranch | classes/user_manager.php:151-210 | the live branch leaves a well-formed database whether it succeeds or fails |
| UserManager.Upsert | classes/user_manager.php:131-211 | an upsert leaves a well-formed database, on success and on failure |
| UpsertProperties.PreparedAttr | classes/user_manager.php:200-275 | the record's value for a property it sets through the mapping; otherwise the status flag for `suspended`, no description sentinel, and loaded values elsewhere |
| UpsertProperties.SavedColumn | classes/user_manager.php:261-290 | a saved column holds the record's value when mapped and set (the password only when it may be written), the status flag for an unmapped `suspended`, and its old value otherwise |
| UpsertProperties.SavedProfileField | classes/user_manager.php:288 | a defined profile field set through the mapping is saved with the record's value, and unset ones keep their data |
| UpsertProperties.SuccessIsAdmitted | classes/user_manager.php:135-145 | a successful upsert passed the mandatory and status checks and found at most one user |
| UpsertProperties.SuccessPassedChecks | classes/user_manager.php:162-181 | a successful live upsert passed all five checks, excluding the matched user from the taken checks |
| UpsertProperties.LiveSuccessUnfold | classes/user_manager.php:205-206 | a successful live upsert saves the prepared target over its base database |
| UpsertProperties.UpsertUpdatesMatchedUser | classes/user_manager.php:152-160 | an update rewrites the matched row alone, writing the password only when the record carries the password field |
| UpsertProperties.CreatedTarget | classes/user_manager.php:183-195 | a created user gets the record's password, and may have it written, exactly when a password field is mapped and set |
| UpsertProperties.UpsertCreatesUser | classes/user_manager.php:183-198 | a record that matches nobody appends one live local user with a fresh id, and the existing rows stay |
| UpsertProperties.UpdatedUserColumn | classes/user_manager.php:264-275 | the updated user's columns: the record's value where mapped and set, the status flag for `suspended`, and the stored value, the description included, elsewhere |
| UpsertProperties.CreatedUserColumn | classes/user_manager.php:183-203 | the created user's columns: the record's value where mapped and set, the status flag, the chosen username and auth, and empty elsewhere, the password included unless given |
| UpsertProperties.FreshValueKeepsUnique | classes/user_manager.php:165-172 | writing a value that no other live row holds keeps the column unique among live rows |
| UpsertProperties.MarkDeletedKeepsUnique | classes/user_manager.php:147-150 | soft delete keeps every column unique among live rows |
| UpsertOutcomes.FirstMissingReported | classes/user_manager.php:135-140 | the mandatory check reports the first mandatory field that the record lacks |
| UpsertOutcomes.MissingFieldRejected | classes/user_manager.php:135-140 | a missing mandatory field refuses the record, naming the first one missing, and writes nothing |
| UpsertOutcomes.InvalidStatusRejected | classes/user_manager.php:142-143 | an invalid status is refused before any lookup, and nothing is written |
| UpsertOutcomes.AmbiguousMatchRejected | classes/user_manager.php:145 | two matching live users refuse the record whatever its status, and nothing is written |
| UpsertOutcomes.FailedCheckRejected | classes/user_manager.php:162-181 | on the live branch the first failing check is the error, and nothing is written |
| UpsertOutcomes.OwnValuesAreFree | classes/user_manager.php:152-172 | with unique usernames and emails, a matched user's own username and email pass the taken checks |
| UpsertOutcomes.DeleteUnfold | classes/user_manager.php:147-150 | a `deleted` record runs none of the live-branch checks |
| UpsertOutcomes.DeleteMarksMatchedUser | classes/user_manager.php:147-150 | a `deleted` record soft-deletes the user it matches; if `delete_user` refuses that user nothing changes and the record succeeds; if it throws the record is refused |
| UpsertOutcomes.DeleteWithoutMatchIsNoOp | classes/user_manager.php:147-150 | a `deleted` record that matches nobody succeeds and changes nothing |
| UpsertOutcomes.DeletedMatchIsGone | classes/user_extractor.php:65-67 | after the matched user is soft-deleted, nobody answers the query |
| UpsertOutcomes.DeleteLeavesNoMatch | classes/user_manager.php:147-150 | after a successful `deleted` record nobody answers its match query, unless `delete_user` refused the matched user, who then stays |
| UpsertOutcomes.DeleteIsIdempotent | classes/user_manager.php:147-150 | sending the same `deleted` record twice leaves the database as sending it once |
| UpsertOutcomes.RejectionLeavesDirectory | classes/user_manager.php:183-209 | a refusal leaves the database unchanged, except that a fields-update failure after creation leaves the new live user |
| UpsertOutcomes.RowUpdateKeepsUnique | classes/user_manager.php:165-172 | rewriting a row with a value that passed the taken check keeps the column unique |
| UpsertOutcomes.RowInsertKeepsUnique | classes/user_manager.php:165-172 | appending a row with a value that passed the taken check keeps the column unique |
| UpsertOutcomes.LiveUpdateKeepsUnique | classes/user_manager.php:165-209 | updating the matched user keeps a checked column unique |
| UpsertOutcomes.LiveCreateKeepsUnique | classes/user_manager.php:165-209 | creating a user keeps a checked column unique |
| UpsertOutcomes.DeleteKeepsUnique | classes/user_manager.php:147-150 | a `deleted` record keeps every column unique |
| UpsertOutcomes.LiveKeepsUnique | classes/user_manager.php:152-209 | the live branch keeps a checked column unique |
| UpsertOutcomes.UpsertKeepsUnique | classes/user_manager.php:131-211 | any successful upsert keeps a checked column unique |
| UpsertOutcomes.UpsertKeepsUsernamesUnique | classes/user_manager.php:169-172 | usernames of live local users stay unique, ignoring case, across any successful upsert |
| UpsertOutcomes.UpsertKeepsEmailsUnique | classes/user_manager.php:165-167 | unless shared addresses are allowed, emails of live local users stay unique, ignoring case |

## Left out

- `classes/external/upsert.php`, the events, `settings.php`, `db/install.php`, the language strings and the exception classes: these are web-service glue, logging and admin UI. Errors are the `Failure` datatype, which carries the offending value or message.
- Reading the plugin settings (`get_config`): `FieldConfig.ParseFields` takes the raw text of the `fields` setting as an optional string.
- The config accessors that `config.php` does not define are inputs (`UserManager.Config`), not implementations.
- Moodle's services are fields of `UserManager.Env`. These are email validation and policy, the auth plugin registry, `profile_validation`, and whether `create_user_record`, `delete_user` or the final save throws. Their internals are outside the plugin.
- `get_complete_user_data` is modelled as an exact column comparison over live local rows (`UserExtractor.Matches`). It lower-cases a username and compares emails without regard to case; these rules belong to Moodle core.
- The database's case-insensitive collation is modelled as ASCII case folding (`Text.FoldChar`).
- Password hashing and password policy: the password column holds the value the record supplies.
- `delete_user` is modelled as a soft delete that sets the deleted flag, or as a refusal (`UserManager.Env.deleteRefused`) for the users it declines to delete by returning false without throwing, the guest account and a site administrator with manual authentication; the plugin ignores that result. Which users those are is an input. The scrambling of the username, email and other columns is not modelled: only a deleted row would show it, and no lookup or taken check sees deleted rows.
- `profile_save_data` and `user_update_user` are one atomic save that either throws or writes everything. A partial write before an exception is not modelled.
- `timemodified` and the other bookkeeping columns Moodle sets on save.
- Profile field types other than `text` are stored as their text value; only `text` fields can be match fields.
- A manager whose mandatory fields lack username, email, status or the match field (`UserManager.Constructed`): PHP would pass `null` into string-typed parameters and raise a `TypeError`, which the model does not represent.
- A mapping onto `id`, `mnethostid` or `deleted`: the model keeps these structural columns apart from the mapped ones.
- The SQL error raised by `get_user` for a column the user table lacks: such a query finds nobody in the model.
- PHP loose typing, such as `is_custom_profile_field(0)`: every name is a string.
- UserManager.NewUser: `create_user_record` also lower-cases and trims the username and sets `confirmed`, `lang`, `timecreated`, `firstaccess` and the columns the auth plugin's `get_userinfo` supplies; the model keeps the username as given and leaves every other column empty.
- UpsertProperties.CreatedUserColumn: states the created row's columns over NewUser's row, so the columns `create_user_record` fills itself read as empty and the username as given, not lower-cased or trimmed.
- ProfileFields.PrefixCustomProfileField: carries no contract of its own; its meaning is stated by CustomIffPrefixed, ShortNameRoundTrip, PrefixRoundTrip and PrefixInjective.
- Text.FoldChar: states only that it maps upper-case ASCII letters to lower-case ones and leaves other characters alone, not which lower-case letter; TakenIgnoresCase and CaseEquivalence carry what the taken checks need.

## Findings

| source | as written | input that shows it | evidently intended | confidence | as-written member | corrected member |
|---|---|---|---|---|---|---|
| classes/profile_fields.php:93-96 | the renaming loop assigns `profile_field_<key>` and then unsets `<key>` in the live array while walking a snapshot, so an assignment can overwrite the entry of another field whose shortname is already `profile_field_<key>` | two unique text fields with shortnames `a` and `profile_field_a`: the result offers only `profile_field_profile_field_a`, and field `a` is missing | every unique text field offered under its prefixed shortname, after the three fixed fields and in input order | not executed | ProfileFields.CollidingShortnamesDropField | ProfileFields.IntendedPosition |

The as-written list is `ProfileFields.SupportedMatchFieldsAsWritten`. The
corrected list is `ProfileFields.SupportedMatchFields`, and
`ProfileFields.AsWrittenAgreesWithoutCollision` shows the two agree whenever no
qualifying shortname is the prefixed form of another.
