# One-connection quiz access rule: a Dafny model of the session lock protocol

This project models the lock protocol of a Moodle quiz access rule. The rule
binds each quiz attempt to one browser session. The plugin's files use two
names for the same rule, `quizaccess_oneconnection` and
`quizaccess_onesession`; the model treats them as one rule with one lock table
and one unlock log.

The protocol works like this:

- **Binding.** On the first access to an attempt, the rule stores a lock row.
  Its value is `bin2hex(secret) | HMAC-SHA256(fingerprint, secret)`, where the
  fingerprint is the session key, the client address and the user agent,
  joined with no separator. The address is left out when it is falsy or lies
  in the configured whitelist.
- **Checking.** Every later access recomputes the MAC and compares it with the
  stored one. A mismatch triggers an `attempt_blocked` event, and the rule asks
  for the preflight form. The form re-check throws `anothersession`.
- **Releasing.** A teacher can release a lock on the "allow connections" page.
  Each release is written to the unlock log. The lifecycle observer releases
  the lock when an attempt is abandoned, deleted or submitted.
- **Settings.** Each quiz turns the rule on or off. Turning it off purges the
  quiz's locks, and deleting the quiz purges all of its rows.
- **Privacy.** The privacy provider erases unlock-log rows by quiz or by
  teacher.

The store is the value `Tables.Db`: the settings table, the lock table, the
unlock log, and the events the rule has triggered. Each table is a sequence
of rows in insertion order. `Db.Valid()` states the schema's unique keys: one
lock per attempt and one settings row per quiz. The code changes the store in
place through the object `Tables.Database`.

Each state-changing operation is written twice:

- a `method` on that object, which follows the PHP statement by statement;
- a function on `Db` values that the method's postcondition equals.

The method also keeps `Valid()`. The lemmas state the rule's properties about
those functions.

Host services become explicit inputs:

- the request (`sesskey()`, `getremoteaddr()`, the user agent) and `address_in_subnet`;
- `random_bytes`, given as its outcome (`None` when it throws);
- HMAC-SHA256 (RFC 2104 over FIPS 180-4), modelled as an uninterpreted deterministic keyed function with a 32-byte result;
- `confirm_sesskey()`, `has_capability`, the course-module lookups and `quiz_attempt::create`, given as the facts they return;
- `$USER->id` and `time()`.

PHP's `empty()` on a string is `Php.Truthy` negated: null, `''` and `'0'` are empty.
PHP strings are byte strings; the model writes them as Dafny `string`. Nothing here depends on the difference, because every operation splits only on the ASCII `|` and otherwise compares or concatenates whole strings.

Hex is modelled concretely: RFC 4648, section 8, with PHP's `bin2hex` emitting lower case and `hex2bin` accepting either case.

Where the plugin's documented design and its code differ, the model follows the code:

- Only `IN_PROGRESS` attempts are offered an unlock on the report page; overdue attempts are not.
- The unlock handlers themselves never check the attempt's state or that the attempt belongs to the page's quiz.
- The bulk handler reports `count($attemptids)`, the number of ids submitted.
- No "attempt unlocked" event is triggered, and an unlock is not one transaction.
- `is_attempt_blocked` never returns true: a mismatch is an `anothersession` exception. So `validate_preflight_check` returns its errors unchanged or propagates that exception.
- A failed first-access insert has no fallback.
- `delete_data_for_user` deletes the listed users' rows in every quiz; it ignores the user list's context.

## Model

| member | source | states |
|---|---|---|
| Php.OrEmpty | rule.php:123 | a missing value becomes `''`, a present one is kept |
| Tables.Filter | rule.php:453 | `delete_records`: the kept rows are exactly the old rows the condition keeps, never more rows than before |
| Tables.FilterCount | rule.php:453 | `delete_records` counts copies: a kept row keeps every copy, a deleted row loses every copy |
| Tables.First | rule.php:210 | `get_record`: nothing exactly when no row matches, otherwise a matching row of the table |
| Tables.SetEnabled | rule.php:441 | `set_field`: the quiz's row gets the new flag, every row keeps its quiz id, and other rows are unchanged |
| Hex.Encode | rule.php:89 | `bin2hex`: two lower-case hex digits per byte, never the separator character |
| Hex.Decode | rule.php:145-149 | `hex2bin` succeeds exactly on an even-length string of hex digits of either case, giving half as many bytes |
| Hex.DigitCaseFold | rule.php:145 | an upper-case digit has the same value as its lower-case form |
| Hex.DecodeDigits | rule.php:145-149 | every byte `hex2bin` returns is the value of its two digits, high nibble first, upper or lower case alike |
| Hex.DecodeEncode | rule.php:89-149 | decoding an encoded secret gives the secret back |
| Hex.EncodeDecode | rule.php:145-149 | on even-length lower-case hex, encoding the decoded bytes gives the text back |
| Hex.EncodeInjective | rule.php:151-152 | two digests have the same hex text exactly when they are equal |
| SessionFingerprint.GetSessionString | rule.php:102-126 | the fingerprint is session key, then address (when included), then user agent, with no separator |
| SessionFingerprint.AddressDropped | rule.php:110-120 | the address is left out exactly when it is null, `''`, `'0'`, or inside a non-empty whitelist |
| SessionFingerprint.EmptyWhitelistKeepsAddress | rule.php:113-118 | with no whitelist a present address is always part of the fingerprint |
| SessionFingerprint.MissingUserAgent | rule.php:123 | a missing user agent contributes nothing |
| SessionFingerprint.ExemptAddressesAgree | rule.php:112-119 | two exempt addresses give the same fingerprint |
| SessionFingerprint.ComponentsAreAmbiguous | rule.php:125 | without a separator, different components can give the same fingerprint |
| SessionHash.HashHmac | rule.php:89 | `hash_hmac` yields 64 characters without the separator character |
| SessionHash.SplitAtFirst | rule.php:140 | `explode` with limit 2: nothing exactly when the separator is absent; otherwise the text before its first occurrence and the rest |
| SessionHash.SplitAtFirstOf | rule.php:140 | a value written as `a`, separator, `b`, with no separator in `a`, splits into `a` and `b` |
| SessionHash.ParseSessionHash | rule.php:136-149 | an accepted value has a non-empty hex secret before its first separator and a non-empty MAC after it |
| SessionHash.ParseSplit | rule.php:136-149 | on `a`, separator, `b` (no separator in `a`), the parser accepts exactly when both parts are non-empty and `a` is hex |
| SessionHash.ValidateSessionHash | rule.php:134-153 | a value validates only if it parses |
| SessionHash.GetSessionHash | rule.php:81-90 | a coding exception exactly when the random source fails; otherwise a value that parses back to the secret and the MAC and validates against its own fingerprint |
| SessionHash.ParseRoundTrip | rule.php:89-149 | the stored format parses back to its secret and MAC |
| SessionHash.ValidateRoundTrip | rule.php:81-153 | a value made for a fingerprint validates against it |
| SessionHash.ValidateExact | rule.php:134-153 | a value `bin2hex(secret)`, separator, MAC validates exactly when the MAC equals the MAC of the current fingerprint under the secret |
| SessionHash.ValidateSplit | rule.php:134-153 | any value with a separator, secret in either hex case, validates exactly when both segments are non-empty, the secret decodes, and the MAC equals the one recomputed under the decoded secret |
| SessionHash.ValidateOtherFingerprint | rule.php:151-152 | against another fingerprint, a value validates exactly when the two digests under the secret are equal |
| SessionHash.RejectsMalformed | rule.php:136-143 | an empty value, a value without the separator, or an empty secret segment never validates |
| SessionHash.RejectsMalformedSegments | rule.php:141-149 | an empty MAC, an odd-length secret or a non-hex character never validates |
| AccessRule.Make | rule.php:63-69 | a rule exactly when the quiz's `enabled` value is present and non-zero |
| AccessRule.IsPreflightCheckRequired | rule.php:196-241 | the gate's result and new store are those of the gate function, and the unique keys are kept |
| AccessRule.IsAttemptBlocked | rule.php:162-184 | never returns true; throws `anothersession` exactly when the attempt id is non-zero, a lock exists and it does not validate |
| AccessRule.ValidatePreflightCheck | rule.php:319-325 | returns the errors unchanged, or propagates the `anothersession` exception exactly when the attempt is blocked |
| AccessRule.NullOrPreviewIsInert | rule.php:200-208 | a null attempt id or a preview returns false and leaves the store as it was |
| AccessRule.GatePreservesValid | rule.php:210-218 | the gate never creates a second lock for an attempt |
| AccessRule.FirstAccessBinds | rule.php:210-218 | on first access exactly one lock `{quizid, attemptid, sessionhash}` is appended, it is the attempt's lock, and the result is false |
| AccessRule.FirstAccessRngFailure | rule.php:84-88 | when the random source fails on first access, the coding exception propagates and nothing is inserted |
| AccessRule.RepeatAccessPasses | rule.php:210-224 | after a first access, a repeat access with the same fingerprint returns false and changes nothing |
| AccessRule.MatchPasses | rule.php:221-224 | a lock that validates lets the access through unchanged |
| AccessRule.MismatchBlocks | rule.php:226-240 | a mismatch returns true, appends exactly one `attempt_blocked` event and leaves the tables unchanged |
| AccessRule.SecondDeviceBlocked | rule.php:210-240 | after one fingerprint binds an attempt, one with a different digest is blocked and the binding remains |
| AccessRule.BlockedAgreesWithGate | rule.php:162-184 | on a locked non-preview attempt, the form re-check throws exactly when the gate returned true |
| AccessRule.EnabledValue | rule.php:434 | the stored flag is 1 exactly when the form field is non-empty, else 0 |
| AccessRule.SaveSettings | rule.php:419-455 | the new store is that of the settings function, and the unique keys are kept; with the settings lemmas: a refused edit changes nothing, an allowed one stores `enabled` in {0, 1} for the quiz, disabling purges exactly the quiz's locks, and the log and events are untouched |
| AccessRule.SetEnabledFacts | rule.php:438-442 | updating the quiz's flag keeps quiz ids unique, stores the new row and leaves other quizzes' rows alone |
| AccessRule.SaveSettingsPreservesValid | rule.php:436-454 | `save_settings` keeps one settings row per quiz and one lock per attempt |
| AccessRule.SaveSettingsStores | rule.php:433-449 | when editing is allowed, the quiz's only row is `{quizid, enabled}` and other quizzes' rows are unchanged |
| AccessRule.SaveSettingsSameFlag | rule.php:438-442 | an unchanged flag leaves the settings table as it was |
| AccessRule.SaveSettingsLocks | rule.php:425-454 | disabling deletes exactly that quiz's locks; enabling or a refused edit deletes none |
| AccessRule.SaveSettingsFrame | rule.php:425-454 | a refused edit leaves the whole store as it was, and no save touches the unlock log or the events |
| AccessRule.SaveThenMake | rule.php:63-69 | after saving, the joined flag makes a rule exactly when the field was set |
| AccessRule.DeleteSettings | rule.php:463-470 | the new store is that of the deletion function, and the unique keys are kept |
| AccessRule.DeleteSettingsPreservesValid | rule.php:463-470 | deleting a quiz's rows keeps the unique keys |
| AccessRule.DeleteSettingsPurgesQuiz | rule.php:463-470 | exactly the quiz's settings and lock rows are removed, every copy of its log rows goes while every other log row keeps its count; events stay |
| AllowConnections.ControlsFor | allowconnections.php:147-163 | a row offers the checkbox and the link together, and exactly for in-progress attempts |
| AllowConnections.UnlockAndLog | allowconnections.php:73-83 | the new store is the attempt's locks removed plus one log entry, and the unique keys are kept |
| AllowConnections.UnlockReleases | allowconnections.php:73-83 | after an unlock the attempt has no lock, other locks stay, and the log grows by exactly `{quizid, attemptid, unlockedby, timeunlocked}` |
| AllowConnections.UnlockIgnoresLockQuiz | allowconnections.php:76 | the lock is deleted even when its row names another quiz |
| AllowConnections.UnlockTwice | allowconnections.php:76-82 | two unlocks leave the lock absent and add two entries |
| AllowConnections.HandleActions | allowconnections.php:87-101 | the handlers' new store and outcome are those of the handler function, and the unique keys are kept |
| AllowConnections.UnlockAllLog | allowconnections.php:93-100 | bulk unlock appends one entry per submitted id, in order, and removes none |
| AllowConnections.UnlockAllLocks | allowconnections.php:96-98 | bulk unlock leaves exactly the locks of attempts not submitted |
| AllowConnections.UnlockAllFrame | allowconnections.php:96-98 | bulk unlock touches neither settings nor events |
| AllowConnections.SingleUnlock | allowconnections.php:87-91 | a non-zero unlock id with a confirmed session key releases that attempt, logs exactly one entry and redirects |
| AllowConnections.NoActionWithoutGuard | allowconnections.php:87-101 | when neither guard holds, the request changes nothing and reports nothing |
| AllowConnections.ActionsNeedSesskey | allowconnections.php:87-93 | without a confirmed session key nothing changes |
| AllowConnections.EmptyBulkChangesNothing | allowconnections.php:93-101 | an empty id list changes nothing and reports nothing |
| AllowConnections.BulkUnlockReport | allowconnections.php:93-100 | the log grows by exactly the number of ids, the count reported is that number, and no submitted attempt keeps a lock |
| AllowConnections.UnlockThenRebind | allowconnections.php:73-83 | after a teacher's unlock, the next access binds the attempt to the new fingerprint and passes |
| Observers.UnlockAttempt | classes/observers.php:50-58 | the new store is that of the observer function, and the unique keys are kept |
| Observers.UnlockAttemptReleases | classes/observers.php:54-57 | exactly the attempt's locks are deleted; the log, settings and events are untouched |
| Observers.EmptyObjectIdIgnored | classes/observers.php:55 | a null or zero object id changes nothing |
| Observers.UnlockAttemptIdempotent | classes/observers.php:56 | delivering the event twice is delivering it once |
| EventMap.TableShape | db/events.php:28-49 | the table has three entries, mapping exactly abandoned, deleted and submitted to `unlock_attempt` |
| EventMap.UnmatchedIgnored | db/events.php:28-49 | an event no entry names changes nothing |
| EventMap.AbandonedUnlocks | db/events.php:30-33 | `attempt_abandoned` releases the lock |
| EventMap.DeletedUnlocks | db/events.php:38-41 | `attempt_deleted` releases the lock |
| EventMap.SubmittedUnlocks | db/events.php:44-47 | `attempt_submitted` releases the lock |
| EventMap.OverdueKeepsLock | db/events.php:35 | `attempt_becameoverdue` changes nothing |
| Privacy.DeleteDataForAllUsersInContext | classes/privacy/provider.php:111-126 | the new store is that of the context-erasure function |
| Privacy.ContextGuards | classes/privacy/provider.php:115-122 | outside a module context, or for a missing or non-quiz module, nothing changes |
| Privacy.DeleteForContextExact | classes/privacy/provider.php:124-125 | for a quiz module, every copy of that quiz's log rows is removed, every other log row keeps its count, and no other table changes |
| Privacy.DeleteDataForUser | classes/privacy/provider.php:133-141 | the per-user deletion loop equals deleting every listed user's rows at once |
| Privacy.DeleteForUsersExact | classes/privacy/provider.php:137-140 | every copy of the log rows whose `unlockedby` is listed is removed, every other log row keeps its count, and no other table changes |
| Privacy.DeleteForNoUsers | classes/privacy/provider.php:137-140 | an empty user list changes nothing |
| Privacy.DeleteForUsersStepwise | classes/privacy/provider.php:138-139 | deleting one more user after a list is deleting the longer list |
| Privacy.ExportUserData | classes/privacy/provider.php:101-104 | exporting changes nothing |

## Left out

- The preflight form fields, CSS and script (`add_preflight_check_form_fields`), `description`, `add_settings_form_fields`, `setup_attempt_page`, `prevent_access` and `get_settings_sql` are user interface or host plumbing. The LEFT JOIN that `get_settings_sql` describes is modelled only as the lookup `AccessRule.JoinedEnabled`.
- The report SQL, the HTML table and the state-name lookup on the unlock page are rendering. Only the rule for which rows offer an unlock is modelled.
- `get_metadata` and `get_contexts_for_user` in the privacy provider are a metadata declaration and a read-only SQL join.
- HMAC-SHA256 and `random_bytes` are not computed. The HMAC is an uninterpreted keyed function and the secret is an input.
- SessionHash.ValidateSessionHash: `hash_equals` is modelled as plain equality, so its constant-time behaviour is not captured.
- `require_login`, `require_capability` and the `MUST_EXIST` lookups at the top of the unlock page are not modelled. They end the request before any handler runs.
- `quiz_attempt::create` is not modelled. The attempt's facts are an input, so the exception it throws for a missing attempt (including id 0 at the gate) is not captured.
- Concurrency is not modelled: calls run one after another. In particular, two first accesses racing to insert the same attempt's lock are not modelled; the code relies on the database's unique key for that.
- The auto-increment row ids are not modelled. Settings rows are updated by quiz id, which is their unique key.
- AllowConnections.HandleActions: one `time()` reading serves the whole request, so the seconds that can pass during a bulk loop are not modelled.
- The host's event records (`classes/event/*`) are reduced to the data an `attempt_blocked` event carries. Delivery to other plugins' observers is not modelled.
- Backup and restore, database upgrades, language strings, the plugin settings page and the navigation hook are not part of this model.
