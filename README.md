# Notification throttling engine of tg-notify-service

The service relays notifications. A caller posts an event (a type and a message) with a shared token. The service checks the token against the configured list. It then applies the per-type cooldown: an event type with a rule of N seconds is not repeated within N seconds. An allowed event is handed once to the chat-bot delivery channel and recorded in the `notifies` table, whether or not delivery succeeded.

This project models that core in Dafny:

- `NotifyTypes`: the records `Notify`, `NotifyRequest`, `DurationTimeout` and `Config`. `Config` keeps only the tokens and the cooldown rules. `Decoded` is the outcome of decoding the request body.
- `Auth.CheckRequestToken`: the scan of the token list.
- `EventStore`: the `notifies` table as a class `Store`. It holds a `seq<Notify>` log and a next-id counter. It offers the "most recent event of a type" query and the append. `LastOfType` is the query as a function on logs.
- `Throttle`: `FirstMatch` finds the first rule for a type. `Allowed` is the cooldown decision as a predicate. `CheckTimeoutNotify` is the source's rule loop, proved equal to `Allowed`. The lemmas state what the decision guarantees.
- `Handler.Handle`: the request sequence decode → authenticate → throttle → send → persist → respond. It returns the status code and the message handed to the delivery channel, and it updates the store. `Response` gives the status code as a function of the log before the request.

Time is exact `real` seconds. The handler reads the clock at two points in the source: once in the cooldown check (main.go:193) and once for the stored event's timestamp (main.go:99). `Handle` therefore takes two instants, `throttleNow` and `receivedAt`. The delivery outcome is the boolean input `delivered`. The decoder's verdict is the `Decoded` input. The configuration and the store are passed as parameters instead of living in process-wide globals.

Points where the code's behaviour may surprise:
- A failed insert is not reported; the handler ignores `saveNotify`'s result and always answers 201 on the allowed path.
- Event types are not checked for being non-empty.
- A suppressed event is answered with 302 (`StatusFound`).
- Duplicate rules for one type are accepted; the first one in list order wins.

## Model

| member | source | states |
|---|---|---|
| Auth.CheckRequestToken | main.go:150-157 | the result is true exactly when the token equals some configured token |
| EventStore.LastOfType | main.go:159-170 | None exactly when no stored event has the type; otherwise a stored event of that type whose time is at least that of every stored event of the type |
| EventStore.LastOfTypeAfterAppend | main.go:172-183 | after appending an event at least as recent as every earlier event of its type, the query for that type returns the appended event |
| EventStore.LastOfTypeOtherType | main.go:159-183 | appending an event of one type does not change the query's answer for any other type |
| EventStore.Store.constructor | main.go:116-127 | a new database file holds an empty table, and the first id to be assigned is 1; the store invariant keeps the next id one past the last record's |
| EventStore.Store.FetchLastOfType | main.go:159-170 | returns the most recent stored event of the type, or None when there is none |
| EventStore.Store.SaveNotify | main.go:172-183 | the log grows by exactly one record with the given type, time and message and a fresh id, which is returned; earlier records are unchanged; ids keep increasing |
| Throttle.FirstMatch | main.go:186-187 | None exactly when no rule has the type; otherwise the index of a rule with that type such that no earlier rule has it |
| Throttle.Allowed | main.go:185-198 | the cooldown decision: the first rule for the type decides, no rule or no stored event allows, otherwise strictly more than the cooldown must have elapsed since the latest event; a suppressed event always has a matching rule and a stored event of its type no more than that rule's cooldown old |
| Throttle.CheckTimeoutNotify | main.go:185-198 | the loop's answer equals the cooldown decision `Allowed` for the store's current log |
| Throttle.NoRuleAllowed | main.go:185-198 | a type without any rule is allowed whatever the log holds |
| Throttle.FirstOccurrenceAllowed | main.go:188-191 | a type with no stored event is allowed whatever the rules say |
| Throttle.CooldownDecision | main.go:186-193 | with a first matching rule and a most recent event, the event is allowed exactly when now minus that event's time is strictly greater than the rule's cooldown |
| Throttle.BoundarySuppressed | main.go:193 | an event exactly one cooldown after the most recent one is suppressed |
| Throttle.LaterRulesIgnored | main.go:186-194 | once some rule for the type exists, rules appended after it never change the decision |
| Throttle.CooldownAfterAppend | main.go:185-198 | after storing an event that is the latest of its type, a later event of that type is allowed exactly when more than the first rule's cooldown has elapsed since it |
| Throttle.OtherTypeUnaffected | main.go:185-198 | storing an event of one type leaves the decision for every other type unchanged |
| Handler.Response | main.go:78-114 | the status code is one of 201, 302, 400, 403; 400 exactly on a decode failure; 403 exactly on a decoded request with an unknown token; 201 and 302 only for authenticated requests; 302 only when a matching rule and a stored event of the type no more than its cooldown old exist |
| Handler.Handle | main.go:78-114 | status is 400 on a decode failure, 403 on an unknown token, 302 when the cooldown suppresses, 201 otherwise; on 201 the message is sent once and exactly one record (type, receivedAt, message, next id) is appended, whatever the delivery outcome; on every other status nothing is sent and the store is unchanged |
| Handler.ClientErrorsIgnoreThrottle | main.go:82-90 | decode and token failures give 400 or 403 regardless of the log and the clock |
| Handler.CooldownAfterCreated | main.go:92-109 | once a request is answered 201 and stored, an authenticated request of the same type no more than the cooldown later is answered 302, whatever earlier events of the type the log holds |
| Handler.DiskFullScenario | main.go:78-114 | with a 60-second rule, events at 0, 30 and 61 seconds are answered 201, 302 and 201; the second is neither sent nor stored, so the log ends with exactly the first and third events, and the third becomes the most recent event of its type |

## Left out

- HTTP listener, routing, response headers and bodies: only the status code is modelled.
- JSON decoding with unknown fields rejected: a library call, modelled as the `Decoded` input.
- Telegram client construction and `Send`: an external call. Its outcome is the `delivered` input. It is only logged in the source and affects nothing in the model. The fixed chat id is not modelled.
- Logging of delivery failures: console output.
- SQLite specifics: the SQL text, the database file, and text ordering of the `time` column.
- EventStore.Store.FetchLastOfType: the `type` column is declared `STRING`, which gives it numeric affinity in SQLite, so `WHERE type=?` treats numerically equal texts such as "100", "1e2" and "100.0" as one type. The model compares types as exact strings.
- EventStore.Store.constructor: it models a new database file. `initDb` uses `CREATE TABLE IF NOT EXISTS`, so a reopened file keeps earlier rows and SQLite continues from the largest id. Such a file is represented by running `Handle` on any store satisfying `Valid()`.
- EventStore.Store.SaveNotify: the stored time is the exact instant. The source stores it formatted as RFC 3339, which drops fractions of a second. The model does not capture this truncation.
- EventStore.Store.SaveNotify: the insert never fails in memory, so the source's error return is not modelled. The handler ignores that result anyway.
- EventStore.Store.FetchLastOfType: the source's zero-valued `Notify` on a scan error other than "no rows" is a storage-failure path and is not modelled. Among events with equal times, the model picks the one appended last, whereas the SQL query leaves the choice open.
- Config file reading and the `main` start-up with its panics: process I/O.
- The never-acquired mutex and races between concurrent requests: concurrency is out of scope.
- `float64` seconds and `Duration` nanosecond arithmetic: exact reals are used instead.
