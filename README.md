# amphora-schedule, modelled in Dafny

amphora-schedule lets a Clay site schedule the publication of a page or component.

- **Posting an entry.** A client posts an entry that holds `at` (when, in epoch milliseconds) and `publish` (the URL of what to publish). The service derives the entry's id from the site prefix of the request uri and a Base64 encoding of the target. It stores the entry in the `schedule.pages` table of PostgreSQL.
- **The poll cycle.** An interval timer polls the table. Every entry that is due is PUT at its `@published` version and then deleted.
- **Reading and cancelling.** Entries can be read one at a time or listed per site, and cancelled.
- **Around the core.** Routes are guarded by an authorisation level. Errors are sent in the format the client accepts.

The model follows the source module by module:

| Dafny module | file | models |
|---|---|---|
| `Schedule` | `schedule.dfy` | `lib/services/schedule.js`: the service state (a class holding the table, the timer and its delay), `post`, `del`, the readers, and the poll cycle |
| `ScheduleKey` | `schedule_key.dfy` | the key of an entry (`createScheduleObjectKey`), the site prefix, scheme stripping and the version rewrite |
| `Db` | `db.dfy` | `lib/db.js`: the table as a class over a map from id to document; each statement's effect and the rows it returns |
| `References` | `references.dfy` | `isUrl` and `urlToUri`, over a model of the parts of Node's legacy `url.parse` they read |
| `Auth` | `auth.dfy` | `checkAuthLevel` and the `withAuthLevel` middleware |
| `Responses` | `responses.dfy` | the error responses (a class for the Express response), `methodNotAllowed`, `notAcceptable`, `unauthorized`, `handleError`, `removePrefix` |
| `Buffer` | `buffer.dfy` | the key codec: UTF-8 and the Base64 of section 4 of RFC 4648, with decoding |
| `Js` | `js.dfy` | JavaScript values, truthiness, `String(v)`, and what a JSON round trip keeps of a document |
| `Strings` | `strings.dfy` | `indexOf`, `trim`, ASCII case mapping and `join` |
| `Wrappers` | `wrappers.dfy` | `Option` and `Result` |
| `EncodeVector` | `encode_vector.dfy` | the step-by-step Base64 computation for the key vector of the tests |

How promises are modelled:

- A synchronous `throw` is `Thrown`.
- A rejection that `.catch(console.log)` turns into `undefined` is `Swallowed`, carrying its cause.
- A resolved value is `Resolved`.

What the model takes as given:

- **The table.** It is missing until `setupDb` runs, and every statement on a missing table fails.
- **The external PUT.** It is a parameter `responds`, which says for which uris the PUT's promise resolves, that is, for which an HTTP response of any status arrives.
- **Content negotiation.** `res.format` and `req.accepts` are reduced to the format or match they choose.

## Model

| member | source | states |
|---|---|---|
| `Schedule.Scheduler.constructor` | lib/services/schedule.js:3-4 | no timer is running and the delay is 10000 ms |
| `Schedule.Scheduler.SetScheduleInterval` | lib/services/schedule.js:19-21 | the delay becomes the given value; a running timer keeps its own delay |
| `Schedule.Scheduler.StartListening` | lib/services/schedule.js:140-157 | starts a timer with the current delay only when none is running; otherwise nothing changes |
| `Schedule.Scheduler.StopListening` | lib/services/schedule.js:162-167 | afterwards no timer is running; the delay is kept |
| `Schedule.Scheduler.Post` | lib/services/schedule.js:97-109 | a bad `at` or `publish` throws the key's error and leaves the table alone; a missing table or an existing key is swallowed and leaves the table alone; otherwise the entry is stored under its key as its JSON text and `data` is returned |
| `Schedule.Scheduler.Del` | lib/services/schedule.js:69-88 | resolves to `DelOutcome` of the stored data (`{}` when there is no row); the row is deleted exactly when its `publish` is truthy; a missing table is swallowed |
| `Schedule.DelOutcome` | lib/services/schedule.js:72-87 | no truthy `publish` gives `{ data }`; a URL gives `data`; any other truthy `publish` gives the swallowed `Invalid url` error, after the deletion |
| `Schedule.DelOfNonUrl` | lib/services/schedule.test.js:93-117 | the stored `publish` `some/uri` of the test is deleted, and then `urlToUri` rejects it, so `del` resolves to `undefined`, not to `data` |
| `Schedule.DelWithoutPublish` | lib/services/schedule.test.js:119-141 | without `publish` nothing is deleted and `del` resolves to `{ data }`, which is not `data` |
| `Schedule.StoredData` | lib/services/schedule.js:72 | the data of the stored row, or `{}` when there is none |
| `Schedule.Scheduler.GetScheduleItem` | lib/services/schedule.js:116-122 | as written, resolves to the row whose id is the site prefix of `uri`, or `{}`; a missing table is swallowed |
| `Schedule.Scheduler.GetScheduleItemById` | lib/services/schedule.js:111-122 | corrected: resolves to the row whose id is `uri` (`{ id, data }`), or `{}` |
| `Schedule.PostedEntryNotFoundByPrefix` | lib/services/schedule.js:117-119 | no uri's site prefix is the key of a posted entry, so `getScheduleItem` as written never finds one |
| `Schedule.Scheduler.GetScheduleList` | lib/services/schedule.js:129-135 | models the corrected reading of the `LIKE` query (second row of "Findings"): resolves to each entry whose id starts with the site prefix of `uri`, exactly once and as stored, and to no other row; the query as written is `Db.Store.SelectItemsLike` |
| `Schedule.PostedEntryIsListed` | lib/services/schedule.js:129-135 | a posted entry's key starts with the site prefix of every uri of the same site, so the site's list includes it |
| `Schedule.PublishedUri` | lib/services/schedule.js:28-34 | a string `publish` is PUT at its `@published` version; anything else throws inside the publisher and nothing is put |
| `Schedule.Scheduler.PublishRow` | lib/services/schedule.js:148-151 | one publisher: PUTs the published uri and, once the PUT's promise has resolved (with any HTTP status), runs `del` on the row's id; its effects and deletions are `RowEffects` and `RowRemoved` |
| `Schedule.Scheduler.Tick` | lib/services/schedule.js:142-154 | the timer callback selects exactly the due rows as they were stored, runs the publishers over them, and ends with the table minus the rows they deleted (`TickEffects` and `Removed`) |
| `Schedule.Scheduler.PublishAll` | lib/services/schedule.js:147-153 | running the publishers over rows that are still stored yields `TickEffects` and removes exactly `Removed` |
| `Schedule.CancelFollowsPut` | lib/services/schedule.js:148-151 | in the model's sequential order, every `del` of a poll cycle comes right after a PUT that got a response, and that PUT is of the `@published` uri of a due row carrying the very id being deleted |
| `Schedule.EffectsOfDueRows` | lib/services/schedule.js:145-153 | a poll cycle only cancels and deletes rows it selected as due |
| `Schedule.NothingDueNothingDone` | lib/services/schedule.js:147-153 | with no due row whose `publish` is a string, a cycle neither PUTs nor deletes |
| `Schedule.StillStored` | lib/services/schedule.js:150 | midway through a cycle the next due row is still stored with the data that was selected, since due ids are distinct |
| `Schedule.Wrapped` | lib/services/schedule.js:85 | `{ data }` has the single key `data`, holding the stored document |
| `Schedule.RowValue` | lib/services/schedule.js:120 | a row read back is `{ id, data }`: exactly those two keys, holding the row's id and its document |
| `ScheduleKey.CreateScheduleObjectKey` | lib/services/schedule.js:47-59 | a non-number `at` fails with the `at` message; with a number `at`, a `publish` that is not a URL fails with the `publish` message; success means both checks passed |
| `ScheduleKey.KeyOf` | lib/services/schedule.js:58 | a created key is the site prefix, `/_schedule/`, and the encoded `publish` string with its scheme stripped |
| `ScheduleKey.KeyShape` | lib/services/schedule.js:58 | the last segment of a key is Base64 text that decodes back to the target without its scheme |
| `ScheduleKey.KeyInjective` | lib/services/schedule.js:58 | within one site, two targets get the same key only if they agree without their scheme |
| `ScheduleKey.KeyIgnoresAt` | lib/services/schedule.js:47-59 | changing a numeric `at` leaves the key unchanged |
| `ScheduleKey.KeyStartsWith` | lib/services/schedule.js:58 | a key begins with its site prefix |
| `ScheduleKey.KeyPrefix` | lib/services/schedule.js:47-58 | the site prefix of a key is the site prefix it was made for |
| `ScheduleKey.KeyIsNoPrefix` | lib/services/schedule.js:58 | a key holds `/_`, so it is never the site prefix of any uri |
| `ScheduleKey.ExampleKey` | lib/services/schedule.test.js:27-36 | the key of the test's entry is `http://somehost.com/_schedule/c29tZXRleHQuY29tL19jb21wb25lbnRzL2luc3RhbmNl` |
| `ScheduleKey.ExampleMissingAt` | lib/services/schedule.test.js:38-45 | without `at`, key creation fails with the `at` message |
| `ScheduleKey.ExampleMissingPublish` | lib/services/schedule.test.js:47-54 | without `publish`, it fails with the `publish` message |
| `ScheduleKey.ExampleInvalidPublish` | lib/services/schedule.test.js:56-64 | with `publish` `sometestingtext`, it fails with the `publish` message |
| `ScheduleKey.GetPrefix` | lib/services/schedule.js:48 | the site prefix is a prefix of the uri |
| `ScheduleKey.GetPrefixCut` | lib/services/schedule.js:48 | the site prefix ends exactly at the first `/_`, or is the whole uri, and holds no `/_` itself |
| `ScheduleKey.GetPrefixOf` | lib/services/schedule.js:48 | a prefix without `/_` followed by a route starting with `/_` gives that prefix back |
| `ScheduleKey.StripLeadingScheme` | lib/services/schedule.js:58 | a leading `http://` or `https://` is removed |
| `ScheduleKey.StripSchemeUntouched` | lib/services/schedule.js:58 | text without `http://` or `https://` is left unchanged |
| `ScheduleKey.FirstScheme` | lib/services/schedule.js:58 | finds the leftmost position where `/https?:\/\//` matches, and nothing matches before it |
| `ScheduleKey.StripScheme` | lib/services/schedule.js:58 | without a match the text is unchanged; otherwise the leftmost `http://` or `https://` is cut out and the text before and after it is kept |
| `ScheduleKey.ReplaceVersion` | lib/services/schedule.js:30 | the result is the uri's text before its first `@` (all of it when there is none), then `@` and the version |
| `ScheduleKey.ReplaceVersionShape` | lib/services/schedule.js:30 | the rewritten uri is the text before the first `@`, then `@`, then the version |
| `ScheduleKey.ReplaceVersionOf` | lib/services/schedule.js:30 | a base without `@` gets exactly `@version` after it, whatever version it had |
| `ScheduleKey.ReplaceVersionTwice` | lib/services/schedule.js:30 | rewriting twice is rewriting once with the last version |
| `ScheduleKey.ReplaceVersionExample` | lib/services/schedule.test.js:77-90 | `/_component/some/instances/someinstance@scheduled` is published as `/_component/some/instances/someinstance@published` |
| `Db.Store.constructor` | lib/db.js:10-13 | a store whose connection is set but whose table is missing (after `init` has stored the connection and before `setupDb`'s `CREATE TABLE` has finished): no table and no row, so every statement fails until `SetupDb` |
| `Db.Store.SetupDb` | lib/db.js:5-8 | afterwards the table exists; existing rows are kept (`IF NOT EXISTS`) |
| `Db.Store.InsertItem` | lib/db.js:24-26 | fails on a missing table or an existing id and changes nothing; otherwise adds the row with the document's JSON text |
| `Db.Store.DeleteItem` | lib/db.js:16-18 | removes the row with that id, if any, and nothing else |
| `Db.Store.SelectItem` | lib/db.js:20-22 | returns the row with that id, as stored, exactly when it exists (at most one row) |
| `Db.Store.SelectItemsFromSite` | lib/db.js:28-30 | corrected: returns each row whose id starts with the prefix, exactly once and as stored, and no other |
| `Db.Store.SelectItemsLike` | lib/db.js:28-30 | as written: returns each row whose id matches the `LIKE` pattern `prefix%`, exactly once and as stored |
| `Db.LikePrefix` | lib/db.js:29 | for a prefix without `%`, `_` or a backslash, `LIKE prefix%` is "starts with prefix", in both directions |
| `Db.LikeUnderscoreCounterexample` | lib/db.js:29 | the site prefix `a_b` selects the id `aXb`, which does not start with it |
| `Db.LikeAnything` | lib/db.js:29 | a lone `%` matches every id |
| `Db.Like` | lib/db.js:29 | a pattern without `%`, `_` or a backslash matches exactly the text equal to it |
| `Db.IsDue` | lib/db.js:33 | an entry without `at` is never due; a numeric `at` is due exactly when it is not later than `now` |
| `Db.Store.SelectPublishableItems` | lib/db.js:32-34 | returns each row whose `at` is due at `now`, exactly once and as stored, and no other |
| `Db.DueNumber` | lib/db.js:33 | a numeric `at` is due exactly when it is not later than `now` |
| `Db.DueStaysDue` | lib/db.js:33 | a due entry stays due as time moves on |
| `Db.Scan` | lib/db.js:20-34 | a table scan with a WHERE condition returns each matching row exactly once, as stored, and no other |
| `Db.IdsMember` | lib/db.js:21 | an id is among a result's ids exactly when some row carries it |
| `Js.JsonData` | lib/db.js:25 | `JSON.stringify` drops the properties that are `undefined` and keeps every other one |
| `Js.JsonOfJson` | lib/db.js:25 | a document with no `undefined` in it survives the JSON round trip unchanged |
| `References.IsUrl` | lib/services/references.js:11-15 | a URL is a string, and it holds a `:` (the end of its protocol) |
| `References.UrlToUri` | lib/services/references.js:22-31 | fails exactly when the value is not a URL, always for a non-string, with `Invalid url ` and the value's text; otherwise returns host name and path |
| `References.NoColonIsNotUrl` | lib/services/references.js:11-15 | a string without `:` has no protocol, so it is not a URL and `urlToUri` throws |
| `References.UrlToUriDropsSchemeAndPort` | lib/services/references.js:17-31 | for a plain `scheme://host[:port][path]`, the value is a URL and `urlToUri` gives the host and the path, or `/` for an empty path |
| `References.ParsePlainUrl` | lib/services/references.js:11-30 | such a URL parses into its protocol, host, port and path |
| `References.PlainUrlParts` | lib/services/references.js:11-31 | the same, for a URL given as text together with its parts |
| `References.ExampleGoogleIsUrl` | lib/services/references.test.js:7-11 | `http://www.google.com` is a URL |
| `References.ExampleNoUrl` | lib/services/references.test.js:13-31 | `nourl` is not a URL, and `urlToUri` throws `Invalid url nourl` |
| `References.ExampleGoogleWithPort` | lib/services/references.test.js:21-25 | `http://www.google.com:3001` gives `www.google.com/` |
| `References.ExampleHostPortPath` | lib/services/references.js:17-31 | `http://host.com:3001/path` gives `host.com/path` |
| `Buffer.EncodeRoundTrip` | lib/services/schedule.js:58 | decoding the encoded target gives it back |
| `Buffer.EncodeInjective` | lib/services/schedule.js:58 | distinct targets have distinct encodings |
| `Buffer.Encode` | lib/services/schedule.js:58 | an encoded target is Base64 text, four characters for every started group of three UTF-8 bytes |
| `Buffer.Utf8RoundTrip` | lib/services/schedule.js:58 | UTF-8 decoding undoes UTF-8 encoding |
| `Buffer.Base64RoundTrip` | lib/services/schedule.js:58 | Base64 decoding undoes Base64 encoding |
| `EncodeVector.EncodeExampleTarget` | lib/services/schedule.test.js:34 | `sometext.com/_components/instance` encodes to `c29tZXRleHQuY29tL19jb21wb25lbnRzL2luc3RhbmNl` |
| `Auth.CheckAuthLevel` | lib/services/auth.js:38-51 | throws the "no authentication level" error exactly when the user level is falsy; otherwise grants exactly when the level is `admin` or equals the required level |
| `Auth.AdminPassesAll` | lib/services/auth.js:44-45 | an admin passes every route |
| `Auth.OnlyOwnLevel` | lib/services/auth.js:46-50 | any other level passes only the route asking for that same level |
| `Auth.UserAuth` | lib/services/auth.js:20 | the level is `req.user.auth`, or `''` when the request has no user object or the user has no level |
| `Auth.WithAuthLevel` | lib/services/auth.js:18-28 | calls `next` exactly when the check grants, responds 401 exactly when it denies, and throws without touching the response when there is no level |
| `Auth.ExampleAdmin` | lib/services/auth.test.js:7-9 | `checkAuthLevel('admin')` grants |
| `Auth.ExampleEmptyLevel` | lib/services/auth.test.js:11-13 | `checkAuthLevel('')` throws |
| `Auth.ExampleOtherLevel` | lib/services/auth.test.js:15-21 | `noAdmin` is denied `admin` and granted `noAdmin` |
| `Auth.ExampleNoUser` | lib/services/auth.test.js:32-36 | a request without a user makes the gate throw |
| `Auth.ExampleWriteUser` | lib/services/auth.test.js:38-57 | a `write` user passes a `write` route and is denied an `admin` one |
| `Responses.SendDefaultResponseForCode` | lib/services/responses.js:118-125 | sets the status to the code and sends the error body of the negotiated format; the headers the model tracks are untouched (those Express sets itself are left out, see below) |
| `Responses.ErrorBody` | lib/services/responses.js:66-125 | the JSON format, and only it, sends `JsonError(code, message, extras)`; HTML and text send `code message` typed `html` and `text`; the default format, and only it, sends the bare status |
| `Responses.CodeText` | lib/services/responses.js:82 | the page text is the code's decimal text, a space, then the message |
| `Responses.JsonError` | lib/services/responses.js:93-97 | the JSON error has `message`, `code` and the extras' keys; an extra wins over `message` or `code` |
| `Responses.MethodNotAllowed` | lib/services/responses.js:42-58 | passes exactly when the lower-cased method is allowed, leaving the response alone; otherwise sets `Allow` to the upper-cased list and responds 405 with `Method <verb> not allowed` |
| `Responses.NotAcceptable` | lib/services/responses.js:132-148 | passes exactly when a type matched; otherwise sets `Accept` to the lower-cased list and responds 406 with `<Accept> not acceptable` |
| `Responses.RemovePrefix` | lib/services/responses.js:157-164 | without the token the text is returned unchanged; with it, what remains is no longer than the text after the token |
| `Responses.RemovePrefixCut` | lib/services/responses.js:157-164 | with the token present, the result is the text after its first occurrence with the white space at both ends removed, and neither end is white space |
| `Responses.RemovePrefixOf` | lib/services/responses.js:157-164 | in `before + token + after` with the first token right after `before`, the result is `after` trimmed |
| `Responses.ExamplePrefixSuffix` | lib/services/responses.test.js:7-11 | `removePrefix('prefix:suffix', ':')` is `suffix` |
| `Responses.ExampleNoToken` | lib/services/responses.test.js:13-17 | `removePrefix('prefix:suffix', '/')` is unchanged |
| `Responses.RemovePrefixAbsent` | lib/services/responses.js:157-164 | a text in which the token does not occur comes back unchanged (so `Unauthorized request`, which has no `:`, is kept whole) |
| `Responses.Unauthorized` | lib/services/responses.js:171-177 | responds 401 with `Unauthorized request` and no extras |
| `Responses.HandleError` | lib/services/responses.js:12-20 | sends the stack; the status becomes the error's code when that code is truthy, otherwise it is left alone |
| `Responses.Response.Set` | lib/services/responses.js:54 | sets one header and leaves the rest of the response unchanged |
| `Strings.IndexOf` | lib/services/responses.js:158 | the first occurrence of the token, or none when it occurs nowhere |
| `Strings.TrimSlice` | lib/services/responses.js:161 | `trim` removes exactly the white space at both ends |

## Left out

- Timers and the clock: a timer is a handle and a delay. The callback of `setInterval` is `Schedule.Scheduler.Tick`, given the current time as a parameter. It is not scheduled by the model.
- The external PUT (`rest.putObject`) is the parameter `responds`. It holds for a uri when node-fetch's promise resolves, which it does for any HTTP response, 4xx and 5xx included. It fails only when no response arrives. Its network behaviour and timing are outside the model.
- A refused publish still removes the entry. lib/services/schedule.js:150 calls `del` without looking at the response's status, so a PUT answered with, say, a 500 deletes the schedule entry just as a 200 does. The model keeps this behaviour: `responds` does not distinguish the two.
- Calls made before `init`. Until lib/db.js:11 stores the connection, `db` is `undefined`, and every `db.raw` throws a `TypeError` synchronously. `post`, `del` and the readers then throw to their caller instead of settling. The model starts from a stored connection: `Db.Store.constructor` is the moment before the table exists, when statements reject and the rejection is swallowed.
- `Promise.all` runs the publishers of a cycle concurrently. The model runs them one after the other, over rows it has shown to be distinct and still stored. Interleavings in which an outside call changes the table mid-cycle are not modelled.
- Logging (`console.log`) only marks where an error is swallowed. Booting the service, routing and `expectJSON` are Express wiring and are not modelled.
- The `isPage(targetUri)` branches of `post` and `del` build an object and drop it. They have no effect and are not modelled.
- Content negotiation: `res.format` is reduced to the branch it picks (`Format`), and `req.accepts` to whether a type matched.
- `getPrefix` and `replaceVersion` come from `clayutils`, which is not part of this model. `ScheduleKey.GetPrefix` takes the text before the first `/_`, or the whole uri when there is none. `ScheduleKey.ReplaceVersion` keeps the text before the first `@` and appends `@` and the version. Both choices agree with the tests.
- lib/services/buffer.js is not part of this model. Its `encode` is modelled as the Base64 (section 4 of RFC 4648, padded) of the UTF-8 bytes of the text.
- `References.Parse`: the model of Node's legacy `url.parse` covers only the steps that decide protocol, host name, port and path. It does not validate or escape host characters, convert backslashes, handle IPv6 literals, or apply IDNA; host names are lower-cased in ASCII only. It also differs from Node in these cases:
  - The path is not auto-escaped. Node turns `http://h.com/a b` into the path `/a%20b`; the model keeps `/a b`.
  - Credentials are not decoded. Node's `decodeURIComponent` throws a `URIError` on malformed credentials such as `http://%zz@host.com/x`, so `isUrl`, and with it `post`, throws `URI malformed`; the model reads such a URL normally.
  - Leading and trailing white space is removed with the JavaScript `trim` set (`Strings.IsJsSpace`), which holds characters such as `\u3000` that Node's own white-space test does not.
  - The slashed-protocol test uses the lower-cased scheme. Node tests the scheme as written, so for `HTTP:host.com/x` it reads a host where the model reads none.
- Numbers are integers. `NaN`, infinities and fractions are not modelled, so `_.isNumber` is "is a `Num`".
- `Auth.CheckAuthLevel`: levels are compared by value. `===` compares objects and arrays by identity, which the model does not capture.
- `Db.IsDue`: the comparison `data->'at' <= now` follows PostgreSQL's JSONB ordering between types, including an empty top-level array sorting below null. A missing `at` is SQL NULL and is never due. Floating-point timestamps are not modelled.
- `Responses.SendDefaultResponseForCode`: `res.format` adds `Vary: Accept`, and `res.type` and `res.json` set `Content-Type`. The model tracks only the headers the helpers set by name (`Allow`, `Accept`); its "headers are unchanged" is about those.
- `Buffer.Utf8`: Dafny characters are Unicode scalar values, so a JavaScript string holding a lone UTF-16 surrogate, which `Buffer.from` encodes as `EF BF BD`, cannot be expressed.
- The handles the tests reach through a rewired module (`getInterval`, `setCustomInterval`, `getIntervalDelay`, `handlePublishInstances`) are not in lib/services/schedule.js. They are modelled through the fields of `Schedule.Scheduler` and through `Tick`.
- Where the code and its tests disagree, the model follows the code:
  - `del` of an entry without `publish` resolves to `{ data }` (lib/services/schedule.js:85), whereas lib/services/schedule.test.js:119-158 expects `data`, and `{}` when there is no row.
  - `del` of the entry whose `publish` is `some/uri` deletes the row, and then `urlToUri` throws, so it resolves to `undefined`; lib/services/schedule.test.js:93-117 expects `data`.
  - `getScheduleItem` looks up the site prefix (lib/services/schedule.js:119); lib/services/schedule.test.js:198 and :213 expect the uri itself.

## Findings

| source | as written | input that shows it | evidently intended | confidence | as-written member | corrected member |
|---|---|---|---|---|---|---|
| lib/services/schedule.js:116-122 | `getScheduleItem(uri)` selects the row whose id is `getPrefix(uri)` | any posted entry: its key contains `/_schedule/`, and no site prefix contains `/_`, so the lookup never finds it | select the row whose id is `uri` (as the tests at lib/services/schedule.test.js:198 and :213 expect) | not executed; high | `Schedule.Scheduler.GetScheduleItem`, `Schedule.PostedEntryNotFoundByPrefix` | `Schedule.Scheduler.GetScheduleItemById` |
| lib/db.js:28-30 | the site prefix is used as a `LIKE` pattern, so `_` and `%` in it are wildcards | prefix `a_b` selects the id `aXb` | select the ids that start with the prefix | not executed; medium | `Db.Store.SelectItemsLike`, `Db.LikeUnderscoreCounterexample` | `Db.Store.SelectItemsFromSite`, `Db.LikePrefix` |
