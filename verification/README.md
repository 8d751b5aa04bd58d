# araweb, modelled in Dafny

araweb is a small air-quality dashboard. A Node.js server (`server.js`) serves
static files from `./public`. It also answers `/api/v1/<endpoint>` with the
newest, past or aggregate indoor reading from a SQLite database, or with the
current outdoor reading from a weather service, cached for a minute. A browser
script (`public/main.js`) fetches five readings and renders one HTML card
each.

This project models the decision logic of both files as pure Dafny functions:

- `Server`: the dispatch of a request on its URL prefix, and the reply to it.
- `StaticFiles`: how `streamFile` turns a URL into a file path and checks that
  the path stays in the public directory. It also covers how the server picks
  a content type from the file's extension.
  - `NodePath` restates the POSIX `path.join`, `path.normalize` and
    `path.extname` of Node that `streamFile` relies on.
  - `JsObject` models property lookup on an object literal, inherited
    `Object.prototype` members included.
  - `Strings` holds the JavaScript string operations used throughout.
- `Api`: the endpoint table of `apiCall`, its three outcomes (endpoint,
  listing, 404) and the answer of each endpoint.
- `OutsideCache`: the one-slot cache behind `/outside`, as a step function
  that takes the clock as a parameter.
- `Outdoor`: the mapping of the weather service's answer to a reading, and the
  doubling wait schedule of `retryFetch`.
- `Dashboard`: `co2Color`, `formatReading` and the page `update` writes.
- `Readings` and `Http` are the shared records: a reading as an ordered list
  of entries, and a reply.

Everything outside the program is a parameter:

- whether a file exists (`accessible`);
- what the database returns for each query (`db`);
- the clock (`now`, `refreshedAt`);
- the outcome of the weather fetch (`fetched`);
- how a number is displayed (`display`).

The model follows the code:

- only `/outside` is cached, for a fixed 60 000 ms;
- the endpoints are `/latest`, `/yesterday`, `/lastmonth`, `/lastyear`,
  `/outside`, `/max`, `/min` and `/avg`;
- `/avg` averages over every row (the date it computes a year back is
  unused);
- `retryFetch` retries without end.

Three lookups in `server.js` misbehave on some inputs (see "## Findings").
Each is modelled twice. The members named `...AsWritten` follow the code as
it is. The others, `Server.Handle`, `Api.ApiCall` and
`StaticFiles.StreamFile` among them, give the evidently intended behaviour.
Lemmas relate the two and name an input on which they differ.

## Model

| member | source | states |
|---|---|---|
| Server.RouteOf | server.js:21-29 | a URL starting with `/api/v1` goes to the API with the rest of the URL as endpoint (and the URL is `/api/v1` + endpoint); one starting with `/api` but not `/api/v1` gets the versions reply; any other URL is served as a static file |
| Server.ApiRouteRoundTrip | server.js:21-23 | every endpoint name is reached by the URL `/api/v1` + name |
| Server.Handle | server.js:20-40 | corrected dispatch: an API request gets what the corrected `apiCall` answers for the URL after `/api/v1`; the versions reply is 200 text; a static request never changes the cache; a found file is streamed with 200 and its content type, and an unfound one gets 404 "Page Not Found" in plain text; a file body only comes from a static route |
| Server.OnlyOutsideTouchesCache | server.js:20-23 | a request changes the cache only if its URL is exactly `/api/v1/outside` |
| Server.StreamedFilesArePublic | server.js:29-37 | corrected dispatch: a streamed file's path begins with the component `public`, has no `..` component, and is sent with the content type of its extension |
| Server.DirectoryUrlServedAsHtml | server.js:29-37 | a served directory URL is sent as `text/html; charset=UTF-8` |
| StaticFiles.ExtensionKey | server.js:67 | the lookup key is empty when the extension is; otherwise it is the extension without its dot, lower-cased letter by letter, so it has no `.`, `/` or upper-case letter |
| StaticFiles.MimeFor | server.js:43-53 | an undeclared key gets `application/octet-stream`; a declared key gets the value written beside it in the table |
| StaticFiles.StreamFile | server.js:42-71 | corrected `streamFile`: the file is found exactly when its joined path lies in the public directory and exists; then the path is the joined one and the type is the one for its extension |
| StaticFiles.FilePath | server.js:55-59 | the joined path is never empty and never absolute: it is relative to the working directory |
| StaticFiles.PublicFileUrlPath | server.js:55-59 | the URL `/<file>` of a plain file name is served from `public/<file>` |
| StaticFiles.PublicFileFound | server.js:55-70 | an existing file `public/<file>` is found for the URL `/<file>`, with the content type of its extension, both by the corrected check and by the check as written |
| StaticFiles.ExtensionKeyOfName | server.js:67 | a file named `<stem>.<key>` with a lower-case `key` is looked up under `key` |
| StaticFiles.FilePathOfSegments | server.js:55-59 | the joined path is its resolved segments separated by `/`, possibly with a trailing `/`, or `.` when none are left |
| StaticFiles.PublicGuardConfines | server.js:59-64 | whatever `..` segments the URL holds, a path passing the public-directory check begins with `public` and keeps no `..` |
| StaticFiles.ServedFilesStayInPublic | server.js:59-65 | corrected `streamFile`: a found file never lies outside the public directory, e.g. `server.js` is never served |
| StaticFiles.DirectoryUrlPath | server.js:55-59 | a URL ending in `/` is served from `index.html` under the directory it names |
| StaticFiles.DirectoryUrlIsHtml | server.js:56-59 | a URL ending in `/` has extension key `html` and content type `text/html; charset=UTF-8` |
| StaticFiles.MimeTableLookup | server.js:43-53 | the empty extension gets the default type; each declared extension gets its own type |
| StaticFiles.MimeAsWritten | server.js:68 | as written, the lookup yields an inherited `Object.prototype` member exactly for such names that the table does not declare; otherwise the same type as the corrected lookup |
| StaticFiles.StreamFileAsWritten | server.js:62-70 | as written, a file is found exactly when its path begins with the text `public` and exists |
| StaticFiles.PrefixGuardAsWrittenStaysUnderRoot | server.js:59-64 | even the check as written keeps every served path free of `..`, under the working directory |
| StaticFiles.SiblingUrlPath | server.js:55-59 | the URL `/../<dir>/<file>` is served from `<dir>/<file>` |
| StaticFiles.SiblingDirectoryPassesPrefixGuard | server.js:62 | a sibling directory whose name begins with `public` passes the check as written and is refused by the public-directory check |
| StaticFiles.PublicityExample | server.js:62 | `/../publicity/notes.txt` is served as written and refused once corrected |
| StaticFiles.PrototypeExtensionAsWritten | server.js:67-68 | a file whose extension names an inherited member gets that member as its type as written, and the default type once corrected |
| StaticFiles.ConstructorExample | server.js:67-68 | `public/x.constructor` gets the `constructor` member as written |
| NodePath.JoinPaths | server.js:59 | `path.join` never gives the empty string; with no non-empty part it gives `.`; otherwise the result is absolute exactly when the first non-empty part is |
| NodePath.Normalize | server.js:59 | `path.normalize` never gives the empty string and gives `.` for it; it keeps whether the path is absolute, and keeps a trailing `/` |
| NodePath.Resolve | server.js:59 | normalised segments contain no empty or `.` segment; every surviving `..` stands at the front; none survives in an absolute path |
| NodePath.NormalizeRelative | server.js:59 | a relative path normalises to its resolved segments joined by `/`, keeping a trailing `/`, or to `.` |
| NodePath.Extname | server.js:67 | the extension is empty exactly when the last path component is `..` or has no `.` after its first character; otherwise it is a `.` followed by no other `.` and no `/`, and is a proper end of that component |
| NodePath.ExtnameOfName | server.js:67 | a file name whose last `.` is not its first character has the extension that starts at that `.` |
| NodePath.ExtnameUnderDirectory | server.js:67 | the directory a file lies in does not change its extension |
| JsObject.OwnProperty | server.js:68 | a key's own value is absent exactly when no entry carries the key, and is otherwise the value of an entry with that key |
| JsObject.OwnPropertyAt | server.js:43-53 | a key that no later entry repeats has the value written beside it |
| JsObject.Get | server.js:143 | `obj[name]` is an own property exactly when some entry carries the key, and then holds the value of such an entry; it is an inherited member exactly when no entry carries the key and `Object.prototype` has a member of that name |
| JsObject.GetIsDefined | server.js:143 | `obj[name]` is defined exactly for the declared keys and the inherited prototype members |
| Api.Lookup | server.js:76-143 | a name found in the table is the key of the endpoint found; nothing is found exactly when no key matches |
| Api.LookupKey | server.js:76-141 | each endpoint is found under its own key |
| Api.LookupIsDecoding | server.js:76-141 | looking a name up in the object agrees with decoding it case by case |
| Api.TableKeys | server.js:76-141 | the table lists every endpoint exactly once, under its key |
| Api.QueryOf | server.js:76-140 | every endpoint but `/outside` runs a database query |
| Api.Classify | server.js:143-156 | a declared key is a known endpoint; `''` or `/` is the listing; anything else is unknown |
| Api.ListingBody | server.js:151 | split into lines, the listing body is the header line followed by exactly the endpoint keys, in source order |
| Api.NotFoundBody | server.js:155 | the 404 body quotes the endpoint between `endpoint "` and `" not found` |
| Api.ApiCall | server.js:143-156 | corrected `apiCall`: status 200 exactly for known endpoints and the listing, 404 otherwise; JSON for endpoints, plain text otherwise; never a file body; only `/outside` can change the cache or leave the request unanswered |
| Api.ApiCallAsWritten | server.js:143-156 | `apiCall` as written: an inherited member name that is not a declared key is called like a handler; `constructor`, `__proto__`, `__defineGetter__` and `__defineSetter__` throw and get no reply, and the other eight get 200 with a JSON reply made from the member; the cache is unchanged either way; every other name is answered as by the corrected `apiCall` |
| Api.ThrowingMemberIsUnknown | server.js:143-156 | a throwing member is no declared key: as written it is called as an inherited member, and once corrected it is an unknown endpoint |
| Api.ThrowingMembersAreInherited | server.js:146-147 | the members that throw when called as a handler are all inherited `Object.prototype` members |
| Api.DatabaseEndpointsAreNotCached | server.js:77-108 | a database endpoint answers with what the database returns, on every call, and leaves the cache alone |
| Api.OutsideGoesThroughCache | server.js:109-118 | `/outside` answers with the cache step's value, and the cache becomes the step's next state |
| Api.ClassifyAsWritten | server.js:143 | as written, an inherited member name that is not a declared key is treated as a handler |
| Api.InheritedNamesAnsweredAsWritten | server.js:143-156 | the status as written and the corrected status differ exactly on inherited names; those get 200 as written and 404 once corrected |
| Server.HandleAsWritten | server.js:20-40 | dispatch as written: API requests go to `apiCall` as written; the versions reply is the same as in the corrected dispatch; a static request never changes the cache; an existing path that begins with the text `public` is streamed with 200 and the as-written content type, and any other static URL gets 404 "Page Not Found"; a file body comes only from a static route |
| Server.ThrowingMemberUnansweredAsWritten | server.js:143-156 | `/api/v1` followed by `constructor`, `__proto__`, `__defineGetter__` or `__defineSetter__` gets no reply as written, and the 404 reply once corrected |
| Server.ApiAsWrittenAgrees | server.js:143 | for every endpoint name that is not an inherited member, the dispatch as written and the corrected one agree |
| Server.StreamedFilesAsWrittenStayUnderRoot | server.js:55-64 | as written, a streamed file is the joined path of its URL, whose first resolved segment begins with the text `public`, and no `..` is left in its resolved path |
| Server.ToStringHandledAsWritten | server.js:143-156 | `/api/v1toString` gets 200 with a JSON member reply as written, and the 404 text once corrected |
| Server.SiblingServedAsWritten | server.js:55-64 | an existing file in a sibling directory whose name begins with `public` is streamed as written, and gets "Page Not Found" once corrected |
| Server.PublicFileHandled | server.js:55-70 | corrected: an existing file `public/<file>` requested as `/<file>` is streamed with the content type of its extension |
| Server.PublicFileHandledAsWritten | server.js:55-70 | as written: the same file is streamed with whatever the table lookup as written gives for its extension |
| Server.ConstructorHandledAsWritten | server.js:67-68 | `/x.constructor` is streamed with the text of the `constructor` member as its content type as written, and with `application/octet-stream` once corrected |
| Api.ToStringExample | server.js:143-156 | `/api/v1toString` gets 200 as written and 404 once corrected |
| OutsideCache.Step | server.js:109-118 | within 60 000 ms of `from` the stored value is served and kept; otherwise the fetched reading is served and stored with the refresh time; a fetch that delivers no reading sends no reply and leaves the cache as it was |
| OutsideCache.FirstRequestFetches | server.js:14-18 | since `from` starts at the epoch, the first request after the first minute fetches and stores |
| OutsideCache.FreshIgnoresFetch | server.js:112 | within the minute the answer does not depend on the network, and the cache is unchanged |
| OutsideCache.RefreshThenServe | server.js:112-117 | a request within a minute of a refresh gets the refreshed reading |
| OutsideCache.StepKeepsValid | server.js:14-18 | an empty cache is always the initial one |
| OutsideCache.NeverUndefined | server.js:109-118 | past the first minute, `/outside` never answers `undefined` in any run of requests |
| Outdoor.OutdoorReading | server.js:162-168 | the reading's keys are date, co2, temperature, pressure and humidity, in that order |
| Outdoor.OutdoorReadingFields | server.js:162-168 | `date` is `dt * 1000` ms; `co2` is 440; temperature, pressure and humidity are copied from the payload |
| Outdoor.Retry | server.js:173-181 | the fetch ends at the first successful attempt, having waited once after each failure, or is still retrying when every attempt failed; the i-th wait is `backoff * 2^i`, and there is no outcome for giving up |
| Outdoor.RetryDelays | server.js:173-181 | the first wait is 500 ms and each later one doubles the one before |
| Outdoor.TotalWait | server.js:173-181 | after `k` failures the waits sum to `500 * (2^k - 1)` ms |
| Outdoor.AllFailuresKeepRetrying | server.js:177-180 | attempts that all fail never end the fetch |
| Readings.ValueOf | server.js:162-168 | reading a field back from a reading such as the one built there: a key's value is absent exactly when no entry carries the key, and is otherwise the value of such an entry |
| Readings.ValueOfAt | server.js:162-168 | when reading a field back, an entry whose key no earlier entry carries is the one found |
| Dashboard.Co2Color | public/main.js:54-62 | red from 1400 ppm, dark orange from 1000 up to 1400, green below 1000 |
| Dashboard.Co2ColorMonotone | public/main.js:54-62 | a higher level is never shown in a milder colour |
| Dashboard.CardFrame | public/main.js:25-26 | a card starts with `<div class="reading">` and the title span and ends with `</div>` |
| Dashboard.FieldsAppend | public/main.js:27-48 | the entries' HTML is built entry by entry, so two runs of entries give the two HTMLs in order |
| Dashboard.DateSkipped | public/main.js:30-32 | a `date` entry adds nothing to a card |
| Dashboard.FieldsAreShownSpans | public/main.js:27-48 | the entries' HTML is one span with id `title-key` for each entry other than `date`, in entry order |
| Dashboard.FieldText | public/main.js:28-45 | `co2` is shown in its colour and followed by ` ppm co2`; temperature, humidity and pressure are followed by `°F`, `% humidity` and ` hPa`; any other key shows the bare value |
| Dashboard.FormatReadingShowsEntries | public/main.js:24-52 | a card is the card head, the title span, one span per entry other than `date` in entry order, and the closing tag |
| Dashboard.FormatReadingLoop | public/main.js:24-52 | building the card entry by entry gives the card |
| Dashboard.OutdoorCard | public/main.js:33-47 | the outdoor card shows 440 ppm in green, then temperature, pressure and humidity with their units, and no date |
| Dashboard.CardsUseKnownEndpoints | public/main.js:6-12 | every card asks for an endpoint the server knows |
| Dashboard.CardsHtml | public/main.js:14-19 | the cards give a page exactly when every card's reading arrives |
| Dashboard.PageIsFiveCards | public/main.js:6-19 | the page is the cards for right now, outside right now, yesterday, one month ago and one year ago, in that order |
| Dashboard.Update | public/main.js:3-22 | the loop of `update` builds that page |
| Dashboard.CardsFailFrom | public/main.js:17 | a reading missing for one card means no page at all |
| Strings.Split | server.js:59 | there is always a piece, and no piece contains the separator |
| Strings.SplitJoin | server.js:151 | splitting undoes joining when no part contains the separator |
| Strings.SplitAround | server.js:59 | splitting at a separator splits each side independently |
| Strings.JoinSplit | server.js:59 | joining the pieces of a split with the same separator gives back the string |

## Left out

- I/O and the host environment are left out:
  - the HTTP server itself, response headers other than status and content
    type, and the `Access-Control-Allow-Origin` header;
  - file streaming and `fs.promises.access`: a file's existence is the
    `accessible` oracle;
  - SQLite: the `db` parameter gives the row a query returns, and the date
    cut-offs of `/yesterday`, `/lastmonth` and `/lastyear` (calendar
    arithmetic with `setDate`, `setMonth`, `setFullYear`, and
    `toISOString`) are inside that parameter;
  - `dotenv` configuration.
- `fetch`, promises and `setTimeout` are not modelled. The outcome of the
  weather fetch is a parameter of each cache step, and the retry schedule is
  modelled as a list of waits. Node clamps a `setTimeout` delay above
  2 147 483 647 ms to 1 ms, so from the 24th failure on the real wait is 1 ms;
  the model does not include that clamp.
- `JSON.stringify` and `res.json()` are left out: a reading keeps its entries
  and their order from server to client.
- `Outdoor.OutdoorReading`: the `date` entry holds the timestamp in
  milliseconds, not the ISO string `toISOString` makes of it. The card never
  shows the date.
- `toLocaleString` is the `display` parameter. Numbers are `real`: there is
  no floating point, `NaN` or `Infinity`.
- `Dashboard.FormatReadingLoop`: builds the entries' HTML separately and adds
  the card head before it, where the source appends everything to one string
  as it goes.
- The DOM write, `setInterval` polling, and the API URL built from
  `location` are left out.
- `Api.ClassifyAsWritten`: it does not model what an inherited member returns
  when called as a handler; `Api.ApiCallAsWritten` only tells the members
  that throw from those that answer.
- `Api.ApiCallAsWritten`: for the eight members that answer, the JSON text
  of the reply is only named (`MemberResult`), not computed. For the four
  that throw, the status and content type already set are never sent, and
  what the unhandled rejection does to the process is not modelled.
- Strings are sequences of characters; lower-casing covers ASCII only.
- `Server.Handle`: states the corrected dispatch, not the code as written.
  `Server.HandleAsWritten` follows the code, and `Server.ApiAsWrittenAgrees`,
  `Server.ToStringHandledAsWritten`, `Server.ThrowingMemberUnansweredAsWritten`,
  `Server.SiblingServedAsWritten` and `Server.ConstructorHandledAsWritten` say
  where the two differ.
- `Server.StreamedFilesArePublic`: holds for the corrected dispatch only. As
  written a streamed file can lie in a sibling directory such as
  `publicity`; `Server.StreamedFilesAsWrittenStayUnderRoot` states what still
  holds then.
- `Api.ApiCall`: states the corrected `apiCall`, in which inherited member
  names get 404. `Api.ApiCallAsWritten` follows the code.
- `StaticFiles.StreamFile`: states the corrected `streamFile`, with the
  public-directory check and the own-key type lookup.
  `StaticFiles.StreamFileAsWritten` and `StaticFiles.MimeAsWritten` follow the
  code.
- `StaticFiles.ServedFilesStayInPublic`: holds for the corrected
  `streamFile` only. As written `StaticFiles.PrefixGuardAsWrittenStaysUnderRoot`
  is what holds.
- `Server.HandleAsWritten`: the text an inherited member gives as a content
  type, as Node writes it into the header, is the `memberText` parameter.
- `OutsideCache.Step`: the `None` outcome stands for every fetch that
  delivers no reading. The retries may never end. Or the service may answer
  with an error object that has no `dt` or `main`, so that the mapping at
  server.js:163-165 throws. Either way no reply is sent and the cache is
  unchanged. What the unhandled rejection then does to the process is not
  modelled.
- `OutsideCache.Run`: requests are handled one after another. In the server,
  the staleness test and the cache write at server.js:111-115 are separated by
  an `await`. So overlapping requests can each fetch, and the fetch that
  finishes last decides what is stored. Interleavings are not modelled.

## Findings

| source | as written | input that shows it | evidently intended | confidence | as-written member | corrected member |
|---|---|---|---|---|---|---|
| server.js:143 | `endpoints[endpoint]` is also true for names inherited from `Object.prototype` | `/api/v1toString` answers 200 with JSON | only the declared endpoints are handlers; other names get 404 | high; not executed | Api.ToStringExample | Api.Classify |
| server.js:62 | `file_path.startsWith('public')` is a text-prefix test | `/../publicity/notes.txt` resolves to `publicity/notes.txt` and is served | serve only files inside the `public` directory | high; not executed | StaticFiles.SiblingDirectoryPassesPrefixGuard | StaticFiles.PublicGuardConfines |
| server.js:68 | `mime_types[extension]` also finds inherited members | `public/x.constructor` gets the `Object` constructor as its content type | an undeclared extension gets `application/octet-stream` | high; not executed | StaticFiles.PrototypeExtensionAsWritten | StaticFiles.MimeFor |
