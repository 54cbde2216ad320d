# Link shortener: a Dafny model

This project models the core of a small URL-shortening server. Users register and
log in. They create short links, each with a random code, an optional expiry date
and a remark. Anyone who opens `/<code>` is redirected to the original URL, and the
visit is recorded in three places:

- a Click record (link, time, IP address, device, and copies of both URLs);
- the link's own counters: total clicks, clicks per device (mobile, desktop,
  tablet) and clicks per calendar day;
- the link's `activeStatus`, which a save hook recomputes from `expireDate`.

The owner's dashboard sums these counters over all of the owner's links. It also
lists links and clicks page by page, edits and deletes links, and deletes a whole
account together with its links and their clicks.

Modules, in dependency order:

- `Wrappers`, `Http` (common.dfy): `Option`, the reply type `Response`, the
  status codes, and `Given`, which is JavaScript truthiness of a request-body
  string (present and non-empty).
- `DeviceDetect` (device.dfy): the case-insensitive `/mobile/i`, `/tablet/i`
  classification. A search function is proved equal to its declarative meaning
  (`Mentions`: the word occurs somewhere, letter case ignored).
- `LinkModel` (link_model.dfy): the Link and Click records, the expiry test, the
  save hook as a function on records (`Saved`), and the Mongoose document as a
  class `LinkDoc` that is changed field by field and then `PreSave`d.
- `Resolver` (resolver.dfy): the value-level pieces of the redirect: the
  first-match lookup by code, the Click it records, and the day tally. `Tallied`
  is the reference definition; the in-place update `RecordClick` is proved
  against it.
- `Queries` (queries.dfy): the store queries (`find`, `findById`,
  `deleteMany`, `$in`) over sequences kept in store order. Also the store
  invariant's parts and the cascade lemma.
- `Dashboard` (dashboard.dfy): the `GET /` aggregation as the nested loops of
  the source, plus a sort proved sorted and a permutation. Also paging,
  `getClicks`, `GET /:id` and the PATCH update.
- `Accounts` (accounts.dfy): users, the login branches, the profile read and
  the profile update.
- `Store` (store.dfy): class `Db`, which holds the three collections and the
  next fresh id. Its methods are the handlers that change the stores: redirect,
  add link, patch link, delete link, register, update user and delete user.
  Each handler of the model keeps `Valid()` (the source can break the last
  part through a failed validation; see `Store.Db.Resolve` under "Left out"):
  - ids are fresh and distinct;
  - every click belongs to a stored link;
  - for every link, `totalClicks` equals the sum of its per-day counts, the sum
    of its device counters, and the number of its Click records, and no day
    has two entries.

Inputs the server takes from outside become parameters: the clock readings
(integers), the calendar day of an instant (`dayOf`), the password hash
(`hash`), the generated short code (`code`), the User-Agent header and the
client IP. The authenticated user is a plain id.

Where the descriptive documentation and the code differ, the model follows the
code:

- `shortLink` is not unique: nothing enforces it. So the redirect uses the first
  link with the code in store order, and no lemma assumes uniqueness.
- PATCH `/dashboard/:id` and DELETE `/dashboard/:id` look up the link by id only.
  They never compare its owner with the caller, so `PatchLink` and `DeleteLink`
  act on anyone's link. `GET /dashboard/:id` does check the owner, and so does
  `GetLink`.

## Model

| member | source | states |
|---|---|---|
| DeviceDetect.Classify | middleware/detectDeviceType.js:1-12 | Mobile exactly when the header mentions "mobile" in any letter case; Tablet exactly when it does not but mentions "tablet"; Desktop otherwise; an absent header is tested as the text "undefined" |
| DeviceDetect.SearchCorrect | middleware/detectDeviceType.js:4-6 | the left-to-right search succeeds exactly when the word occurs somewhere in the text, ignoring letter case (the meaning of `/word/i.test`) |
| DeviceDetect.AbsentHeaderIsDesktop | middleware/detectDeviceType.js:2-9 | a request without a User-Agent header is classified as a desktop |
| DeviceDetect.MobileBeatsTablet | middleware/detectDeviceType.js:4-7 | a header mentioning both words is a mobile, because "mobile" is tested first |
| DeviceDetect.CapitalMobileIsMobile | middleware/detectDeviceType.js:4-5 | "Mozilla/5.0 (Mobile)" is a mobile: the test ignores letter case |
| LinkModel.DeviceClicks.Bump | index.js:72 | the counter of the given device rises by exactly one and the other two are unchanged |
| LinkModel.Saved | models/link.model.js:48-59 | after the hook the status is Inactive exactly when an expiry date is set and earlier than now, Active otherwise, and no other field changes |
| LinkModel.SavedIdempotent | models/link.model.js:48-59 | running the hook twice at the same instant gives the same record as running it once |
| LinkModel.ExpiresNowStillActive | index.js:44 | a link that expires exactly now is not expired, and the hook saves it as Active |
| LinkModel.LinkDoc.Create | models/link.model.js:16-44 | a new link document has the given fields and the schema defaults: status Active, no clicks, all device counters 0, no date entries |
| LinkModel.LinkDoc.PreSave | models/link.model.js:48-59 | the document becomes exactly the record the hook function `Saved` gives for its previous state |
| Resolver.IndexOfCode | index.js:35 | the position of the first link with the code, and -1 only when no link has it |
| Resolver.ClientIp | index.js:54 | never empty, so a Click always meets the `required` IP address of models/clicks.model.js; the request IP when one is given, otherwise "Unknown IP" |
| Resolver.ClickOf | index.js:52-60 | the recorded Click points at the link, holds the classified device, copies of the link's two URLs, a non-empty IP address (the request's when given) and, as its timestamp, the instant it was built (the schema's `Date.now` default) |
| Resolver.FindDateEntry | index.js:77-79 | the index of the first entry for the day, or -1 exactly when no entry has that day |
| Resolver.RecordClick | index.js:63-85 | the in-place updates give the record with `totalClicks` one higher, the device counter bumped and the day tallied, every other field unchanged |
| Resolver.TalliedFound | index.js:77-82 | when the first entry for the day is at k, only that entry changes, its count one higher, and the order stays |
| Resolver.TalliedAbsent | index.js:83-85 | when no entry has the day, the entry {day, 1} is appended after the others |
| Resolver.TalliedCounts | index.js:75-85 | the total of all day counts rises by exactly one; only the count for the clicked day changes |
| Resolver.TalliedDates | index.js:75-85 | the set of days gains the clicked day, and the sequence grows by one exactly when that day was new, otherwise not at all |
| Resolver.TalliedDistinct | index.js:77-85 | entries with no repeated day keep no repeated day after a click |
| Resolver.SameDayAccumulates | index.js:77-85 | a second click on the same day adds no entry and makes that day's count two higher than before both |
| Resolver.Clicked | index.js:63-88 | the saved link has `totalClicks` one higher, the status the hook computes at its own instant, and the same id, code, URL, owner and expiry |
| Resolver.ClickedCounters | index.js:63-88 | one click raises `totalClicks`, the classified device's counter and the day-count total by exactly one each, leaves the other counters, grows the date entries by at most one, recomputes the status and changes no other field |
| Resolver.ClickedIsActive | index.js:43-88 | a link that passed the expiry test at the handler's instant is saved Inactive exactly when its expiry lies between that instant and the later instant of the save hook, and Active when the hook reads no later time |
| Resolver.ExpiresBetweenReads | models/link.model.js:48-59 | a link expiring at 10 passes the test at 10 and is saved Inactive by a hook running at 11 |
| Resolver.ClickedConsistent | index.js:63-85 | a click keeps the three counters of a link equal and its days distinct |
| Queries.OwnedBy | routes/dashboard.js:13 | exactly the user's links, in store order |
| Queries.OwnedByCounts | routes/dashboard.js:13 | each of the user's links occurs in the result as many times as in the store |
| Queries.DropOwned | routes/user.js:163 | exactly the links of other owners |
| Queries.IndexOfId | routes/dashboard.js:217 | the position of the link with the id or -1 exactly when there is none |
| Queries.WithoutId | routes/dashboard.js:253 | exactly the links with another id |
| Queries.ClicksFor | routes/dashboard.js:154 | exactly the clicks whose link is one of the ids |
| Queries.ClicksForCounts | routes/dashboard.js:154 | each click on one of the links occurs in the result as many times as in the store |
| Queries.DropClicks | routes/dashboard.js:256 | exactly the clicks of other links remain, each as many times as before |
| Queries.ClickCountDrop | routes/dashboard.js:256 | after deleting the clicks of some links, a deleted link has no clicks and every other link keeps its count |
| Queries.DropNoClicks | routes/user.js:158-160 | deleting the clicks of no links deletes nothing, so skipping the call when the user has no links changes nothing |
| Queries.CascadeKeepsInvariant | routes/user.js:155-166 | after links are removed with all their clicks, every remaining click still belongs to a remaining link and every remaining link's click count still equals its `totalClicks` |
| Dashboard.DeviceTotalsAddUp | routes/dashboard.js:27-43 | for consistent links the reported total equals the sum of the three device totals |
| Dashboard.AddDay | routes/dashboard.js:33-37 | the truthiness branch always adds the entry's count to the day's total so far (0 for a new day), and a new day becomes the last key |
| Dashboard.AddDayStep | routes/dashboard.js:33-37 | one step adds the entry's count to its day's value (a new day starts from 0 and goes last in the key order), which extends the tally by that entry |
| Dashboard.AddDays | routes/dashboard.js:30-38 | the day map gains exactly the entries' days; each day's value is its previous value plus the counts of that day's entries; key order lists each key once |
| Dashboard.SumLinks | routes/dashboard.js:27-43 | the loop's total is the sum of `totalClicks`, each device total the sum of that counter, and each day's value the sum of all entries for that day over all the links |
| Dashboard.EntriesOf | routes/dashboard.js:45-49 | for an object with that key order: one entry per key of the object, no key twice, no other key, each with the object's value |
| Dashboard.SortDesc | routes/dashboard.js:50-54 | the sort's result is in non-increasing order of value and is a permutation of its input |
| Dashboard.SortDescDistinct | routes/dashboard.js:45-50 | sorting entries with distinct keys keeps them distinct |
| Dashboard.DateArray | routes/dashboard.js:45-50 | the sorted date array is non-increasing, has one entry per day of the map, each with that day's value |
| Dashboard.Overview | routes/dashboard.js:10-69 | returns exactly the user's links, in store order; the total is the sum of their `totalClicks`; the date array has one entry per day occurring in them, each the sum of every entry for that day, sorted non-increasing; the device array holds exactly the three device totals, sorted non-increasing |
| Dashboard.LimitOf | routes/dashboard.js:77 | never below one: an absent, non-numeric or zero limit is 10, and a positive one is used as it is |
| Dashboard.Page | routes/dashboard.js:75-77 | the entries numbered offset to offset+limit that exist, in order, with offset 0 and limit 10 when the value is absent or not a number, and limit 10 also for 0 |
| Dashboard.PageDefaults | routes/dashboard.js:76-77 | with no paging parameters, or a limit of 0, the first ten entries |
| Dashboard.ListLinks | routes/dashboard.js:71-94 | exactly the user's links numbered offset to offset+limit that exist, in store order, so at most `limit` of them |
| Dashboard.GetClicks | routes/dashboard.js:136-182 | 404 exactly when the user owns no link; otherwise exactly the clicks on the user's links numbered offset to offset+limit that exist, in store order, and the count of all clicks on the user's links |
| Dashboard.IndexOfOwned | routes/dashboard.js:190 | the position of a link with that id and owner, or -1 exactly when there is none |
| Dashboard.GetLink | routes/dashboard.js:185-208 | 404 exactly when the user owns no link with that id; otherwise that link's URL, remark and expiry date |
| Dashboard.Patched | routes/dashboard.js:224-228 | each supplied field replaces the stored one, an absent field stays, and nothing else changes: not the status, not the counters |
| Dashboard.PatchLeavesStatusStale | routes/dashboard.js:224-228 | moving the expiry into the past by PATCH leaves the status Active, although the redirect refuses the link and the next save would make it Inactive |
| Dashboard.PatchedConsistent | routes/dashboard.js:224-228 | a patched link's counters are as consistent as before |
| Accounts.IndexOfEmail | routes/user.js:21 | the position of the first user with the email, or -1 exactly when there is none |
| Accounts.IndexOfUser | routes/user.js:96 | the position of the user with the id, or -1 exactly when there is none |
| Accounts.WithoutUser | routes/user.js:166 | exactly the users with another id |
| Accounts.Login | routes/user.js:47-91 | 400 for a missing field; 404 when no user has the email; otherwise success exactly when the hash of the password matches the first such user's, and then exactly that first user's details minus the password, and 500 on a mismatch |
| Accounts.LoginAfterRegister | routes/user.js:28-64 | a user stored with the hash of a password, whose email no earlier user holds, logs in with that password |
| Accounts.UserGet | routes/user.js:93-114 | 400 exactly when no user has the id; otherwise that user's username, email and mobile |
| Accounts.ProfileUpdated | routes/user.js:127-131 | each supplied field replaces the stored one; the id and password are unchanged |
| Store.TotalCountsClicks | routes/dashboard.js:27-28 | over links with distinct ids whose totals are their click counts, the summed totals are the number of their clicks |
| Store.DashboardAgreesWithClicks | routes/dashboard.js:154-158 | in a store that keeps the invariant, the total `GET /dashboard` shows a user equals the count `GET /dashboard/getClicks` gives them |
| Store.DeleteClicksOf | routes/user.js:158-160 | skipping the click deletion when the user has no links leaves the clicks the deletion would |
| Store.ClickKeepsInvariant | index.js:52-88 | appending a click on a link and saving that link clicked keeps ids fresh and distinct, clicks attached and every count exact |
| Store.AddKeepsInvariant | routes/dashboard.js:120-121 | a new link with a fresh id and no clicks keeps the store invariant |
| Store.ReplaceKeepsInvariant | routes/dashboard.js:224-228 | replacing a link by a consistent record with the same id and total keeps the store invariant |
| Store.DeleteKeepsInvariant | routes/dashboard.js:253-256 | deleting one link and its clicks keeps the store invariant |
| Store.DeleteUserKeepsInvariant | routes/user.js:155-166 | deleting a user, the user's links and all their clicks keeps the store invariant |
| Store.RegisterKeepsInvariant | routes/user.js:29-36 | a new user with a fresh id keeps the store invariant |
| Store.ProfileUpdateKeepsInvariant | routes/user.js:127-131 | updating a user's fields, id unchanged, keeps the store invariant |
| Store.Db.Resolve | index.js:31-98 | unknown code: Missing, status 404, nothing changes; link expired at the handler's instant: Expired, status 410, nothing changes; otherwise exactly one Click, stamped with the instant it was built, is appended, the first link with the code becomes its clicked-and-saved record, and the reply redirects (302) to its URL; users and ids unchanged; invariant kept |
| Store.Db.CountClick | index.js:52-90 | past both checks: exactly the Click for this request is appended, link i becomes its record clicked and saved at the hook's instant, the reply URL is its `originalLink`, users and ids are unchanged, and the invariant is kept |
| Store.Db.AddLink | routes/dashboard.js:97-133 | 400 and no change without both `originalLink` and `remark`; otherwise exactly one new link with a fresh id, the code, the given expiry (none when none was given), no clicks and its saved status; invariant kept |
| Store.Db.PatchLink | routes/dashboard.js:211-239 | 400 and no change for an unknown id; otherwise only that link changes, to its patched record; invariant kept |
| Store.Db.DeleteLink | routes/dashboard.js:242-267 | 400 and no change for an unknown id; otherwise that link and exactly its clicks are removed; invariant kept |
| Store.Db.Register | routes/user.js:11-44 | 400 and no change exactly when one of the four fields is missing or empty, or the email is taken; otherwise exactly one new user with a fresh id and the hash of the password |
| Store.Db.UpdateUser | routes/user.js:116-142 | 400 and no change for an unknown user; otherwise only that user changes, to its updated record |
| Store.Db.DeleteUser | routes/user.js:144-176 | 400 and no change for an unknown user; otherwise the user, all the user's links and all their clicks are removed, and everything else stays; invariant kept |
| Store.Db.DropUser | routes/user.js:155-166 | the found user's cascade: the user's links with all their clicks, then the user, are removed and nothing else; invariant kept |

## Left out

- Express routing, the JSON reply bodies and the global error handler. Each
  handler returns only its outcome or status code.
- The 500 replies for store failures and exceptions, and logging. The stores
  are in-memory sequences that cannot fail, and the schema validators that
  run on `save` are not modelled (see `Store.Db.Resolve` below).
- MongoDB and Mongoose I/O and the connection code. Ids are a counter that
  hands out fresh numbers instead of ObjectIds.
- The `!exist` tests after `Link.find` in `GET /dashboard` and
  `GET /dashboard/links`. `find` returns an array, never a falsy value, so
  their 404 branch cannot be taken.
- The `count` of `GET /dashboard/links`. It comes from `Link.countDocuments`
  called with a result array as its filter, and what that means depends on
  the library.
- JWT checking and signing. The authenticated user is given as an id.
- bcrypt. The hash is a parameter `hash`, and comparing means the hashes are
  equal.
- The shortid generator. The code is a parameter of `AddLink`.
- The clock and `toISOString`. Instants are integers, and the calendar day of
  an instant is a parameter `dayOf`. The redirect reads the clock three times
  and `Resolve` takes the three readings as independent parameters: `now`
  for the expiry test and the day key, `clickNow` for the Click's timestamp
  default, and `saveNow` for the save hook. Nothing relates them, so the model
  does not assume that the clock moves forward.
- The `createdAt` and `updatedAt` timestamps of both schemas.
- Dates that do not parse (`Invalid Date`). An expiry date is either an
  integer or absent.
- Concurrency between `await` points. The model runs each handler to
  completion, so it does not capture the lost update on concurrent clicks,
  nor a Click being saved while its link's save fails.
- The `|| 0` and `|| {...}` fallbacks in the redirect. The schema defaults
  make them unreachable, so counters are plain naturals.
- Request-body values of `null` or of other types than strings. A body field
  is a string or absent.
- Negative and fractional paging values. Offset and limit are a natural number
  or absent (absent also stands for "not a number").
- Date keys that clash with names inherited by JavaScript objects (such as
  `constructor`). The per-day object is modelled as a map.
- The user schema file is not part of this model. The User record's fields
  come from what the user routes read and write, and no uniqueness is assumed.
- Store.Db.Resolve: always redirects past the two checks and keeps the
  invariant, also for a link whose `originalLink` or `remark` is empty. Such a
  link can only come from PATCH `/dashboard/:id`, whose update runs no schema
  validators. In the source, on the next redirect, an empty `originalLink`
  makes the Click fail its `required` validator, so the reply is 500 and
  nothing is stored. An empty `remark` lets the Click be stored, and then the
  link's own save fails its `required` validator: the reply is 500, the
  counters stay as they were, and the link's Click count exceeds its
  `totalClicks`. The model does neither; it counts the click as for any other
  link.
- Dashboard.SortDesc: proves that the result is sorted and a permutation, but
  not that entries with equal values keep their order, as the stable
  `Array.prototype.sort` does.
- Dashboard.Patched: treats a field missing from the request as "leave it".
  That is how Mongoose 6 and later handle `undefined` keys of an update, and
  the source does not pin a Mongoose version. An older version could behave
  differently.
- Accounts.ProfileUpdated: the same reading of `undefined` update keys as
  `Dashboard.Patched`, with the same dependence on the Mongoose version.
