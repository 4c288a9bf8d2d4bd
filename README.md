# A model of the Instagram profile scraper, in Dafny

The script `index.js` logs into Instagram with cookies exported from a browser.
It then reads a list of usernames from `usernames.txt`, fetches each account's
profile, and writes one CSV row per account it could fetch. This project models
the deterministic logic of that script and proves what it guarantees. The
remote calls, the file system and the CSV library are parameters of the model or
are left out.

Modules, one per piece of the script:

- `Wrappers`: `Option`. `None` stands for a JavaScript field that is `undefined` or `null`, or for a call that threw inside a `try`. `null || d` and `undefined || d` both give `d`, so one `None` covers both for the defaulted fields.
- `Sequences`: `FilterMap`, the "keep what succeeded, in order" walk. Three parts of the script share it:
  - `.filter(Boolean)` on the trimmed lines;
  - the cookie `forEach`, which has a `try`/`catch` per entry;
  - the `for` loop that fills `results`.

  Its lemmas state the order, membership and skip guarantees once.
- `Usernames`: JavaScript `split("\n")`, `String.prototype.trim`, `.filter(Boolean)` and the username parse built from them.
- `Cookies`: the leading-dot strip of the cookie domain, and the cookie built from each session entry. It also has a `CookieJar` class, whose `SetCookie` method stores a cookie or refuses it, and the loading loop.
- `Profiles`: JavaScript `||` defaults, the record literal of `getUserInfo`, and `getUserInfo` over two abstract remote calls.
- `Scraper`: the `for` loop of `main`, as a method with loop invariants, and the whole run `Run`: login check, parse, fetch loop.

Two things the script does that shape the model:

- `verified`, `private`, `fullName`, `username` and `userId` are copied with no default (index.js:59-61, 67-68). An absent upstream value therefore stays absent, and these fields are optional in `ProfileRecord`. `FlagsAbsentUpstream` states this.
- The script fetches a flat list of usernames and waits a random delay after each one (line 115). It writes all records once, at line 118, with `append: false`.

## Model

| member | source | states |
|---|---|---|
| `Usernames.TrimStartSpec` | index.js:105 | trimming the start leaves a suffix that does not start with whitespace, and removes only whitespace |
| `Usernames.TrimEndSpec` | index.js:105 | trimming the end leaves a prefix that does not end with whitespace, and removes only whitespace |
| `Usernames.TrimIsTrimOf` | index.js:105 | the trim of `s` is a piece `s[i..j]` with only whitespace before and after it and no whitespace at either of its ends (`IsTrimOf`) |
| `Usernames.IsJsSpace` | index.js:105 | the characters `trim` removes include space, tab, LF and CR; they exclude letters, digits, `_` and `.`; all lie in the Basic Multilingual Plane |
| `Usernames.TrimStart` | index.js:105 | trimming the start never lengthens the string |
| `Usernames.TrimEnd` | index.js:105 | trimming the end never lengthens the string |
| `Usernames.Trim` | index.js:105 | `String.prototype.trim` never lengthens the string and leaves no whitespace at either end |
| `Usernames.TrimOfIsTrim` | index.js:105 | that description is exact: any string satisfying `IsTrimOf(a, s)` is `Trim(s)` |
| `Usernames.TrimOfUnique` | index.js:105 | trimming has exactly one possible outcome |
| `Usernames.TrimOfTrimmed` | index.js:105 | a string with no whitespace at its ends is its own trim |
| `Usernames.TrimIdempotent` | index.js:105 | trimming twice equals trimming once |
| `Usernames.TrimDropsCarriageReturn` | index.js:105 | a trailing `\r` (CRLF files) is removed: `Trim(u + "\r") == u` for trimmed `u` |
| `Usernames.TrimKeepsAbsent` | index.js:105 | a character absent from a string is absent from its trim, so a newline-free line trims to a newline-free string |
| `Usernames.TrimStartAt` | index.js:105 | with whitespace up to position i and a non-space at i, trimming the start removes exactly i characters |
| `Usernames.TrimEndAt` | index.js:105 | with whitespace from position j on and a non-space before it, trimming the end keeps exactly j characters |
| `Usernames.SplitLines` | index.js:104 | `split("\n")` always yields at least one piece |
| `Usernames.JoinSplitLines` | index.js:104 | joining the pieces of `split("\n")` with newlines gives back the text |
| `Usernames.SplitJoinLines` | index.js:104 | splitting a newline join of newline-free pieces gives back the pieces |
| `Usernames.SplitLinesNoNewline` | index.js:104 | no piece of the split contains a newline |
| `Usernames.SplitLinesCount` | index.js:104 | there is exactly one more piece than newline characters |
| `Usernames.SplitLinesConcat` | index.js:104 | splitting `a + "\n" + b` gives the pieces of `a` followed by those of `b` |
| `Usernames.TrimAll` | index.js:105 | `.map(u => u.trim())` gives one string per line; element k is the trim of line k (which `TrimIsTrimOf` and `TrimOfIsTrim` describe), no longer than the line and with no whitespace at either end |
| `Usernames.Truthy` | index.js:106 | a string is truthy exactly when it is non-empty, and is then kept unchanged |
| `Usernames.DropEmpty` | index.js:106 | `.filter(Boolean)` leaves only non-empty strings |
| `Usernames.DropEmptyNil` | index.js:106 | `.filter(Boolean)` of an empty list is empty |
| `Usernames.DropEmptySnoc` | index.js:106 | filtering `xs + [s]` gives the filter of `xs`, followed by `s` exactly when `s` is non-empty; so every non-empty string is kept, in order |
| `Usernames.DropEmptyMember` | index.js:106 | a string survives the filter exactly when it is non-empty and among the inputs (both directions) |
| `Usernames.UsernameOf` | index.js:105-106 | a line yields nothing exactly when its trim is empty; otherwise it yields its trim, which is non-empty and has no whitespace at either end |
| `Usernames.ParseUsernames` | index.js:102-106 | every parsed username is non-empty, has no whitespace at either end, and contains no newline; there are at most (newlines + 1) of them |
| `Usernames.ParseAsOneStep` | index.js:104-106 | trimming every line and then dropping empty ones keeps each line's non-empty trim, in line order |
| `Usernames.ParseUsernamesIsFilterMap` | index.js:102-106 | the parse is the non-empty trims of the `"\n"`-separated lines, in input order |
| `Usernames.ParseUsernamesMember` | index.js:102-106 | a string is parsed exactly when it is non-empty and is the trim of some line (both directions) |
| `Usernames.ParseUsernamesOrder` | index.js:102-106 | the k-th username is the trim of line idx[k], and every later username comes from a strictly later line |
| `Usernames.ParseUsernamesComplete` | index.js:102-106 | every line whose trim is non-empty contributes a username |
| `Usernames.ParseUsernamesConcat` | index.js:102-106 | the usernames of `a + "\n" + b` are those of `a` followed by those of `b` |
| `Usernames.ParseCrlfLine` | index.js:102-106 | the single CRLF line `u + "\r"` parses to `[u]` |
| `Cookies.StripLeadingDot` | index.js:28 | the result is the domain with its first character, a dot, removed, or the unchanged domain when it does not start with a dot |
| `Cookies.StripLeadingDotRemovesDot` | index.js:28 | `"." + d` becomes `d` |
| `Cookies.StripLeadingDotKeeps` | index.js:28 | a domain not starting with `.` is returned unchanged |
| `Cookies.StripLeadingDotOnce` | index.js:28 | only one dot is removed: `"..a"` becomes `".a"` |
| `Cookies.ToCookie` | index.js:25-32 | an entry without a string domain yields no cookie, because the `replace` call throws; otherwise the cookie copies name, value, path and flags and has the dot-stripped domain |
| `Cookies.Insertion` | index.js:23-37 | one `try` block stores a cookie exactly when the entry has a domain and the jar accepts the cookie built from it; the stored cookie is that cookie |
| `Cookies.Accepted` | index.js:22-38 | the stored cookies are at most as many as the entries, and the jar accepts each of them |
| `Cookies.AcceptedMember` | index.js:22-38 | a cookie is stored exactly when some entry builds it and the jar accepts it (both directions) |
| `Cookies.AcceptedSkip` | index.js:22-38 | an entry without a domain, or one the jar refuses, contributes nothing, and the entries after it are still loaded |
| `Cookies.AcceptedAppend` | index.js:22-38 | loading `xs + ys` stores the cookies of `xs`, then those of `ys` |
| `Cookies.CookieJar.constructor` | index.js:19 | a new jar is empty and carries the given accept decision |
| `Cookies.CookieJar.SetCookie` | index.js:24-34 | stores the cookie at the end exactly when the jar accepts it, and otherwise stores nothing; `ok` says whether it was stored |
| `Cookies.LoadCookies` | index.js:22-38 | after the loop the jar holds its old cookies followed by exactly the accepted cookies of the entries, in entry order |
| `Cookies.LoadSession` | index.js:18-38 | a fresh jar holding exactly the accepted cookies of the session entries |
| `Profiles.Or` | index.js:62-66 | JavaScript logical or (`x` or `fallback`): the result is the fallback, or the present value when that value is truthy |
| `Profiles.OrFalsyIsDefault` | index.js:62-70 | with a falsy fallback (`0`, `""`, `false`), the logical or is "the value if present, else the fallback" |
| `Profiles.BuildRecord` | index.js:58-71 | followers/following/posts are the upstream count or 0; biography/website are the upstream string or ""; business/creator are the flag or false; username, fullName, userId, verified and private are copied unchanged |
| `Profiles.GetUserInfo` | index.js:53-76 | a record exists exactly when both the lookup and the profile call succeed, and it is then the normalised profile |
| `Profiles.FlagsAbsentUpstream` | index.js:67-70 | absent business/professional flags give `false`; an absent verified flag stays absent |
| `Sequences.FilterMap` | index.js:110-113 | the kept values are at most as many as the inputs |
| `Sequences.FilterMapAppend` | index.js:110-116 | processing a list in two halves equals processing it whole, so an earlier failure cannot change later outcomes |
| `Sequences.FilterMapSkip` | index.js:73-74 | an element whose step returns null contributes nothing, and every element after it is still processed |
| `Sequences.FilterMapMember` | index.js:112-113 | a value is kept exactly when some element produced it (both directions) |
| `Sequences.FilterMapAll` | index.js:113 | a property every produced value has holds for every kept value |
| `Sequences.KeptIndices` | index.js:110-113 | there are at most as many kept positions as inputs |
| `Sequences.KeptIndicesLength` | index.js:110-113 | there is one kept position per kept value |
| `Sequences.KeptIndicesIncreasing` | index.js:110-113 | kept positions are in range and strictly increasing, so input order is kept |
| `Sequences.KeptIndicesComplete` | index.js:110-113 | every position whose step produced a value is kept |
| `Sequences.KeptIndicesValues` | index.js:110-113 | the k-th kept value is the value produced at the k-th kept position |
| `Scraper.Fetcher` | index.js:112 | the fetch gives a record exactly when the lookup of the username and the profile fetch both answer, and that record is the normalised profile |
| `Scraper.ScrapeAll` | index.js:108-116 | every username is handed to the fetch once, in seed order, and `results` is exactly the non-null fetch results in seed order |
| `Scraper.Run` | index.js:99-120 | the run stops with the login failure exactly when the login test on the loaded cookies fails; otherwise the records are the non-null fetches of the parsed usernames, in order |
| `Scraper.ScrapedRecordOrigin` | index.js:110-113 | every record comes from a parsed username whose lookup and profile call both succeeded, and is that profile normalised |

## Left out

- Remote calls (`ig.user.searchExact`, `ig.user.info`, `ig.account.currentUser`, `ig.state.deserializeCookieJar`, `ig.state.generateDevice`) are library code with no visible semantics. Lookup, profile fetch and login check are function parameters (`search`, `info`, `loggedIn`). `deserializeCookieJar` is taken to hand the jar's cookies to the login check. `generateDevice` is not modelled.
- The cookie library's accept decision for `https://www.instagram.com` is a function field of `CookieJar`. It depends only on the cookie. The jar's own keying by domain, path and name, and its replacement of an existing cookie with the same key, are library internals and are not modelled. `CookieJar.cookies` is the list of the cookies that `setCookieSync` stored.
- File-system access (`existsSync`, `readFileSync`, `JSON.parse` of session.json) and `process.exit` are I/O. The session entries and the text of usernames.txt are inputs. A failed login is the `LoginFailed` outcome.
- Session entry fields other than `domain` are taken to be strings and booleans. The accept decision covers both kinds of refusal: a malformed value that makes the cookie library throw, and a cookie the library drops without throwing.
- `Cookies.LoadCookies`: a session.json entry that is `null` cannot be expressed, since `SessionEntry` always has fields. In the script, such an entry makes `c.name` (line 26) throw inside the `try`. The `catch` then reads `c.name` again (line 36) and throws a second, uncaught error. That error leaves the `forEach`, so `login()` rejects, and `main().catch(console.error)` (line 122) ends the run before the login test, with nothing written. `AcceptedSkip` therefore covers only entries that are objects. Entries that are numbers, strings or booleans have no `domain` and are skipped, as the model does.
- The CSV writer (lines 79-96, 118) is a library wrapper. The model ends with the records that `writeRecords` receives.
- The random `setTimeout` delay (line 115) is timing only. `console` output and `async`/`await` sequencing are left out too; the steps run in order.
- `Usernames.IsJsSpace`: characters are Unicode scalar values, while JavaScript strings are UTF-16 code units. Every character that JavaScript's `trim` removes lies in the Basic Multilingual Plane, so the models agree on which characters are whitespace. UTF-8 decoding of the file is not modelled.
- `Profiles.Or`: models `||` on integers, strings and booleans only. JavaScript's other falsy values (`NaN`, `-0`) and wrongly typed upstream fields are not modelled. `userId` is modelled as an integer.
