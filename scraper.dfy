/**
 * `main` (index.js, lines 99-120): log in with the stored cookies, read the
 * username list, fetch every username in turn and keep the records that came
 * back.  The records are written once, at the end, after the loop.
 */
module Scraper {
  import opened Wrappers
  import opened Sequences
  import opened Usernames
  import opened Cookies
  import opened Profiles

  /**
   * The call `getUserInfo(username)` of line 112, with the two remote calls
   * fixed: a record exactly when the lookup and the profile fetch both answer,
   * and then the normalised profile.
   */
  function Fetcher(search: string -> Option<int>, info: int -> Option<UpstreamUser>): (r: string -> Option<ProfileRecord>)
    ensures forall u :: r(u).Some? <==> search(u).Some? && info(search(u).value).Some?
    ensures forall u :: r(u).Some? ==> r(u).value == BuildRecord(info(search(u).value).value)
    ensures forall u :: r(u) == GetUserInfo(search, info, u)
  {
    u => GetUserInfo(search, info, u)
  }

  /**
   * The `for` loop of lines 110-116.  `attempted` lists the usernames handed to
   * `fetch`, in call order; `results` is the array the loop pushes onto.
   */
  method ScrapeAll(usernames: seq<string>, fetch: string -> Option<ProfileRecord>)
    returns (results: seq<ProfileRecord>, attempted: seq<string>)
    ensures results == FilterMap(usernames, fetch)
    ensures attempted == usernames
  {
    results, attempted := [], [];
    for i := 0 to |usernames|
      invariant results == FilterMap(usernames[..i], fetch)
      invariant attempted == usernames[..i]
    {
      var username := usernames[i];
      attempted := attempted + [username];
      var data := fetch(username);
      if data.Some? {
        results := results + [data.value];
      }
      assert [username][1..] == [];
      assert usernames[..i + 1] == usernames[..i] + [username];
      FilterMapAppend(usernames[..i], [username], fetch);
    }
    assert usernames[..|usernames|] == usernames;
  }

  /** How a run ends: the login check failed (the process exits with status 1), or the records to write. */
  datatype Outcome = LoginFailed | Scraped(records: seq<ProfileRecord>)

  /**
   * The whole run.  `loggedIn` is the `ig.account.currentUser()` check made with
   * the loaded cookies; `usernamesFile` is the text of usernames.txt.
   */
  method Run(
    entries: seq<SessionEntry>, accepts: Cookie -> bool, loggedIn: seq<Cookie> -> bool,
    usernamesFile: string, search: string -> Option<int>, info: int -> Option<UpstreamUser>)
    returns (outcome: Outcome)
    ensures outcome.LoginFailed? <==> !loggedIn(Accepted(entries, accepts))
    ensures outcome.Scraped? ==> outcome.records == FilterMap(ParseUsernames(usernamesFile), Fetcher(search, info))
  {
    var jar := LoadSession(entries, accepts);
    if !loggedIn(jar.cookies) {
      return LoginFailed;
    }
    var usernames := ParseUsernames(usernamesFile);
    var results, _ := ScrapeAll(usernames, Fetcher(search, info));
    return Scraped(results);
  }

  /** Every record written comes from a username of the seed file whose lookup and profile fetch both succeeded. */
  lemma ScrapedRecordOrigin(
    usernamesFile: string, search: string -> Option<int>, info: int -> Option<UpstreamUser>, r: ProfileRecord)
    requires r in FilterMap(ParseUsernames(usernamesFile), Fetcher(search, info))
    ensures exists k | 0 <= k < |ParseUsernames(usernamesFile)| ::
      var u := ParseUsernames(usernamesFile)[k];
      search(u).Some? && info(search(u).value).Some? && r == BuildRecord(info(search(u).value).value)
  {
    var users := ParseUsernames(usernamesFile);
    FilterMapMember(users, Fetcher(search, info), r);
    var k :| 0 <= k < |users| && Fetcher(search, info)(users[k]) == Some(r);
    assert GetUserInfo(search, info, users[k]) == Some(r);
  }
}
