/**
 * `getUserInfo` (index.js, lines 53-76): look the username up, fetch the
 * account's profile, and normalise it into the fixed record written to the
 * output file.  The two remote calls are parameters of the model.
 */
module Profiles {
  import opened Wrappers

  /** The fields of the profile answer that the record reads; each is None when the answer lacks it. */
  datatype UpstreamUser = UpstreamUser(
    username: Option<string>,
    fullName: Option<string>,
    pk: Option<int>,
    biography: Option<string>,
    externalUrl: Option<string>,
    followerCount: Option<int>,
    followingCount: Option<int>,
    mediaCount: Option<int>,
    isVerified: Option<bool>,
    isPrivate: Option<bool>,
    isBusiness: Option<bool>,
    isProfessional: Option<bool>)

  /** One output row.  Fields copied without a default stay optional: an absent upstream value stays absent. */
  datatype ProfileRecord = ProfileRecord(
    username: Option<string>,
    fullName: Option<string>,
    userId: Option<int>,
    biography: string,
    website: string,
    followers: int,
    following: int,
    posts: int,
    verified: Option<bool>,
    private: Option<bool>,
    businessAccount: bool,
    creatorAccount: bool)

  /**
   * JavaScript `x || fallback` on a field of one type, where `falsy` is that
   * type's falsy value (0, "" or false): a present, truthy value wins, anything
   * else gives the fallback.
   */
  function Or<T(==)>(x: Option<T>, falsy: T, fallback: T): (r: T)
    ensures r == fallback || (x == Some(r) && r != falsy)
    ensures x.Some? && x.value != falsy ==> r == x.value
  {
    if x.Some? && x.value != falsy then x.value else fallback
  }

  /** When the fallback is the falsy value itself, `x || fallback` is simply "the value if present, else the fallback". */
  lemma OrFalsyIsDefault<T>(x: Option<T>, falsy: T)
    ensures Or(x, falsy, falsy) == x.GetOr(falsy)
  {
  }

  /** The object literal of lines 58-71. */
  function BuildRecord(user: UpstreamUser): (r: ProfileRecord)
    ensures r.username == user.username && r.fullName == user.fullName && r.userId == user.pk
    ensures r.verified == user.isVerified && r.private == user.isPrivate
    ensures r.biography == user.biography.GetOr("") && r.website == user.externalUrl.GetOr("")
    ensures r.followers == user.followerCount.GetOr(0)
    ensures r.following == user.followingCount.GetOr(0)
    ensures r.posts == user.mediaCount.GetOr(0)
    ensures r.businessAccount == user.isBusiness.GetOr(false)
    ensures r.creatorAccount == user.isProfessional.GetOr(false)
  {
    OrFalsyIsDefault(user.biography, "");
    OrFalsyIsDefault(user.externalUrl, "");
    OrFalsyIsDefault(user.followerCount, 0);
    OrFalsyIsDefault(user.followingCount, 0);
    OrFalsyIsDefault(user.mediaCount, 0);
    OrFalsyIsDefault(user.isBusiness, false);
    OrFalsyIsDefault(user.isProfessional, false);
    ProfileRecord(
      username := user.username,
      fullName := user.fullName,
      userId := user.pk,
      biography := Or(user.biography, "", ""),
      website := Or(user.externalUrl, "", ""),
      followers := Or(user.followerCount, 0, 0),
      following := Or(user.followingCount, 0, 0),
      posts := Or(user.mediaCount, 0, 0),
      verified := user.isVerified,
      private := user.isPrivate,
      businessAccount := Or(user.isBusiness, false, false),
      creatorAccount := Or(user.isProfessional, false, false))
  }

  /**
   * `getUserInfo`.  `search` is `ig.user.searchExact(username).pk` and `info` is
   * `ig.user.info(pk)`; None stands for a call that threw.  Any throw inside the
   * try block makes the whole result null.
   */
  function GetUserInfo(search: string -> Option<int>, info: int -> Option<UpstreamUser>, username: string): (r: Option<ProfileRecord>)
    ensures r.Some? <==> search(username).Some? && info(search(username).value).Some?
    ensures r.Some? ==> r.value == BuildRecord(info(search(username).value).value)
  {
    match search(username)
    case None => None
    case Some(pk) =>
      match info(pk)
      case None => None
      case Some(user) => Some(BuildRecord(user))
  }

  /** An account whose profile answer lacks the business and professional flags is recorded as neither; its verified flag stays absent. */
  lemma FlagsAbsentUpstream(search: string -> Option<int>, info: int -> Option<UpstreamUser>, username: string)
    requires search(username).Some? && info(search(username).value).Some?
    requires var user := info(search(username).value).value;
      user.isBusiness.None? && user.isProfessional.None? && user.isVerified.None?
    ensures var r := GetUserInfo(search, info, username);
      r.Some? && !r.value.businessAccount && !r.value.creatorAccount && r.value.verified.None?
  {
  }
}
