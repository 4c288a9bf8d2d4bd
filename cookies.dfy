/**
 * Loading the exported browser cookies into a cookie jar (index.js, lines 18-38):
 * every entry's domain loses one leading dot, the entry becomes a cookie, and the
 * jar is asked to store it for https://www.instagram.com.  Each entry is tried on
 * its own; an entry that fails is skipped and the rest are still tried.
 */
module Cookies {
  import opened Wrappers
  import opened Sequences

  /** One entry of session.json as exported from a browser; `domain` is None when the entry has no string domain. */
  datatype SessionEntry = SessionEntry(
    name: string, value: string, domain: Option<string>, path: string, secure: bool, httpOnly: bool)

  /** A cookie as built for the jar. */
  datatype Cookie = Cookie(
    key: string, value: string, domain: string, path: string, secure: bool, httpOnly: bool)

  /** `domain.replace(/^\./, "")`: at most one dot, and only at the very start, is removed. */
  function StripLeadingDot(domain: string): (r: string)
    ensures "." + r == domain || (r == domain && (domain == [] || domain[0] != '.'))
  {
    if |domain| > 0 && domain[0] == '.' then domain[1..] else domain
  }

  /** A cookie scoped to all subdomains, ".example.com", loses its dot. */
  lemma StripLeadingDotRemovesDot(d: string)
    ensures StripLeadingDot("." + d) == d
  {
  }

  /** A domain without a leading dot is left alone. */
  lemma StripLeadingDotKeeps(d: string)
    requires d == [] || d[0] != '.'
    ensures StripLeadingDot(d) == d
  {
  }

  /** Only one dot is removed: "..a" becomes ".a". */
  lemma StripLeadingDotOnce()
    ensures StripLeadingDot("..a") == ".a"
  {
  }

  /**
   * The cookie built from an entry.  Reading `domain.replace` of an entry without
   * a string domain throws a TypeError inside the try block, so such an entry
   * yields no cookie.
   */
  function ToCookie(e: SessionEntry): (r: Option<Cookie>)
    ensures r.Some? <==> e.domain.Some?
    ensures r.Some? ==> r.value.domain == StripLeadingDot(e.domain.value)
    ensures r.Some? ==> r.value.key == e.name && r.value.value == e.value && r.value.path == e.path
    ensures r.Some? ==> r.value.secure == e.secure && r.value.httpOnly == e.httpOnly
  {
    match e.domain
    case None => None
    case Some(d) => Some(Cookie(e.name, e.value, StripLeadingDot(d), e.path, e.secure, e.httpOnly))
  }

  /** One try block of the forEach: the cookie stored for the entry, or None when the entry is skipped. */
  function Insertion(accepts: Cookie -> bool): (r: SessionEntry -> Option<Cookie>)
    ensures forall e :: r(e).Some? <==> e.domain.Some? && accepts(ToCookie(e).value)
    ensures forall e :: r(e).Some? ==> r(e) == ToCookie(e)
  {
    e => match ToCookie(e)
      case Some(c) => if accepts(c) then Some(c) else None
      case None => None
  }

  /** The cookies the forEach stores, in the order of the file. */
  function Accepted(entries: seq<SessionEntry>, accepts: Cookie -> bool): (r: seq<Cookie>)
    ensures |r| <= |entries|
    ensures forall k | 0 <= k < |r| :: accepts(r[k])
  {
    FilterMapAll(entries, Insertion(accepts), accepts);
    FilterMap(entries, Insertion(accepts))
  }

  /** A cookie is stored exactly when it was built from some entry and the jar accepts it. */
  lemma AcceptedMember(entries: seq<SessionEntry>, accepts: Cookie -> bool, c: Cookie)
    ensures c in Accepted(entries, accepts) <==>
      accepts(c) && exists i | 0 <= i < |entries| :: ToCookie(entries[i]) == Some(c)
  {
    FilterMapMember(entries, Insertion(accepts), c);
    if accepts(c) && exists i | 0 <= i < |entries| :: ToCookie(entries[i]) == Some(c) {
      var i :| 0 <= i < |entries| && ToCookie(entries[i]) == Some(c);
      assert Insertion(accepts)(entries[i]) == Some(c);
    }
  }

  /** A skipped entry, whether it had no domain or the jar refused it, does not stop the entries after it. */
  lemma AcceptedSkip(entries: seq<SessionEntry>, accepts: Cookie -> bool, i: nat)
    requires i < |entries|
    requires entries[i].domain.None? || !accepts(ToCookie(entries[i]).value)
    ensures Accepted(entries, accepts) == Accepted(entries[..i], accepts) + Accepted(entries[i + 1..], accepts)
  {
    FilterMapSkip(entries, i, Insertion(accepts));
  }

  /** Loading two files' entries one after the other stores the cookies of the first, then those of the second. */
  lemma AcceptedAppend(xs: seq<SessionEntry>, ys: seq<SessionEntry>, accepts: Cookie -> bool)
    ensures Accepted(xs + ys, accepts) == Accepted(xs, accepts) + Accepted(ys, accepts)
  {
    FilterMapAppend(xs, ys, Insertion(accepts));
  }

  /**
   * The cookie jar.  Whether the library accepts a cookie for the target URL
   * (its domain must match, its path must be usable, ...) is not visible here,
   * so the jar carries that decision as `accepts`.
   */
  class CookieJar {
    const accepts: Cookie -> bool
    /** The cookies stored so far, in the order they were set. */
    var cookies: seq<Cookie>

    constructor (accepts: Cookie -> bool)
      ensures this.accepts == accepts && cookies == []
    {
      this.accepts := accepts;
      cookies := [];
    }

    /**
     * `setCookieSync`: `ok` says whether the cookie was stored.  A cookie is not
     * stored either because the library throws or because it drops the cookie
     * silently; the script goes on with the next entry in both cases.
     */
    method SetCookie(c: Cookie) returns (ok: bool)
      modifies this
      ensures ok == accepts(c)
      ensures cookies == if ok then old(cookies) + [c] else old(cookies)
    {
      ok := accepts(c);
      if ok {
        cookies := cookies + [c];
      }
    }
  }

  /** The forEach over the entries: each entry in its own try block. */
  method LoadCookies(jar: CookieJar, entries: seq<SessionEntry>)
    modifies jar
    ensures jar.cookies == old(jar.cookies) + Accepted(entries, jar.accepts)
  {
    for i := 0 to |entries|
      invariant jar.cookies == old(jar.cookies) + Accepted(entries[..i], jar.accepts)
    {
      var e := entries[i];
      assert [e][1..] == [];
      match e.domain {
        case None =>
          // TypeError while building the cookie: skipped
          assert Accepted([e], jar.accepts) == [];
        case Some(d) =>
          var c := Cookie(e.name, e.value, StripLeadingDot(d), e.path, e.secure, e.httpOnly);
          var ok := jar.SetCookie(c);
          // when !ok the cookie was not stored: skipped
          assert ToCookie(e) == Some(c);
          assert Insertion(jar.accepts)(e) == if ok then Some(c) else None;
          assert Accepted([e], jar.accepts) == if ok then [c] else [];
      }
      assert entries[..i + 1] == entries[..i] + [e];
      AcceptedAppend(entries[..i], [e], jar.accepts);
    }
    assert entries[..|entries|] == entries;
  }

  /** The cookie part of `login`: a fresh jar filled from the entries of session.json. */
  method LoadSession(entries: seq<SessionEntry>, accepts: Cookie -> bool) returns (jar: CookieJar)
    ensures fresh(jar) && jar.accepts == accepts
    ensures jar.cookies == Accepted(entries, accepts)
  {
    jar := new CookieJar(accepts);
    LoadCookies(jar, entries);
  }
}
