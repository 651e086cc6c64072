/** The redirect check of scraper.py (`_check_redirect`): listings that the
    primary site forwards to an external agency are followed, and the agency
    site is recognised by the first supported name in the resolved URL.
    Following the redirect is an HTTP request; it is a parameter here that
    yields the resolved URL, or `None` when the request raises.
 */
module Redirect {
  import opened Results
  import opened Text

  const PrimaryHost: string := "https://www.nybolig.dk"
  const PrimarySite: string := "nybolig"
  const Unsupported: string := "unsupported"

  /** The agency sites the scraper can read (every other name is commented
      out in the source list). */
  const SupportedSites: seq<string> := ["home"]

  /** A listing URL that leads to another site carries one of these. */
  predicate IsExternal(url: string) {
    Contains(url, "viderestillingekstern") || Contains(url, "estate.dk")
  }

  /** The first site of `sites` whose name occurs in `url`. */
  function FirstContained(sites: seq<string>, url: string): (o: Option<string>)
    ensures o.None? <==> forall i :: 0 <= i < |sites| ==> !Contains(url, sites[i])
    ensures o.Some? ==> exists i :: && 0 <= i < |sites| && o.value == sites[i]
                                    && Contains(url, sites[i])
                                    && forall j :: 0 <= j < i ==> !Contains(url, sites[j])
  {
    if |sites| == 0 then None
    else if Contains(url, sites[0]) then Some(sites[0])
    else
      var o := FirstContained(sites[1..], url);
      assert forall i :: 0 < i < |sites| ==> sites[i] == sites[1..][i - 1];
      assert o.Some? ==> exists i :: && 0 <= i < |sites| && o.value == sites[i]
                                     && Contains(url, sites[i])
                                     && forall j :: 0 <= j < i ==> !Contains(url, sites[j]) by {
        if o.Some? {
          var i :| && 0 <= i < |sites[1..]| && o.value == sites[1..][i]
                   && Contains(url, sites[1..][i])
                   && forall j :: 0 <= j < i ==> !Contains(url, sites[1..][j]);
          assert forall j :: 0 <= j < i + 1 ==> !Contains(url, sites[j]);
        }
      }
      o
  }

  /** The site a resolved URL belongs to: the first supported site named in
      it, or "unsupported". */
  function SiteOf(sites: seq<string>, resolved: string): (site: string)
    ensures (forall i :: 0 <= i < |sites| ==> !Contains(resolved, sites[i])) ==> site == Unsupported
    ensures (exists i :: 0 <= i < |sites| && Contains(resolved, sites[i])) ==>
              site in sites && Contains(resolved, site)
  {
    FirstContained(sites, resolved).GetOr(Unsupported)
  }

  /** The search loop of `_check_redirect`, which stops at the first
      supported site found in the resolved URL. */
  method SelectSite(sites: seq<string>, resolved: string) returns (site: string, found: bool)
    ensures found <==> exists i :: 0 <= i < |sites| && Contains(resolved, sites[i])
    ensures site == SiteOf(sites, resolved)
  {
    site := Unsupported;
    found := false;
    var i := 0;
    while i < |sites|
      invariant 0 <= i <= |sites|
      invariant !found
      invariant site == Unsupported
      invariant FirstContained(sites, resolved) == FirstContained(sites[i..], resolved)
    {
      if Contains(resolved, sites[i]) {
        site := sites[i];
        found := true;
        break;
      }
      assert sites[i..][1..] == sites[i + 1..];
      i := i + 1;
    }
  }

  /** `_check_redirect`: a URL without a marker is kept, with the primary
      site. Otherwise the primary host is cut out of the URL, the result is
      requested, and the resolved URL comes back with the site it belongs
      to. A failed request raises. */
  function CheckRedirect(url: string, follow: string -> Option<string>): (r: Result<(string, string)>)
    ensures !IsExternal(url) ==> r == Ok((url, PrimarySite))
    ensures IsExternal(url) ==> (r.Err? <==> follow(ReplaceAll(url, PrimaryHost, "")).None?)
    ensures r.Err? ==> r.error == RequestError
    ensures r.Ok? && IsExternal(url) ==> r.value.0 == follow(ReplaceAll(url, PrimaryHost, "")).value
    ensures r.Ok? ==> (r.value.1 == PrimarySite <==> !IsExternal(url))
    ensures r.Ok? ==> r.value.1 == PrimarySite || r.value.1 == Unsupported || r.value.1 in SupportedSites
  {
    if !IsExternal(url) then Ok((url, PrimarySite))
    else
      match follow(ReplaceAll(url, PrimaryHost, ""))
      case None => Err(RequestError)
      case Some(resolved) => Ok((resolved, SiteOf(SupportedSites, resolved)))
  }

  /** With the one supported site, a forwarded listing is read exactly when
      the resolved URL names "home". */
  lemma ExternalSite(url: string, follow: string -> Option<string>)
    requires IsExternal(url)
    requires follow(ReplaceAll(url, PrimaryHost, "")).Some?
    ensures var resolved := follow(ReplaceAll(url, PrimaryHost, "")).value;
            CheckRedirect(url, follow) ==
              Ok((resolved, if Contains(resolved, "home") then "home" else Unsupported))
  {
  }

  /** A forwarded URL glued to the primary host, "https://www.nybolig.dk"
      followed by the agency URL, is requested as the agency URL. */
  lemma RequestedTarget(rest: string)
    requires !Contains(rest, PrimaryHost)
    ensures ReplaceAll(PrimaryHost + rest, PrimaryHost, "") == rest
  {
    ReplaceLeading(PrimaryHost, rest, "");
    ReplaceAbsent(rest, PrimaryHost, "");
  }
}
