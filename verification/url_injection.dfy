/** The `/tmdb` route inserts `url` into the fetched URL verbatim. The relay's query,
    credential included, is built correctly, but it is appended after `url`; a `url`
    that carries its own `?` and a closing `#` makes the receiving server read the
    caller's query and treat the relay's query as a fragment, which is never sent.
    This module shows that on the route as written, and proves that rejecting such a
    `url` restores the intended guarantee. */
module UrlInjection {
  import opened Options
  import opened FormUrlencoded
  import opened SearchParams
  import opened Requests
  import UrlView

  const InvalidUrl := "Invalid parameter \"url\""

  /** A `url` the URL parser would not read as path alone. */
  predicate LeavesPath(url: string) {
    '?' in url || '#' in url
  }

  lemma Shape(base: string, path: string, t: string, ser: string)
    ensures base + (path + "?" + t + "#") + "?" + ser == base + path + "?" + t + ("#" + "?" + ser)
  {
  }

  /** As written: whatever else the caller sends, a `url` of the form `path?<smuggled>#`
      makes the server read exactly `smuggled` as the query. The relay's own query,
      credential included, follows the `#` and so lies in the fragment. */
  lemma SmuggledQueryReplacesForwarded(query: QueryObject, env: Option<string>,
                                       path: string, smuggled: seq<Pair>)
    requires '?' !in path && '#' !in path
    requires Get(query, "url") == Some(path + "?" + Serialize(smuggled) + "#")
    ensures var o := MetadataRequest(query, env);
      && o.Upstream?
      && o.url == MetadataBase + path + "?" + Serialize(smuggled)
                  + ("#" + "?" + Serialize(ForwardedParams(query, env)))
      && UrlView.QueryOf(o.url) == Some(Serialize(smuggled))
      && Parse(UrlView.QueryOf(o.url).value) == Some(smuggled)
  {
    var t := Serialize(smuggled);
    var ser := Serialize(ForwardedParams(query, env));
    Shape(MetadataBase, path, t, ser);
    SerializedVisible(smuggled);
    QueryBeforeFragment(path, t, ser);
    ParseSerialize(smuggled);
  }

  /** After the base, a `path?t#` followed by anything is read as the query `t`. */
  lemma QueryBeforeFragment(path: string, t: string, ser: string)
    requires '?' !in path && '#' !in path
    requires forall k :: 0 <= k < |t| ==> UrlView.IsQueryTextChar(t[k])
    ensures UrlView.QueryOf(MetadataBase + (path + "?" + t + "#") + "?" + ser) == Some(t)
  {
    Shape(MetadataBase, path, t, ser);
    MetadataQueryAfterBase(path, t, "#" + "?" + ser);
  }

  /** What the server reads as the credential is whatever the caller smuggled: the
      caller's own value if it sent one, and nothing at all if it did not. */
  lemma CallerControlsCredential(query: QueryObject, env: Option<string>,
                                 path: string, smuggled: seq<Pair>)
    requires '?' !in path && '#' !in path
    requires Get(query, "url") == Some(path + "?" + Serialize(smuggled) + "#")
    ensures var o := MetadataRequest(query, env);
      && o.Upstream?
      && UrlView.QueryOf(o.url).Some?
      && Parse(UrlView.QueryOf(o.url).value).Some?
      && Get(Parse(UrlView.QueryOf(o.url).value).value, CredentialName) == Get(smuggled, CredentialName)
  {
    SmuggledQueryReplacesForwarded(query, env, path, smuggled);
  }

  /** Corrected `/tmdb` request: a `url` that would leave the path is refused, and
      otherwise the request is the one the route builds. */
  function CheckedMetadataRequest(query: QueryObject, env: Option<string>): (o: Outcome)
    ensures o.BadRequest? <==> !Truthy(Get(query, "url")) || LeavesPath(Get(query, "url").value)
    ensures !Truthy(Get(query, "url")) ==> o == BadRequest(MissingUrl)
    ensures o.Upstream? ==> o == MetadataRequest(query, env)
  {
    var url := Get(query, "url");
    if !Truthy(url) then BadRequest(MissingUrl)
    else if LeavesPath(url.value) then BadRequest(InvalidUrl)
    else MetadataRequest(query, env)
  }

  /** The intended guarantee, proved for the corrected request: the server reads exactly
      the forwarded list, so it sees the credential once, with the relay's value, and
      every other caller pair except `url`. */
  lemma CheckedRequestSendsServerKey(query: QueryObject, env: Option<string>)
    ensures var o := CheckedMetadataRequest(query, env);
      o.Upstream? ==>
        var q := UrlView.QueryOf(o.url);
        && q.Some?
        && Parse(q.value) == Some(ForwardedParams(query, env))
        && Get(ForwardedParams(query, env), CredentialName) == Some(Credential(env))
        && Count(ForwardedParams(query, env), CredentialName) == 1
  {
    var o := CheckedMetadataRequest(query, env);
    if o.Upstream? {
      var fq := ForwardedParams(query, env);
      ForwardedCredential(query, env);
      SerializedVisible(fq);
      QueryAfterPath(Get(query, "url").value, Serialize(fq));
      ParseSerialize(fq);
    }
  }

  /** After the base, a path free of `?` and `#` and then `?t` is read as the query `t`. */
  lemma QueryAfterPath(path: string, t: string)
    requires '?' !in path && '#' !in path
    requires forall k :: 0 <= k < |t| ==> UrlView.IsQueryTextChar(t[k])
    ensures UrlView.QueryOf(MetadataBase + path + "?" + t) == Some(t)
  {
    assert MetadataBase + path + "?" + t + [] == MetadataBase + path + "?" + t;
    MetadataQueryAfterBase(path, t, []);
  }

  /** `UrlView.QueryOfAfterBase` for the metadata base `https://api.themoviedb.org/3`. */
  lemma MetadataQueryAfterBase(path: string, t: string, tail: string)
    requires '?' !in path && '#' !in path
    requires forall k :: 0 <= k < |t| ==> UrlView.IsQueryTextChar(t[k])
    requires tail == [] || tail[0] == '#'
    ensures UrlView.QueryOf(MetadataBase + path + "?" + t + tail) == Some(t)
  {
    BaseLayout();
    MetadataHostIsDomain();
    UrlView.QueryOfAfterBase(MetadataHost, "3", path, t, tail);
  }
}
