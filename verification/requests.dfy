/** Request translation of the two proxy routes in server.js: from the parsed query of an
    incoming request to either a 400 rejection or the URL string handed to `fetch`. */
module Requests {
  import opened Options
  import opened FormUrlencoded
  import opened SearchParams
  import UrlView
  import Text

  /** The parsed query of an incoming request: a JavaScript object, so every name occurs
      once; the pairs are listed in the object's property enumeration order. */
  type QueryObject = q: seq<Pair> | DistinctNames(q) witness []

  const MetadataHost := "api.themoviedb.org"
  const MetadataBase := "https://" + MetadataHost + "/3"
  const ImageHost := "image.tmdb.org"
  const ImageBase := "https://" + ImageHost + "/t/p/w500"

  /** The name of the query parameter that carries the relay's credential. */
  const CredentialName := "api_key"

  const MissingUrl := "Missing required parameter \"url\""
  const MissingPath := "Missing image path"

  /** Either the handler answers 400 with `error`, or it fetches `url`. */
  datatype Outcome = BadRequest(error: string) | Upstream(url: string)

  /** JavaScript truthiness of a query value: absent and empty both count as missing. */
  predicate Truthy(v: Option<string>) {
    v.Some? && v.value != ""
  }

  /** The string `set` receives for the environment variable: an unset variable is
      `undefined`, which the string conversion turns into "undefined". */
  function Credential(env: Option<string>): (key: string)
    ensures env.Some? ==> key == env.value
    ensures env.None? ==> key == "undefined"
  {
    match env
    case None => "undefined"
    case Some(k) => k
  }

  /** The pair list of the outgoing query: the caller's pairs except `url`, in order,
      with the credential `set` over them. */
  function ForwardedParams(query: QueryObject, env: Option<string>): (fq: seq<Pair>)
    ensures Count(fq, CredentialName) == 1
    ensures forall k :: 0 <= k < |fq| && fq[k].0 == CredentialName ==> fq[k].1 == Credential(env)
    ensures Without(fq, CredentialName) == Without(Without(query, "url"), CredentialName)
  {
    Set(Without(query, "url"), CredentialName, Credential(env))
  }

  /** The `/tmdb` route up to the `fetch` call. */
  function MetadataRequest(query: QueryObject, env: Option<string>): (o: Outcome)
    ensures o.BadRequest? <==> !Truthy(Get(query, "url"))
    ensures o.BadRequest? ==> o.error == MissingUrl
    ensures o.Upstream? ==>
      var head := MetadataBase + Get(query, "url").value + "?";
      && |head| < |o.url| && o.url[..|head|] == head
      && Parse(o.url[|head|..]) == Some(ForwardedParams(query, env))
  {
    var url := Get(query, "url");
    if !Truthy(url) then BadRequest(MissingUrl)
    else
      var fq := ForwardedParams(query, env);
      MetadataUrlLayout(url.value, fq);
      Upstream(MetadataBase + url.value + "?" + Serialize(fq))
  }

  /** The `/image` route up to the `fetch` call. */
  function ImageRequest(query: QueryObject): (o: Outcome)
    ensures o.BadRequest? <==> !Truthy(Get(query, "path"))
    ensures o.BadRequest? ==> o.error == MissingPath
    ensures o.Upstream? ==>
      && |ImageBase| < |o.url| && o.url[..|ImageBase|] == ImageBase
      && o.url[|ImageBase|..] == Get(query, "path").value
  {
    var path := Get(query, "path");
    if !Truthy(path) then BadRequest(MissingPath)
    else Upstream(ImageBase + path.value)
  }

  /** The metadata URL splits back into its head and a query that parses to `fq`. */
  lemma MetadataUrlLayout(url: string, fq: seq<Pair>)
    ensures var head := MetadataBase + url + "?";
      var u := MetadataBase + url + "?" + Serialize(fq);
      && |head| <= |u| && u[..|head|] == head
      && Parse(u[|head|..]) == Some(fq)
  {
    var t := Serialize(fq);
    ParseSerialize(fq);
    Halves(MetadataBase + url + "?", t);
  }

  lemma Halves(head: string, t: string)
    ensures (head + t)[..|head|] == head && (head + t)[|head|..] == t
  {
  }

  /** Both hosts are domains the parser keeps as written. */
  lemma PlainHosts()
    ensures UrlView.IsDomainHost(MetadataHost)
    ensures UrlView.IsDomainHost(ImageHost)
  {
    MetadataHostIsDomain();
    ImageHostIsDomain();
  }

  lemma MetadataHostIsDomain()
    ensures UrlView.IsDomainHost(MetadataHost)
  {
    UrlView.DomainOfLabels("api.themoviedb", "org");
    assert MetadataHost == "api.themoviedb" + ['.'] + "org";
  }

  lemma ImageHostIsDomain()
    ensures UrlView.IsDomainHost(ImageHost)
  {
    UrlView.DomainOfLabels("image.tmdb", "org");
    assert ImageHost == "image.tmdb" + ['.'] + "org";
  }

  lemma BaseLayout()
    ensures MetadataBase == "https://" + MetadataHost + ['/'] + "3"
    ensures ImageBase == "https://" + ImageHost + ['/'] + "t/p/w500"
  {
  }

  /** Whatever `url` the caller supplies, the request goes to the metadata host. */
  lemma MetadataRequestHost(query: QueryObject, env: Option<string>)
    ensures MetadataRequest(query, env).Upstream? ==>
      UrlView.HostOf(MetadataRequest(query, env).url) == MetadataHost
  {
    var o := MetadataRequest(query, env);
    if o.Upstream? {
      var rest := Get(query, "url").value + "?" + Serialize(ForwardedParams(query, env));
      Text.Regroup(MetadataBase, Get(query, "url").value, "?", Serialize(ForwardedParams(query, env)));
      MetadataHostFixed(rest);
    }
  }

  lemma MetadataHostFixed(rest: string)
    ensures UrlView.HostOf(MetadataBase + rest) == MetadataHost
  {
    PlainHosts();
    BaseLayout();
    UrlView.HostAfterBase(MetadataHost, "3", rest);
  }

  /** Whatever path the caller supplies, the request goes to the image host. */
  lemma ImageRequestHost(query: QueryObject)
    ensures ImageRequest(query).Upstream? ==> UrlView.HostOf(ImageRequest(query).url) == ImageHost
  {
    var o := ImageRequest(query);
    if o.Upstream? {
      ImageHostFixed(Get(query, "path").value);
    }
  }

  lemma ImageHostFixed(rest: string)
    ensures UrlView.HostOf(ImageBase + rest) == ImageHost
  {
    PlainHosts();
    BaseLayout();
    UrlView.HostAfterBase(ImageHost, "t/p/w500", rest);
  }

  /** The credential is in the outgoing query exactly once, with the relay's value,
      whatever the caller sent under that name; `url` is never forwarded. */
  lemma ForwardedCredential(query: QueryObject, env: Option<string>)
    ensures var fq := ForwardedParams(query, env);
      && Count(fq, CredentialName) == 1
      && Get(fq, CredentialName) == Some(Credential(env))
      && (forall k :: 0 <= k < |fq| && fq[k].0 == CredentialName ==> fq[k].1 == Credential(env))
      && !Has(fq, "url")
      && DistinctNames(fq)
  {
    var fq := ForwardedParams(query, env);
    SetThenGet(Without(query, "url"), CredentialName, Credential(env));
    WithoutKeepsNamesDistinct(query, "url");
    SetKeepsNamesDistinct(Without(query, "url"), CredentialName, Credential(env));
    if Has(fq, "url") {
      var k :| 0 <= k < |fq| && fq[k].0 == "url";
      NamesOfSet(Without(query, "url"), CredentialName, Credential(env), fq[k]);
      InWithout(query, "url", fq[k]);
    }
  }

  /** Every caller pair other than `url` and the credential is forwarded unchanged and
      in its original order, and nothing else is. */
  lemma ForwardedCallerPairs(query: QueryObject, env: Option<string>)
    ensures Without(ForwardedParams(query, env), CredentialName)
         == Without(Without(query, "url"), CredentialName)
    ensures forall p :: p in query && p.0 != "url" && p.0 != CredentialName ==>
      p in ForwardedParams(query, env)
  {
    var fq := ForwardedParams(query, env);
    forall p | p in query && p.0 != "url" && p.0 != CredentialName
      ensures p in fq
    {
      InWithout(query, "url", p);
      InWithout(Without(query, "url"), CredentialName, p);
      InWithout(fq, CredentialName, p);
    }
  }

  /** Where the credential sits: at the position of the caller's own credential pair if
      there was one, otherwise after all the caller's pairs. */
  lemma ForwardedCredentialPosition(query: QueryObject, env: Option<string>)
    ensures var params := Without(query, "url");
      var pair := (CredentialName, Credential(env));
      ForwardedParams(query, env) ==
        if Has(params, CredentialName) then
          var i := FirstIndex(params, CredentialName);
          params[..i] + [pair] + params[i + 1..]
        else params + [pair]
  {
    var params := Without(query, "url");
    SetIsAsWorded(params, CredentialName, Credential(env));
    WithoutKeepsNamesDistinct(query, "url");
    if Has(params, CredentialName) {
      var i := FirstIndex(params, CredentialName);
      var later := params[i + 1..];
      assert !Has(later, CredentialName);
    }
  }
}
