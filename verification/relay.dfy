/** The two routes of server.js end to end, with `fetch` as a parameter: the request
    translation decides whether `fetch` is called at all and with which URL. */
module Relay {
  import opened Options
  import opened SearchParams
  import opened Requests
  import opened Responses

  /** `GET /tmdb`. */
  function Tmdb<J>(query: QueryObject, env: Option<string>, fetch: string -> Reply<J>)
    : (r: Response<J>)
    ensures StatusCode(r) == 400 <==> !Truthy(Get(query, "url"))
    ensures r.Rejected? ==> r.error == MissingUrl
    ensures Truthy(Get(query, "url")) ==>
      var u := MetadataRequest(query, env).url;
      && (r.Relayed? <==> fetch(u).Received? && IsOk(fetch(u).status) && fetch(u).body.Read?)
      && (r.Relayed? ==> r.body == fetch(u).body.value)
      && (!r.Relayed? ==> r.Failed? && r.error == MetadataFailure)
      && (fetch(u).Received? && !IsOk(fetch(u).status) ==>
            r.Failed? && NamesStatus(r.details, MetadataStatusPrefix, fetch(u).status))
      && (fetch(u).FetchFailed? ==> r.Failed? && r.details == fetch(u).message)
  {
    var o := MetadataRequest(query, env);
    if o.BadRequest? then Rejected(o.error) else MetadataResponse(fetch(o.url))
  }

  /** `GET /image`. */
  function Image<B>(query: QueryObject, fetch: string -> Reply<B>): (r: Response<B>)
    ensures StatusCode(r) == 400 <==> !Truthy(Get(query, "path"))
    ensures r.Rejected? ==> r.error == MissingPath
    ensures Truthy(Get(query, "path")) ==>
      var u := ImageRequest(query).url;
      && (r.Relayed? <==> fetch(u).Received? && IsOk(fetch(u).status) && fetch(u).body.Read?)
      && (r.Relayed? ==> r.body == fetch(u).body.value)
      && (!r.Relayed? ==> r.Failed? && r.error == ImageFailure)
      && (fetch(u).Received? && !IsOk(fetch(u).status) ==>
            r.Failed? && NamesStatus(r.details, ImageStatusPrefix, fetch(u).status))
      && (fetch(u).FetchFailed? ==> r.Failed? && r.details == fetch(u).message)
  {
    var o := ImageRequest(query);
    if o.BadRequest? then Rejected(o.error) else ImageResponse(fetch(o.url))
  }

  /** A request without `url` is answered before any fetch: the answer is the same
      whatever the upstream would have done. */
  lemma TmdbRejectsWithoutFetching<J>(query: QueryObject, env: Option<string>,
                                      f: string -> Reply<J>, g: string -> Reply<J>)
    requires !Truthy(Get(query, "url"))
    ensures Tmdb(query, env, f) == Tmdb(query, env, g) == Rejected(MissingUrl)
  {
  }

  /** A request without `path` is answered before any fetch. */
  lemma ImageRejectsWithoutFetching<B>(query: QueryObject,
                                       f: string -> Reply<B>, g: string -> Reply<B>)
    requires !Truthy(Get(query, "path"))
    ensures Image(query, f) == Image(query, g) == Rejected(MissingPath)
  {
  }
}
