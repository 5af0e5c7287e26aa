/** How the two routes in server.js answer once `fetch` has settled: the upstream body
    on an ok status, otherwise a 500 whose details come from the thrown error. */
module Responses {
  import Decimal

  const MetadataFailure := "TMDb proxy failed"
  const ImageFailure := "Image proxy failed"
  const MetadataStatusPrefix := "TMDb API error: "
  const ImageStatusPrefix := "TMDb image error: "

  /** Reading the body (`response.json()` or `response.arrayBuffer()`), which may reject. */
  datatype Body<T> = Read(value: T) | ReadFailed(message: string)

  /** What `fetch` settles to: a rejection, or a status with a body still to be read. */
  datatype Reply<T> = FetchFailed(message: string) | Received(status: nat, body: Body<T>)

  /** What the route sends: a 400 `{error}`, a 500 `{error, details}`, or the body with 200. */
  datatype Response<T> =
    | Rejected(error: string)
    | Failed(error: string, details: string)
    | Relayed(body: T)

  function StatusCode<T>(r: Response<T>): nat {
    match r
    case Rejected(_) => 400
    case Failed(_, _) => 500
    case Relayed(_) => 200
  }

  /** `response.ok` of the Fetch Standard: a status in the range 200 to 299. */
  predicate IsOk(status: nat) {
    200 <= status <= 299
  }

  /** `details` is `prefix` followed by the decimal numeral of `status`, without a
      leading zero, as JavaScript writes a number into a template string. */
  predicate NamesStatus(details: string, prefix: string, status: nat) {
    && |prefix| < |details| && details[..|prefix|] == prefix
    && Decimal.AllDigits(details[|prefix|..])
    && (|details| - |prefix| > 1 ==> details[|prefix|] != '0')
    && Decimal.Value(details[|prefix|..]) == status
  }

  /** The try/catch shared by both routes: a non-ok status throws an error naming it,
      and every thrown error becomes a 500 with its message as details. */
  function Settle<T>(reply: Reply<T>, failure: string, statusPrefix: string): (r: Response<T>)
    ensures r.Relayed? <==> reply.Received? && IsOk(reply.status) && reply.body.Read?
    ensures r.Relayed? ==> r.body == reply.body.value
    ensures !r.Relayed? ==> r.Failed? && r.error == failure
    ensures reply.Received? && !IsOk(reply.status) ==>
      r.Failed? && NamesStatus(r.details, statusPrefix, reply.status)
    ensures reply.FetchFailed? ==> r.Failed? && r.details == reply.message
    ensures reply.Received? && IsOk(reply.status) && reply.body.ReadFailed? ==>
      r.Failed? && r.details == reply.body.message
  {
    match reply
    case FetchFailed(m) => Failed(failure, m)
    case Received(status, body) =>
      if !IsOk(status) then
        var numeral := Decimal.FromNat(status);
        Decimal.ValueFromNat(status);
        assert (statusPrefix + numeral)[|statusPrefix|..] == numeral;
        Failed(failure, statusPrefix + numeral)
      else match body
        case Read(v) => Relayed(v)
        case ReadFailed(m) => Failed(failure, m)
  }

  /** `/tmdb` after the request: the parsed JSON on an ok status, else a 500. */
  function MetadataResponse<J>(reply: Reply<J>): (r: Response<J>)
    ensures StatusCode(r) == 200 <==> reply.Received? && IsOk(reply.status) && reply.body.Read?
    ensures StatusCode(r) != 200 ==> StatusCode(r) == 500 && r.error == MetadataFailure
    ensures r.Relayed? ==> r.body == reply.body.value
    ensures reply.Received? && !IsOk(reply.status) ==>
      r.Failed? && NamesStatus(r.details, MetadataStatusPrefix, reply.status)
  {
    Settle(reply, MetadataFailure, MetadataStatusPrefix)
  }

  /** `/image` after the request: the bytes on an ok status, else a 500. */
  function ImageResponse<B>(reply: Reply<B>): (r: Response<B>)
    ensures StatusCode(r) == 200 <==> reply.Received? && IsOk(reply.status) && reply.body.Read?
    ensures StatusCode(r) != 200 ==> StatusCode(r) == 500 && r.error == ImageFailure
    ensures r.Relayed? ==> r.body == reply.body.value
    ensures reply.Received? && !IsOk(reply.status) ==>
      r.Failed? && NamesStatus(r.details, ImageStatusPrefix, reply.status)
  {
    Settle(reply, ImageFailure, ImageStatusPrefix)
  }
}
