/**
 * The shapes of the Cloudflare API as the provisioner sees them: the
 * response envelope, the resources it looks up, and the outcome of a call
 * (the HTTP client either throws or hands back a response body).
 */
module Cloudflare {
  import opened Wrappers

  datatype ApiError = ApiError(code: int, message: string)

  /** `CloudflareResponse<T>`: a success carries a result list, a failure only errors. */
  datatype Response<T> =
    | Success(errors: seq<ApiError>, result: seq<T>)
    | Failure(errors: seq<ApiError>)

  /** The outcome of one remote call. `Threw` rejects the awaiting promise. */
  datatype Call<T> = Threw | Returned(response: Response<T>)

  /** `CloudflareResource`: a zone or a tunnel. */
  datatype Resource = Resource(id: string, name: string)

  /** `CloudflareResource<{ type: string }>`: a DNS record as listed by name. */
  datatype DnsRecord = DnsRecord(id: string, name: string, recordType: string)

  /** `result[0]` of a successful response, undefined otherwise. */
  function FirstResult<T>(r: Response<T>): (o: Option<T>)
    ensures o.Some? <==> r.Success? && |r.result| > 0
    ensures o.Some? ==> o.value == r.result[0]
  {
    match r
    case Success(_, result) => if |result| > 0 then Some(result[0]) else None
    case Failure(_) => None
  }

  /** The responses of a batch of calls awaited together, or None when any of them threw. */
  function Responses<T(==)>(calls: seq<Call<T>>): (r: Option<seq<Response<T>>>)
    ensures r.None? <==> exists i :: 0 <= i < |calls| && calls[i].Threw?
    ensures r.Some? ==> |r.value| == |calls| && forall i :: 0 <= i < |calls| ==> calls[i] == Returned(r.value[i])
  {
    if |calls| == 0 then Some([])
    else
      match (Responses(calls[..|calls| - 1]), calls[|calls| - 1])
      case (Some(init), Returned(last)) => Some(init + [last])
      case (_, _) => None
  }

  const TunnelBaseName: string := "cfargotunnel.com"

  /** The hostname a tunnel is reached at, `<id>.cfargotunnel.com`. */
  function TunnelHostName(tunnelId: string): string {
    tunnelId + "." + TunnelBaseName
  }

  /** Reads the tunnel id back out of a tunnel hostname. */
  function TunnelIdOf(hostName: string): Option<string> {
    var suffix := "." + TunnelBaseName;
    if |hostName| >= |suffix| && hostName[|hostName| - |suffix|..] == suffix
    then Some(hostName[..|hostName| - |suffix|])
    else None
  }

  /** A tunnel hostname names exactly one tunnel id, and every id has one. */
  lemma TunnelHostNameRoundTrip(tunnelId: string, hostName: string)
    ensures TunnelIdOf(TunnelHostName(tunnelId)) == Some(tunnelId)
    ensures TunnelIdOf(hostName) == Some(tunnelId) ==> TunnelHostName(tunnelId) == hostName
  {
    var h := TunnelHostName(tunnelId);
    assert h[..|tunnelId|] == tunnelId;
    assert h[|tunnelId|..] == "." + TunnelBaseName;
    if TunnelIdOf(hostName) == Some(tunnelId) {
      var n := |hostName| - |"." + TunnelBaseName|;
      assert hostName == hostName[..n] + hostName[n..];
    }
  }

  /** Distinct tunnels get distinct hostnames. */
  lemma TunnelHostNameInjective(a: string, b: string)
    requires TunnelHostName(a) == TunnelHostName(b)
    ensures a == b
  {
    TunnelHostNameRoundTrip(a, TunnelHostName(b));
  }
}
