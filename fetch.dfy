/**
 * The parts of the Fetch standard's Response that the service worker looks at,
 * and the outcome of a network fetch as an explicit value.
 */
module Fetch {

  /** A response: status code, status text, the header fields that are set, body text. */
  datatype Response = Response(status: int, statusText: string, headers: map<string, string>, body: string)
  {
    /** `response.ok`: the status is in the range 200 to 299. */
    predicate Ok() {
      200 <= status <= 299
    }
  }

  /** What `fetch(request)` settles to: a response (of any status) or a rejection. */
  datatype NetworkResult = Delivered(response: Response) | NetworkError

  /** The transparent-tile stand-in that `tileCacheFirst` returns when the network fails. */
  const OfflineTile: Response := Response(404, "Offline", map[], "")

  /** The stand-in that `staleWhileRevalidate` returns with no cached copy and no network. */
  const OfflineShell: Response := Response(503, "", map["Content-Type" := "text/plain"], "TacMap is offline")
}
