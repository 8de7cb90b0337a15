/**
 * utils/pinboard.ts: the bookmark source. The HTTP request and the JSON decode are a
 * parameter `fetchPosts` from request URL to the decoded `posts` array.
 */
module Pinboard {
  import opened Wrappers
  import opened Text

  /** A bookmark as the Pinboard API returns it. */
  datatype PinboardPost = PinboardPost(
    href: string, description: string, extended: string, time: string,
    meta: string, hash: string, shared: string, toread: string, tags: string)

  /** The bookmark as the site keeps it. */
  datatype PinPrepared = PinPrepared(href: string, description: string, extended: string, time: string)

  /** The property names of each shape, as the `in` operator sees them. */
  const PostKeys: set<string> := {"href", "description", "extended", "time", "meta", "hash", "shared", "toread", "tags"}
  const PreparedKeys: set<string> := {"href", "description", "extended", "time"}

  function PreparePin(pin: PinboardPost): PinPrepared {
    PinPrepared(pin.href, pin.description, pin.extended, pin.time)
  }

  /** The projection keeps the four display fields word for word and drops exactly the other five. */
  lemma PreparePinProjects(pin: PinboardPost)
    ensures var p := PreparePin(pin);
      p.href == pin.href && p.description == pin.description && p.extended == pin.extended && p.time == pin.time
    ensures PostKeys - PreparedKeys == {"meta", "hash", "shared", "toread", "tags"}
    ensures PreparedKeys <= PostKeys
  {
  }

  /** `json.posts.map(preparePinboardPins)`. */
  function PrepareAll(posts: seq<PinboardPost>): (r: seq<PinPrepared>)
    ensures |r| == |posts|
    ensures forall i :: 0 <= i < |posts| ==> r[i] == PreparePin(posts[i])
  {
    if posts == [] then [] else [PreparePin(posts[0])] + PrepareAll(posts[1..])
  }

  const UrlPrefix: string := "https://api.pinboard.in/v1/posts/recent?auth_token="
  const UrlSuffix: string := "&format=json&count=100&tag=site-feed"

  /** The request URL: the fixed template with the token inserted verbatim (not escaped). */
  function RequestUrl(token: string): string {
    UrlPrefix + token + UrlSuffix
  }

  /** Reads the token back out of a request URL. */
  function TokenOfUrl(url: string): Option<string> {
    if |UrlPrefix| + |UrlSuffix| <= |url| && StartsWith(url, UrlPrefix) && EndsWith(url, UrlSuffix)
    then Some(url[|UrlPrefix|..|url| - |UrlSuffix|])
    else None
  }

  /** The URL carries the token unchanged: it can be read back, so distinct tokens give distinct URLs. */
  lemma UrlRoundTrip(token: string)
    ensures TokenOfUrl(RequestUrl(token)) == Some(token)
  {
    var url := RequestUrl(token);
    assert url[..|UrlPrefix|] == UrlPrefix;
    assert url[|url| - |UrlSuffix|..] == UrlSuffix;
    assert url[|UrlPrefix|..|url| - |UrlSuffix|] == token;
  }

  /** What one call of `getAllPins` does: the requests it sends, and what it returns or throws. */
  datatype PinsCall = PinsCall(requests: seq<string>, pins: Result<seq<PinPrepared>>)

  /** `getAllPins({ AUTH_TOKEN })`: a missing or empty token throws before any request is sent. */
  function GetAllPins(authToken: Option<string>, fetchPosts: string -> seq<PinboardPost>): (c: PinsCall)
    ensures c.pins.Failure? <==> authToken.None? || authToken.value == ""
    ensures c.pins.Failure? ==> c.requests == []
    ensures c.pins.Success? ==>
      && c.requests == [RequestUrl(authToken.value)]
      && |c.pins.value| == |fetchPosts(c.requests[0])|
      && forall i :: 0 <= i < |c.pins.value| ==> c.pins.value[i] == PreparePin(fetchPosts(c.requests[0])[i])
  {
    if authToken.None? || authToken.value == "" then PinsCall([], Failure("AUTH_TOKEN is required"))
    else
      var url := RequestUrl(authToken.value);
      PinsCall([url], Success(PrepareAll(fetchPosts(url))))
  }
}
