/** `ArticfactFetcher._makeRequest`: how a request path is combined with the configured base URL.
    `url.parse` and `url.format` stay abstract; a URL here is the record between the two. */
module Requests {

  /** The fields of a parsed URL that `url.format` puts back together. */
  datatype Url = Url(protocol: string, auth: string, host: string, pathname: string, search: string, hash: string)

  /** `urlObject.pathname += pathname`: the requested path is appended to the base URL's own
      path, which stays in front; nothing else in the URL changes. */
  function AppendPath(base: Url, path: string): (u: Url)
    ensures |u.pathname| == |base.pathname| + |path|
    ensures u.pathname[..|base.pathname|] == base.pathname
    ensures u.pathname[|base.pathname|..] == path
    ensures u.(pathname := base.pathname) == base
  {
    base.(pathname := base.pathname + path)
  }

  /** The path of the release index, requested by `_getInfos`. */
  const IndexPath: string := "/index.json"

  /** Different request paths on the same base give different URLs. */
  lemma AppendPathInjective(base: Url, p: string, q: string)
    requires AppendPath(base, p) == AppendPath(base, q)
    ensures p == q
  {
    assert p == AppendPath(base, p).pathname[|base.pathname|..];
  }

  /** With the default base `https://nodejs.org/dist` the index is fetched from `/dist/index.json`;
      a base whose path is the root `/` yields a doubled slash, because the path is appended as is. */
  lemma IndexPathExamples(base: Url)
    ensures base.pathname == "/dist" ==> AppendPath(base, IndexPath).pathname == "/dist/index.json"
    ensures base.pathname == "/" ==> AppendPath(base, IndexPath).pathname == "//index.json"
  {
  }
}
