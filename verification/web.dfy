/** The archiver's environment: URL resolution, HTTP fetches, the browser's
    rendering of a URL, and the Unicode character class used for file names.
    None of these is computed by the model; each is a parameter. */
module Web {
  import opened Dom

  /** The channel whose listing is archived; stylesheets and pagination
      links are resolved against it. */
  const ChannelUrl := "https://arca.live/b/cook"

  /** Fetch timeouts in seconds. */
  const ImageTimeout: nat := 10
  const StylesheetTimeout: nat := 10
  const VideoTimeout: nat := 20

  newtype byte = x: int | 0 <= x < 256

  /** The outcome of `requests.get`: a response with its status code and
      body, or an exception (connection error, timeout, ...). */
  datatype FetchOutcome = Response(status: int, body: seq<byte>) | NoResponse

  /** The archiver accepts a response only when its status is exactly 200. */
  predicate Succeeded(o: FetchOutcome) {
    o.Response? && o.status == 200
  }

  /** `resolve(base, ref)` stands for `urljoin` on a non-empty base and
      reference; `fetch(url, timeout)` for `requests.get`; `render(url)`
      for the article page the browser shows after navigating to `url`;
      `listing(url)` for the listing page it shows after navigating to
      `url`; `isAlnum` for `str.isalnum`. */
  datatype Env = Env(
    resolve: (string, string) -> string,
    fetch: (string, nat) -> FetchOutcome,
    render: string -> Document,
    listing: string -> ListingPage,
    isAlnum: char -> bool)

  /** `urljoin(base, ref)`: an empty base yields the reference and an empty
      reference yields the base, before any parsing; everything else is
      `env.resolve`. */
  function UrlJoin(env: Env, base: string, ref: string): (url: string)
    ensures base == "" ==> url == ref
    ensures base != "" && ref == "" ==> url == base
  {
    if base == "" then ref
    else if ref == "" then base
    else env.resolve(base, ref)
  }
}
