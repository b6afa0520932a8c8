/** The values that flow through `get_repositories`: repository records as the
    organisation listing returns them, the page responses of that listing, and
    the single error the fetcher raises. */
module Repos {

  datatype Option<+T> = None | Some(value: T)

  /** One element of the listing's JSON array. `language` is absent when the
      hosting platform reports null; `stars` is `stargazers_count`. */
  datatype Repository = Repository(name: string, cloneUrl: string, language: Option<string>, stars: nat)

  /** One response of the paginated listing: its HTTP status, its raw text and
      the records its JSON body decodes to. */
  datatype Page = Page(status: int, text: string, body: seq<Repository>)

  /** The generic exception raised for any status other than 200. */
  datatype FetchError = HttpError(status: int, text: string)

  datatype Result<+T> = Ok(value: T) | Err(error: FetchError)

  /** The status code the fetcher accepts. */
  const HTTP_OK := 200
}
