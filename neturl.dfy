/**
 * A subset of the fields of Go's `net/url` URL record; the resolver reads only `User`.
 * The parser that fills it in belongs to a foreign library and is not modelled:
 * the resolver receives it as a function parameter (see GitUtil.Parser).
 */
module NetUrl {
  import opened Wrappers

  /** Credentials embedded in a URL: a user name and an optional password. */
  datatype Userinfo = Userinfo(username: string, password: Option<string>)

  /**
   * A parsed URL. `User` is `None` exactly where Go's `*url.Userinfo` field is nil,
   * i.e. when the URL carries no credentials.
   */
  datatype Url = Url(
    Scheme: string,
    Opaque: string,
    User: Option<Userinfo>,
    Host: string,
    Path: string,
    RawQuery: string,
    Fragment: string)
}
