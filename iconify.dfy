/**
 * The `iconify` template filter: validates a `provider:name` icon key,
 * builds the request to the Iconify API and returns the icon's markup, or
 * a fixed empty icon when the request fails. The network is an oracle
 * `fetch` that answers a request with the response body, or with nothing
 * when the request fails.
 */
module Iconify {
  import opened Wrappers
  import opened PyStrings

  const BaseUrl: string := "https://api.iconify.design"
  const DefaultHeight: string := "20px"
  const FallbackSvg: string := "<svg></svg>"

  /** The `ValueError` raised for a key that is not `provider:name`. */
  datatype IconError = InvalidIconFormat(key: string)

  /**
   * A request to the icon API: the icon's provider and name, which make up
   * the path, and the query parameters in the order they are encoded.
   */
  datatype IconRequest = IconRequest(provider: string, name: string, query: seq<(string, string)>)

  /** The request URL up to and including the `?` that opens its query string. */
  function UrlPrefix(req: IconRequest): string
  {
    BaseUrl + "/" + req.provider + "/" + req.name + ".svg?"
  }

  /**
   * Splits the key on `:` and, when that gives exactly two parts, builds the
   * request for them; `height` comes first in the query, then the other options.
   */
  function BuildRequest(key: string, height: string := DefaultHeight, options: seq<(string, string)> := [])
    : Result<IconRequest, IconError>
  {
    var icon := Split(key, ':');
    if |icon| != 2 then Err(InvalidIconFormat(key))
    else Ok(IconRequest(icon[0], icon[1], [("height", height)] + options))
  }

  /** `iconify`: the response body, the fallback icon when the fetch fails, or the key error. */
  function Iconify(
    key: string,
    fetch: IconRequest -> Option<string>,
    height: string := DefaultHeight,
    options: seq<(string, string)> := []
  ): Result<string, IconError>
  {
    match BuildRequest(key, height, options)
    case Err(e) => Err(e)
    case Ok(req) =>
      match fetch(req)
      case Some(body) => Ok(body)
      case None => Ok(FallbackSvg)
  }

  /** A key is accepted exactly when it holds exactly one `:`. */
  lemma KeyAccepted(key: string, height: string, options: seq<(string, string)>)
    ensures BuildRequest(key, height, options).Ok? <==> multiset(key)[':'] == 1
  {
    SplitCount(key, ':');
  }

  /**
   * An accepted key is the provider and the name joined by `:`, neither
   * holding a `:`, and the query starts with the height, then the options.
   */
  lemma AcceptedKeyParts(key: string, height: string, options: seq<(string, string)>)
    requires BuildRequest(key, height, options).Ok?
    ensures var req := BuildRequest(key, height, options).value;
      && key == req.provider + ":" + req.name
      && ':' !in req.provider && ':' !in req.name
      && req.query == [("height", height)] + options
  {
    var icon := Split(key, ':');
    SplitJoin(key, ':');
    assert icon[1..] == [icon[1]];
    assert Join(icon, ':') == icon[0] + ":" + icon[1];
  }

  /**
   * Round trip: any provider and name without `:`, either possibly empty,
   * joined by `:` make a key whose request is for exactly that provider and
   * name, at `https://api.iconify.design/PROVIDER/NAME.svg?...`.
   */
  lemma RequestForParts(provider: string, name: string, height: string, options: seq<(string, string)>)
    requires ':' !in provider && ':' !in name
    ensures BuildRequest(provider + ":" + name, height, options)
            == Ok(IconRequest(provider, name, [("height", height)] + options))
    ensures UrlPrefix(BuildRequest(provider + ":" + name, height, options).value)
            == "https://api.iconify.design/" + provider + "/" + name + ".svg?"
  {
    var key := provider + ":" + name;
    var icon := [provider, name];
    assert icon[1..] == [name];
    assert Join(icon, ':') == key;
    SplitUnique(key, ':', icon);
  }

  /** Without a height, the query asks for a height of `20px` and nothing else. */
  lemma DefaultHeightRequested(provider: string, name: string)
    requires ':' !in provider && ':' !in name
    ensures BuildRequest(provider + ":" + name) == Ok(IconRequest(provider, name, [("height", "20px")]))
  {
    RequestForParts(provider, name, DefaultHeight, []);
    assert [("height", DefaultHeight)] + [] == [("height", "20px")];
  }

  /**
   * A key without exactly one `:` is rejected with the key error, whatever
   * the network would have answered: no request is made.
   */
  lemma RejectedKey(key: string, fetch: IconRequest -> Option<string>, height: string, options: seq<(string, string)>)
    requires multiset(key)[':'] != 1
    ensures Iconify(key, fetch, height, options) == Err(InvalidIconFormat(key))
  {
    KeyAccepted(key, height, options);
  }

  /**
   * For an accepted key, the result is the body the network answers with,
   * and exactly `<svg></svg>` when the fetch fails.
   */
  lemma FetchOutcome(key: string, fetch: IconRequest -> Option<string>, height: string, options: seq<(string, string)>)
    requires multiset(key)[':'] == 1
    ensures BuildRequest(key, height, options).Ok?
    ensures var req := BuildRequest(key, height, options).value;
      && (fetch(req).None? ==> Iconify(key, fetch, height, options) == Ok("<svg></svg>"))
      && (fetch(req).Some? ==> Iconify(key, fetch, height, options) == Ok(fetch(req).value))
  {
    KeyAccepted(key, height, options);
  }
}
