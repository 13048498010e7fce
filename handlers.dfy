/**
 * The decision logic of the two request handlers, `shorten_url` and
 * `redirect_to_original`, over the `url_mapping` table. The form field,
 * `request.host_url` and the six random draws are inputs; a response is a
 * status and a body, where `redirect(...)` becomes a `RedirectTo` body.
 */
module Handlers {
  import opened Wrappers
  import opened Chars
  import opened ShortCode
  import opened UrlValidator
  import opened UrlStore

  /** What a handler returns as the body of its response. */
  datatype Body =
    | Text(text: string)
    | RedirectTo(location: string)   // the response object `redirect(...)` builds

  /** A response, or the exception that escapes the handler. */
  datatype Outcome =
    | Respond(status: int, body: Body)
    | IntegrityError                  // `sqlite3.IntegrityError` from the primary key

  const InvalidUrlMessage: string := "Invalid URL! Please enter a valid URL."
  const NotFoundMessage: string := "URL not found"
  const ShortUrlPrefix: string := "Short URL is: <a href=\""
  const ShortUrlMiddle: string := "\">"
  const ShortUrlSuffix: string := "</a>"

  /** The f-string of `shorten_url`: the short link, as target and as text of one anchor. */
  function ShortUrlBody(hostUrl: string, shortUrl: string): string {
    ShortUrlPrefix + (hostUrl + shortUrl) + ShortUrlMiddle + (hostUrl + shortUrl) + ShortUrlSuffix
  }

  /** The short link can be read back from the body: it starts right after the prefix. */
  function LinkOf(body: string): (link: Option<string>)
  {
    var n := |body| - |ShortUrlPrefix| - |ShortUrlMiddle| - |ShortUrlSuffix|;
    if n < 0 || n % 2 != 0 then None
    else
      var link := body[|ShortUrlPrefix|..|ShortUrlPrefix| + n / 2];
      if body == ShortUrlPrefix + link + ShortUrlMiddle + link + ShortUrlSuffix then Some(link) else None
  }

  lemma LinkOfShortUrlBody(hostUrl: string, shortUrl: string)
    ensures LinkOf(ShortUrlBody(hostUrl, shortUrl)) == Some(hostUrl + shortUrl)
  {
    var link := hostUrl + shortUrl;
    var body := ShortUrlBody(hostUrl, shortUrl);
    assert |body| == |ShortUrlPrefix| + 2 * |link| + |ShortUrlMiddle| + |ShortUrlSuffix|;
    assert body[|ShortUrlPrefix|..|ShortUrlPrefix| + |link|] == link;
  }

  /** Two different short links never produce the same body. */
  lemma ShortUrlBodyInjective(h1: string, c1: string, h2: string, c2: string)
    requires ShortUrlBody(h1, c1) == ShortUrlBody(h2, c2)
    ensures h1 + c1 == h2 + c2
  {
    LinkOfShortUrlBody(h1, c1);
    LinkOfShortUrlBody(h2, c2);
  }

  /**
   * `shorten_url` once the short code is drawn: the response and the rows
   * afterwards. An invalid URL is refused before anything is generated or
   * written; a taken code makes the INSERT raise, and nothing is written.
   */
  function Shorten(rows: map<string, string>, originalUrl: string, shortUrl: string, hostUrl: string)
    : (result: (Outcome, map<string, string>))
  {
    if !IsValidUrl(originalUrl) then (Respond(400, Text(InvalidUrlMessage)), rows)
    else if shortUrl in rows then (IntegrityError, rows)
    else (Respond(200, Text(ShortUrlBody(hostUrl, shortUrl))), rows[shortUrl := originalUrl])
  }

  /**
   * `redirect_to_original` as written: the conditional expression binds
   * tighter than the comma, so the handler returns the pair
   * `(redirect(...) if result else 'URL not found', 404)`.
   */
  function Redirect(rows: map<string, string>, shortUrl: string): (out: Outcome) {
    Respond(404, if shortUrl in rows then RedirectTo(rows[shortUrl]) else Text(NotFoundMessage))
  }

  /** `redirect_to_original` as evidently meant: `redirect` answers 302, a miss 404. */
  function IntendedRedirect(rows: map<string, string>, shortUrl: string): (out: Outcome) {
    if shortUrl in rows then Respond(302, RedirectTo(rows[shortUrl])) else Respond(404, Text(NotFoundMessage))
  }

  /**
   * What the table holds when `shorten_url` is its only writer: every key
   * is a six-character code of letters and digits, and every URL passed
   * validation. A database file found on disk need not be like this, so it
   * is a property the handlers preserve, not one the table always has.
   */
  ghost predicate WellFormedRows(rows: map<string, string>) {
    forall k :: k in rows ==> |k| == CodeLength && All(k, IsAlnum) && IsValidUrl(rows[k])
  }

  // ---------------------------------------------------------------------
  // The handlers over the table object

  method ShortenUrl(db: Database, originalUrl: string, draws: seq<nat>, hostUrl: string) returns (out: Outcome)
    requires db.Valid() && db.hasTable
    requires |draws| == CodeLength && InAlphabet(draws)
    modifies db
    ensures db.Valid() && db.hasTable
    ensures (out, db.rows) == Shorten(old(db.rows), originalUrl, GenerateShortUrl(draws), hostUrl)
    ensures WellFormedRows(old(db.rows)) ==> WellFormedRows(db.rows)
  {
    ghost var rows := db.rows;
    if !IsValidUrl(originalUrl) {
      return Respond(400, Text(InvalidUrlMessage));
    }
    var shortUrl := GenerateShortUrl(draws);
    var ok := db.Insert(shortUrl, originalUrl);
    if WellFormedRows(rows) {
      ShortenKeepsWellFormed(rows, originalUrl, draws, hostUrl);
    }
    if !ok {
      return IntegrityError;
    }
    return Respond(200, Text(ShortUrlBody(hostUrl, shortUrl)));
  }

  method RedirectToOriginal(db: Database, shortUrl: string) returns (out: Outcome)
    requires db.hasTable
    ensures out == Redirect(db.rows, shortUrl)
  {
    var result := db.Select(shortUrl);
    var body := if result.Some? then RedirectTo(result.value) else Text(NotFoundMessage);
    return Respond(404, body);
  }

  /** `redirect_to_original` with the status the redirect was meant to carry. */
  method IntendedRedirectToOriginal(db: Database, shortUrl: string) returns (out: Outcome)
    requires db.hasTable
    ensures out == IntendedRedirect(db.rows, shortUrl)
  {
    var result := db.Select(shortUrl);
    if result.Some? {
      return Respond(302, RedirectTo(result.value));
    }
    return Respond(404, Text(NotFoundMessage));
  }

  // ---------------------------------------------------------------------
  // What the handlers promise

  /** An invalid URL is answered with 400 and the fixed message, and the table is untouched. */
  lemma ShortenRejectsInvalid(rows: map<string, string>, originalUrl: string, shortUrl: string, hostUrl: string)
    requires !IsValidUrl(originalUrl)
    ensures Shorten(rows, originalUrl, shortUrl, hostUrl) == (Respond(400, Text(InvalidUrlMessage)), rows)
  {
  }

  /** The request is answered 400 exactly when the URL is invalid, and 200 exactly when a row was added. */
  lemma ShortenStatus(rows: map<string, string>, originalUrl: string, shortUrl: string, hostUrl: string)
    ensures var (out, rows') := Shorten(rows, originalUrl, shortUrl, hostUrl);
      && (out.Respond? && out.status == 400 <==> !IsValidUrl(originalUrl))
      && (out.Respond? && out.status == 200 <==> rows' != rows)
      && (out == IntegrityError <==> IsValidUrl(originalUrl) && shortUrl in rows)
  {
    var (out, rows') := Shorten(rows, originalUrl, shortUrl, hostUrl);
    if IsValidUrl(originalUrl) && shortUrl !in rows {
      assert shortUrl in rows';
    }
  }

  /**
   * After a successful shorten with code `c`, `c` leads to the submitted URL,
   * every other code leads where it led before, and the body carries the link
   * `hostUrl + c`.
   */
  lemma ShortenThenLookup(rows: map<string, string>, originalUrl: string, shortUrl: string, hostUrl: string)
    requires IsValidUrl(originalUrl) && shortUrl !in rows
    ensures var (out, rows') := Shorten(rows, originalUrl, shortUrl, hostUrl);
      && out.Respond? && out.status == 200 && out.body.Text?
      && LinkOf(out.body.text) == Some(hostUrl + shortUrl)
      && shortUrl in rows' && rows'[shortUrl] == originalUrl
      && rows'.Keys == rows.Keys + {shortUrl}
      && (forall k :: k in rows ==> rows'[k] == rows[k])
  {
    LinkOfShortUrlBody(hostUrl, shortUrl);
  }

  /** Following the new code redirects to the submitted URL, and other codes answer as before. */
  lemma ShortenThenRedirect(rows: map<string, string>, originalUrl: string, shortUrl: string, hostUrl: string, other: string)
    requires IsValidUrl(originalUrl) && shortUrl !in rows
    requires other != shortUrl
    ensures var rows' := Shorten(rows, originalUrl, shortUrl, hostUrl).1;
      && Redirect(rows', shortUrl).body == RedirectTo(originalUrl)
      && IntendedRedirect(rows', shortUrl) == Respond(302, RedirectTo(originalUrl))
      && Redirect(rows', other) == Redirect(rows, other)
      && IntendedRedirect(rows', other) == IntendedRedirect(rows, other)
  {
  }

  /**
   * No retry on a collision: shortening a second URL under a code already
   * taken raises, and the code keeps leading to the first URL.
   */
  lemma ShortenSameCodeTwice(rows: map<string, string>, first: string, second: string, shortUrl: string, hostUrl: string)
    requires IsValidUrl(first) && IsValidUrl(second) && shortUrl !in rows
    ensures var rows1 := Shorten(rows, first, shortUrl, hostUrl).1;
      && Shorten(rows1, second, shortUrl, hostUrl) == (IntegrityError, rows1)
      && rows1[shortUrl] == first
  {
  }

  /** Shortening keeps every key a generated code and every stored URL a valid one. */
  lemma ShortenKeepsWellFormed(rows: map<string, string>, originalUrl: string, draws: seq<nat>, hostUrl: string)
    requires WellFormedRows(rows)
    requires |draws| == CodeLength && InAlphabet(draws)
    ensures WellFormedRows(Shorten(rows, originalUrl, GenerateShortUrl(draws), hostUrl).1)
  {
    var shortUrl := GenerateShortUrl(draws);
    if IsValidUrl(originalUrl) && shortUrl !in rows {
      var rows' := rows[shortUrl := originalUrl];
      forall k | k in rows' ensures |k| == CodeLength && All(k, IsAlnum) && IsValidUrl(rows'[k]) {
        if k != shortUrl {
          assert rows'[k] == rows[k];
        }
      }
    }
  }

  /** In a table written only by `shorten_url`, a redirect always points at a URL that passed validation. */
  lemma RedirectTargetIsValid(rows: map<string, string>, shortUrl: string)
    requires WellFormedRows(rows)
    ensures Redirect(rows, shortUrl).body.RedirectTo? ==> IsValidUrl(Redirect(rows, shortUrl).body.location)
    ensures Redirect(rows, shortUrl).body.RedirectTo? ==> |shortUrl| == CodeLength && All(shortUrl, IsAlnum)
  {
  }

  /** A code with no row is answered with `URL not found` and 404, as written and as meant. */
  lemma RedirectMiss(rows: map<string, string>, shortUrl: string)
    requires shortUrl !in rows
    ensures Redirect(rows, shortUrl) == Respond(404, Text(NotFoundMessage))
    ensures IntendedRedirect(rows, shortUrl) == Redirect(rows, shortUrl)
  {
  }

  /** As written, every answer of `redirect_to_original` has status 404, a hit included. */
  lemma RedirectAlways404(rows: map<string, string>, shortUrl: string)
    ensures Redirect(rows, shortUrl).Respond? && Redirect(rows, shortUrl).status == 404
    ensures Redirect(rows, shortUrl).body.RedirectTo? <==> shortUrl in rows
  {
  }

  /** A stored code answers 404 together with its redirect target, which browsers do not follow. */
  lemma RedirectHitIs404(rows: map<string, string>, shortUrl: string)
    requires shortUrl in rows
    ensures Redirect(rows, shortUrl) == Respond(404, RedirectTo(rows[shortUrl]))
    ensures Redirect(rows, shortUrl) != IntendedRedirect(rows, shortUrl)
  {
  }

  /** The table `abc123 -> http://example.com` and a request for `/abc123`. */
  lemma RedirectHitExample(rows: map<string, string>)
    requires rows == map["abc123" := "http://example.com"]
    ensures Redirect(rows, "abc123") == Respond(404, RedirectTo("http://example.com"))
    ensures IntendedRedirect(rows, "abc123") == Respond(302, RedirectTo("http://example.com"))
  {
    RedirectHitIs404(rows, "abc123");
  }

  /** The intended handler redirects with 302 exactly on a hit, to the stored URL. */
  lemma IntendedRedirectStatus(rows: map<string, string>, shortUrl: string)
    ensures IntendedRedirect(rows, shortUrl).Respond?
    ensures IntendedRedirect(rows, shortUrl).status == 302 <==> shortUrl in rows
    ensures IntendedRedirect(rows, shortUrl).status == 302 ==> IntendedRedirect(rows, shortUrl).body == RedirectTo(rows[shortUrl])
    ensures IntendedRedirect(rows, shortUrl).status != 302 ==> IntendedRedirect(rows, shortUrl) == Respond(404, Text(NotFoundMessage))
  {
  }
}
