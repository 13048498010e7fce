# URL shortener core, modelled in Dafny

The system is a small Flask service (`app.py`). A POST to `/shorten` does
four things:

1. It checks the submitted URL against a case-insensitive regular expression (`is_valid_url`).
2. It draws a six-character short code from the ASCII letters and digits (`generate_short_url`).
3. It stores the pair in the SQLite table `url_mapping`, whose primary key is the short code.
4. It answers with an HTML link made from the host URL and the code.

A GET of `/<short_url>` looks the code up and answers with a redirect or with
`URL not found`.

The model has nine modules:

- `Wrappers`: the `Option` type that a lookup returns.
- `Chars`: the character classes of the pattern on ASCII text under
  IGNORECASE, with `\s` as Python reads it (codes 9 to 13, 28 to 31 and space).
- `Split`: splitting at a separator and joining back. `SplitOn` and `JoinSep`
  are proved inverse.
- `UrlGrammar`: the meaning of the pattern as ghost predicates.
  - A string matches when it decomposes into a scheme, a host (domain,
    `localhost`, dotted quad or loose IPv6), an optional port and a tail.
  - `Accepts` adds what `$` does without MULTILINE: it also matches just
    before a newline that ends the string. This case is modelled.
- `UrlValidator`: a deterministic recognizer, `IsValidUrl`.
  - It takes the first `/` or `?` as the start of the tail.
  - It takes the last `:` as the start of a port.
  - It splits domains and quads at dots.
  - It is proved equal to `Accepts` on every string, through one equivalence
    lemma per alternative.
- `UrlProperties`: what the recognizer means for callers: which URLs are
  accepted or rejected, and what characters an accepted URL can hold.
- `ShortCode`: the alphabet `ascii_letters + digits` and `GenerateShortUrl`.
  - The six random draws are inputs: the indices `random.choices` picked.
  - The code is proved to have length 6 and to be made of letters and digits.
  - The draws are proved recoverable from the code, so generation is one-to-one.
  - Every such string can be generated.
- `UrlStore`: the table as a class `Database` with a `rows` map and a
  `hasTable` flag.
  - `CreateTable` keeps existing rows (`IF NOT EXISTS`).
  - `Insert` fails and changes nothing when the key is taken.
  - `Select` returns the stored URL or nothing.
- `Handlers`: the two request handlers.
  - The specification functions are `Shorten`, `Redirect` (as written) and
    `IntendedRedirect`.
  - The methods `ShortenUrl` and `RedirectToOriginal` run over a `Database`
    and are proved to agree with them.
  - A response is a status and a body, where the body is text or a redirect
    target.
  - A collision on the primary key is the outcome `IntegrityError`. The
    handler does not catch it and does not retry.
  - `WellFormedRows` is the table invariant the handler keeps: every key is
    a six-character code of letters and digits, and every URL is valid.

## Model

| member | source | states |
|---|---|---|
| `UrlValidator.IsValidUrl` | app.py:38-47 | the recognizer accepts a string exactly when the pattern's decomposition exists for it, or for it without a final newline |
| `UrlValidator.SchemeLength` | app.py:40 | at most one prefix of a string is a scheme; the result is its length, or 0 when there is none |
| `UrlValidator.LabelShape` | app.py:41 | a label is 1 to 63 letters, digits and hyphens that starts and ends with a letter or digit |
| `UrlValidator.MatchDomainSound` | app.py:41 | every host the domain recognizer accepts has a decomposition into dotted labels, a final label and an optional dot |
| `UrlValidator.MatchDomainComplete` | app.py:41 | every such decomposition is accepted by the domain recognizer |
| `UrlValidator.MatchDomainCorrect` | app.py:41 | the domain recognizer accepts exactly the domain grammar |
| `UrlValidator.MatchIPv4Correct` | app.py:43 | the quad recognizer accepts exactly four groups of 1 to 3 digits joined by dots |
| `UrlValidator.MatchIPv6Sound` | app.py:44 | an accepted IPv6-like host has optional brackets around hex digits, a colon, and at least one hex digit or colon |
| `UrlValidator.MatchIPv6Complete` | app.py:44 | every such host, with each bracket present or not, is accepted |
| `UrlValidator.MatchIPv6Correct` | app.py:44 | the IPv6 recognizer accepts exactly the loose IPv6 grammar |
| `UrlValidator.MatchHostCorrect` | app.py:41-44 | the host recognizer accepts exactly the four host alternatives |
| `UrlValidator.HostChars` | app.py:41-44 | a host holds only letters, digits, `-`, `.`, `:`, `[` and `]` |
| `UrlValidator.MatchHostPortCorrect` | app.py:41-45 | host-and-port is recognized exactly when it splits into a host and an optional `:digits` port |
| `UrlValidator.TailStartAfterHostPort` | app.py:41-46 | in host, port and tail, the first `/` or `?` is where the tail begins |
| `UrlValidator.MatchAfterSchemeCorrect` | app.py:41-46 | what follows the scheme is recognized exactly when it splits into host, port and tail |
| `UrlValidator.MatchUrlCorrect` | app.py:40-46 | the whole-string recognizer accepts exactly the strings the pattern matches end to end |
| `UrlProperties.AcceptsParts` | app.py:40-46 | any scheme, host, port and tail, concatenated, are accepted |
| `UrlProperties.MatchesCuts` | app.py:40-46 | a string cut into scheme, host, port and tail matches end to end |
| `UrlProperties.AcceptsCuts` | app.py:40-47 | a string cut into scheme, host, port and tail is accepted |
| `UrlProperties.AcceptedStartsWithScheme` | app.py:40 | an accepted URL starts with `http://`, `https://`, `ftp://` or `ftps://` in any mix of case |
| `UrlProperties.RejectsWithoutScheme` | app.py:40 | the empty string, and any string whose first letter is not `h` or `f` in either case, is rejected |
| `UrlProperties.RejectsOtherSchemes` | app.py:40 | `""`, `example.com`, `mailto:someone@example.com` and `sftp://example.com` are rejected |
| `UrlProperties.SchemeIgnoresCase` | app.py:40-46 | `HtTpS://LOCALHOST` is accepted |
| `UrlProperties.HostFirstChar` | app.py:41-44 | a host is never empty and starts with a letter, a digit, `[` or `:` |
| `UrlProperties.MatchedHostStart` | app.py:40-44 | in a full match the scheme is the one the recognizer finds, and a letter, digit, `[` or `:` follows it |
| `UrlProperties.AcceptedHostStart` | app.py:40-44 | right after the scheme an accepted URL has a letter, a digit, `[` or `:` |
| `UrlProperties.RejectsBadHostStart` | app.py:40-44 | a scheme followed by nothing, or by `-`, `.` or `/`, is rejected |
| `UrlProperties.WordIsNotHost` | app.py:41-44 | a single word of letters, digits and hyphens other than `localhost` is no host |
| `UrlProperties.WordIsNotAfterScheme` | app.py:41-46 | such a word is not a host, port and tail either |
| `UrlProperties.SchemeThenWord` | app.py:40-46 | a scheme followed by such a word does not match end to end |
| `UrlProperties.RejectsWithoutMatch` | app.py:46-47 | a string without a final newline is accepted only when the whole of it matches |
| `UrlProperties.RejectsSingleWordHost` | app.py:41 | a scheme followed by one dotless word other than `localhost` is rejected: a domain needs a dotted label before its final label |
| `UrlProperties.RejectsExampleWithoutDot` | app.py:41 | `http://example` is rejected |
| `UrlProperties.IPv4Host` | app.py:43 | four digit groups joined by dots form a host |
| `UrlProperties.DottedQuadAt` | app.py:43 | four digit groups separated by dots at three given positions form a dotted quad |
| `UrlProperties.AcceptsDottedQuad` | app.py:43 | a scheme and any four groups of 1 to 3 digits joined by dots are accepted |
| `UrlProperties.AcceptsOutOfRangeQuad` | app.py:43 | `http://999.999.999.999` is accepted: no group is checked against 255 |
| `UrlProperties.AcceptsLocalhost` | app.py:42-46 | `ftp://localhost:21/pub` is accepted |
| `UrlProperties.DomainHost` | app.py:41 | labels, each followed by a dot, then a final label and an optional dot, form a host |
| `UrlProperties.AcceptsDomain` | app.py:41-46 | `https://example.com/page` is accepted |
| `UrlProperties.IPv6Host` | app.py:44 | an optional `[`, hex digits, `:`, hex digits and colons, and an optional `]` form a host |
| `UrlProperties.AcceptsLooseIPv6` | app.py:44 | `http://[::1` is accepted: the brackets need not be balanced |
| `UrlProperties.AcceptsColonHost` | app.py:44-45 | `http://a:80` is accepted, through the IPv6 alternative |
| `UrlProperties.SchemeHasNoSpace` | app.py:40 | a scheme holds no white space |
| `UrlProperties.HostCharsAreNotSpace` | app.py:41-45 | host and port characters are not white space |
| `UrlProperties.TailHasNoSpace` | app.py:46 | a tail holds no white space |
| `UrlProperties.AfterSchemeHasNoSpace` | app.py:41-46 | whatever follows the scheme in a match holds no white space |
| `UrlProperties.MatchedHasNoSpace` | app.py:40-46 | a string the pattern matches end to end holds no white space |
| `UrlProperties.AcceptedHasNoSpace` | app.py:40-47 | an accepted URL holds no white space except one newline at its very end |
| `UrlProperties.RejectsSpaceInTail` | app.py:46-47 | white space at any position before the last character, in the tail or elsewhere, makes a string rejected |
| `UrlProperties.RejectsFinalSpace` | app.py:46-47 | a string whose last character is white space other than `\n` is rejected |
| `UrlProperties.RejectsSpaceExamples` | app.py:46-47 | `http://example.com/a b`, `http://example.com/` followed by a tab, and `http://example.com` followed by two newlines are rejected |
| `UrlProperties.MatchedPart` | app.py:46-47 | an accepted URL is a full match, or a full match followed by one newline |
| `UrlProperties.AcceptsTrailingNewline` | app.py:46-47 | one newline appended to an accepted URL without one is still accepted |
| `UrlProperties.AcceptsDomainWithNewline` | app.py:46-47 | `https://example.com/page` followed by a newline is accepted |
| `ShortCode.AlphabetChar` | app.py:35 | each position of the alphabet holds a letter or digit |
| `ShortCode.AlphabetLayout` | app.py:35 | `ascii_letters + digits` has 62 characters: `a`-`z`, then `A`-`Z`, then `0`-`9` |
| `ShortCode.AlphabetDistinct` | app.py:35 | no character appears twice in the alphabet |
| `ShortCode.AlphabetIsAlnum` | app.py:35 | a character is in the alphabet exactly when it is an ASCII letter or digit |
| `ShortCode.AlphabetIndex` | app.py:35 | every letter or digit has a position in the alphabet |
| `ShortCode.Pick` | app.py:35 | joining the drawn characters gives one character per draw, the one at the drawn position |
| `ShortCode.GenerateShortUrl` | app.py:34-35 | the short code has length 6 and only letters and digits, each the drawn one |
| `ShortCode.DrawsOf` | app.py:35 | every string of letters and digits has draws that spell it |
| `ShortCode.EveryCodeIsGenerated` | app.py:34-35 | every six-character string of letters and digits is a possible short code |
| `ShortCode.GenerateShortUrlInjective` | app.py:34-35 | different draws never give the same code |
| `ShortCode.DrawsOfGenerate` | app.py:34-35 | the draws can be read back from the code they produced |
| `UrlStore.Database.constructor` | app.py:13-16 | opening the file gives the table and rows found there |
| `UrlStore.Database.CreateTable` | app.py:19-29 | afterwards the table exists, and rows already there are kept |
| `UrlStore.Database.Insert` | app.py:74 | the insert succeeds exactly when the key is new, as the `PRIMARY KEY` on `short_url` (app.py:24) demands; on success the row is added and nothing else changes, otherwise nothing changes |
| `UrlStore.Database.Select` | app.py:86-87 | the lookup finds a row exactly when the key is stored, and returns its URL |
| `UrlStore.Startup` | app.py:31 | after start-up the table exists and holds the rows the file held |
| `Handlers.LinkOfShortUrlBody` | app.py:79 | the link `host_url + short_url` can be read back from the success body |
| `Handlers.ShortUrlBodyInjective` | app.py:79 | two different short links never give the same body |
| `Handlers.ShortenUrl` | app.py:60-79 | the handler's response and the new rows are those of `Shorten` for the generated code, and a table whose keys are codes and whose URLs are valid stays so |
| `Handlers.RedirectToOriginal` | app.py:82-90 | the handler's response is that of `Redirect`, as written |
| `Handlers.IntendedRedirectToOriginal` | app.py:82-90 | the corrected handler's response is that of `IntendedRedirect` |
| `Handlers.ShortenRejectsInvalid` | app.py:65-66 | an invalid URL gets 400 and `Invalid URL! Please enter a valid URL.`, and the table is unchanged |
| `Handlers.ShortenStatus` | app.py:65-79 | 400 exactly for an invalid URL; 200 exactly when a row was added; `IntegrityError` exactly for a valid URL whose code is taken |
| `Handlers.ShortenThenLookup` | app.py:72-79 | after a successful shorten the code maps to the submitted URL, the other rows are unchanged, and the body links to `host_url + code` |
| `Handlers.ShortenThenRedirect` | app.py:74-90 | after a successful shorten the code redirects to the submitted URL, and other codes answer as before |
| `Handlers.ShortenKeepsWellFormed` | app.py:65-74 | shortening keeps every key a six-character code of letters and digits and every stored URL one that passed validation |
| `Handlers.RedirectTargetIsValid` | app.py:65-90 | in such a table a redirect goes only to a URL that passed validation, and only for a six-character code |
| `Handlers.ShortenSameCodeTwice` | app.py:69-76 | a second URL under a taken code raises and leaves the first mapping in place: no retry |
| `Handlers.RedirectMiss` | app.py:90 | an unknown code gets `URL not found` with 404 |
| `Handlers.RedirectAlways404` | app.py:90 | as written, every answer has status 404, and it carries a redirect exactly on a hit |
| `Handlers.RedirectHitIs404` | app.py:85-90 | every stored code is answered with status 404 and a redirect to its stored URL, which differs from the intended answer |
| `Handlers.RedirectHitExample` | app.py:85-90 | for the table `abc123` → `http://example.com`, `/abc123` is answered 404 where 302 was meant |
| `Handlers.IntendedRedirectStatus` | app.py:90 | as intended, status 302 comes exactly on a hit, with the stored URL as target; otherwise 404 with `URL not found` |

## Left out

- The Flask glue is not modelled: routing, `request.form`, `request.host_url`, the HTML form of `index` (app.py:50-57), and how `redirect()` builds its response object. The host URL and the form value are inputs, and the redirect is a tagged body.
- The sqlite3 connection handling is not modelled: `get_db_connection`, `row_factory`, `commit`, `close` and durability on disk. Each handler works on one `Database` object that stands for the file.
- A missing table is not modelled. Without it, INSERT and SELECT would raise `OperationalError`. `create_table()` runs at import (app.py:31), before any request, so the handlers require `hasTable`.
- The NOT NULL constraint on `original_url` needs no model: a form value is always a string.
- The random distribution of `random.choices` is not modelled. The six draws are inputs, each an index below 62.
- Concurrent requests racing on the same code are not modelled. The code has no coordination beyond the primary key.
- The server start-up is not modelled: `os.environ`, `PORT` and `app.run` (app.py:92-93).
- Only ASCII text is modelled exactly. Python's Unicode `\d`, `\s` and `\S`, and IGNORECASE folding of non-ASCII letters, are not modelled: the model treats non-ASCII characters as neither letters, digits nor white space.
- The HTTP 500 page that Flask sends for the uncaught `IntegrityError` is not modelled. The outcome stops at the exception.
- There is no retry loop after a collision, because the source has none.

## Findings

| source | as written | input that shows it | evidently intended | confidence | as-written member | corrected member |
|---|---|---|---|---|---|---|
| app.py:90 | `return redirect(...) if result else 'URL not found', 404` parses as the pair `(redirect(...) if result else 'URL not found', 404)`, so a stored code is answered with status 404. Flask gives the tuple's status precedence over the 302 of the redirect response, and browsers do not follow a `Location` on a 404 | a table holding `abc123` → `http://example.com`, then a GET of `/abc123` | 302 with `Location: http://example.com` on a hit, and 404 with `URL not found` only on a miss | not executed | `Handlers.RedirectHitIs404` | `Handlers.IntendedRedirectStatus` |
