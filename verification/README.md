# Telegram food bot: a Dafny model of its location and link core

The bot takes a user's coordinates and turns them into a city and an address
with one reverse-geocoding request. It stores the result per user in an
SQLite table and replies with five search links into a food-delivery
website, one per food category. This project models the three pure or
nearly pure pieces of `bot.py`, and proves properties about each:

- **Link catalog** (`links.dfy`, module `LinkCatalog`), with the `quote_plus` query encoding it relies on:
  - `utf8.dfy`, module `Utf8`: UTF-8 as in section 3 of RFC 3629.
  - `form_encoding.dfy`, module `FormEncoding`: the unreserved characters of section 2.3 of RFC 3986 stay as they are, a space becomes `+`, and every other byte becomes `%HH` with upper-case hex digits, as in section 2.1 of RFC 3986.
  - The catalog is a fixed five-entry map from category key to Persian search term.
  - A link is `https://snappfood.ir/search?query=` followed by the encoded term.
  - An unknown key gives the empty term.
  - The city hint is accepted and ignored.
- **Reverse-geocode result selection** (`geocode.dfy`, module `Geocode`):
  - The request's outcome is an input.
  - The address is `display_name`, or empty when it is absent.
  - The city is the first non-empty one of `city`, `town`, `county` and `state`, or empty when there is none.
  - Any failure gives `("", "")`.
- **Location store** (`store.dfy`, module `LocationStore`):
  - The `users` table is a map from user id to row.
  - `InitDb` creates the table only if it is missing.
  - `Save` inserts the row or fully replaces the existing one.
  - `Get` returns an optional tuple and reads a NULL city or address as `""`.
  - A missing table and a user id outside the signed 64-bit range are errors that propagate.

`wrappers.dfy` holds `Option` and `Result`. `bot_tests.dfy` (module
`BotTests`) restates the repository's unit tests as lemmas about the model.

Each encoder has a decoder beside it, and both round trips are proved:
- `Utf8.Decode` is strict, with no overlong forms, surrogates or values above U+10FFFF.
- `FormEncoding.Unquote` is strict too. Together with the `Canonical` strings, it makes the encoder a bijection from byte strings onto canonical strings.

Three behaviours of `bot.py` that the model keeps exactly:
- **Space in a query.** `quote_plus` writes a space as `+`, never as `%20`, and so does `FormEncoding.EncodeByte`.
- **Failed geocoding.** A failed lookup is the pair `("", "")`, not a separate variant, and `Geocode.ReverseGeocode` returns `Place("", "")`.
- **Answer with no city.** An answered request whose `address` member is missing, or is an object without a non-empty `city`, `town`, `county` or `state`, still keeps its `display_name` as the address. An `address` member that is not an object (null, a list or a string) makes `comp.get` raise, and the lookup gives `("", "")`.

## Model

| member | source | states |
|---|---|---|
| Utf8.Encode | bot.py:174 | the UTF-8 form of a string is between one and four times as long as the string; `Utf8.DecodeIffEncode` pins it down as the inverse of the strict decoder |
| Utf8.EncodeChar | bot.py:174 | a character's UTF-8 form has the RFC 3629 width for its code point, a lead byte in the range for that width, and continuation bytes 10xxxxxx |
| Utf8.DecodeEncode | bot.py:174 | decoding the UTF-8 form of any string gives back that string |
| Utf8.EncodeDecode | bot.py:174 | whatever the strict decoder accepts is exactly the encoder's output for the decoded string |
| Utf8.DecodeIffEncode | bot.py:174 | `Decode(b) == Some(s)` holds exactly when `Encode(s) == b` |
| Utf8.EncodeAppend | bot.py:174 | the UTF-8 form of a concatenation is the concatenation of the forms |
| FormEncoding.EncodeByte | bot.py:174 | one byte becomes one character or a three-character escape |
| FormEncoding.EncodeByteForms | bot.py:174 | an unreserved byte is written as itself, exactly the space byte is written `+`, and exactly the other bytes become `%` with two upper-case hex digits that read back as the byte |
| FormEncoding.QuoteBytes | bot.py:174 | the form encoding of a byte string is between one and three times as long as the bytes; `FormEncoding.QuoteBytesIffUnquote` pins it down as the inverse of the strict decoder on canonical strings |
| FormEncoding.UnquoteQuoteBytes | bot.py:174 | decoding the form encoding of any byte string gives back those bytes |
| FormEncoding.QuotePlusRoundTrip | bot.py:170-174 | `quote_plus` text decodes back to the UTF-8 bytes of the query and from them to the query itself |
| FormEncoding.QuoteBytesCanonical | bot.py:174 | the encoder only writes unreserved characters, `+`, and upper-case `%HH` escapes of bytes that are neither unreserved nor a space |
| FormEncoding.QuoteBytesAlphabet | bot.py:174 | every character of an encoding is unreserved, `+` or `%` |
| FormEncoding.CanonicalQuoteUnquote | bot.py:174 | every canonical string decodes, and encoding the result gives back the string |
| FormEncoding.QuoteBytesIffUnquote | bot.py:174 | encoding `bs` gives `s` exactly when `s` is canonical and decodes to `bs` |
| FormEncoding.QuotePlusAppend | bot.py:174 | `quote_plus` of a concatenation is the concatenation of the two `quote_plus` results |
| LinkCatalog.QueryFor | bot.py:70-76 | a catalog key gives its search term and any other key gives the empty term; the term is empty exactly when the key is not in the catalog, so every catalog term is non-empty |
| LinkCatalog.BuildLink | bot.py:168-174 | the link starts with the base URL and search path, its query is canonical, and its query decodes back to exactly the key's search term |
| LinkCatalog.BuildLinkIgnoresCity | bot.py:168-174 | two links for the same key are equal whatever city hints they were given |
| LinkCatalog.UnknownKeyEmptyQuery | bot.py:173-174 | a key outside the catalog yields the base URL followed by `/search?query=` with nothing after it |
| LinkCatalog.CategoryOrderEnumeratesCatalog | bot.py:181-187 | the button order lists each of the five catalog keys exactly once |
| LinkCatalog.ButtonLabelNamesItsTerm | bot.py:182-186 | each button label is its emoji, the catalog's search term for its category, and the word for "cheap" |
| LinkCatalog.BuildInlinePairs | bot.py:177-188 | exactly five pairs in the fixed order, each with the fixed label and that category's link; every url starts with the base and its query decodes back to the category's term |
| LinkCatalog.BuildInlinePairsIgnoresCity | bot.py:177-188 | the buttons are the same whatever city hint is given |
| Geocode.FirstTruthy | bot.py:155-161 | the result is the value of the first key whose value is present and non-empty, or empty exactly when no key has such a value |
| Geocode.ReverseGeocode | bot.py:138-164 | a failed request or a non-object `address` gives `("", "")`; otherwise the address is `display_name` or empty, and the city is the first non-empty one of city, town, county, state |
| Geocode.CityBeatsOthers | bot.py:155-161 | a non-empty `city` component is chosen whatever the other components hold |
| Geocode.EmptyCityCountsAsMissing | bot.py:155-161 | an empty `city` component is skipped in favour of a non-empty `town` |
| Geocode.CountyFallback | bot.py:155-161 | without a non-empty `city` or `town`, a non-empty `county` is the city |
| Geocode.CityComesFromComponents | bot.py:154-161 | a non-empty city is always the value of one of the four address components of an answered request |
| LocationStore.InitDb | bot.py:80-96 | the result always has the table; an existing table is returned unchanged, and a new one is empty |
| LocationStore.InitDbIdempotent | bot.py:83-94 | initialising twice is the same as initialising once |
| LocationStore.Save | bot.py:99-123 | without a table the save fails with no-such-table; a user id outside 64 bits fails with an overflow; otherwise only that user's row is set, and every other row and key is kept |
| LocationStore.Get | bot.py:126-134 | errors as for `Save`; for a valid id, `None` exactly when the id has no row, and otherwise the row's coordinates, with a NULL city or address read as `""` |
| LocationStore.GetOnFreshStore | bot.py:126-134 | on a freshly initialised store every valid id reads as absent, not as an error |
| LocationStore.SaveThenGet | bot.py:99-134 | reading back after a successful save gives exactly the saved `(lat, lon, city, address)` |
| LocationStore.SaveReplaces | bot.py:109-120 | two saves for one user leave the store as if only the second had happened |
| LocationStore.SaveLeavesOthersAlone | bot.py:109-120 | a save changes no other user's lookup |
| LocationStore.SaveRowCount | bot.py:109-120 | a save adds one row when the user had none and leaves the count unchanged otherwise |
| LocationStore.ReplayGet | bot.py:99-134 | after any run of saves that succeeds, a lookup sees that user's most recent save, or the earlier state if the run never saved that user |
| BotTests.QuotePizzaTerm | bot.py:285 | `quote_plus` of the pizza term is the five escaped two-byte letters |
| BotTests.LinkEncodingVector | bot.py:281-285 | the pizza link with a city hint is the search URL followed by `%D9%BE%DB%8C%D8%AA%D8%B2%D8%A7` |
| BotTests.InlinePairsCountLabelsAndBase | bot.py:287-301 | five buttons, the first labelled for pizza and the last for Iranian food, each url under the base |
| BotTests.UnknownCategoryEmptyQuery | bot.py:294-296 | the link for an unknown category ends with `/search?query=` |
| BotTests.GeocodeSuccess | bot.py:304-315 | a body with `city` "Tehran" yields Tehran and the display name as the address |
| BotTests.GeocodeCountyFallback | bot.py:317-328 | a body with only `county` yields the county as the city |
| BotTests.GeocodeFailure | bot.py:330-334 | a network failure yields two empty strings |
| BotTests.SaveAndGetUserLocation | bot.py:337-348 | save then get on a fresh store returns the saved values |
| BotTests.GetUserLocationAbsent | bot.py:350-354 | get of a never-saved id on a fresh store returns absent |

## Left out

- The Telegram handlers, keyboard construction and bot wiring (bot.py:190-252) are left out. They are UI and asynchronous event plumbing around the SDK.
- The demo REPL, the test runner and the command-line entry point (bot.py:255-385) are left out. They are console I/O and process start-up. The unit tests themselves are restated in `BotTests`.
- The optional import of the Telegram SDK and the environment configuration (token, database path) are left out. The database is a value passed to every store operation.
- The HTTP request is left out:
  - the endpoint URL;
  - the `lat`, `lon`, `format=jsonv2` and `accept-language=fa,en` parameters;
  - the User-Agent header;
  - the 10-second timeout;
  - JSON parsing.

  All of this is network I/O. Its outcome is the `Geocode.Response` input. A network error, a timeout, an error status, a body that is not JSON, and a top-level JSON value that is not an object all arrive as `Failed`. In the last case Python's `data.get` raises and the exception is caught, so the result is the same.
- Geocode.ReverseGeocode: treats `display_name` as an optional string. Python would return a null or non-string `display_name` unchanged as the address. The model does not represent non-string JSON values; a null address component is treated as absent, as `comp.get` does.
- The SQLite connection, commit and close mechanics are left out, as is the statement text. Only the table's map semantics are modelled. Storage failures other than a missing table and an unbindable user id are not modelled: disk full, a locked database and corruption would all propagate as exceptions.
- LocationStore.Save: takes a non-null city and address, as its type hints declare. The location handler (bot.py:207-211), which is not modelled, can pass a `None` address when the geocoder's `display_name` is JSON null, and SQLite then stores NULL. `Get` covers that case for any row: its contract reads a NULL city or address as `""`. The timestamp `now` stands in for `int(time.time())` and is not range-checked.
- LocationStore.Get: the coordinates are real numbers that are stored and returned unchanged. Floating-point values are not modelled. That leaves out NaN: SQLite stores a NaN latitude or longitude as NULL, and reading such a row back makes Python's `float(None)` raise at bot.py:133.
- The atomicity and concurrency guarantees of SQLite are left out, including safe concurrent schema creation.
- `FormEncoding.Unquote` is the model's own strict decoder, the partner of the encoder. The bot never decodes. Python's lenient `unquote_plus`, which passes malformed escapes through, is not modelled.
