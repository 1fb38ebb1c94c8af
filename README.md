# Listing extraction of the Craigslist scraper, modelled in Dafny

`scrape.rb` fetches the San Francisco apartments search page and submits the
search form (query `Garden`, asking price 250 to 1500). It then turns every
`p.row` listing node of the result page into a row
`[name, url, price, location]` and writes the rows to `filename.csv`. The
rows follow the header `['Name', 'URL', 'Price', 'Location']`.

This project models the part of the script that makes decisions: the
per-node extraction rule and the `results` array it fills. A listing node is
given abstractly, not as HTML:

- its `a` elements in document order, each with a text and an optional `href`;
- the concatenated text of its `span.price` descendants;
- the concatenated text of its `span.pnr` descendants.

Files:

- `options.dfy` (module `Options`): Ruby's nil-or-value (`Option`) and raise-or-return (`Result`).
- `ruby_string.dfy` (module `RubyString`): the two Ruby String operations the rule uses.
  - `String#strip`: strips NUL and the ASCII whitespace characters tab, line feed, vertical tab, form feed, carriage return and space.
  - `str[b..e]` for an inclusive range: a negative bound counts from the end; the result is nil when the start lies outside `0..length`; the length is clamped at zero.
- `listing.dfy` (module `Listings`): the node datatype and one function per field rule, composed by `Derive`.
  - The title link is the anchor at index 1.
  - `name` is the stripped link text.
  - `url` is `http://sfbay.craigslist.org` followed by the raw `href`.
  - `price` is the price text as is.
  - `location` is the `span.pnr` text sliced with `[3..-13]`.
- `scrape.dfy` (module `Scrape`): the `results` array and the loop that fills it.
  - `Run` is the imperative loop over the nodes.
  - `RunSpec` states the run as a function, built on `ExtractAll`, which walks the per-node outcomes and stops at the first error.
  - The constants of the fetch and the search form are recorded as `Address`, `SearchQuery`, `MinAsk` and `MaxAsk`.

Edge behaviour of the code, which the model follows:

- A node with fewer than two anchors makes the whole script fail. The script calls `nil.text` at scrape.rb:105. The same happens when the second anchor has no `href`: the script calls `nil.value` at scrape.rb:106. The node is not skipped. The run ends with `Aborted`, the CSV file is never written, and the in-memory `results` hold only the header and the rows of earlier nodes.
- A `span.pnr` text of fewer than 3 characters gives a nil location. This includes a node with no such span. A text of 3 to 15 characters gives `""`. A longer text loses exactly its first 3 and last 12 characters.
- Because of `[3..-13]`, a 16-character location text such as `"  (Noe Valley)  "` keeps only its character at offset 3, `"N"` (`Listings.SixteenCharLocation`).

## Model

| member | source | states |
|---|---|---|
| `RubyString.TrimLeft` | scrape.rb:105 | lstrip leaves no leading strip-space, and everything it removed was strip-space |
| `RubyString.TrimRight` | scrape.rb:105 | rstrip leaves no trailing strip-space, and everything it removed was strip-space |
| `RubyString.TrimLeftIsSuffix` | scrape.rb:105 | what lstrip returns is a suffix of its input |
| `RubyString.TrimRightIsPrefix` | scrape.rb:105 | what rstrip returns is a prefix of its input |
| `RubyString.StripCharacterization` | scrape.rb:105 | `Strip`, the model of `.strip`, returns a contiguous substring with no outer whitespace; only whitespace is cut on either side, so inner whitespace is kept |
| `RubyString.StripUnique` | scrape.rb:105 | the converse for `Strip`: any split of a string into whitespace, a piece with no outer whitespace, and whitespace determines strip's result as that piece |
| `RubyString.StripIdempotent` | scrape.rb:105 | stripping a stripped string changes nothing |
| `RubyString.RangeSlice` | scrape.rb:114 | Ruby `str[b..e]` is nil exactly when the normalised start is outside `0..n`; otherwise it is empty when the end falls before the start, and otherwise as long as the inclusive range clamped to the string |
| `RubyString.RangeSliceIsSubstring` | scrape.rb:114 | a non-nil slice is the contiguous run of the string starting at the normalised start |
| `Listings.UrlOf` | scrape.rb:106 | a url exists exactly when the link has an `href`, and it is the site base followed by the raw `href`, character for character; otherwise `MissingHref` |
| `Listings.Derive` | scrape.rb:97-114 | a node yields a record exactly when it has a second anchor with an `href` (the anchor at index 1); `MissingLink` exactly when it has fewer than two anchors; `MissingHref` exactly when the second anchor lacks `href` |
| `Listings.DeriveFields` | scrape.rb:105-114 | the record's name, url, price and location are the stripped title text, base plus `href`, the price text, and the `[3..-13]` slice of the `span.pnr` text |
| `Listings.LocationCases` | scrape.rb:114 | `LocationOf`, the model of `.text[3..-13]`, is nil for fewer than 3 characters and `""` for 3 to 15; for 16 or more it is the `n-15` characters from offset 3, with the raw text being 3 characters, the location, then 12 characters |
| `Listings.NameProperties` | scrape.rb:105 | a record's name (`Strip` of the title text) is trimmed from the title text and is unchanged by another strip |
| `Listings.UrlProperties` | scrape.rb:97-106 | a record's url starts with `http://sfbay.craigslist.org` and the rest is exactly the second anchor's `href` |
| `Listings.PriceProperties` | scrape.rb:113 | a record's price is the `span.price` text unchanged |
| `Listings.PriceNeverFails` | scrape.rb:113 | whether a node yields a record does not depend on its price text; an empty price text (no price spans) is not an error |
| `Listings.QuotedAnchorExample` | scrape.rb:85-106 | the title anchor quoted in the script's comment yields name `3bd/1.5 Bath with Yard & Garden` and url `http://sfbay.craigslist.org/sfc/apa/5015026228.html` |
| `Listings.SixteenCharLocation` | scrape.rb:114 | a 16-character location text keeps only its character at offset 3 |
| `Scrape.Rows` | scrape.rb:124 | there is one row per record, and row i is `[name, url, price, location]` of record i |
| `Scrape.Collect` | scrape.rb:56-125 | a completed walk has record i from outcome i for every i; a stopped walk stops at an error and has records from exactly the outcomes before it |
| `Scrape.CollectCompletes` | scrape.rb:56-125 | the walk completes with exactly the records when all outcomes are records |
| `Scrape.CollectStopsAt` | scrape.rb:56-125 | the walk stops at the first error, with the records of the outcomes before it |
| `Scrape.Run` | scrape.rb:18-125 | the loop that starts `results` with the header and appends one row per node gives exactly `RunSpec(nodes)`: completed, or aborted at the first bad node |
| `Scrape.TableStep` | scrape.rb:124 | appending a record adds exactly its row at the end of `results` |
| `Scrape.TableShape` | scrape.rb:21-124 | `results` has the header first, then one row per record in order, and every row has four cells |
| `Scrape.ExtractAllByNode` | scrape.rb:56-125 | extraction, node by node: a completed one has the record of node i at position i; a stopped one stops at a node the rule raises on, after the records of all earlier nodes |
| `Scrape.RunCompletesIff` | scrape.rb:97-106 | a run completes exactly when every node has a second anchor with an `href` |
| `Scrape.CompletedRows` | scrape.rb:18-124 | a completed run over N nodes has N+1 rows: the header, then for node i the row of its stripped title, base plus `href`, price text and sliced location |
| `Scrape.AbortedAtFirstBad` | scrape.rb:56-125 | an aborted run stops at the first malformed node, and the error names the missing piece; `results` then holds the header and one row per earlier node, as a run over those nodes alone would, and nothing for later nodes |
| `Scrape.DerivationsOfPrefix` | scrape.rb:56-114 | the outcomes for a prefix of the nodes are the prefix of the outcomes |
| `Scrape.CollectOfPrefix` | scrape.rb:56-125 | when the first k outcomes are records, walking them alone gives the first k records of the whole walk |
| `Scrape.ExtractAllOfPrefix` | scrape.rb:56-125 | when the first k nodes are well formed, their records are the first k records of the whole run |
| `Scrape.RowsOnlyGrow` | scrape.rb:124 | the rows after any completed prefix of the nodes are a prefix of the final rows, so later iterations never change earlier rows |
| `Scrape.TablePrefix` | scrape.rb:124 | the table of a prefix of the records is a prefix of the table |

## Left out

- Fetching the search page with Mechanize, and the half-second sleep after each request (scrape.rb:7-15, 28): network I/O and wall-clock timing. Only the address is recorded, as `Address`.
- Finding the `searchform` form, filling it and submitting it (scrape.rb:32-43): library behaviour of Mechanize. Only the values `Garden`, 250 and 1500 are recorded, as `SearchQuery`, `MinAsk` and `MaxAsk`. A missing form fails within scrape.rb:32-43, before any node is read.
- CSS selector matching (`p.row`, `a`, `span.price`, `span.pnr`) and Nokogiri's `text` (scrape.rb:49, 97, 113-114). Their results are the inputs to the model: the node sequence and the fields of `ListingNode`.
- Writing `filename.csv` and CSV quoting (scrape.rb:135-142): file I/O through the CSV library. The model ends with the `results` rows that would be written.
- Printing each location with `puts` (scrape.rb:119): console output.
- The `pry-byebug` require and the commented-out breakpoint (scrape.rb:4, 72): debugging tooling.
- `RubyString.Strip`: only NUL and ASCII whitespace are stripped, as in current Ruby. Ruby's encoding checks on strings with invalid bytes are not modelled, because characters here are Dafny `char`s. Older Ruby releases kept a leading NUL in `lstrip`; that difference is not modelled.
- Running the extraction twice on the same page gives the same rows. This holds because every function of the model is deterministic, so no lemma states it.
