# VideoKids catalog: a Dafny model

VideoKids is a small catalog of children's videos. It has a React front end and PHP
endpoints over two MySQL tables:
- `VideoKidsCatalog` holds one row per video. Its columns are url, cover, collection,
  language, description, tags, music, album and ethan.
- `VideoKidsHistory` holds one row per play: the video name and the time it was played.

This project models the following and proves properties of them:
- the four catalog endpoints: create a video, edit a video, list the videos, list the
  collections;
- the two endpoints that log a play;
- the editor popup that builds the create and edit requests.

Modules, one per file:

| file | module | what it holds |
|---|---|---|
| `optional.dfy` | `Optional` | `Option` |
| `php_text.dfy` | `PhpText` | PHP's `trim`, `empty`, `isset`, `(int)` and `strtolower`; decoded JSON values |
| `sql_escape.dfy` | `SqlEscape` | `mysqli::real_escape_string`, and how MySQL reads a quoted literal back |
| `lex_order.dfy` | `LexOrder` | string order as a binary collation and `Array.prototype.sort` use it; sorted insertion |
| `catalog_rules.dfy` | `CatalogRules` | the request checks of new-video.php and edit-video.php |
| `catalog_table.dfy` | `CatalogTable` | the table as a class with an AUTO_INCREMENT counter; the INSERT and UPDATE endpoints |
| `catalog_query.dfy` | `CatalogQuery` | get-videos.php and get-collections.php: parameter checks, bindings, ordered selection |
| `history_log.dfy` | `HistoryLog` | insert-history.php and videoHistory.php: timestamps and the history table as a class |
| `editor_form.dfy` | `EditorForm` | NewEditPopup.jsx: iframe src extraction, cover and album names, suggestions, the form state as a class, the cached collection list |

## How the model is put together

- **Endpoints that change the database** are methods of a class:
  - `Catalog` holds `rows: map<int, Entry>` and `nextId`.
  - `History` holds `rows: seq<HistoryRow>`.
  - Each method's `ensures` states the new table and the JSON reply for every branch the
    script takes.
  - Each method keeps the class invariant `Valid()`.
- **Read endpoints** are methods over the table:
  - The SQL `SELECT … ORDER BY` is modelled by a scan, `SelectRows` or `SelectCollections`.
  - Their contracts say which rows come back and in what order.
  - Two lemmas show that the ordered lists are fixed by their members:
    `VideosOrderedUnique` and `LexOrder.StrictlyAscendingUnique`.
- **The React component** is the class `Form`:
  - its fields are the state hooks it uses (formData, iframeInput, error);
  - its methods are the handlers and the two effects that set cover and album;
  - `CollectionsCache` models the localStorage entry the component reads and updates.
- **I/O is passed in as parameters.** Whether the connection, prepare and execute steps
  succeed, the clock (`now`) and `Math.random()` (a real `r` with 0 ≤ r < 1) are all
  parameters.
- **A JSON body** is `Option<map<string, Value>>`. `None` stands for a body that does not
  decode.

## Model

| member | source | states |
|---|---|---|
| PhpText.TrimLeft | public/backend/new-video.php:59 | what remains starts with a character trim keeps, and only trim characters were cut from the front |
| PhpText.TrimRight | public/backend/new-video.php:59 | what remains ends with a character trim keeps, and only trim characters were cut from the back |
| PhpText.Trim | public/backend/new-video.php:59-67 | the result of trim has no space, tab, newline, carriage return, NUL or vertical tab at either end |
| PhpText.TrimCutsAway | public/backend/new-video.php:59-67 | trim's result is a contiguous slice of its input, and only trim characters lie on either side of it |
| PhpText.TrimIdempotent | public/backend/new-video.php:59-67 | trimming twice gives what trimming once gives |
| PhpText.TrimOfTrimmed | public/backend/new-video.php:59-67 | trim leaves a string unchanged when it starts and ends with a kept character |
| PhpText.NaturalText | public/backend/edit-video.php:47 | the decimal spelling of a number is non-empty digits, starting with '0' only for zero |
| PhpText.IntText | public/backend/edit-video.php:47 | the text of an int is already trimmed, and is empty() exactly for 0 |
| PhpText.FieldText | public/backend/new-video.php:49 | `trim($input[$field] ?? '')` is a trimmed string |
| PhpText.ReadCons | public/backend/new-video.php:65 | a leading digit is worth its value times ten to the number of digits after it |
| PhpText.DigitsPrefix | public/backend/new-video.php:65 | the run it measures is the longest run of digits at the start, and the value it returns is the number those digits spell (after the digits already read) |
| PhpText.Saturate | public/backend/new-video.php:65 | a number is clamped into PHP's 64-bit integer range and is unchanged when it already lies inside it |
| PhpText.SignedDigits | public/backend/new-video.php:65 | the integer at the very start of a string: the number spelled by the longest digit run, negated after a '-', and 0 when no sign or digit starts the string |
| PhpText.LeadingInt | public/backend/new-video.php:65 | `(int)` of a string is a 64-bit integer; a string that starts with a digit gives the saturated number of its leading digit run, and one that starts with a sign and a digit gives that number with the sign; a string of digits gives its own number; a string whose first character is not whitespace, a sign or a digit gives 0 |
| PhpText.LeadingIntSkipsSpace | public/backend/new-video.php:65 | whitespace before the number is skipped |
| PhpText.LeadingIntTen | public/backend/new-video.php:65 | `(int)"10"` is 10 |
| PhpText.LeadingIntSignedExample | public/backend/new-video.php:65 | `(int)" -42px"` is -42 |
| PhpText.LeadingIntLetterFirst | public/backend/new-video.php:65 | `(int)"abc1"` is 0 |
| PhpText.IntCast | public/backend/edit-video.php:55 | `(int)` of a JSON value: an integer is kept, true is 1, false and null are 0, a string gives a 64-bit integer |
| PhpText.Lower | public/backend/get-videos.php:34 | strtolower lowers each ASCII letter in place and keeps the length |
| SqlEscape.Escape | public/backend/insert-history.php:34 | escaping at most doubles the length |
| SqlEscape.LiteralValue | public/backend/videoHistory.php:30 | reading a literal back never makes it longer |
| SqlEscape.LiteralValueOfEscape | public/backend/videoHistory.php:27-30 | MySQL reads an escaped string, placed between quotes, back as the original string |
| SqlEscape.EscapeStaysInLiteral | public/backend/videoHistory.php:27-30 | an escaped string cannot close the quoted literal it is put into |
| SqlEscape.EscapeUnchangedIff | public/backend/insert-history.php:34 | escaping changes a string exactly when it holds a character that needs escaping |
| SqlEscape.EscapeAppend | public/backend/insert-history.php:34 | escaping works character by character, so it distributes over concatenation |
| LexOrder.LessTransitive | public/backend/get-collections.php:71 | the collation order is transitive |
| LexOrder.LessTotal | public/backend/get-collections.php:71 | any two different strings are ordered one way or the other |
| LexOrder.Insert | src/components/NewEditPopup.jsx:394 | inserting into an ascending list gives an ascending permutation with one more element |
| LexOrder.Sort | src/components/NewEditPopup.jsx:394 | `sort()` returns an ascending permutation of its input |
| LexOrder.SortDistinctIsStrict | src/components/NewEditPopup.jsx:393-394 | sorting pairwise different strings gives a strictly ascending list |
| LexOrder.InsertKeepsStrict | src/components/NewEditPopup.jsx:393-394 | inserting a new string keeps a list strictly ascending |
| LexOrder.StrictlyAscendingUnique | public/backend/get-collections.php:37 | two strictly ascending lists with the same members are equal, so the DISTINCT … ORDER BY result is determined |
| CatalogRules.FirstWhere | public/backend/new-video.php:47-56 | finds the first element with the property, and None exactly when no element has it |
| CatalogRules.CheckRequired | public/backend/new-video.php:46-56 | the foreach loop itself: it stops at the first of url, cover, collection whose trimmed value is empty(), and returns what FirstMissing returns; CheckFields and the endpoints use FirstMissing, which this loop is proved equal to |
| CatalogRules.Prepare | public/backend/new-video.php:58-67 | url, cover and collection are the trimmed fields; language, description, tags, album and ethan are the trimmed field when it is set and ES or "" when it is not; music is the (int) cast when set and 0 otherwise; every text column is trimmed |
| CatalogRules.MissingVideoId | public/backend/edit-video.php:47 | when it lets a request through, the id is set and its trimmed text is not empty(); for an integer id it refuses exactly the id 0 |
| CatalogRules.IntIdBlank | public/backend/edit-video.php:47 | the text of an integer id is blank exactly for 0 |
| CatalogRules.CheckFields | public/backend/new-video.php:46-86 | accepts exactly when no field is missing, the language is ES or EN and music is 0 or 1; the checks run in that order; an accepted row is the prepared row and is well formed |
| CatalogRules.CheckInsert | public/backend/new-video.php:33-86 | a body that does not decode is rejected as invalid JSON; otherwise the field checks decide |
| CatalogRules.CheckUpdate | public/backend/edit-video.php:34-97 | invalid JSON first; then a missing or empty id; then the same field checks; the id is cast with (int) |
| CatalogRules.UpdateChecksMatchInsert | public/backend/edit-video.php:57-97 | once the id is present, edit-video accepts and refuses exactly what new-video does, with the same row |
| CatalogTable.StoreKeepsValid | public/backend/new-video.php:88-118 | storing a well-formed row under an issued id keeps the table invariant |
| CatalogTable.Catalog.constructor | public/backend/new-video.php:88-91 | an empty table whose counter starts at 1 |
| CatalogTable.Catalog.NewVideo | public/backend/new-video.php:33-143 | a rejected request or a database error changes nothing; otherwise exactly one row is added under an id no row had, the counter moves on, and the reply echoes the stored values with music as a boolean |
| CatalogTable.Catalog.InsertChecked | public/backend/new-video.php:88-143 | the INSERT branch given the checks' verdict: rejected, database error, or one fresh row plus the echo |
| CatalogTable.Catalog.EditVideo | public/backend/edit-video.php:34-198 | a rejected request or a database error changes nothing; an unknown id changes nothing; otherwise the row is replaced and no other row changes; affected_rows is 0 with no echo exactly when nothing changed, otherwise 1 with the echo |
| CatalogTable.Catalog.UpdateChecked | public/backend/edit-video.php:99-198 | the existence check and the UPDATE, given the checks' verdict |
| CatalogQuery.LanguageRefused | public/backend/get-videos.php:13-17 | only a given parameter is refused, and ES, EN, all or no parameter pass |
| CatalogQuery.MusicRefused | public/backend/get-videos.php:34-37 | only a given parameter is refused; an accepted spelling has 1, 4 or 5 characters; a lower-case spelling is refused exactly when it is not true, false, 1 or 0 (the strict reading of the check) (corrected — see ## Findings) |
| CatalogQuery.MusicFlag | public/backend/get-videos.php:41 | the bound flag is 0 or 1, and 1 only for "true" in any case or "1" |
| CatalogQuery.MusicFlagMeaning | public/backend/get-videos.php:41 | for an accepted spelling the flag is 1 exactly for "true" in any case or "1", and 0 exactly for "false" or "0" |
| CatalogQuery.MusicRefusedAsWritten | public/backend/get-videos.php:34 | the check as written, with PHP 8's loose `in_array`: it refuses only what the strict check refuses, and it accepts any digit string worth 0 or 1, such as "01" |
| CatalogQuery.MusicLooseMatchExample | public/backend/get-videos.php:34-42 | "01" passes the music check as written but is bound as music = 0 |
| CatalogQuery.BindFilters | public/backend/get-collections.php:41-68 | refuses exactly for an unknown language or music spelling, checking the language first; otherwise binds one "s" value for a language filter and one "i" value for a music filter, in that order; get-videos.php:12-43 runs the same checks after defaulting the language to "all" (corrected — see ## Findings) |
| CatalogQuery.KeyBeforeTransitive | public/backend/get-videos.php:46 | ORDER BY collection, id is transitive |
| CatalogQuery.KeyBeforeTotal | public/backend/get-videos.php:46 | rows with different ids are ordered one way or the other |
| CatalogQuery.InsertRow | public/backend/get-videos.php:46 | placing a row by (collection, id) keeps the list ordered and adds exactly that row |
| CatalogQuery.SelectRows | public/backend/get-videos.php:46-60 | the statement returns exactly the matching rows, ordered by collection and then id |
| CatalogQuery.GetVideos | public/backend/get-videos.php:8-84 | language defaults to "all"; refuses exactly for a bad language or music, language first; otherwise returns each matching row once, ordered, with music as a boolean; count is the number of rows, and the filters echo the parameters (corrected — see ## Findings) |
| CatalogQuery.ShowRows | public/backend/get-videos.php:62-73 | the fetch loop turns each returned row, in order, into a video with music as a boolean |
| CatalogQuery.ShownRowsMatch | public/backend/get-videos.php:46-73 | the videos the loop builds keep the ORDER BY order and are exactly the matching rows of the table |
| CatalogQuery.VideosOrderedUnique | public/backend/get-videos.php:46 | two ordered video lists with the same members are equal, so the reply is determined by the table |
| CatalogQuery.SelectCollections | public/backend/get-collections.php:37-71 | the statement returns the non-empty collections of matching rows, each once, in ascending order |
| CatalogQuery.GetCollections | public/backend/get-collections.php:33-122 | refuses exactly for a bad parameter, language first; otherwise returns a strictly ascending list of exactly the non-empty collections of matching rows; count is its length and timestamp is now; "filters" appears exactly when a parameter was given (corrected — see ## Findings) |
| HistoryLog.Pad2 | public/backend/insert-history.php:35 | two digits |
| HistoryLog.ReadPad2 | public/backend/insert-history.php:35 | a two-digit field reads back as its number |
| HistoryLog.ReadPad4 | public/backend/insert-history.php:35 | a four-digit year reads back as its number |
| HistoryLog.Stamp | public/backend/videoHistory.php:28 | `Y-m-d H:i:s` is 19 characters |
| HistoryLog.MinuteStamp | public/backend/insert-history.php:35 | `Y-m-d H:i:00` is the full timestamp of the same minute with the seconds at zero |
| HistoryLog.ParseStamp | public/backend/insert-history.php:35 | whatever it accepts is a valid date and time |
| HistoryLog.StampParses | public/backend/videoHistory.php:28 | a formatted timestamp parses back to the same date and time |
| HistoryLog.ParsedIsStamp | public/backend/videoHistory.php:28 | any text that parses is the formatting of what it parses to, so the format is one to one |
| HistoryLog.NameMissing | public/backend/insert-history.php:26 | a body that is not JSON counts as missing the name; when the check passes, the name is set and its trimmed text is not empty() |
| HistoryLog.BoundNameAsWritten | public/backend/insert-history.php:34 | the name the code as written binds: the escaped trimmed name, never shorter than the trimmed name |
| HistoryLog.BoundNameAsWrittenAltersName | public/backend/insert-history.php:34-50 | the escaped name that gets bound differs from the trimmed name exactly when the name holds a character that needs escaping |
| HistoryLog.BoundNameAsWrittenExample | public/backend/insert-history.php:34-50 | "Tom's" is stored as `Tom\'s` by the code as written, and as "Tom's" by the corrected model |
| HistoryLog.StoredName | public/backend/videoHistory.php:27-30 | the stored name is the trimmed name, read back from the escaped literal |
| HistoryLog.AppendGood | public/backend/insert-history.php:52 | appending a good row keeps every row good |
| HistoryLog.History.constructor | public/backend/insert-history.php:38 | an empty history |
| HistoryLog.History.InsertHistory | public/backend/insert-history.php:16-67 | no connection, a missing or blank name, a failed prepare or a failed execute each change nothing and are reported; otherwise exactly one row is appended, with the trimmed name and the current minute (corrected — see ## Findings) |
| HistoryLog.History.LogPlayLegacy | public/backend/videoHistory.php:12-36 | the same checks; a successful query appends exactly one row, with the trimmed name and the current second |
| EditorForm.JsTrim | src/components/NewEditPopup.jsx:13 | the result has no whitespace at either end, and is empty exactly when the input is blank |
| EditorForm.NextQuote | src/components/NewEditPopup.jsx:8 | finds the first quote at or after a position, or shows there is none |
| EditorForm.FirstMatch | src/components/NewEditPopup.jsx:8 | the leftmost position where the src pattern matches, or none |
| EditorForm.ExtractSrc | src/components/NewEditPopup.jsx:5-14 | empty input gives ""; otherwise the capture of the leftmost match; with no match, the trimmed input |
| EditorForm.ExtractSrcOfTag | src/components/NewEditPopup.jsx:5-14 | an iframe tag with a quoted src yields exactly that url |
| EditorForm.ExtractSrcOfBareText | src/components/NewEditPopup.jsx:13 | pasting a bare URL yields it trimmed |
| EditorForm.RandomSuffix | src/components/NewEditPopup.jsx:19 | the random number has five digits, from 10000 to 99999 |
| EditorForm.SkipSpaces | src/components/NewEditPopup.jsx:20 | drops exactly the leading whitespace: what it drops is whitespace and what remains is a suffix that starts with a non-space |
| EditorForm.DashRuns | src/components/NewEditPopup.jsx:20 | the result has no whitespace, is never longer, and is empty only for empty input |
| EditorForm.DashRunsSplit | src/components/NewEditPopup.jsx:20 | a whole run of whitespace between two non-space neighbours becomes exactly one dash, and the text on either side is rewritten on its own |
| EditorForm.DashRunsWithoutSpace | src/components/NewEditPopup.jsx:20 | text without whitespace is left as it is |
| EditorForm.CoverName | src/components/NewEditPopup.jsx:17-22 | blank collection gives ""; otherwise the lowered collection with whitespace runs as dashes, a dash and the five-digit number |
| EditorForm.CoverNameShape | src/components/NewEditPopup.jsx:17-22 | a generated cover ends with a dash and five digits and contains no whitespace |
| EditorForm.AlbumName | src/components/NewEditPopup.jsx:25-28 | a blank cover gives ""; otherwise the cover followed by "-a" |
| EditorForm.AlbumOfGeneratedCover | src/components/NewEditPopup.jsx:131-132 | a generated cover is never blank, so its album is always the cover followed by "-a" |
| EditorForm.KeepSuggested | src/components/NewEditPopup.jsx:108-110 | keeps, in order, exactly the collections whose lowered text contains the lowered input, with their multiplicities |
| EditorForm.Suggestions | src/components/NewEditPopup.jsx:103-113 | blank input shows the whole list; otherwise an ordered sublist holding exactly the matching collections |
| EditorForm.InitialFormData | src/components/NewEditPopup.jsx:31-57 | edit mode copies the row, ethan included, with language ES when empty; otherwise the empty form with language ES and music off (corrected — see ## Findings) |
| EditorForm.FirstFormError | src/components/NewEditPopup.jsx:302-316 | no error exactly when url, cover and collection are not blank; otherwise the first blank one |
| EditorForm.SubmitPayload | src/components/NewEditPopup.jsx:367-370 | the body carries every form field, ethan included, with music as 1 or 0 (corrected — see ## Findings) |
| EditorForm.SubmitPayloadAsWritten | src/components/NewEditPopup.jsx:31-57 | the component's body agrees with the full one on every key it has, but has no ethan key |
| EditorForm.StoredRowPassesChecks | public/backend/edit-video.php:46-97 | a body carrying a stored row passes every check of edit-video.php and yields that row, with ethan emptied when the key is absent |
| EditorForm.StoredRowFieldsPass | public/backend/edit-video.php:57-97 | the field checks alone, on such a body |
| EditorForm.EditRoundTrip | public/backend/edit-video.php:69-78 | opening a stored row in the editor and saving it unchanged produces an update to the same row |
| EditorForm.EditRoundTripAsWritten | public/backend/edit-video.php:78 | with the component as written, the same save replaces the row's ethan with "" |
| EditorForm.WithText | src/components/NewEditPopup.jsx:283-286 | a text input changes its own field and nothing else |
| EditorForm.CollectionEffectOn | src/components/NewEditPopup.jsx:129-140 | in new mode with a non-blank collection, a fresh cover, and the album follows it when music is on and is empty otherwise; otherwise nothing changes |
| EditorForm.CoverEffectOn | src/components/NewEditPopup.jsx:143-151 | in new mode with music on and a non-blank cover the album becomes the cover followed by "-a"; otherwise nothing changes; in new mode the album then follows the cover |
| EditorForm.EffectsSettle | src/components/NewEditPopup.jsx:129-151 | the cover written by the collection effect triggers the cover effect, which then changes nothing |
| EditorForm.Form.constructor | src/components/NewEditPopup.jsx:80-95 | the initial form; the iframe field shows the row's url when editing; no error |
| EditorForm.Form.IframeChanged | src/components/NewEditPopup.jsx:196-205 | keeps the typed text and sets url to the extracted src, nothing else |
| EditorForm.Form.CollectionChanged | src/components/NewEditPopup.jsx:208-277 | typing a collection or selecting a suggestion sets the collection; in new mode a non-blank value also gets a fresh cover, and with music on the album that belongs to it |
| EditorForm.Form.InputChanged | src/components/NewEditPopup.jsx:280-299 | a text field takes its value; unchecking music empties the album; checking it in new mode with a non-blank cover derives the album |
| EditorForm.Form.CollectionEffect | src/components/NewEditPopup.jsx:129-140 | the form becomes what the collection effect makes of it |
| EditorForm.Form.CoverEffect | src/components/NewEditPopup.jsx:143-151 | the form becomes what the cover effect makes of it |
| EditorForm.Form.ValidateForm | src/components/NewEditPopup.jsx:302-316 | true exactly when no field is blank; otherwise records the first blank field and the form is unchanged |
| EditorForm.Form.Submit | src/components/NewEditPopup.jsx:351-370 | an invalid form sends nothing and shows the error; a valid one clears the error and sends the payload, which carries ethan (corrected — see ## Findings) |
| EditorForm.CacheHit | src/components/NewEditPopup.jsx:159-170 | the cached list is used exactly when there is one and it is less than an hour old |
| EditorForm.CacheLifetime | src/components/NewEditPopup.jsx:156-165 | an entry serves exactly the reads before its time plus 3600000 ms |
| EditorForm.CollectionsCache.constructor | src/components/NewEditPopup.jsx:159 | nothing cached |
| EditorForm.CollectionsCache.Fetch | src/components/NewEditPopup.jsx:154-193 | a fresh cached list is returned and kept; otherwise a fetched list is returned and stored with its time; a failed fetch stores nothing |
| EditorForm.CollectionsCache.Clear | src/components/NewEditPopup.jsx:345-348 | removes the cached list |
| EditorForm.CollectionsCache.RecordSaved | src/components/NewEditPopup.jsx:389-400 | after a save in new mode a collection the cache lacks is added and the list re-sorted under the old timestamp, giving a strictly ascending permutation; the list keeps each collection once; otherwise nothing changes |
| EditorForm.AppendNewKeepsDistinct | src/components/NewEditPopup.jsx:393-394 | appending a collection the list lacks keeps the elements pairwise different |
| EditorForm.StrictIsDistinct | src/components/NewEditPopup.jsx:393-394 | a strictly ascending list holds each collection once |

## Left out

- The HTTP layer is not modelled: method checks, CORS and headers, `http_response_code`,
  the connection include and `$conn->close()`.
- JSON values are strings, integers, booleans and null. Floats, arrays and objects inside
  the body are not modelled.
- PHP's `(int)` cast of a string is modelled as its leading integer, saturated to PHP's
  64-bit range as PHP does. Fractions and exponents in the string are not modelled.
- PhpText.IntCast: a JSON integer (`Value.Int`) is unbounded. PHP's `json_decode` turns an
  integer beyond 64 bits into a float, and the cast of that float is not modelled.
- CatalogTable.Catalog.NewVideo: the AUTO_INCREMENT counter `nextId` is unbounded. The
  column's maximum, and the error MySQL raises when it is reached, are not modelled.
- The catalog's `title` column is read by get-videos.php but never written by the modelled
  endpoints. It is left out of the rows.
- MySQL collation is modelled as code-point order. The default collation is
  case-insensitive, and that is not modelled.
- JavaScript's `sort()` compares UTF-16 code units; the model compares characters.
- Lower and LowerChar map only ASCII letters. PHP's `strtolower` does the same, but the
  front end's `toLowerCase` covers all of Unicode, and that wider mapping is not modelled.
- Time zones are not modelled. `date()` receives the current local time as a parameter.
- The debug.log writes of the history endpoints are not modelled.
- Prepare and execute failures of get-videos.php and get-collections.php are not modelled.
  Their statements are assumed to run.
- `real_escape_string` is modelled for a single-byte character set. Multi-byte character
  sets and the NO_BACKSLASH_ESCAPES SQL mode are not modelled.
- `Math.random()` and `Math.floor` are computed over exact reals, not doubles.
- React's scheduling is not modelled. The two effects are methods that the caller invokes
  after a change to the state they depend on.
- The component's dropdown, focus handling, clipboard copies, loading and success flags,
  the `onSave` and `onClose` callbacks, and the fetch and JSON parsing of responses are not
  modelled.
- EditorForm.CollectionsCache.Fetch: requires that a fetched list names each collection
  once. The component takes the list from get-collections.php, whose reply is proved
  strictly ascending, and so free of repeats, in CatalogQuery.GetCollections.
- CatalogQuery.MusicRefusedAsWritten: models PHP 8's loose comparison only for digit
  strings with surrounding whitespace. Signs, fractions and exponents ("+1", "1.0", "1e0")
  also compare equal to "1" and are not covered.
- The code as written differs from the corrected members in three places. Each is a row
  of ## Findings:
  - insert-history.php binds the escaped name, so "Tom's" is stored as `Tom\'s`. This is
    HistoryLog.BoundNameAsWritten; History.InsertHistory stores the trimmed name.
  - the component's form and request body have no ethan key. This is
    EditorForm.SubmitPayloadAsWritten; InitialFormData, SubmitPayload and Form.Submit carry
    ethan.
  - get-videos.php and get-collections.php check music with a loose `in_array`, which also
    accepts numeric spellings such as 01. This is CatalogQuery.MusicRefusedAsWritten;
    MusicRefused, BindFilters, GetVideos and GetCollections refuse them.
- history.php, Video.jsx, VideoPlayer.jsx, Catalog.jsx and App.js are not part of this
  model.

## Findings

| source | as written | input that shows it | evidently intended | confidence | as-written member | corrected member |
|---|---|---|---|---|---|---|
| public/backend/insert-history.php:34-50 | the name is escaped with `real_escape_string` and then bound to a prepared statement, so the escape characters are stored | videoName "Tom's" is stored as `Tom\'s` | store the trimmed name itself, as videoHistory.php's quoted literal does | high, not executed | HistoryLog.BoundNameAsWrittenExample | HistoryLog.History.InsertHistory |
| src/components/NewEditPopup.jsx:31-57 | the edit form never carries `ethan`, and edit-video.php:78 writes '' for a missing ethan | opening a row whose ethan is "x" and saving it unchanged stores ethan "" | an unchanged save leaves the row as it was | medium, not executed | EditorForm.EditRoundTripAsWritten | EditorForm.EditRoundTrip |
| public/backend/get-videos.php:34-41 | `in_array` without its strict flag accepts any numeric spelling of 0 or 1, but the flag is computed with `===`; get-collections.php:59-66 does the same | music=01 passes the check and filters music = 0 | refuse spellings other than true, false, 1 and 0, or read 01 as 1 | medium, not executed | CatalogQuery.MusicLooseMatchExample | CatalogQuery.BindFilters |
