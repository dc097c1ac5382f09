# Website record store — a Dafny model

The page keeps a list of website records in the browser's local storage under the single key
`websites`. It fills the list from a CSV file when the page loads. It lets the user search it by
name, append a record answered through prompts, delete a row and update a row. This project models
that record store in `app.js`:

- `parseCSV`, the delimited-text parser;
- the name filter of `searchWebsite`;
- the store-changing parts of `addWebsite`, `deleteWebsite` and `updateWebsite`;
- the save in `loadCSVData`.

All of these are pure functions over the persisted value. The model proves their contracts and the
lemmas that relate them.

Modules (one concept each):

- `Wrappers`: `Option` and `Result`.
- `Seqs`: order-preserving selection.
  - `Positions` gives the increasing indices that satisfy a predicate.
  - `Select` reads a sequence at given indices.
  - `Filter` is `Array.prototype.filter`.
  - `FilterMap` is `map` followed by dropping `null`.
- `Text`: `split` on one character, `join`, ASCII `toLowerCase`, `includes`.
- `JsValue`: the values a field can hold.
  - A field is a string, `null` (a cancelled prompt) or `undefined` (a missing CSV piece).
  - It also models their truthiness and the `Number(...)` coercion that `isNaN`, `<` and `>` apply.
- `Records`: the ten-field record, in CSV column order.
- `Csv`: `parseCSV`, and a CSV writer used as its inverse in round-trip lemmas.
- `Store`: the persisted value, as `Option<seq<Record>>`.
  - `None` means the key is absent, and `Load` reads it as `[]`.
  - The operations of the page act on this value.
- `Findings`: two defects of the page, each modelled as written and as corrected.

Inputs that the page gets from the browser are parameters:
- the text of the fetched CSV file;
- prompt answers, as `Value`, where `Null` is a cancelled prompt;
- the formatted current time, as an opaque string.

Behaviour of the code worth noting:

- `loadCSVData` overwrites the stored list with the parsed file on every page load
  (app.js:12-15). `LoadCsvData` therefore takes no previous state.
- A launch year or visitor count that is cancelled (`null`) or blank passes the numeric check,
  because `isNaN(null)` and `isNaN("")` are false (`AddAcceptsBlankNumbers`).
- An update at an index past the end throws a `TypeError` at app.js:137, before any prompt or
  write. `UpdateWebsite` returns `Failure` for it.
- Only this page writes the key, so the stored value is either absent or a list of records; the
  model's state has no other form.

## Model

| member | source | states |
|---|---|---|
| Text.Split | app.js:22 | `split` on one character gives at least one piece, and no piece contains the separator |
| Text.JoinSplit | app.js:22 | joining the pieces of a split with the separator gives back the original text |
| Text.SplitJoin | app.js:24 | splitting a join of separator-free pieces gives back exactly those pieces |
| Text.SplitAround | app.js:22-24 | the pieces of `a + sep + b` are the pieces of `a` followed by the pieces of `b` |
| Text.SplitSingle | app.js:22-24 | a string without the separator splits into itself alone |
| Text.Lower | app.js:74 | lower-casing keeps the length, maps each character through the ASCII case map, and leaves no upper-case ASCII letter |
| Text.LowerIdempotent | app.js:74 | lower-casing twice is the same as once |
| Text.LowerEqualIffSameLetters | app.js:74 | two strings lower-case to the same string exactly when they have the same length and agree letter by letter up to ASCII case |
| Text.Includes | app.js:79 | `includes` holds exactly when the needle occurs at some index of the haystack |
| Text.IncludesEmpty | app.js:79 | every string includes the empty string |
| Text.FirstCharAbsent | app.js:79 | a needle whose first character is not in the haystack is not included |
| Seqs.Positions | app.js:78-80 | the indices it returns are strictly increasing and in range, they all satisfy the predicate, and every satisfying index is among them |
| Seqs.Filter | app.js:78-80 | the kept elements come from the input and satisfy the predicate, and every satisfying element is kept |
| Seqs.FilterIsSelection | app.js:78-80 | the filter output is the input read at the increasing positions of the satisfying elements, so it is an order-preserving subsequence |
| Seqs.PositionsPrefix | app.js:78-80 | the matching positions within a prefix are the first matching positions of the whole sequence, and every later one lies past the prefix |
| Seqs.CountBefore | app.js:78-80 | exactly `k` matching elements come before the `k`-th matching one |
| Seqs.FilterAgree | app.js:78-80 | two callbacks that agree on every element make `filter` keep the same elements |
| Seqs.FilterAll | app.js:78-80 | a predicate that every element satisfies keeps the whole sequence unchanged |
| Seqs.FilterMapSelects | app.js:23-41 | `map` then dropping `null` yields, in order, the images of exactly the accepted elements |
| Seqs.FilterMapTotal | app.js:23-41 | when no element is rejected, the result is a plain map |
| JsValue.RangeGuard | app.js:110-111 | the guard "isNaN(r) or r < 1 or r > 5" rejects exactly the values that do not convert to a finite number in [1,5] |
| JsValue.NumberOfDecimal | app.js:108-111 | `Number` reads the decimal spelling of every natural number as that number |
| JsValue.DigitStringNumber | app.js:108-111 | a non-empty string of decimal digits converts to its decimal value |
| JsValue.NullIsZero | app.js:108-111 | `Number(null)` is 0, so `isNaN(null)` is false |
| JsValue.BlankIsZero | app.js:108-111 | a string of white space only, the empty string included, converts to 0 |
| Records.FromFields | app.js:24 | the record built from ten values in column order has exactly those fields |
| Records.FromFieldsOfFields | app.js:29-40 | a record is determined by its ten fields in column order |
| Csv.ParseRow | app.js:24-28 | a line yields a record exactly when it has at least ten comma-separated pieces and the first ten are non-empty; the record's field k is the k-th piece and every field is non-empty |
| Csv.ParseLines | app.js:23-41 | no more records than lines, and every record has ten non-empty fields |
| Csv.ParseCsv | app.js:21-43 | at most one record per line after the header, and every record has ten non-empty fields |
| Csv.ParseLinesSelects | app.js:23-41 | the records are those of the lines at the increasing positions of the lines that parse: file order is kept, and no parsing line is missed |
| Csv.EmptyInput | app.js:22-23 | empty text gives no records |
| Csv.HeaderOnly | app.js:22-23 | text without a line break is only a header and gives no records |
| Csv.HeaderIgnored | app.js:22-23 | whatever the first line says, the records come only from the lines after it |
| Csv.ExtraPiecesIgnored | app.js:24 | pieces after the tenth do not change the parse of a line |
| Csv.LeadingCommaDropped | app.js:26-27 | a line that starts with a comma has an empty first field and is dropped |
| Csv.FormatRowParses | app.js:24-40 | the comma-joined line of a record whose fields are non-empty and free of commas and line breaks parses back to that record |
| Csv.ParseFormatCsv | app.js:21-43 | a header followed by the lines of such records parses back to exactly those records, in order |
| Csv.OneGoodOneEmptyLine | app.js:21-43 | a header, a good line and a line with an empty first field (such as `,,,,,,,,,`) give exactly the good line's record |
| Store.LoadMissing | app.js:75 | a missing key reads as the empty list |
| Store.Save | app.js:119 | what is saved is what a later load reads |
| Store.SaveLoadIdempotent | app.js:117-119 | re-saving an unmodified loaded list leaves the next load unchanged |
| Store.LoadCsvData | app.js:12-15 | after the page loads, the store holds exactly the parsed file, and every record has ten non-empty fields |
| Store.FilterByName | app.js:74-80 | the shown records come from the store and their lower-cased names include the lower-cased term, and every stored record whose name matches is shown |
| Store.FilterByNameEmptyTerm | app.js:74-80 | with the empty term every stored record is shown, in order |
| Store.Search | app.js:73-80 | search succeeds exactly when every stored name is a string; then it shows precisely the stored records whose lower-cased name includes the lower-cased term; it returns a view and no new state, so the store is only read |
| Store.SearchAgreesWithFilterByName | app.js:78-80 | wherever the search does not throw, the callback as written (`website_name.toLowerCase().includes(term)`) shows exactly what the corrected filter shows |
| Store.SearchSelects | app.js:78-80 | a successful search is the store read at increasing positions, an order-preserving subsequence |
| Store.SearchEmptyTerm | app.js:74-80 | the empty term returns the whole store, unchanged and in order |
| Store.SearchIgnoresTermCase | app.js:74 | terms that lower-case alike (such as "ABC" and "abc") give the same result |
| Store.AddWebsite | app.js:87-121 | add succeeds exactly when the category is truthy, year and visitors are not NaN, and the rating is a finite number in [1,5]; a falsy category reports that, and with a truthy category a failed numeric check reports invalid numbers; on failure the state is left exactly as it was, not even written; on success the old list is an unchanged prefix and the new record from the answers, stamped with the time, is appended |
| Store.AddRejectsHighRating | app.js:107-115 | a whole-number rating above 5, such as 6, is rejected and the store is unchanged |
| Store.AddAcceptsWholeNumbers | app.js:107-119 | whole-number year and visitors with a rating from 1 to 5, such as 2020, 500 and 3, are accepted and the store grows by one |
| Store.AddAcceptsBlankNumbers | app.js:107-111 | a cancelled launch year and a blank visitor count pass the numeric check |
| Store.DeleteWebsite | app.js:124-129 | for an index in range the store is one shorter, earlier records stay in place and later ones shift down by one; an index past the end leaves the list unchanged |
| Store.DeleteRemovesOne | app.js:126 | deleting cuts out the record at the index and removes exactly one occurrence of it |
| Store.UpdateWebsite | app.js:132-152 | an index past the end throws and writes nothing; otherwise the length is kept and every other record is untouched; in the updated record each field takes a truthy answer or keeps its old value, and the login time becomes the given time |
| Store.UpdateCategoryOnly | app.js:136-149 | an update answering only the category changes the category and the login time and nothing else |
| Findings.SearchThrowsAfterCancelledName | app.js:95-119 | after a successful add with the name prompt cancelled, every search throws |
| Findings.MissingNameShownOnlyForEmptyTerm | app.js:74-80 | in the corrected filter a stored record without a name is shown exactly when the search term is empty, as a record with an empty name is |
| Findings.DeleteFromSearchViewHitsWrongRecord | app.js:124-129 | after a search for "beta" shows only the second of two records, deleting row 0 removes the first record and keeps the one shown |
| Findings.ViewPosition | app.js:78-80 | row `row` of a search view is the stored record at the returned in-range position, and exactly `row` matching records come before that position, so it is that row's own place in the store and not another equal record |
| Findings.DeleteShown | app.js:124-129 | deleting row `row` of a search view cuts the store at that row's own position (the one with exactly `row` matching records before it), which holds the record shown, removes exactly that one occurrence and nothing else; a row past the view leaves the store unchanged |

## Left out

- DOM rendering (`displayWebsites`, app.js:46-70), button wiring, `prompt` and `alert` are user
  interface. Prompt answers are parameters, and the alerts become the `AddOutcome` values.
- The `fetch` of the CSV file and the `DOMContentLoaded` handler (app.js:2-18) are network and
  asynchronous I/O. `ParseCsv` and `LoadCsvData` take the file's text directly.
- `JSON.stringify` and `JSON.parse` of the store are not modelled. Every field is a string or
  `null`, and both survive the round trip, so the persisted value is kept as an abstract sequence.
- `new Date().toLocaleString()` (app.js:101, app.js:143) is not modelled. It becomes the `now`
  parameter.
- Text.Lower: only ASCII letters are mapped. Full Unicode case mapping of `toLowerCase` is not
  modelled.
- JsValue.StringToNumber: values are computed exactly, as reals. Binary64 rounding is not
  modelled. For example, the browser accepts rating "5.0000000000000001" because it rounds to 5,
  but the model rejects it.
- JsValue.IsJsSpace: space characters are the ECMAScript WhiteSpace and LineTerminator code points,
  with the Zs category written out as of Unicode 15.
- Store.DeleteWebsite: the index is a natural number, because the buttons pass `forEach`
  positions. The negative-index behaviour of `splice` is not modelled.

## Findings

| source | as written | input that shows it | evidently intended | confidence | as-written member | corrected member |
|---|---|---|---|---|---|---|
| app.js:95, app.js:79 | the name answer of `addWebsite` is stored unchecked, and the search calls `toLowerCase` on every stored name | add a website with the name prompt cancelled (category "news", year "2020", visitors "500", rating "3"), then search for anything | a record without a name is searched like one with an empty name, which is how the table shows it | high; not executed | Findings.SearchThrowsAfterCancelledName | Store.FilterByName |
| app.js:66-67, app.js:126 | each Delete button passes its row's position in the view on screen, which may be a search result, and `deleteWebsite` splices the whole store at that position | store [alpha, beta], search "beta", press Delete on the only row shown | the record shown on that row is deleted (the Update button at app.js:66 passes the same view position to `updateWebsite`) | high; not executed | Findings.DeleteFromSearchViewHitsWrongRecord | Findings.DeleteShown |
