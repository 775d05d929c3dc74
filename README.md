# String analyzer service — verified model

The service stores strings. For each submitted string it computes a property record:
- the length in UTF-16 code units;
- a palindrome flag, taken over the lower-cased letters and digits;
- the number of distinct cleaned characters;
- the word count;
- the SHA-256 digest in hex;
- a character-frequency map.

Entries are kept in insertion order, keyed by their digest. They can be created, looked up by
value and deleted by value. Two list endpoints select stored entries:
- a structured filter over five query parameters;
- a natural-language filter whose phrase rules produce the same typed filter record.

The model has six modules:

| file | module | models |
|---|---|---|
| `wrappers.dfy` | `Wrappers` | `Option` and `Result`, standing in for `undefined` and for the error responses |
| `js.dfy` | `JsRuntime` | the JavaScript built-ins the code relies on: ASCII `toLowerCase`, the `\s` white-space set, `trim`, `length`, `includes`, truthiness, `isNaN` and base-10 `parseInt` on strings |
| `analyzer.dfy` | `Analyzer` | `isPalindrome`, `getCharacterFrequencyMap`, `uniqueCharacters`, the word-count expression and the property record |
| `store.dfy` | `Store` | the `storedString` array as the class `EntryStore`, with create, lookup and delete |
| `filters.dfy` | `StructuredFilter` | `GET /strings` with query parameters: validation, the chain of filters, and the `filters_applied` echo |
| `natural.dfy` | `NaturalLanguage` | `GET /strings/filter-by-natural-language`: the phrase rules, the parse failure, the filtering and the conflict check |

Modelling choices:
- **Hash.** SHA-256 is the store's `hash` parameter. The only hypothesis about it is that it may be injective (`Store.Injective`), and it is assumed only where it is needed: when a lookup by value is to return that value's entry.
- **NLP library.** It is two parameters, both applied to the lower-cased, trimmed query:
  - `has(text, phrase)` stands for `doc.has(phrase)`;
  - `numbersIn(text)` stands for the values of the extracted numbers, taken to be integers. The library hands them over as text, the decimal writing of each value (`JsRuntime.Decimal`); this matters only where the code applies `+` to one (see Findings).
- **Clock.** The creation time stamp is the parameter `now`.
- **Request body.** The submitted `value` is a `JsValue`, so that absent, falsy and non-string values can be told apart.

## Model

| member | source | states |
|---|---|---|
| JsRuntime.TrimStart | app.js:68 | the result is a suffix of the input with no leading white space, and everything dropped is white space |
| JsRuntime.TrimEnd | app.js:68 | the result is a prefix of the input with no trailing white space, and everything dropped is white space |
| JsRuntime.Utf16Length | app.js:65 | `length` counts UTF-16 code units: between the number of code points and twice that |
| JsRuntime.Utf16LengthAppend | app.js:65 | the length of a concatenation is the sum of the lengths |
| JsRuntime.Utf16LengthOne | app.js:107 | a `contains_character` of length 1 is exactly one code point from the Basic Multilingual Plane |
| JsRuntime.IncludesEmpty | app.js:130-132 | every string includes the empty string |
| JsRuntime.IncludesChar | app.js:130-132 | `includes` of a one-character string holds exactly when that character occurs |
| JsRuntime.DigitPrefix | app.js:118 | `parseInt` reads the longest prefix of decimal digits |
| JsRuntime.ParseIntOfDecimal | app.js:103-105 | an integer written in decimal passes the `isNaN` check, and `parseInt` gives that integer back |
| JsRuntime.ParseIntOfNumeric | app.js:103-105 | once `isNaN` has accepted a parameter, `parseInt` gives NaN exactly for blank text |
| JsRuntime.DecimalThenOne | app.js:175 | appending the text "1" to an integer written in decimal gives numeric text denoting `10n + 1`, or `10n - 1` for a negative `n` |
| Analyzer.KeepAlnum | app.js:15 | the cleaned string is no longer than the input and holds only `a-z` and `0-9` |
| Analyzer.KeepAlnumCounts | app.js:15 | cleaning keeps every `a-z` or `0-9` character exactly as often as the input holds it, and no other character |
| Analyzer.KeepAlnumAppend | app.js:15 | cleaning a concatenation gives the concatenation of the cleaned parts, so the kept characters stay in their order |
| Analyzer.CleanOfAlnum | app.js:15 | cleaning is idempotent |
| Analyzer.Reverse | app.js:16 | the reversal has the same length, and position `i` holds the input's character at `n-1-i` |
| Analyzer.ReverseReverse | app.js:16 | reversing twice gives the input back |
| Analyzer.PalindromeMirror | app.js:14-18 | `isPalindrome` holds exactly when the cleaned string reads the same from both ends; a string with no letters or digits is a palindrome |
| Analyzer.PalindromeOfReversedClean | app.js:14-18 | the reversed cleaned string has the same palindrome flag as the original |
| Analyzer.CharSetSize | app.js:35-36 | a string has at most as many distinct characters as its length, and a nonempty one has at least one |
| Analyzer.UniqueCharacters | app.js:33-37 | the unique count is at most the cleaned length, and it is 0 exactly when the cleaned string is empty |
| Analyzer.FrequenciesCount | app.js:27-29 | the keys of the one-pass frequency map are the distinct characters, and each count is that character's number of occurrences, at least 1 |
| Analyzer.CharacterFrequencyMap | app.js:24-31 | the loop builds the frequency map of the cleaned string: its keys are the distinct cleaned characters, and each count is the number of occurrences |
| Analyzer.FirstOccurrences | app.js:27-29 | the order in which the map receives its keys lists each distinct character once |
| Analyzer.FrequenciesSum | app.js:27-29 | the counts of the frequency map add up to the length of the cleaned string |
| Analyzer.LeadingWord | app.js:68 | the first piece of a split is the longest prefix without white space |
| Analyzer.Pieces | app.js:68 | `split(/\s+/)` always yields at least one piece |
| Analyzer.WordStartsOfTrim | app.js:68 | trimming removes no word |
| Analyzer.PiecesCountWords | app.js:68 | on a string with no white space at either end, splitting yields one piece per word |
| Analyzer.WordCountIsWordTotal | app.js:68 | `word_count` is the number of words of the value; it is always at least 1, and 1 for a blank value |
| Analyzer.PropertiesAgree | app.js:64-71 | in every property record, the map has `unique_characters` keys, its counts sum to the cleaned length, unique count ≤ cleaned length ≤ `length`, `word_count` ≥ 1, and no letters or digits implies a palindrome |
| Analyzer.HelloExample | app.js:24-37 | "hello" cleans to itself, has 4 distinct characters and the frequency map h:1, e:1, l:2, o:1 |
| Analyzer.PanamaExample | app.js:65-68 | "A man a plan a canal Panama" has length 27 and 7 words |
| Store.AppendKeepsIdsDistinct | app.js:57-62 | pushing an entry whose id is not yet stored keeps the ids distinct |
| Store.AppendKeepsAnalyzed | app.js:64-81 | pushing an analyzed entry keeps every entry's id and properties those of its value |
| Store.RemoveKeepsAnalyzed | app.js:242 | a splice keeps every remaining entry analyzed |
| Store.RemoveAtSubsequence | app.js:242 | a splice keeps the other entries in their order |
| Store.RemoveAtSpec | app.js:242 | `splice(k, 1)` keeps the other entries in order and shortens the store by one; with distinct ids it removes every entry with that id and keeps ids distinct |
| Store.RemoveAtErases | app.js:242 | with distinct ids, splicing out the entry at `k` leaves no entry with its id, keeps every other entry in order, and keeps ids distinct |
| Store.NothingToErase | app.js:239-241 | a store with no entry under the id is already without it |
| Store.EntryStore.constructor | app.js:39 | the store starts empty and valid |
| Store.EntryStore.IndexOfId | app.js:238 | `findIndex` gives -1 exactly when no entry has the id, and otherwise the first position holding it |
| Store.EntryStore.FindById | app.js:58 | `find` gives the first entry with the id, or nothing exactly when there is none |
| Store.EntryStore.Get | app.js:85-93 | the lookup by value finds an entry exactly when one is stored under the value's digest; with an injective hash, that entry holds the value and its freshly computed properties |
| Store.EntryStore.Create | app.js:46-83 | the checks run in order (missing/falsy, not a string, duplicate digest), and an error leaves the store unchanged; on success exactly one analyzed entry is appended and the earlier entries are unchanged; ids stay distinct |
| Store.EntryStore.Delete | app.js:235-244 | deletion succeeds exactly when an entry with the value's digest is stored, and then removes exactly the first such entry; otherwise nothing changes; afterwards no entry has that digest, and the others keep their order |
| Store.SubmitTwice | app.js:57-62 | submitting the same nonempty value twice stores it once and refuses the second submission as a duplicate |
| StructuredFilter.Where | app.js:112-132 | filtering never grows the collection |
| StructuredFilter.WhereMembers | app.js:112-132 | an entry is selected exactly when it is stored and passes every filter |
| StructuredFilter.WhereIsSubsequence | app.js:112-132 | the selection keeps the stored order |
| StructuredFilter.WhereNothing | app.js:98 | with no filter, every entry is selected |
| StructuredFilter.WhereWhere | app.js:112-132 | filtering step by step is one conjunctive filter over all the steps |
| StructuredFilter.WhereSameFilters | app.js:198-215 | the order in which filters are applied does not change the selection |
| StructuredFilter.WhereUnsatisfiableBounds | app.js:117-123 | a NaN length bound, or a lower length bound above the upper one, selects nothing |
| StructuredFilter.WhereAllPass | app.js:130-132 | a filter every entry passes selects all of them |
| StructuredFilter.AppliedFilters | app.js:135-140 | `filters_applied` has a key exactly for each supplied parameter; the flag is true exactly for "true", the bounds are their `parseInt`, and the character is echoed as given |
| StructuredFilter.CriteriaPieces | app.js:112-132 | a record gives one filter per present field, of that field's kind and with its value, and no other filter |
| StructuredFilter.CriteriaFromSupplied | app.js:112-132 | every filter applied comes from a supplied parameter, and each supplied parameter gives exactly one, of its own kind and with its own parsed value |
| StructuredFilter.ListFiltered | app.js:95-147 | the request is rejected exactly when a supplied, non-empty parameter fails its check; otherwise the answer is the echo and the stored entries passing every supplied filter, with their count |
| StructuredFilter.ListingSelects | app.js:112-132 | a listing holds exactly the stored entries that pass every supplied filter, in stored order |
| StructuredFilter.DecimalBoundAccepted | app.js:103 | a decimal bound passes validation and is echoed as its value |
| StructuredFilter.ConflictingBoundsSelectNothing | app.js:117-123 | a `min_length` above `max_length` is not an error: the answer is an empty selection |
| StructuredFilter.EmptyParametersAccepted | app.js:101-107 | parameters that are present but empty pass validation |
| StructuredFilter.EmptyBoundSelectsNothing | app.js:112-119 | an empty `is_palindrome` filters on `false`, and an empty length bound is NaN, which selects nothing |
| StructuredFilter.EmptyCharacterSelectsAll | app.js:129-132 | an empty `contains_character` selects every entry |
| NaturalLanguage.LetterAt | app.js:182 | a letter match always captures a lower-case ASCII letter |
| NaturalLanguage.FindLetter | app.js:182 | the regular expression finds nothing exactly when no position matches; otherwise it takes the leftmost match |
| NaturalLanguage.Interpret | app.js:159-190 | from the normalised query, its numbers and the letter match, the record built field by field is the one the phrase rules prescribe, later rules overriding earlier ones |
| NaturalLanguage.RulesSet | app.js:162-190 | for any normalised text, numbers and letter match: the palindrome phrases set the flag to true; "single word" wins over a counted word; "longer than n" gives n+1 and "shorter than n" gives n-1; each field is set exactly when its phrase fires; "first vowel" wins over a letter match; a character filter is one lower-case letter when the letter match is |
| NaturalLanguage.NoFiltersExactly | app.js:162-195 | for any normalised text, numbers and letter match, the record is empty exactly when no phrase rule fires and there is no letter match |
| NaturalLanguage.ParseFailureExactly | app.js:182-195 | for a query, the record is empty, so the query cannot be parsed, exactly when no phrase occurs in the normalised query and the letter pattern matches at no position of the query |
| NaturalLanguage.ConflictExactly | app.js:217-218 | applied to the bounds the length phrases set, the conflict test succeeds exactly when both length phrases occur with a first number that is neither 1 nor -1, whatever the rest of the query |
| NaturalLanguage.LongerThanAsWritten | app.js:174-176 | as written, the "longer than" bound is the number denoted by the first number's text with "1" appended |
| NaturalLanguage.AsWrittenDiffersExactly | app.js:174-176 | the rules as written differ from the intended ones exactly when "longer than" meets a first number other than 0 |
| NaturalLanguage.LongerThanFiveAsWritten | app.js:174-176 | for "longer than 5" the code as written asks for at least 51 characters, the intended rule for at least 6 |
| NaturalLanguage.ConflictAsWrittenExactly | app.js:217-218 | as written, the conflict is reported exactly when both length phrases occur with a first number that is neither 1 nor negative |
| NaturalLanguage.NaturalMatchesStructured | app.js:198-215 | this handler selects the same entries as the structured filter for the same record, though it applies the filters in a different order |
| NaturalLanguage.ConflictSelectsNothing | app.js:206-219 | when a conflict is reported, the discarded selection was empty |
| NaturalLanguage.ZeroBoundIsNoConflict | app.js:217-219 | bounds 2 and 0 escape the conflict test, because 0 is falsy, and the answer is an empty selection |
| NaturalLanguage.ListByNaturalLanguage | app.js:150-229 | a missing or empty query, an empty record and a conflict are the three errors, in that order; otherwise the answer is the selection under the record, its count, and the original query with the record |

## Left out

- HTTP plumbing. Express, the middleware, `PORT`, `dotenv` and `app.listen`, the status codes and the JSON shapes are not part of this model. Each handler returns a `Result`.
- Route shadowing. The first `GET /strings` (app.js:42-44) is registered before the filtered one, and `GET /strings/:string_value` captures `/strings/filter-by-natural-language`. The handlers are modelled as if each were reachable. The unfiltered listing is the store's `entries`.
- SHA-256 is the parameter `hash`. Its digest format is not modelled.
- The `compromise` library is the two parameters `has` and `numbersIn`. The model does not capture:
  - its tokenisation;
  - its term list (`terms`, unused by the code);
  - non-integer numbers, and therefore `parseInt` truncating a fractional first number in the word rule.
- `new Date().toISOString()` is the parameter `now`.
- `toLowerCase` is modelled on ASCII only. The `/i` flag of the letter pattern also matches only ASCII letters, as in JavaScript's non-Unicode mode.
- `isNaN` is simplified. After trimming, a parameter counts as numeric when it is blank or an optionally signed run of decimal digits. The model treats these strings as non-numeric, although JavaScript accepts them:
  - hexadecimal, octal and binary literals;
  - fractions;
  - exponents;
  - `Infinity`.
- `parseInt` is modelled for base 10 only.
- Query parameters are strings, or absent. Express can also deliver repeated parameters as arrays and nested ones as objects; these are not modelled.
- `parsed_filters` is the typed record. The order in which the object's keys are serialised is not modelled.
- Concurrency is not modelled. The store relies on the single-threaded event loop.
- Lookup and delete take the raw value and always re-hash it, as the code does (app.js:87, app.js:237). A digest passed in that position is hashed again, not looked up as a digest.
- NaturalLanguage.RulesOn: uses the intended lower bound `n + 1` for "longer than n". The code as written appends the digit 1 to the number's text (app.js:175), giving `10n + 1`, or `10n - 1` for a negative `n`. That behaviour is `NaturalLanguage.RulesAsWritten`, set out under Findings. The handler model `NaturalLanguage.ListByNaturalLanguage` follows the intended rule, and its `parsed_filters` echo holds the bound as a number where the code echoes the appended text.
- JavaScript numbers are IEEE doubles; `Num` is an unbounded integer. `parseInt` of a digit string above 2^53 is not rounded in the model, and one long enough to overflow is not `Infinity`. The bounds echoed in `filters_applied` (app.js:137-139) can therefore differ for such inputs; the selections cannot, since no stored length or word count comes near them.

## Findings

| source | as written | input that shows it | evidently intended | confidence | as-written member | corrected member |
|---|---|---|---|---|---|---|
| app.js:175 | `numbers[0] + 1` on the text the library returns appends "1", so the lower bound is `10n + 1` (`10n - 1` for negative `n`) | "strings longer than 5 characters" gives a lower bound of 51; with "shorter than" and a negative first number the conflict is not reported | the bound `n + 1`, here 6 | not executed; rests on `.out('array')` returning the numbers as text | NaturalLanguage.AsWrittenDiffersExactly | NaturalLanguage.RulesSet |
