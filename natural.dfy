/** `GET /strings/filter-by-natural-language`: a fixed set of phrase rules turns a query into
    the typed filter record, which is then applied like the structured filters and checked
    for a lower length bound above the upper one.

    The NLP library is two parameters: `has(text, phrase)` is `nlp(text).has(phrase)` and
    `numbersIn(text)` holds the values of `nlp(text).numbers().toNumber().out('array')`, both
    seen on the lower-cased, trimmed query. That array holds the numbers as text, the
    decimal writing of each value; only the "longer than" rule, which applies `+` to it,
    sees the difference (`RulesAsWritten`). The letter rule reads the query as given. */
module NaturalLanguage {
  import opened Wrappers
  import opened JsRuntime
  import opened Store
  import opened StructuredFilter

  /** `/letter\s+([a-z])/i` matched at position `i`: "letter" in any ASCII case, at least one
      white-space character, then an ASCII letter, which is returned lower-cased. The
      `\s+` run is greedy, and no shorter run can be followed by a letter. */
  function LetterAt(q: string, i: nat): (r: Option<char>)
    ensures r.Some? ==> 'a' <= r.value <= 'z'
  {
    if i + 6 <= |q| && LowerString(q[i..i + 6]) == "letter" then
      var rest := q[i + 6..];
      var t := TrimStart(rest);
      if |t| < |rest| && t != [] && IsAsciiLetter(t[0]) then Some(ToLower(t[0])) else None
    else None
  }

  /** The leftmost match at or after `from`. */
  function FindLetter(q: string, from: nat): (r: Option<char>)
    decreases |q| - from
    ensures r.None? <==> forall i :: from <= i < |q| ==> LetterAt(q, i).None?
    ensures r.Some? ==> exists i :: from <= i < |q| && LetterAt(q, i) == r &&
                                   forall j :: from <= j < i ==> LetterAt(q, j).None?
  {
    if from >= |q| then None
    else if LetterAt(q, from).Some? then LetterAt(q, from)
    else FindLetter(q, from + 1)
  }

  /** The lower-cased capture of the first match of the letter pattern, if any. */
  function LetterMatch(q: string): Option<char> {
    FindLetter(q, 0)
  }

  /** The phrase rules over the normalised text, its numbers and the letter match. */
  function RulesOn(text: string, numbers: seq<int>, letter: Option<char>, has: (string, string) -> bool): Filters {
    Filters(
      if has(text, "palindrome") || has(text, "palindromic") then Some(true) else None,
      if has(text, "longer than") && |numbers| > 0 then Some(Int(numbers[0] + 1)) else None,
      if has(text, "shorter than") && |numbers| > 0 then Some(Int(numbers[0] - 1)) else None,
      if has(text, "single word") then Some(Int(1))
      else if |numbers| > 0 && has(text, "word") then Some(Int(numbers[0]))
      else None,
      if has(text, "first vowel") then Some("a")
      else if letter.Some? then Some([letter.value])
      else None)
  }

  /** The phrase rules, as a specification of the record the handler builds: the library
      sees the lower-cased, trimmed query, the letter pattern the query as given. */
  function Rules(query: string, has: (string, string) -> bool, numbersIn: string -> seq<int>): Filters {
    var text := Trim(LowerString(query));
    RulesOn(text, numbersIn(text), LetterMatch(query), has)
  }

  /** The rule engine: starts from the empty record and sets one field per rule that fires,
      in the handler's order, so that later rules override earlier ones. `text` is the
      normalised query, `numbers` the numbers the library finds in it and `letter` the
      letter match. */
  method Interpret(text: string, numbers: seq<int>, letter: Option<char>, has: (string, string) -> bool)
    returns (filters: Filters)
    ensures filters == RulesOn(text, numbers, letter, has)
  {
    ghost var rules := RulesOn(text, numbers, letter, has);
    filters := NoFilters;
    if has(text, "palindrome") || has(text, "palindromic") {
      filters := filters.(isPalindrome := Some(true));
    }
    assert filters == NoFilters.(isPalindrome := rules.isPalindrome);
    if has(text, "single word") {
      filters := filters.(wordCount := Some(Int(1)));
    } else if |numbers| > 0 && has(text, "word") {
      filters := filters.(wordCount := Some(Int(numbers[0])));
    }
    assert filters == NoFilters.(isPalindrome := rules.isPalindrome, wordCount := rules.wordCount);
    if has(text, "longer than") && |numbers| > 0 {
      filters := filters.(minLength := Some(Int(numbers[0] + 1)));
    }
    assert filters == rules.(maxLength := None, containsCharacter := None);
    if has(text, "shorter than") && |numbers| > 0 {
      filters := filters.(maxLength := Some(Int(numbers[0] - 1)));
    }
    assert filters == rules.(containsCharacter := None);
    if letter.Some? {
      filters := filters.(containsCharacter := Some([letter.value]));
    }
    assert !has(text, "first vowel") ==> filters == rules;
    if has(text, "first vowel") {
      filters := filters.(containsCharacter := Some("a"));
    }
  }

  /** What each rule sets: "single word" wins over a counted word, "first vowel" wins over a
      letter match, and a character filter is one lower-case ASCII letter whenever the
      letter match is one. */
  lemma RulesSet(text: string, numbers: seq<int>, letter: Option<char>, has: (string, string) -> bool)
    ensures var f := RulesOn(text, numbers, letter, has);
            && (f.isPalindrome.Some? <==> has(text, "palindrome") || has(text, "palindromic"))
            && (f.isPalindrome.Some? ==> f.isPalindrome.value)
            && (has(text, "single word") ==> f.wordCount == Some(Int(1)))
            && (!has(text, "single word") && |numbers| > 0 && has(text, "word") ==>
                  f.wordCount == Some(Int(numbers[0])))
            && (f.wordCount.Some? <==> has(text, "single word") || (|numbers| > 0 && has(text, "word")))
            && (f.minLength.Some? <==> has(text, "longer than") && |numbers| > 0)
            && (f.maxLength.Some? <==> has(text, "shorter than") && |numbers| > 0)
            && (has(text, "first vowel") ==> f.containsCharacter == Some("a"))
            && (!has(text, "first vowel") && letter.Some? ==> f.containsCharacter == Some([letter.value]))
            && (f.containsCharacter.Some? <==> has(text, "first vowel") || letter.Some?)
            && (f.containsCharacter.Some? && (letter.Some? ==> 'a' <= letter.value <= 'z') ==>
                  |f.containsCharacter.value| == 1 && 'a' <= f.containsCharacter.value[0] <= 'z')
  {
  }

  /** The query cannot be parsed exactly when no rule fires: no phrase is present and the
      letter pattern matches nowhere in the query. */
  lemma ParseFailureExactly(query: string, has: (string, string) -> bool, numbersIn: string -> seq<int>)
    ensures var text := Trim(LowerString(query));
            var numbers := numbersIn(text);
            Rules(query, has, numbersIn) == NoFilters <==>
              && !has(text, "palindrome") && !has(text, "palindromic")
              && !has(text, "single word") && !(|numbers| > 0 && has(text, "word"))
              && !(|numbers| > 0 && (has(text, "longer than") || has(text, "shorter than")))
              && !has(text, "first vowel")
              && forall i :: 0 <= i < |query| ==> LetterAt(query, i).None?
  {
    var text := Trim(LowerString(query));
    var letter := LetterMatch(query);
    assert letter.None? <==> forall i :: 0 <= i < |query| ==> LetterAt(query, i).None?;
    NoFiltersExactly(text, numbersIn(text), letter, has);
  }

  /** The record is empty exactly when no rule fires. */
  lemma NoFiltersExactly(text: string, numbers: seq<int>, letter: Option<char>, has: (string, string) -> bool)
    ensures RulesOn(text, numbers, letter, has) == NoFilters <==>
              && !has(text, "palindrome") && !has(text, "palindromic")
              && !has(text, "single word") && !(|numbers| > 0 && has(text, "word"))
              && !(|numbers| > 0 && (has(text, "longer than") || has(text, "shorter than")))
              && !has(text, "first vowel") && letter.None?
  {
  }

  /** The conflict test the handler makes after filtering: both bounds are truthy numbers
      and the lower one exceeds the upper one. */
  predicate Conflict(f: Filters) {
    && f.minLength.Some? && NumTruthy(f.minLength.value)
    && f.maxLength.Some? && NumTruthy(f.maxLength.value)
    && f.minLength.value.i > f.maxLength.value.i
  }

  /** Both bounds come from the same first number `n`, as `n + 1` and `n - 1`, so the lower
      one always exceeds the upper one; the conflict is reported unless one bound is 0. */
  lemma ConflictExactly(text: string, numbers: seq<int>, letter: Option<char>, has: (string, string) -> bool)
    ensures Conflict(RulesOn(text, numbers, letter, has)) <==>
              && has(text, "longer than") && has(text, "shorter than") && |numbers| > 0
              && numbers[0] != 1 && numbers[0] != -1
  {
    var f := RulesOn(text, numbers, letter, has);
    assert f.minLength.Some? ==> f.minLength.value == Int(numbers[0] + 1);
    assert f.maxLength.Some? ==> f.maxLength.value == Int(numbers[0] - 1);
  }

  /** The lower bound "longer than" stores as the code is written. The library hands the
      numbers over as text, so `numbers[0] + 1` appends the digit 1 to that text instead of
      adding one; the bound then compares as the number the longer text denotes. */
  function LongerThanAsWritten(n: int): (b: int)
    ensures IsNumeric(Decimal(n) + "1") && ParseInt(Decimal(n) + "1") == Int(b)
  {
    DecimalThenOne(n);
    if n >= 0 then 10 * n + 1 else 10 * n - 1
  }

  /** The phrase rules as the code is written: `RulesOn` with the appended lower bound. */
  function RulesAsWritten(text: string, numbers: seq<int>, letter: Option<char>, has: (string, string) -> bool): Filters {
    RulesOn(text, numbers, letter, has).(minLength :=
      if has(text, "longer than") && |numbers| > 0 then Some(Int(LongerThanAsWritten(numbers[0]))) else None)
  }

  /** The code as written and the intended rules disagree exactly when "longer than" meets
      a first number other than 0 (for 0, "01" happens to denote 1). */
  lemma AsWrittenDiffersExactly(text: string, numbers: seq<int>, letter: Option<char>, has: (string, string) -> bool)
    ensures RulesAsWritten(text, numbers, letter, has) != RulesOn(text, numbers, letter, has) <==>
              has(text, "longer than") && |numbers| > 0 && numbers[0] != 0
  {
    var f := RulesOn(text, numbers, letter, has);
    var g := RulesAsWritten(text, numbers, letter, has);
    if has(text, "longer than") && |numbers| > 0 && numbers[0] != 0 {
      assert g.minLength != f.minLength;
    }
  }

  /** "strings longer than 5 characters": the code asks for at least 51 characters, not 6. */
  lemma LongerThanFiveAsWritten(text: string, letter: Option<char>, has: (string, string) -> bool)
    requires has(text, "longer than")
    ensures RulesAsWritten(text, [5], letter, has).minLength == Some(Int(51))
    ensures RulesOn(text, [5], letter, has).minLength == Some(Int(6))
  {
  }

  /** As written, the bounds conflict exactly when both length phrases occur with a first
      number that is neither 1 nor negative: for a negative `n` the appended bound `10n - 1`
      lies below `n - 1`. */
  lemma ConflictAsWrittenExactly(text: string, numbers: seq<int>, letter: Option<char>, has: (string, string) -> bool)
    ensures Conflict(RulesAsWritten(text, numbers, letter, has)) <==>
              && has(text, "longer than") && has(text, "shorter than") && |numbers| > 0
              && numbers[0] != 1 && numbers[0] >= 0
  {
    var g := RulesAsWritten(text, numbers, letter, has);
    assert g.minLength.Some? ==> g.minLength.value == Int(LongerThanAsWritten(numbers[0]));
    assert g.maxLength.Some? ==> g.maxLength.value == Int(numbers[0] - 1);
  }

  /** The filters a record stands for, in the order this handler applies them. */
  function NaturalCriteria(f: Filters): seq<Criterion> {
    (if f.isPalindrome.Some? then [PalindromeIs(f.isPalindrome.value)] else []) +
    (if f.wordCount.Some? then [WordCountIs(f.wordCount.value)] else []) +
    (if f.minLength.Some? then [MinLength(f.minLength.value)] else []) +
    (if f.maxLength.Some? then [MaxLength(f.maxLength.value)] else []) +
    (if f.containsCharacter.Some? then [ContainsCharacter(f.containsCharacter.value)] else [])
  }

  /** The two handlers select the same entries for the same record, although they apply
      the filters in different orders. */
  lemma NaturalMatchesStructured(entries: seq<Entry>, f: Filters)
    ensures Where(entries, NaturalCriteria(f)) == Where(entries, Criteria(f))
  {
    WhereSameFilters(entries, NaturalCriteria(f), Criteria(f));
  }

  /** A reported conflict always comes with an empty selection, which is discarded. */
  lemma ConflictSelectsNothing(entries: seq<Entry>, f: Filters)
    requires Conflict(f)
    ensures Where(entries, NaturalCriteria(f)) == []
  {
    var cs := NaturalCriteria(f);
    assert MinLength(f.minLength.value) in cs && MaxLength(f.maxLength.value) in cs;
    WhereUnsatisfiableBounds(entries, cs);
  }

  /** With "longer than 1" and "shorter than 1" the bounds are 2 and 0: the conflict test
      misses the zero bound and the answer is an empty selection, not an error. */
  lemma ZeroBoundIsNoConflict(entries: seq<Entry>, f: Filters)
    requires f.minLength == Some(Int(2)) && f.maxLength == Some(Int(0))
    ensures !Conflict(f)
    ensures Where(entries, NaturalCriteria(f)) == []
  {
    var cs := NaturalCriteria(f);
    assert MinLength(Int(2)) in cs && MaxLength(Int(0)) in cs;
    WhereUnsatisfiableBounds(entries, cs);
  }

  datatype NlError =
    | MissingQuery         // 400: no query, or an empty one
    | UnableToParse        // 400: no rule fired
    | ConflictingFilters   // 422: the lower length bound exceeds the upper one

  datatype Interpretation = Interpretation(original: string, parsedFilters: Filters)

  datatype NlListing = NlListing(data: seq<Entry>, count: nat, interpretedQuery: Interpretation)

  /** The handler, over the stored entries `entries`. */
  method ListByNaturalLanguage(entries: seq<Entry>, query: Option<string>,
                               has: (string, string) -> bool, numbersIn: string -> seq<int>)
    returns (r: Result<NlListing, NlError>)
    ensures query.None? || query.value == "" ==> r == Err(MissingQuery)
    ensures query.Some? && query.value != "" ==>
              var f := Rules(query.value, has, numbersIn);
              && (f == NoFilters ==> r == Err(UnableToParse))
              && (f != NoFilters && Conflict(f) ==> r == Err(ConflictingFilters))
              && (f != NoFilters && !Conflict(f) ==>
                    r == Ok(NlListing(Where(entries, Criteria(f)), |Where(entries, Criteria(f))|,
                                      Interpretation(query.value, f))))
  {
    if query.None? || query.value == "" {
      return Err(MissingQuery);
    }
    var text := Trim(LowerString(query.value));
    var numbers := numbersIn(text);
    var letterMatch := LetterMatch(query.value);
    var filters := Interpret(text, numbers, letterMatch, has);
    assert filters == Rules(query.value, has, numbersIn);
    if filters == NoFilters {
      return Err(UnableToParse);
    }

    var results := entries;
    // The filters of each field; `results` is narrowed by each in turn.
    ghost var isPalindromeFilter := if filters.isPalindrome.Some? then [PalindromeIs(filters.isPalindrome.value)] else [];
    ghost var wordCountFilter := if filters.wordCount.Some? then [WordCountIs(filters.wordCount.value)] else [];
    ghost var minLengthFilter := if filters.minLength.Some? then [MinLength(filters.minLength.value)] else [];
    ghost var maxLengthFilter := if filters.maxLength.Some? then [MaxLength(filters.maxLength.value)] else [];
    ghost var containsCharacterFilter := if filters.containsCharacter.Some? then [ContainsCharacter(filters.containsCharacter.value)] else [];
    assert NaturalCriteria(filters) ==
           isPalindromeFilter + wordCountFilter + minLengthFilter + maxLengthFilter + containsCharacterFilter;
    WhereNothing(entries);
    if filters.isPalindrome.Some? {
      results := Where(results, [PalindromeIs(filters.isPalindrome.value)]);
    }
    assert results == Where(entries, isPalindromeFilter);
    WhereWhere(entries, isPalindromeFilter, wordCountFilter);
    if filters.wordCount.Some? {
      results := Where(results, [WordCountIs(filters.wordCount.value)]);
    } else {
      WhereNothing(results);
    }
    assert results == Where(entries, isPalindromeFilter + wordCountFilter);
    WhereWhere(entries, isPalindromeFilter + wordCountFilter, minLengthFilter);
    if filters.minLength.Some? {
      results := Where(results, [MinLength(filters.minLength.value)]);
    } else {
      WhereNothing(results);
    }
    assert results == Where(entries, isPalindromeFilter + wordCountFilter + minLengthFilter);
    WhereWhere(entries, isPalindromeFilter + wordCountFilter + minLengthFilter, maxLengthFilter);
    if filters.maxLength.Some? {
      results := Where(results, [MaxLength(filters.maxLength.value)]);
    } else {
      WhereNothing(results);
    }
    assert results == Where(entries, isPalindromeFilter + wordCountFilter + minLengthFilter + maxLengthFilter);
    WhereWhere(entries, isPalindromeFilter + wordCountFilter + minLengthFilter + maxLengthFilter, containsCharacterFilter);
    if filters.containsCharacter.Some? {
      results := Where(results, [ContainsCharacter(filters.containsCharacter.value)]);
    } else {
      WhereNothing(results);
    }
    assert results == Where(entries, NaturalCriteria(filters));
    NaturalMatchesStructured(entries, filters);

    if Conflict(filters) {
      return Err(ConflictingFilters);
    }
    r := Ok(NlListing(results, |results|, Interpretation(query.value, filters)));
  }
}
