/** The structured filter engine of `GET /strings`: all-or-nothing validation of the five
    optional query parameters, the conjunctive chain of filters over the stored entries, and
    the typed echo `filters_applied`. The typed filter record and the predicate application
    are shared with the natural-language path. */
module StructuredFilter {
  import opened Wrappers
  import opened JsRuntime
  import opened Store

  /** One filter, with its typed value. */
  datatype Criterion =
    | PalindromeIs(b: bool)
    | MinLength(n: Num)
    | MaxLength(n: Num)
    | WordCountIs(n: Num)
    | ContainsCharacter(c: string)

  /** What `item` must satisfy to pass one filter. A NaN bound compares false. */
  predicate Satisfies(e: Entry, c: Criterion) {
    match c
    case PalindromeIs(b) => e.properties.isPalindrome == b
    case MinLength(n) => n.Int? && e.properties.length >= n.i
    case MaxLength(n) => n.Int? && e.properties.length <= n.i
    case WordCountIs(n) => n.Int? && e.properties.wordCount == n.i
    case ContainsCharacter(c) => Includes(LowerString(e.value), LowerString(c))
  }

  predicate SatisfiesAll(e: Entry, cs: seq<Criterion>) {
    forall c :: c in cs ==> Satisfies(e, c)
  }

  /** The entries, in order, that pass every filter of `cs`. */
  function Where(es: seq<Entry>, cs: seq<Criterion>): (r: seq<Entry>)
    ensures |r| <= |es|
  {
    if es == [] then []
    else (if SatisfiesAll(es[0], cs) then [es[0]] else []) + Where(es[1..], cs)
  }

  /** An entry is selected exactly when it is stored and passes every filter. */
  lemma {:induction false} WhereMembers(es: seq<Entry>, cs: seq<Criterion>)
    ensures forall e :: e in Where(es, cs) <==> e in es && SatisfiesAll(e, cs)
  {
    if es != [] {
      WhereMembers(es[1..], cs);
      assert es == [es[0]] + es[1..];
    }
  }

  /** The selection keeps the stored order. */
  lemma {:induction false} WhereIsSubsequence(es: seq<Entry>, cs: seq<Criterion>)
    ensures IsSubsequence(Where(es, cs), es)
  {
    if es != [] {
      WhereIsSubsequence(es[1..], cs);
      var r := Where(es, cs);
      if SatisfiesAll(es[0], cs) {
        assert r[0] == es[0] && r[1..] == Where(es[1..], cs);
      } else if r != [] {
        assert r == Where(es[1..], cs);
      }
    }
  }

  /** No filter selects everything. */
  lemma {:induction false} WhereNothing(es: seq<Entry>)
    ensures Where(es, []) == es
  {
    if es != [] {
      WhereNothing(es[1..]);
      assert es == [es[0]] + es[1..];
    }
  }

  /** Filtering the filtered entries again is filtering once by both sets of filters: the
      step-by-step `results = results.filter(...)` chain is one conjunctive filter. */
  lemma {:induction false} WhereWhere(es: seq<Entry>, a: seq<Criterion>, b: seq<Criterion>)
    ensures Where(Where(es, a), b) == Where(es, a + b)
  {
    if es != [] {
      WhereWhere(es[1..], a, b);
      var e := es[0];
      assert SatisfiesAll(e, a + b) <==> SatisfiesAll(e, a) && SatisfiesAll(e, b);
      if SatisfiesAll(e, a) {
        assert Where(es, a) == [e] + Where(es[1..], a);
        assert Where(Where(es, a), b) == (if SatisfiesAll(e, b) then [e] else []) + Where(Where(es[1..], a), b);
      } else {
        assert Where(es, a) == Where(es[1..], a);
      }
    }
  }

  /** The order in which the filters are listed does not matter. */
  lemma {:induction false} WhereSameFilters(es: seq<Entry>, a: seq<Criterion>, b: seq<Criterion>)
    requires forall c :: c in a <==> c in b
    ensures Where(es, a) == Where(es, b)
  {
    if es != [] {
      WhereSameFilters(es[1..], a, b);
      assert SatisfiesAll(es[0], a) <==> SatisfiesAll(es[0], b);
    }
  }

  /** A lower bound above the upper bound selects nothing; so does a NaN length bound. */
  lemma {:induction false} WhereUnsatisfiableBounds(es: seq<Entry>, cs: seq<Criterion>)
    requires || MinLength(NaN) in cs
             || MaxLength(NaN) in cs
             || exists lo, hi :: MinLength(Int(lo)) in cs && MaxLength(Int(hi)) in cs && lo > hi
    ensures Where(es, cs) == []
  {
    if es != [] {
      WhereUnsatisfiableBounds(es[1..], cs);
      if MinLength(NaN) in cs {
        assert !Satisfies(es[0], MinLength(NaN));
      } else if MaxLength(NaN) in cs {
        assert !Satisfies(es[0], MaxLength(NaN));
      } else {
        var lo, hi :| MinLength(Int(lo)) in cs && MaxLength(Int(hi)) in cs && lo > hi;
        assert !(Satisfies(es[0], MinLength(Int(lo))) && Satisfies(es[0], MaxLength(Int(hi))));
      }
    }
  }

  /** The typed filter record: `filters_applied` here, `parsed_filters` on the
      natural-language path. An absent field is a filter that was not supplied. */
  datatype Filters = Filters(
    isPalindrome: Option<bool>,
    minLength: Option<Num>,
    maxLength: Option<Num>,
    wordCount: Option<Num>,
    containsCharacter: Option<string>)

  const NoFilters := Filters(None, None, None, None, None)

  /** The filters a record stands for, in the order `GET /strings` applies them. */
  function Criteria(f: Filters): seq<Criterion> {
    (if f.isPalindrome.Some? then [PalindromeIs(f.isPalindrome.value)] else []) +
    (if f.minLength.Some? then [MinLength(f.minLength.value)] else []) +
    (if f.maxLength.Some? then [MaxLength(f.maxLength.value)] else []) +
    (if f.wordCount.Some? then [WordCountIs(f.wordCount.value)] else []) +
    (if f.containsCharacter.Some? then [ContainsCharacter(f.containsCharacter.value)] else [])
  }

  /** The raw query parameters; `None` is a parameter that is absent. */
  datatype Query = Query(
    isPalindrome: Option<string>,
    minLength: Option<string>,
    maxLength: Option<string>,
    wordCount: Option<string>,
    containsCharacter: Option<string>)

  /** One parameter fails its check; an empty string is falsy and is never checked. */
  predicate BadFlag(p: Option<string>) {
    p.Some? && p.value != "" && p.value != "true" && p.value != "false"
  }

  predicate BadNumber(p: Option<string>) {
    p.Some? && p.value != "" && !IsNumeric(p.value)
  }

  predicate BadCharacter(p: Option<string>) {
    p.Some? && p.value != "" && Utf16Length(p.value) != 1
  }

  /** The validation of `GET /strings`: any bad parameter rejects the whole request. */
  predicate Rejected(q: Query) {
    BadFlag(q.isPalindrome) || BadNumber(q.minLength) || BadNumber(q.maxLength) ||
    BadNumber(q.wordCount) || BadCharacter(q.containsCharacter)
  }

  datatype FilterError = InvalidQuery   // 400: invalid query parameter values or types

  datatype Listing = Listing(data: seq<Entry>, count: nat, filtersApplied: Filters)

  /** The typed echo of the supplied parameters: a flag is `true` exactly when it reads
      "true", a bound is its `parseInt`, the character is kept as given. */
  function AppliedFilters(q: Query): (f: Filters)
    ensures f.isPalindrome.Some? <==> q.isPalindrome.Some?
    ensures f.minLength.Some? <==> q.minLength.Some?
    ensures f.maxLength.Some? <==> q.maxLength.Some?
    ensures f.wordCount.Some? <==> q.wordCount.Some?
    ensures f.containsCharacter == q.containsCharacter
    ensures q.isPalindrome.Some? ==> (f.isPalindrome.value <==> q.isPalindrome.value == "true")
    ensures q.minLength.Some? ==> f.minLength.value == ParseInt(q.minLength.value)
    ensures q.maxLength.Some? ==> f.maxLength.value == ParseInt(q.maxLength.value)
    ensures q.wordCount.Some? ==> f.wordCount.value == ParseInt(q.wordCount.value)
  {
    Filters(
      if q.isPalindrome.Some? then Some(q.isPalindrome.value == "true") else None,
      if q.minLength.Some? then Some(ParseInt(q.minLength.value)) else None,
      if q.maxLength.Some? then Some(ParseInt(q.maxLength.value)) else None,
      if q.wordCount.Some? then Some(ParseInt(q.wordCount.value)) else None,
      q.containsCharacter)
  }

  /** The filters of the typed echo, one optional filter per parameter, in the order
      `GET /strings` applies them. */
  lemma CriteriaOfApplied(q: Query)
    ensures Criteria(AppliedFilters(q)) ==
            (if q.isPalindrome.Some? then [PalindromeIs(q.isPalindrome.value == "true")] else []) +
            (if q.minLength.Some? then [MinLength(ParseInt(q.minLength.value))] else []) +
            (if q.maxLength.Some? then [MaxLength(ParseInt(q.maxLength.value))] else []) +
            (if q.wordCount.Some? then [WordCountIs(ParseInt(q.wordCount.value))] else []) +
            (if q.containsCharacter.Some? then [ContainsCharacter(q.containsCharacter.value)] else [])
  {
  }

  /** How many of the five parameters are present. */
  function SuppliedCount(q: Query): nat {
    (if q.isPalindrome.Some? then 1 else 0) + (if q.minLength.Some? then 1 else 0) +
    (if q.maxLength.Some? then 1 else 0) + (if q.wordCount.Some? then 1 else 0) +
    (if q.containsCharacter.Some? then 1 else 0)
  }

  /** The filters of a record, field by field. */
  lemma CriteriaPieces(f: Filters)
    ensures var cs := Criteria(f);
            && |cs| == (if f.isPalindrome.Some? then 1 else 0) + (if f.minLength.Some? then 1 else 0) +
                       (if f.maxLength.Some? then 1 else 0) + (if f.wordCount.Some? then 1 else 0) +
                       (if f.containsCharacter.Some? then 1 else 0)
            && forall x :: x in cs <==>
                 || (f.isPalindrome.Some? && x == PalindromeIs(f.isPalindrome.value))
                 || (f.minLength.Some? && x == MinLength(f.minLength.value))
                 || (f.maxLength.Some? && x == MaxLength(f.maxLength.value))
                 || (f.wordCount.Some? && x == WordCountIs(f.wordCount.value))
                 || (f.containsCharacter.Some? && x == ContainsCharacter(f.containsCharacter.value))
  {
    var p1 := if f.isPalindrome.Some? then [PalindromeIs(f.isPalindrome.value)] else [];
    var p2 := if f.minLength.Some? then [MinLength(f.minLength.value)] else [];
    var p3 := if f.maxLength.Some? then [MaxLength(f.maxLength.value)] else [];
    var p4 := if f.wordCount.Some? then [WordCountIs(f.wordCount.value)] else [];
    var p5 := if f.containsCharacter.Some? then [ContainsCharacter(f.containsCharacter.value)] else [];
    assert Criteria(f) == p1 + p2 + p3 + p4 + p5;
  }

  /** Every filter applied comes from a supplied parameter, and each supplied parameter
      gives exactly one filter, of its own kind and with its own parsed value. */
  lemma CriteriaFromSupplied(q: Query)
    ensures |Criteria(AppliedFilters(q))| == SuppliedCount(q)
    ensures forall b :: PalindromeIs(b) in Criteria(AppliedFilters(q)) <==>
                        q.isPalindrome.Some? && b == (q.isPalindrome.value == "true")
    ensures forall n :: MinLength(n) in Criteria(AppliedFilters(q)) <==>
                        q.minLength.Some? && n == ParseInt(q.minLength.value)
    ensures forall n :: MaxLength(n) in Criteria(AppliedFilters(q)) <==>
                        q.maxLength.Some? && n == ParseInt(q.maxLength.value)
    ensures forall n :: WordCountIs(n) in Criteria(AppliedFilters(q)) <==>
                        q.wordCount.Some? && n == ParseInt(q.wordCount.value)
    ensures forall c :: ContainsCharacter(c) in Criteria(AppliedFilters(q)) <==>
                        q.containsCharacter.Some? && c == q.containsCharacter.value
  {
    CriteriaPieces(AppliedFilters(q));
  }

  /** `GET /strings` with query parameters, over the stored entries `entries`: a rejected
      request, or the stored entries that pass every supplied filter, in stored order. */
  method ListFiltered(entries: seq<Entry>, q: Query) returns (r: Result<Listing, FilterError>)
    ensures r.Err? <==> Rejected(q)
    ensures r.Ok? ==> r.value.filtersApplied == AppliedFilters(q)
    ensures r.Ok? ==> r.value.data == Where(entries, Criteria(AppliedFilters(q)))
    ensures r.Ok? ==> r.value.count == |r.value.data|
  {
    if Rejected(q) {
      return Err(InvalidQuery);
    }
    var results := entries;
    // The filters of each supplied parameter; `results` is narrowed by each in turn.
    ghost var isPalindromeFilter := if q.isPalindrome.Some? then [PalindromeIs(q.isPalindrome.value == "true")] else [];
    ghost var minLengthFilter := if q.minLength.Some? then [MinLength(ParseInt(q.minLength.value))] else [];
    ghost var maxLengthFilter := if q.maxLength.Some? then [MaxLength(ParseInt(q.maxLength.value))] else [];
    ghost var wordCountFilter := if q.wordCount.Some? then [WordCountIs(ParseInt(q.wordCount.value))] else [];
    ghost var containsCharacterFilter := if q.containsCharacter.Some? then [ContainsCharacter(q.containsCharacter.value)] else [];
    CriteriaOfApplied(q);
    assert Criteria(AppliedFilters(q)) ==
           isPalindromeFilter + minLengthFilter + maxLengthFilter + wordCountFilter + containsCharacterFilter;
    WhereNothing(entries);
    if q.isPalindrome.Some? {
      var isTrue := q.isPalindrome.value == "true";
      results := Where(results, [PalindromeIs(isTrue)]);
    }
    assert results == Where(entries, isPalindromeFilter);
    WhereWhere(entries, isPalindromeFilter, minLengthFilter);
    if q.minLength.Some? {
      var bound := ParseInt(q.minLength.value);
      results := Where(results, [MinLength(bound)]);
    } else {
      WhereNothing(results);
    }
    assert results == Where(entries, isPalindromeFilter + minLengthFilter);
    WhereWhere(entries, isPalindromeFilter + minLengthFilter, maxLengthFilter);
    if q.maxLength.Some? {
      var bound := ParseInt(q.maxLength.value);
      results := Where(results, [MaxLength(bound)]);
    } else {
      WhereNothing(results);
    }
    assert results == Where(entries, isPalindromeFilter + minLengthFilter + maxLengthFilter);
    WhereWhere(entries, isPalindromeFilter + minLengthFilter + maxLengthFilter, wordCountFilter);
    if q.wordCount.Some? {
      var count := ParseInt(q.wordCount.value);
      results := Where(results, [WordCountIs(count)]);
    } else {
      WhereNothing(results);
    }
    assert results == Where(entries, isPalindromeFilter + minLengthFilter + maxLengthFilter + wordCountFilter);
    WhereWhere(entries, isPalindromeFilter + minLengthFilter + maxLengthFilter + wordCountFilter, containsCharacterFilter);
    if q.containsCharacter.Some? {
      var c := q.containsCharacter.value;
      results := Where(results, [ContainsCharacter(c)]);
    } else {
      WhereNothing(results);
    }
    assert results == Where(entries, isPalindromeFilter + minLengthFilter + maxLengthFilter + wordCountFilter + containsCharacterFilter);

    var filtersApplied := NoFilters;
    if q.isPalindrome.Some? {
      filtersApplied := filtersApplied.(isPalindrome := Some(q.isPalindrome.value == "true"));
    }
    if q.minLength.Some? {
      filtersApplied := filtersApplied.(minLength := Some(ParseInt(q.minLength.value)));
    }
    if q.maxLength.Some? {
      filtersApplied := filtersApplied.(maxLength := Some(ParseInt(q.maxLength.value)));
    }
    if q.wordCount.Some? {
      filtersApplied := filtersApplied.(wordCount := Some(ParseInt(q.wordCount.value)));
    }
    if q.containsCharacter.Some? {
      filtersApplied := filtersApplied.(containsCharacter := Some(q.containsCharacter.value));
    }

    assert filtersApplied == AppliedFilters(q);
    r := Ok(Listing(results, |results|, filtersApplied));
  }

  /** What a listing holds: exactly the stored entries passing every supplied filter, in
      their stored order. */
  lemma ListingSelects(entries: seq<Entry>, q: Query)
    ensures var data := Where(entries, Criteria(AppliedFilters(q)));
            && IsSubsequence(data, entries)
            && forall e :: e in data <==> e in entries && SatisfiesAll(e, Criteria(AppliedFilters(q)))
  {
    WhereIsSubsequence(entries, Criteria(AppliedFilters(q)));
    WhereMembers(entries, Criteria(AppliedFilters(q)));
  }

  /** A decimal bound passes validation and filters by its value. */
  lemma DecimalBoundAccepted(n: int)
    ensures !BadNumber(Some(Decimal(n)))
    ensures AppliedFilters(Query(None, Some(Decimal(n)), None, None, None)).minLength == Some(Int(n))
  {
    ParseIntOfDecimal(n);
  }

  /** The structured path does not reject a lower length bound above the upper one: it
      answers with an empty selection. */
  lemma ConflictingBoundsSelectNothing(es: seq<Entry>, f: Filters)
    requires f.minLength.Some? && f.maxLength.Some?
    requires f.minLength.value.Int? && f.maxLength.value.Int?
    requires f.minLength.value.i > f.maxLength.value.i
    ensures Where(es, Criteria(f)) == []
  {
    var cs := Criteria(f);
    assert MinLength(f.minLength.value) in cs && MaxLength(f.maxLength.value) in cs;
    WhereUnsatisfiableBounds(es, cs);
  }

  /** A parameter that is present but empty passes validation. */
  lemma EmptyParametersAccepted()
    ensures !Rejected(Query(Some(""), Some(""), Some(""), Some(""), Some("")))
  {
    assert Trim("") == "";
  }

  /** An empty `is_palindrome` filters on `false`, and an empty length or word-count bound
      is NaN, so it selects nothing. */
  lemma EmptyBoundSelectsNothing(es: seq<Entry>)
    ensures AppliedFilters(Query(Some(""), None, None, None, None)).isPalindrome == Some(false)
    ensures ParseInt("") == NaN
    ensures Where(es, [MinLength(ParseInt(""))]) == []
  {
    assert TrimStart("") == "";
    WhereUnsatisfiableBounds(es, [MinLength(NaN)]);
  }

  /** An empty `contains_character` selects everything. */
  lemma EmptyCharacterSelectsAll(es: seq<Entry>)
    ensures Where(es, [ContainsCharacter("")]) == es
  {
    forall e | e in es
      ensures SatisfiesAll(e, [ContainsCharacter("")])
    {
      IncludesEmpty(LowerString(e.value));
      assert LowerString("") == "";
      assert Satisfies(e, ContainsCharacter(""));
    }
    WhereAllPass(es, [ContainsCharacter("")]);
  }

  lemma {:induction false} WhereAllPass(es: seq<Entry>, cs: seq<Criterion>)
    requires forall e :: e in es ==> SatisfiesAll(e, cs)
    ensures Where(es, cs) == es
  {
    if es != [] {
      WhereAllPass(es[1..], cs);
      assert es == [es[0]] + es[1..];
    }
  }
}
