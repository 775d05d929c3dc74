/** The string property analyzer: the cleaned form of a string, the palindrome flag, the
    unique-character count, the character-frequency map and the word count, and the
    property record the store keeps for every entry. */
module Analyzer {
  import opened JsRuntime

  predicate IsAlnum(c: char) {
    'a' <= c <= 'z' || '0' <= c <= '9'
  }

  /** `replace(/[^a-z0-9]/g, '')`: keeps the lower-case letters and digits, in order. */
  function KeepAlnum(s: string): (r: string)
    ensures |r| <= |s|
    ensures forall i :: 0 <= i < |r| ==> IsAlnum(r[i])
  {
    if s == [] then [] else (if IsAlnum(s[0]) then [s[0]] else []) + KeepAlnum(s[1..])
  }

  /** Cleaning keeps every letter and digit as often as it occurs, and nothing else. */
  lemma {:induction false} KeepAlnumCounts(s: string)
    ensures forall c :: multiset(KeepAlnum(s))[c] == if IsAlnum(c) then multiset(s)[c] else 0
    ensures forall c :: c in KeepAlnum(s) <==> c in s && IsAlnum(c)
  {
    if s != [] {
      KeepAlnumCounts(s[1..]);
      assert s == [s[0]] + s[1..];
    }
  }

  lemma ConcatAssoc(x: string, y: string, z: string)
    ensures x + (y + z) == (x + y) + z
  {
  }

  lemma EmptyConcat(y: string)
    ensures [] + y == y
  {
  }

  lemma KeepAlnumCons(x: char, s: string)
    ensures KeepAlnum([x] + s) == (if IsAlnum(x) then [x] else []) + KeepAlnum(s)
  {
    assert ([x] + s)[1..] == s;
  }

  /** Cleaning works character by character, so it keeps the order of what it keeps. */
  lemma {:induction false} KeepAlnumAppend(a: string, b: string)
    ensures KeepAlnum(a + b) == KeepAlnum(a) + KeepAlnum(b)
  {
    if a == [] {
      assert a + b == b;
      EmptyConcat(KeepAlnum(b));
    } else {
      var x, rest := a[0], a[1..];
      var head := if IsAlnum(x) then [x] else [];
      assert KeepAlnum(a + b) == head + KeepAlnum(rest + b) by {
        assert a + b == [x] + (rest + b);
        KeepAlnumCons(x, rest + b);
      }
      assert KeepAlnum(a) == head + KeepAlnum(rest) by {
        assert a == [x] + rest;
        KeepAlnumCons(x, rest);
      }
      KeepAlnumAppend(rest, b);
      ConcatAssoc(head, KeepAlnum(rest), KeepAlnum(b));
    }
  }

  /** The cleaned form: lower-cased, then everything outside a-z and 0-9 dropped. */
  function Clean(s: string): string {
    KeepAlnum(LowerString(s))
  }

  lemma {:induction false} KeepAlnumOfAlnum(w: string)
    requires forall i :: 0 <= i < |w| ==> IsAlnum(w[i])
    ensures KeepAlnum(w) == w
  {
    if w != [] {
      KeepAlnumOfAlnum(w[1..]);
      assert w == [w[0]] + w[1..];
    }
  }

  /** Cleaning a cleaned string changes nothing. */
  lemma CleanOfAlnum(w: string)
    requires forall i :: 0 <= i < |w| ==> IsAlnum(w[i])
    ensures Clean(w) == w
  {
    assert LowerString(w) == w;
    KeepAlnumOfAlnum(w);
  }

  /** `split('').reverse().join('')`. */
  function Reverse(s: string): (r: string)
    ensures |r| == |s|
    ensures forall i :: 0 <= i < |s| ==> r[i] == s[|s| - 1 - i]
  {
    if s == [] then [] else Reverse(s[1..]) + [s[0]]
  }

  lemma ReverseReverse(s: string)
    ensures Reverse(Reverse(s)) == s
  {
  }

  /** `isPalindrome`: the cleaned string equals its reversal. */
  predicate IsPalindrome(s: string) {
    var w := Clean(s);
    w == Reverse(w)
  }

  /** A palindrome reads the same from both ends; a string without letters or digits is one. */
  lemma PalindromeMirror(s: string)
    ensures IsPalindrome(s) <==>
              forall i :: 0 <= i < |Clean(s)| ==> Clean(s)[i] == Clean(s)[|Clean(s)| - 1 - i]
    ensures Clean(s) == [] ==> IsPalindrome(s)
  {
    var w := Clean(s);
    if forall i :: 0 <= i < |w| ==> w[i] == w[|w| - 1 - i] {
      assert w == Reverse(w);
    }
  }

  /** The palindrome flag of the reversed cleaned form is the flag of the string itself. */
  lemma PalindromeOfReversedClean(s: string)
    ensures IsPalindrome(Reverse(Clean(s))) == IsPalindrome(s)
  {
    var w := Clean(s);
    var v := Reverse(w);
    CleanOfAlnum(v);
    ReverseReverse(w);
    assert IsPalindrome(v) <==> v == Reverse(v);
  }

  /** The distinct characters of a string. */
  function CharSet(w: string): set<char> {
    set c | c in w
  }

  lemma {:induction false} CharSetSize(w: string)
    ensures |CharSet(w)| <= |w|
    ensures w != [] ==> |CharSet(w)| >= 1
  {
    if w != [] {
      CharSetSize(w[1..]);
      assert CharSet(w) == CharSet(w[1..]) + {w[0]};
      assert w[0] in CharSet(w);
    }
  }

  /** `uniqueCharacters`: the number of distinct cleaned characters. */
  function UniqueCharacters(s: string): (n: nat)
    ensures n <= |Clean(s)|
    ensures n == 0 <==> Clean(s) == []
  {
    CharSetSize(Clean(s));
    |CharSet(Clean(s))|
  }

  /** The count `m` records for `c`; an absent key counts 0. */
  function CountIn(m: map<char, nat>, c: char): nat {
    if c in m then m[c] else 0
  }

  /** The frequency map built by one pass over `w`, counting each character as it is met. */
  function Frequencies(w: string): map<char, nat> {
    if w == [] then map[]
    else
      var m := Frequencies(w[..|w| - 1]);
      var c := w[|w| - 1];
      m[c := CountIn(m, c) + 1]
  }

  /** The keys of the frequency map are the distinct characters and each count is the
      number of occurrences. */
  lemma {:induction false} FrequenciesCount(w: string)
    ensures Frequencies(w).Keys == CharSet(w)
    ensures forall c :: c in Frequencies(w) ==> Frequencies(w)[c] == multiset(w)[c] >= 1
  {
    if w != [] {
      var p, x := w[..|w| - 1], w[|w| - 1];
      FrequenciesCount(p);
      assert w == p + [x];
      assert multiset(w) == multiset(p) + multiset{x};
      assert CharSet(w) == CharSet(p) + {x};
    }
  }

  /** Meeting one more character adds one to its count. */
  lemma FrequenciesPrefixStep(w: string, i: nat)
    requires i < |w|
    ensures Frequencies(w[..i + 1]) == Frequencies(w[..i])[w[i] := CountIn(Frequencies(w[..i]), w[i]) + 1]
  {
    assert w[..i + 1][..i] == w[..i];
  }

  /** `getCharacterFrequencyMap`. */
  method CharacterFrequencyMap(str: string) returns (m: map<char, nat>)
    ensures m == Frequencies(Clean(str))
    ensures m.Keys == CharSet(Clean(str))
    ensures forall c :: c in m ==> m[c] == multiset(Clean(str))[c] >= 1
  {
    var cleaned := Clean(str);
    m := map[];
    for i := 0 to |cleaned|
      invariant m == Frequencies(cleaned[..i])
    {
      var c := cleaned[i];
      FrequenciesPrefixStep(cleaned, i);
      m := m[c := (if c in m then m[c] else 0) + 1];
    }
    assert cleaned[..|cleaned|] == cleaned;
    FrequenciesCount(cleaned);
  }

  /** The distinct characters of `w`, each once, in order of first occurrence: the order in
      which the frequency map receives its keys. */
  function FirstOccurrences(w: string): (r: string)
    ensures forall c :: c in r <==> c in w
    ensures forall i, j :: 0 <= i < j < |r| ==> r[i] != r[j]
  {
    if w == [] then []
    else
      var p, x := w[..|w| - 1], w[|w| - 1];
      assert w == p + [x];
      if x in p then FirstOccurrences(p) else FirstOccurrences(p) + [x]
  }

  /** The sum of the counts of `m` at the keys listed in `keys`. */
  function SumOver(m: map<char, nat>, keys: string): nat {
    if keys == [] then 0 else SumOver(m, keys[..|keys| - 1]) + CountIn(m, keys[|keys| - 1])
  }

  lemma SumOverSnoc(m: map<char, nat>, keys: string, x: char)
    ensures SumOver(m, keys + [x]) == SumOver(m, keys) + CountIn(m, x)
  {
    assert (keys + [x])[..|keys|] == keys;
  }

  lemma {:induction false} SumOverUnchanged(m: map<char, nat>, keys: string, x: char, v: nat)
    requires x !in keys
    ensures SumOver(m[x := v], keys) == SumOver(m, keys)
  {
    if keys != [] {
      SumOverUnchanged(m, keys[..|keys| - 1], x, v);
    }
  }

  lemma {:induction false} SumOverBump(m: map<char, nat>, keys: string, x: char)
    requires x in m
    requires forall i, j :: 0 <= i < j < |keys| ==> keys[i] != keys[j]
    requires x in keys
    ensures SumOver(m[x := m[x] + 1], keys) == SumOver(m, keys) + 1
  {
    var init, y := keys[..|keys| - 1], keys[|keys| - 1];
    if y == x {
      assert x !in init;
      SumOverUnchanged(m, init, x, m[x] + 1);
    } else {
      assert x in init;
      SumOverBump(m, init, x);
    }
  }

  lemma FrequenciesStep(w: string)
    requires w != []
    ensures var p, x := w[..|w| - 1], w[|w| - 1];
      && Frequencies(w) == Frequencies(p)[x := CountIn(Frequencies(p), x) + 1]
      && FirstOccurrences(w) == (if x in p then FirstOccurrences(p) else FirstOccurrences(p) + [x])
      && (x in p <==> x in Frequencies(p))
  {
    FrequenciesCount(w[..|w| - 1]);
  }

  /** The counts of the frequency map add up to the length of the string it was built from. */
  lemma {:induction false} FrequenciesSum(w: string)
    ensures SumOver(Frequencies(w), FirstOccurrences(w)) == |w|
  {
    if w != [] {
      var p, x := w[..|w| - 1], w[|w| - 1];
      var m := Frequencies(p);
      var keys := FirstOccurrences(p);
      FrequenciesSum(p);
      FrequenciesStep(w);
      if x in p {
        SumOverBump(m, keys, x);
      } else {
        SumOverUnchanged(m, keys, x, 1);
        SumOverSnoc(m[x := 1], keys, x);
      }
    }
  }

  /** The longest prefix without white space. */
  function LeadingWord(s: string): (w: string)
    ensures |w| <= |s| && w == s[..|w|]
    ensures forall i :: 0 <= i < |w| ==> !IsSpace(w[i])
    ensures |w| == |s| || IsSpace(s[|w|])
  {
    if s != [] && !IsSpace(s[0]) then [s[0]] + LeadingWord(s[1..]) else []
  }

  /** `s.split(/\s+/)`: the pieces between the runs of white space. */
  function Pieces(s: string): (r: seq<string>)
    ensures |r| >= 1
    decreases |s|
  {
    var w := LeadingWord(s);
    var rest := s[|w|..];
    if rest == [] then [w] else [w] + Pieces(TrimStart(rest))
  }

  /** `value.trim().split(/\s+/).length`. */
  function WordCount(s: string): nat {
    |Pieces(Trim(s))|
  }

  /** The number of positions in `s` where a word starts: a character that is not white
      space and follows white space (or, when `afterSpace`, the start of `s`). */
  function WordStarts(s: string, afterSpace: bool): nat {
    if s == [] then 0
    else (if afterSpace && !IsSpace(s[0]) then 1 else 0) + WordStarts(s[1..], IsSpace(s[0]))
  }

  /** The number of words of `s`, counted independently of trimming and splitting. */
  function WordTotal(s: string): nat {
    WordStarts(s, true)
  }

  lemma {:induction false} WordStartsOfSpaces(s: string, afterSpace: bool)
    requires forall i :: 0 <= i < |s| ==> IsSpace(s[i])
    ensures WordStarts(s, afterSpace) == 0
  {
    if s != [] {
      WordStartsOfSpaces(s[1..], true);
    }
  }

  lemma {:induction false} WordStartsOfWord(s: string)
    requires forall i :: 0 <= i < |s| ==> !IsSpace(s[i])
    ensures WordStarts(s, false) == 0
  {
    if s != [] {
      WordStartsOfWord(s[1..]);
    }
  }

  lemma {:induction false} WordStartsAppend(a: string, b: string, afterSpace: bool)
    ensures WordStarts(a + b, afterSpace) ==
              WordStarts(a, afterSpace) + WordStarts(b, if a == [] then afterSpace else IsSpace(a[|a| - 1]))
  {
    if a != [] {
      assert (a + b)[0] == a[0] && (a + b)[1..] == a[1..] + b;
      var tail := a[1..];
      assert (if tail == [] then IsSpace(a[0]) else IsSpace(tail[|tail| - 1])) == IsSpace(a[|a| - 1]);
      WordStartsAppend(tail, b, IsSpace(a[0]));
      var first := if afterSpace && !IsSpace(a[0]) then 1 else 0;
      assert WordStarts(a + b, afterSpace) == first + WordStarts(tail + b, IsSpace(a[0]));
      assert WordStarts(a, afterSpace) == first + WordStarts(tail, IsSpace(a[0]));
    } else {
      assert a + b == b;
    }
  }

  lemma {:induction false} WordStartsOfTrimStart(s: string)
    ensures WordTotal(TrimStart(s)) == WordTotal(s)
    decreases |s|
  {
    if s != [] && IsSpace(s[0]) {
      WordStartsOfTrimStart(s[1..]);
    }
  }

  lemma WordStartsOfTrimEnd(t: string)
    ensures WordTotal(TrimEnd(t)) == WordTotal(t)
  {
    var u := TrimEnd(t);
    var tail := t[|u|..];
    assert t == u + tail;
    WordStartsOfSpaces(tail, if u == [] then true else IsSpace(u[|u| - 1]));
    WordStartsAppend(u, tail, true);
  }

  /** Leading and trailing white space starts no word. */
  lemma WordStartsOfTrim(s: string)
    ensures WordTotal(Trim(s)) == WordTotal(s)
  {
    WordStartsOfTrimStart(s);
    WordStartsOfTrimEnd(TrimStart(s));
  }

  /** A string starting with a word holds that word and the words after it. */
  lemma LeadingWordStarts(u: string)
    requires u != [] && !IsSpace(u[0])
    ensures WordTotal(u) == 1 + WordStarts(u[|LeadingWord(u)|..], false)
  {
    var w := LeadingWord(u);
    var rest := u[|w|..];
    assert u == w + rest;
    WordStartsAppend(w, rest, true);
    assert w == [w[0]] + w[1..];
    WordStartsOfWord(w[1..]);
  }

  /** The white space that follows a word starts no word. */
  lemma SpacesAfterWord(rest: string)
    requires rest != [] && IsSpace(rest[0])
    ensures WordStarts(rest, false) == WordTotal(TrimStart(rest))
  {
    WordStartsOfTrimStart(rest[1..]);
  }

  /** On a string without white space at either end, splitting yields one piece per word. */
  lemma {:induction false} PiecesCountWords(u: string)
    requires u == [] || (!IsSpace(u[0]) && !IsSpace(u[|u| - 1]))
    ensures |Pieces(u)| == if u == [] then 1 else WordTotal(u)
    ensures u != [] ==> WordTotal(u) >= 1
    decreases |u|
  {
    if u != [] {
      var w := LeadingWord(u);
      var rest := u[|w|..];
      LeadingWordStarts(u);
      if rest != [] {
        assert rest[|rest| - 1] == u[|u| - 1];
        SpacesAfterWord(rest);
        PiecesCountWords(TrimStart(rest));
      } else {
        assert WordStarts(rest, false) == 0;
      }
    }
  }

  /** The word count is the number of words, except that a blank value counts as one. */
  lemma WordCountIsWordTotal(s: string)
    ensures WordCount(s) == if WordTotal(s) == 0 then 1 else WordTotal(s)
    ensures WordCount(s) >= 1
    ensures Trim(s) == [] ==> WordCount(s) == 1
  {
    WordStartsOfTrim(s);
    PiecesCountWords(Trim(s));
  }

  /** The properties an entry records about its value. */
  datatype Properties = Properties(
    length: nat,
    isPalindrome: bool,
    uniqueCharacters: nat,
    wordCount: nat,
    sha256Hash: string,
    characterFrequencyMap: map<char, nat>)

  /** The property record of `value` under the digest `digest`. */
  function PropertiesOf(value: string, digest: string): Properties {
    Properties(Utf16Length(value), IsPalindrome(value), UniqueCharacters(value), WordCount(value),
               digest, Frequencies(Clean(value)))
  }

  /** How the recorded properties relate to one another. */
  lemma PropertiesAgree(value: string, digest: string)
    ensures var p := PropertiesOf(value, digest);
      && |p.characterFrequencyMap.Keys| == p.uniqueCharacters
      && SumOver(p.characterFrequencyMap, FirstOccurrences(Clean(value))) == |Clean(value)|
      && p.uniqueCharacters <= |Clean(value)| <= |value| <= p.length
      && p.wordCount >= 1
      && (p.uniqueCharacters == 0 ==> p.isPalindrome)
  {
    var w := Clean(value);
    var p := PropertiesOf(value, digest);
    FrequenciesCount(w);
    FrequenciesSum(w);
    PalindromeMirror(value);
    WordCountIsWordTotal(value);
    assert |w| <= |LowerString(value)| == |value|;
    assert p.characterFrequencyMap == Frequencies(w) && p.uniqueCharacters == |CharSet(w)|;
  }

  // Worked examples.

  lemma HelloFrequencies()
    ensures Frequencies("hello") == map['h' := 1, 'e' := 1, 'l' := 2, 'o' := 1]
  {
    assert "h"[..0] == [];
    assert "he"[..1] == "h";
    assert "hel"[..2] == "he";
    assert "hell"[..3] == "hel";
    assert "hello"[..4] == "hell";
  }

  lemma HelloCharSet()
    ensures |CharSet("hello")| == 4
  {
    assert CharSet("hello") == {'h', 'e', 'l', 'o'};
    assert |{'h', 'e', 'l', 'o'}| == 4;
  }

  /** "hello" has four distinct characters, and `l` occurs twice. */
  lemma HelloExample()
    ensures Clean("hello") == "hello"
    ensures UniqueCharacters("hello") == 4
    ensures Frequencies(Clean("hello")) == map['h' := 1, 'e' := 1, 'l' := 2, 'o' := 1]
  {
    CleanOfAlnum("hello");
    HelloFrequencies();
    HelloCharSet();
  }

  /** Appending a space and a word to text that ends in a word adds one word. */
  lemma AppendSpacedWord(a: string, w: string)
    requires a != [] && !IsSpace(a[|a| - 1])
    requires w != [] && forall i :: 0 <= i < |w| ==> !IsSpace(w[i])
    ensures WordTotal(a + " " + w) == WordTotal(a) + 1
  {
    var b := " " + w;
    assert a + " " + w == a + b;
    WordStartsAppend(a, b, true);
    assert b[1..] == w;
    assert w == [w[0]] + w[1..];
    WordStartsOfWord(w[1..]);
  }

  lemma AppendSpacedLength(a: string, w: string)
    ensures Utf16Length(a + " " + w) == Utf16Length(a) + 1 + Utf16Length(w)
  {
    assert a + " " + w == a + (" " + w);
    Utf16LengthAppend(a, " " + w);
    Utf16LengthAppend(" ", w);
  }

  /** "A man a plan a canal Panama", built word by word. */
  const Panama: string := "A" + " " + "man" + " " + "a" + " " + "plan" + " " + "a" + " " + "canal" + " " + "Panama"

  lemma PanamaLength()
    ensures Utf16Length(Panama) == 27
  {
    var p1 := "A";
    var p2 := p1 + " " + "man";
    var p3 := p2 + " " + "a";
    var p4 := p3 + " " + "plan";
    var p5 := p4 + " " + "a";
    var p6 := p5 + " " + "canal";
    assert Utf16Length(p2) == 5 by { AppendSpacedLength(p1, "man"); }
    assert Utf16Length(p3) == 7 by { AppendSpacedLength(p2, "a"); }
    assert Utf16Length(p4) == 12 by { AppendSpacedLength(p3, "plan"); }
    assert Utf16Length(p5) == 14 by { AppendSpacedLength(p4, "a"); }
    assert Utf16Length(p6) == 20 by { AppendSpacedLength(p5, "canal"); }
    AppendSpacedLength(p6, "Panama");
  }

  lemma PanamaWords()
    ensures WordTotal(Panama) == 7
  {
    var p1 := "A";
    var p2 := p1 + " " + "man";
    var p3 := p2 + " " + "a";
    var p4 := p3 + " " + "plan";
    var p5 := p4 + " " + "a";
    var p6 := p5 + " " + "canal";
    AppendSpacedWord(p1, "man");
    AppendSpacedWord(p2, "a");
    AppendSpacedWord(p3, "plan");
    AppendSpacedWord(p4, "a");
    AppendSpacedWord(p5, "canal");
    AppendSpacedWord(p6, "Panama");
  }

  /** "A man a plan a canal Panama" has 27 characters and 7 words. */
  lemma PanamaExample()
    ensures Utf16Length(Panama) == 27
    ensures WordCount(Panama) == 7
  {
    PanamaLength();
    PanamaWords();
    WordCountIsWordTotal(Panama);
  }
}
