/** The in-memory entry store: an insertion-ordered sequence of analyzed entries, keyed by
    the hash of their value, with create, lookup and delete. */
module Store {
  import opened Wrappers
  import opened JsRuntime
  import Analyzer

  /** A hex digest; the SHA-256 function itself is the store's `hash` parameter. */
  type Digest = string

  /** An ISO-8601 time stamp, supplied by the caller. */
  type Timestamp = string

  datatype Entry = Entry(id: Digest, value: string, properties: Analyzer.Properties, createdAt: Timestamp)

  datatype CreateError =
    | StringMissing   // 400: the value is absent or falsy
    | NotAString      // 422: the value is not a string
    | AlreadyExists   // 409: an entry with the same id is stored

  /** The hypothesis, made only where it is needed, that distinct values have distinct digests. */
  ghost predicate Injective(hash: string -> Digest) {
    forall a, b :: hash(a) == hash(b) ==> a == b
  }

  /** An entry as the create handler builds it: its id is the digest of its value and its
      properties are those of its value. */
  predicate Analyzed(e: Entry, hash: string -> Digest) {
    e.id == hash(e.value) && e.properties == Analyzer.PropertiesOf(e.value, e.id)
  }

  predicate IdsDistinct(es: seq<Entry>) {
    forall i, j :: 0 <= i < j < |es| ==> es[i].id != es[j].id
  }

  predicate HasId(es: seq<Entry>, id: Digest) {
    exists i :: 0 <= i < |es| && es[i].id == id
  }

  /** `k` is the first position holding an entry with this id. */
  predicate IsFirstWithId(es: seq<Entry>, id: Digest, k: int) {
    0 <= k < |es| && es[k].id == id && forall i :: 0 <= i < k ==> es[i].id != id
  }

  /** `splice(k, 1)`. */
  function RemoveAt(es: seq<Entry>, k: nat): seq<Entry>
    requires k < |es|
  {
    es[..k] + es[k + 1..]
  }

  predicate AllAnalyzed(es: seq<Entry>, hash: string -> Digest) {
    forall i :: 0 <= i < |es| ==> Analyzed(es[i], hash)
  }

  /** Appending an entry with a fresh id keeps ids distinct. */
  lemma AppendKeepsIdsDistinct(es: seq<Entry>, e: Entry)
    requires IdsDistinct(es) && !HasId(es, e.id)
    ensures IdsDistinct(es + [e])
  {
    var r := es + [e];
    forall i, j | 0 <= i < j < |r|
      ensures r[i].id != r[j].id
    {
      assert r[i] == es[i];
      if j == |es| {
        assert r[j] == e;
      } else {
        assert r[j] == es[j];
      }
    }
  }

  /** Appending an analyzed entry keeps every entry analyzed. */
  lemma AppendKeepsAnalyzed(es: seq<Entry>, e: Entry, hash: string -> Digest)
    requires AllAnalyzed(es, hash) && Analyzed(e, hash)
    ensures AllAnalyzed(es + [e], hash)
  {
    var r := es + [e];
    forall i | 0 <= i < |r|
      ensures Analyzed(r[i], hash)
    {
      if i < |es| {
        assert r[i] == es[i];
      }
    }
  }

  /** Removing an entry keeps every remaining one analyzed. */
  lemma RemoveKeepsAnalyzed(es: seq<Entry>, k: nat, hash: string -> Digest)
    requires k < |es| && AllAnalyzed(es, hash)
    ensures AllAnalyzed(RemoveAt(es, k), hash)
  {
    var r := RemoveAt(es, k);
    forall i | 0 <= i < |r|
      ensures Analyzed(r[i], hash)
    {
      assert r[i] == (if i < k then es[i] else es[i + 1]);
    }
  }

  /** `xs` is `ys` with some elements left out, the rest in their original order. */
  predicate IsSubsequence<T(==)>(xs: seq<T>, ys: seq<T>)
    decreases |ys|
  {
    if xs == [] then true
    else if ys == [] then false
    else (xs[0] == ys[0] && IsSubsequence(xs[1..], ys[1..])) || IsSubsequence(xs, ys[1..])
  }

  lemma {:induction false} SubsequenceRefl<T>(xs: seq<T>)
    ensures IsSubsequence(xs, xs)
  {
    if xs != [] {
      SubsequenceRefl(xs[1..]);
    }
  }

  /** Removing one entry keeps the others in their order. */
  lemma {:induction false} RemoveAtSubsequence(es: seq<Entry>, k: nat)
    requires k < |es|
    ensures IsSubsequence(RemoveAt(es, k), es)
  {
    var r := RemoveAt(es, k);
    if k == 0 {
      assert r == es[1..];
      SubsequenceRefl(es[1..]);
    } else {
      RemoveAtSubsequence(es[1..], k - 1);
      assert r[0] == es[0] && r[1..] == RemoveAt(es[1..], k - 1);
    }
  }

  /** The entries after position `k` move down by one. */
  lemma RemoveAtIndex(es: seq<Entry>, k: nat)
    requires k < |es|
    ensures |RemoveAt(es, k)| == |es| - 1
    ensures forall i :: 0 <= i < |es| - 1 ==> RemoveAt(es, k)[i] == (if i < k then es[i] else es[i + 1])
  {
  }

  /** With distinct ids, the remaining ids stay distinct and the removed one is gone. */
  lemma RemoveAtIds(es: seq<Entry>, k: nat)
    requires k < |es| && IdsDistinct(es)
    ensures IdsDistinct(RemoveAt(es, k)) && !HasId(RemoveAt(es, k), es[k].id)
  {
    RemoveAtIndex(es, k);
  }

  /** With distinct ids, the remaining entries are exactly those with another id. */
  lemma RemoveAtMembers(es: seq<Entry>, k: nat)
    requires k < |es| && IdsDistinct(es)
    ensures forall e :: e in RemoveAt(es, k) <==> e in es && e.id != es[k].id
  {
    var r := RemoveAt(es, k);
    RemoveAtIndex(es, k);
    forall e | e in es && e.id != es[k].id
      ensures e in r
    {
      var i :| 0 <= i < |es| && es[i] == e;
      assert i != k;
      assert r[if i < k then i else i - 1] == e;
    }
  }

  /** Removing one entry keeps the others in order, removes every entry carrying that id when
      ids are distinct, and keeps ids distinct. */
  lemma RemoveAtSpec(es: seq<Entry>, k: nat)
    requires k < |es|
    ensures IsSubsequence(RemoveAt(es, k), es)
    ensures |RemoveAt(es, k)| == |es| - 1
    ensures IdsDistinct(es) ==> IdsDistinct(RemoveAt(es, k)) && !HasId(RemoveAt(es, k), es[k].id)
    ensures IdsDistinct(es) ==> forall e :: e in RemoveAt(es, k) <==> e in es && e.id != es[k].id
  {
    RemoveAtSubsequence(es, k);
    if IdsDistinct(es) {
      RemoveAtIds(es, k);
      RemoveAtMembers(es, k);
    }
  }

  /** `after` is `before` without any entry carrying `id`, the rest kept in order. */
  ghost predicate Erased(before: seq<Entry>, after: seq<Entry>, id: Digest) {
    && !HasId(after, id)
    && IsSubsequence(after, before)
    && forall e :: e in after <==> e in before && e.id != id
  }

  /** With distinct ids, removing the entry at `k` erases its id. */
  lemma RemoveAtErases(es: seq<Entry>, k: nat)
    requires k < |es| && IdsDistinct(es)
    ensures Erased(es, RemoveAt(es, k), es[k].id)
    ensures IdsDistinct(RemoveAt(es, k))
  {
    RemoveAtSpec(es, k);
  }

  /** A store holding no entry with `id` has nothing to erase. */
  lemma NothingToErase(es: seq<Entry>, id: Digest)
    requires !HasId(es, id)
    ensures Erased(es, es, id)
  {
    SubsequenceRefl(es);
    forall e | e in es
      ensures e.id != id
    {
      var i :| 0 <= i < |es| && es[i] == e;
    }
  }

  /** The store. `hash` stands for SHA-256 in hex; `entries` is the stored array. */
  class EntryStore {
    const hash: string -> Digest
    var entries: seq<Entry>

    ghost predicate Valid()
      reads this
    {
      && IdsDistinct(entries)
      && AllAnalyzed(entries, hash)
    }

    constructor (hash: string -> Digest)
      ensures Valid()
      ensures this.hash == hash && entries == []
    {
      this.hash := hash;
      entries := [];
    }

    /** `findIndex(item => item.id === id)`. */
    method IndexOfId(id: Digest) returns (k: int)
      ensures -1 <= k < |entries|
      ensures k == -1 <==> !HasId(entries, id)
      ensures k >= 0 ==> IsFirstWithId(entries, id, k)
    {
      k := 0;
      while k < |entries|
        invariant 0 <= k <= |entries|
        invariant forall i :: 0 <= i < k ==> entries[i].id != id
      {
        if entries[k].id == id {
          return;
        }
        k := k + 1;
      }
      k := -1;
    }

    /** `find(item => item.id === id)`. */
    method FindById(id: Digest) returns (r: Option<Entry>)
      ensures r.None? <==> !HasId(entries, id)
      ensures r.Some? ==> exists k :: IsFirstWithId(entries, id, k) && entries[k] == r.value
    {
      var k := IndexOfId(id);
      if k == -1 {
        r := None;
      } else {
        r := Some(entries[k]);
      }
    }

    /** `GET /strings/:string_value`: the entry stored under the digest of `value`. */
    method Get(value: string) returns (r: Option<Entry>)
      ensures r.None? <==> !HasId(entries, hash(value))
      ensures r.Some? ==> r.value in entries && r.value.id == hash(value)
      ensures Valid() && r.Some? ==> Analyzed(r.value, hash)
      ensures Valid() && Injective(hash) && r.Some? ==>
                r.value.value == value && r.value.properties == Analyzer.PropertiesOf(value, hash(value))
    {
      r := FindById(hash(value));
      if r.Some? {
        var k :| IsFirstWithId(entries, hash(value), k) && entries[k] == r.value;
      }
    }

    /** `POST /strings`: validates the submitted value, rejects a duplicate, and otherwise
        appends the analyzed entry. */
    method Create(value: JsValue, now: Timestamp) returns (r: Result<Entry, CreateError>)
      requires Valid()
      modifies this
      ensures Valid()
      ensures !Truthy(value) ==> r == Err(StringMissing)
      ensures Truthy(value) && !value.Text? ==> r == Err(NotAString)
      ensures value.Text? && value.s != "" && HasId(old(entries), hash(value.s)) ==> r == Err(AlreadyExists)
      ensures r.Ok? <==> value.Text? && value.s != "" && !HasId(old(entries), hash(value.s))
      ensures r.Err? ==> entries == old(entries)
      ensures r.Ok? ==>
                && r.value == Entry(hash(value.s), value.s, Analyzer.PropertiesOf(value.s, hash(value.s)), now)
                && entries == old(entries) + [r.value]
    {
      if !Truthy(value) {
        return Err(StringMissing);
      }
      if !value.Text? {
        return Err(NotAString);
      }
      var s := value.s;
      var digest := hash(s);
      var existing := FindById(digest);
      if existing.Some? {
        return Err(AlreadyExists);
      }
      var frequencies := Analyzer.CharacterFrequencyMap(s);
      var properties := Analyzer.Properties(
        Utf16Length(s), Analyzer.IsPalindrome(s), Analyzer.UniqueCharacters(s), Analyzer.WordCount(s),
        digest, frequencies);
      var data := Entry(digest, s, properties, now);
      assert properties == Analyzer.PropertiesOf(s, digest);
      AppendKeepsIdsDistinct(entries, data);
      AppendKeepsAnalyzed(entries, data, hash);
      entries := entries + [data];
      r := Ok(data);
    }

    /** `DELETE /strings/:string_value`: removes the first entry stored under the digest of
        `value`, reporting whether there was one. */
    method Delete(value: string) returns (deleted: bool)
      requires Valid()
      modifies this
      ensures Valid()
      ensures deleted <==> HasId(old(entries), hash(value))
      ensures !deleted ==> entries == old(entries)
      ensures deleted ==> exists k :: IsFirstWithId(old(entries), hash(value), k) &&
                                      entries == RemoveAt(old(entries), k)
      ensures Erased(old(entries), entries, hash(value))
    {
      var k := IndexOfId(hash(value));
      if k == -1 {
        deleted := false;
        NothingToErase(entries, hash(value));
      } else {
        RemoveAtErases(entries, k);
        RemoveKeepsAnalyzed(entries, k, hash);
        entries := RemoveAt(entries, k);
        deleted := true;
      }
    }
  }

  /** Submitting the same value twice to a new store: the first is stored, the second is
      refused as a duplicate. */
  method SubmitTwice(hash: string -> Digest, v: string, now: Timestamp)
    returns (first: Result<Entry, CreateError>, second: Result<Entry, CreateError>)
    requires v != ""
    ensures first.Ok? && first.value.id == hash(v) && first.value.value == v
    ensures second == Err(AlreadyExists)
  {
    var store := new EntryStore(hash);
    first := store.Create(Text(v), now);
    assert store.entries[0].id == hash(v);
    second := store.Create(Text(v), now);
  }
}
