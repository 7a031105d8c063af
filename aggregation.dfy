/** `combine_result` of `src/foo/tasks.py`: the chunk results arrive in any
    order; they are sorted by their first page number (Python's `sorted`,
    which is stable) and their texts and entity lists are concatenated in
    that order. */
module Aggregation {
  import opened Errors
  import opened Stages

  /** What `combine_result` assigns to the document: `pdf_text` and
      `entities`. */
  datatype DocumentResult = DocumentResult(text: string, entities: seq<string>)

  /** Every result has a first page, so the sort key can be computed. */
  predicate HasPages(results: seq<EntityResult>)
  {
    forall r :: r in results ==> r.pages != []
  }

  /** The sort key `x["pages"][0]`.  It is only consulted once `HasPages`
      holds; the value for an empty page list is never used. */
  function Key(r: EntityResult): int
  {
    if r.pages == [] then 0 else r.pages[0]
  }

  predicate SortedByKey(s: seq<EntityResult>)
  {
    forall i, j :: 0 <= i < j < |s| ==> Key(s[i]) <= Key(s[j])
  }

  predicate StrictlySortedByKey(s: seq<EntityResult>)
  {
    forall i, j :: 0 <= i < j < |s| ==> Key(s[i]) < Key(s[j])
  }

  /** No two results start at the same page. */
  predicate DistinctKeys(s: seq<EntityResult>)
  {
    forall i, j :: 0 <= i < j < |s| ==> Key(s[i]) != Key(s[j])
  }

  /** The results whose first page is `k`, in their order in `s`. */
  function WithKey(s: seq<EntityResult>, k: int): seq<EntityResult>
  {
    if s == [] then []
    else (if Key(s[0]) == k then [s[0]] else []) + WithKey(s[1..], k)
  }

  /** `s` is `results` sorted stably by first page: ordered by key, and the
      results sharing a key keep their relative order (so `s` is also a
      permutation of `results`). */
  ghost predicate StableSortOf(s: seq<EntityResult>, results: seq<EntityResult>)
  {
    SortedByKey(s) && forall k :: WithKey(s, k) == WithKey(results, k)
  }

  /** Inserts `x` before the first result whose key is not smaller. */
  function Insert(x: EntityResult, s: seq<EntityResult>): seq<EntityResult>
  {
    if s == [] then [x]
    else if Key(x) <= Key(s[0]) then [x] + s
    else [s[0]] + Insert(x, s[1..])
  }

  /** `sorted(results, key=lambda x: x["pages"][0])`, as a stable insertion
      sort; `SortSpec` and `StableSortUnique` show any stable sort gives the
      same sequence. */
  function SortByFirstPage(results: seq<EntityResult>): seq<EntityResult>
  {
    if results == [] then [] else Insert(results[0], SortByFirstPage(results[1..]))
  }

  /** The texts of `s`, concatenated in order. */
  function ConcatTexts(s: seq<EntityResult>): string
  {
    if s == [] then "" else s[0].text + ConcatTexts(s[1..])
  }

  /** The entity lists of `s`, concatenated in order. */
  function ConcatEntities(s: seq<EntityResult>): seq<string>
  {
    if s == [] then [] else s[0].entities + ConcatEntities(s[1..])
  }

  /** The sum of the results' entity counts. */
  function EntityCount(s: seq<EntityResult>): nat
  {
    if s == [] then 0 else |s[0].entities| + EntityCount(s[1..])
  }

  /** The sum of the results' text lengths. */
  function TextLength(s: seq<EntityResult>): nat
  {
    if s == [] then 0 else |s[0].text| + TextLength(s[1..])
  }

  /** What `combine_result` computes: the key of every result is taken
      first (an empty page list raises), then the sorted results' texts and
      entity lists are concatenated. */
  function Combine(results: seq<EntityResult>): (r: Result<DocumentResult>)
    ensures r.Ok? <==> forall i :: 0 <= i < |results| ==> results[i].pages != []
    ensures r.Err? ==> r.error == MissingFirstPage
    ensures results == [] ==> r == Ok(DocumentResult("", []))
  {
    if !HasPages(results) then Err(MissingFirstPage)
    else
      var s := SortByFirstPage(results);
      Ok(DocumentResult(ConcatTexts(s), ConcatEntities(s)))
  }

  /** `combine_result`: sort, then one loop that extends the entity list and
      appends the text of each result in turn. */
  method CombineResult(results: seq<EntityResult>) returns (r: Result<DocumentResult>)
    ensures r == Combine(results)
  {
    if !HasPages(results) {
      return Err(MissingFirstPage);
    }
    var sortedResults := SortByFirstPage(results);
    var extractedEntities: seq<string> := [];
    var extractedText: string := "";
    for i := 0 to |sortedResults|
      invariant extractedEntities + ConcatEntities(sortedResults[i..]) == ConcatEntities(sortedResults)
      invariant extractedText + ConcatTexts(sortedResults[i..]) == ConcatTexts(sortedResults)
    {
      assert sortedResults[i..][1..] == sortedResults[i + 1..];
      extractedEntities := extractedEntities + sortedResults[i].entities;
      extractedText := extractedText + sortedResults[i].text;
    }
    assert sortedResults[|sortedResults|..] == [];
    assert extractedEntities + [] == extractedEntities && extractedText + "" == extractedText;
    return Ok(DocumentResult(extractedText, extractedEntities));
  }

  // ---------------------------------------------------------------------
  // The sort

  lemma ConsSorted(h: EntityResult, t: seq<EntityResult>)
    requires SortedByKey(t)
    requires forall y :: y in t ==> Key(h) <= Key(y)
    ensures SortedByKey([h] + t)
  {
  }

  lemma ConsStrictlySorted(h: EntityResult, t: seq<EntityResult>)
    requires StrictlySortedByKey(t)
    requires forall y :: y in t ==> Key(h) < Key(y)
    ensures StrictlySortedByKey([h] + t)
  {
  }

  lemma {:induction false} InsertPermutes(x: EntityResult, s: seq<EntityResult>)
    ensures multiset(Insert(x, s)) == multiset(s) + multiset{x}
  {
    if s != [] && Key(x) > Key(s[0]) {
      InsertPermutes(x, s[1..]);
      assert s == [s[0]] + s[1..];
    }
  }

  lemma {:induction false} InsertSorted(x: EntityResult, s: seq<EntityResult>)
    requires SortedByKey(s)
    ensures SortedByKey(Insert(x, s))
  {
    if s == [] {
    } else if Key(x) <= Key(s[0]) {
      ConsSorted(x, s);
    } else {
      InsertSorted(x, s[1..]);
      InsertPermutes(x, s[1..]);
      forall y | y in Insert(x, s[1..]) ensures Key(s[0]) <= Key(y) {
        assert y in multiset(Insert(x, s[1..]));
        if y != x {
          assert y in s[1..];
        }
      }
      ConsSorted(s[0], Insert(x, s[1..]));
    }
  }

  lemma WithKeyCons(h: EntityResult, t: seq<EntityResult>, k: int)
    ensures WithKey([h] + t, k) == (if Key(h) == k then [h] else []) + WithKey(t, k)
  {
  }

  lemma {:induction false} InsertWithKey(x: EntityResult, s: seq<EntityResult>, k: int)
    ensures WithKey(Insert(x, s), k) == (if Key(x) == k then [x] else []) + WithKey(s, k)
  {
    if s == [] {
      WithKeyCons(x, [], k);
      assert [x] + [] == [x];
    } else if Key(x) <= Key(s[0]) {
      WithKeyCons(x, s, k);
    } else {
      var rest := Insert(x, s[1..]);
      InsertWithKey(x, s[1..], k);
      WithKeyCons(s[0], rest, k);
      WithKeyCons(s[0], s[1..], k);
      assert s == [s[0]] + s[1..];
      if Key(x) == k {
        assert WithKey(Insert(x, s), k) == [x] + WithKey(s[1..], k);
      } else {
        assert WithKey(Insert(x, s), k) == (if Key(s[0]) == k then [s[0]] else []) + WithKey(s[1..], k);
      }
    }
  }

  /** The model of `sorted` is a stable sort: it orders the results by
      first page, keeps their multiset, and keeps the arrival order of
      results with the same first page. */
  lemma {:induction false} SortSpec(results: seq<EntityResult>)
    ensures StableSortOf(SortByFirstPage(results), results)
    ensures multiset(SortByFirstPage(results)) == multiset(results)
  {
    if results != [] {
      var x, rest := results[0], results[1..];
      SortSpec(rest);
      InsertSorted(x, SortByFirstPage(rest));
      InsertPermutes(x, SortByFirstPage(rest));
      assert results == [x] + rest;
      forall k ensures WithKey(SortByFirstPage(results), k) == WithKey(results, k) {
        InsertWithKey(x, SortByFirstPage(rest), k);
      }
    }
  }

  lemma {:induction false} WithKeyMembers(s: seq<EntityResult>, k: int)
    ensures forall y :: y in WithKey(s, k) ==> y in s && Key(y) == k
  {
    if s != [] {
      WithKeyMembers(s[1..], k);
    }
  }

  lemma WithKeyOfHead(s: seq<EntityResult>)
    requires s != []
    ensures WithKey(s, Key(s[0])) != []
  {
  }

  /** In a sorted sequence, the first key is at most any key that occurs. */
  lemma FirstKeyIsLeast(s: seq<EntityResult>, k: int)
    requires SortedByKey(s) && s != [] && WithKey(s, k) != []
    ensures Key(s[0]) <= k
  {
  }

  /** A stable sort has a single possible outcome: two sorted sequences that
      agree on the order of the results under every key are equal. */
  lemma {:induction false} StableSortUnique(s: seq<EntityResult>, t: seq<EntityResult>)
    requires SortedByKey(s) && SortedByKey(t)
    requires forall k :: WithKey(s, k) == WithKey(t, k)
    ensures s == t
    decreases |s|
  {
    if s == [] || t == [] {
      if s != [] {
        WithKeyOfHead(s);
        assert false;
      } else if t != [] {
        WithKeyOfHead(t);
        assert false;
      }
    } else {
      var k := Key(s[0]);
      assert WithKey(s, k) == [s[0]] + WithKey(s[1..], k);
      FirstKeyIsLeast(t, k);
      assert WithKey(t, Key(t[0])) != [];
      FirstKeyIsLeast(s, Key(t[0]));
      assert Key(t[0]) == k;
      assert WithKey(t, k) == [t[0]] + WithKey(t[1..], k);
      assert s[0] == WithKey(s, k)[0] == WithKey(t, k)[0] == t[0];
      forall k' ensures WithKey(s[1..], k') == WithKey(t[1..], k') {
        if k' == k {
          assert WithKey(s[1..], k) == WithKey(s, k)[1..];
          assert WithKey(t[1..], k) == WithKey(t, k)[1..];
        } else {
          assert WithKey(s[1..], k') == WithKey(s, k');
          assert WithKey(t[1..], k') == WithKey(t, k');
        }
      }
      StableSortUnique(s[1..], t[1..]);
      assert s == [s[0]] + s[1..] && t == [t[0]] + t[1..];
    }
  }

  // ---------------------------------------------------------------------
  // The concatenation in page order

  /** `combine_result` is the concatenation, in ascending first-page order,
      of the texts and of the entity lists: for every stable sort `s` of the
      results, its text is the texts of `s` in turn and its entities the
      entity lists of `s` in turn. */
  lemma CombineInPageOrder(results: seq<EntityResult>, s: seq<EntityResult>)
    requires HasPages(results)
    requires StableSortOf(s, results)
    ensures Combine(results) == Ok(DocumentResult(ConcatTexts(s), ConcatEntities(s)))
  {
    SortSpec(results);
    StableSortUnique(SortByFirstPage(results), s);
  }

  lemma {:induction false} InsertCounts(x: EntityResult, s: seq<EntityResult>)
    ensures EntityCount(Insert(x, s)) == |x.entities| + EntityCount(s)
    ensures TextLength(Insert(x, s)) == |x.text| + TextLength(s)
  {
    if s == [] {
      assert [x][1..] == [];
    } else if Key(x) <= Key(s[0]) {
      assert ([x] + s)[1..] == s;
    } else {
      InsertCounts(x, s[1..]);
      assert ([s[0]] + Insert(x, s[1..]))[1..] == Insert(x, s[1..]);
    }
  }

  lemma {:induction false} SortCounts(results: seq<EntityResult>)
    ensures EntityCount(SortByFirstPage(results)) == EntityCount(results)
    ensures TextLength(SortByFirstPage(results)) == TextLength(results)
  {
    if results != [] {
      SortCounts(results[1..]);
      InsertCounts(results[0], SortByFirstPage(results[1..]));
    }
  }

  lemma {:induction false} ConcatLengths(s: seq<EntityResult>)
    ensures |ConcatEntities(s)| == EntityCount(s)
    ensures |ConcatTexts(s)| == TextLength(s)
  {
    if s != [] {
      ConcatLengths(s[1..]);
    }
  }

  /** Nothing is deduplicated or dropped: the combined entity list has as
      many entries as all results together, and the combined text is as
      long as all texts together. */
  lemma CombineSizes(results: seq<EntityResult>)
    requires HasPages(results)
    ensures Combine(results).Ok?
    ensures |Combine(results).value.entities| == EntityCount(results)
    ensures |Combine(results).value.text| == TextLength(results)
  {
    SortCounts(results);
    ConcatLengths(SortByFirstPage(results));
  }

  // ---------------------------------------------------------------------
  // Independence of the arrival order

  lemma {:induction false} InsertStrictlySorted(x: EntityResult, s: seq<EntityResult>)
    requires StrictlySortedByKey(s)
    requires forall y :: y in s ==> Key(y) != Key(x)
    ensures StrictlySortedByKey(Insert(x, s))
  {
    if s == [] {
    } else if Key(x) <= Key(s[0]) {
      assert Key(x) != Key(s[0]);
      ConsStrictlySorted(x, s);
    } else {
      InsertStrictlySorted(x, s[1..]);
      InsertPermutes(x, s[1..]);
      forall y | y in Insert(x, s[1..]) ensures Key(s[0]) < Key(y) {
        assert y in multiset(Insert(x, s[1..]));
        if y != x {
          assert y in s[1..];
        }
      }
      ConsStrictlySorted(s[0], Insert(x, s[1..]));
    }
  }

  lemma {:induction false} SortStrictlySorted(results: seq<EntityResult>)
    requires DistinctKeys(results)
    ensures StrictlySortedByKey(SortByFirstPage(results))
  {
    if results != [] {
      var x, rest := results[0], results[1..];
      SortStrictlySorted(rest);
      SortSpec(rest);
      forall y | y in SortByFirstPage(rest) ensures Key(y) != Key(x) {
        assert y in multiset(SortByFirstPage(rest));
        var j :| 0 <= j < |rest| && rest[j] == y;
        assert results[j + 1] == y;
      }
      InsertStrictlySorted(x, SortByFirstPage(rest));
    }
  }

  /** A strictly sorted sequence and a sorted arrangement of the same
      elements start with the same result. */
  lemma StrictSortHeads(s: seq<EntityResult>, t: seq<EntityResult>)
    requires StrictlySortedByKey(s) && SortedByKey(t)
    requires s != [] && t != [] && multiset(s) == multiset(t)
    ensures s[0] == t[0]
  {
    assert s[0] in multiset(t);
    var j :| 0 <= j < |t| && t[j] == s[0];
    assert t[0] in multiset(s);
    var i :| 0 <= i < |s| && s[i] == t[0];
    if i > 0 {
      assert false;
    }
  }

  lemma DropHeads(s: seq<EntityResult>, t: seq<EntityResult>)
    requires s != [] && t != [] && s[0] == t[0] && multiset(s) == multiset(t)
    ensures multiset(s[1..]) == multiset(t[1..])
  {
    assert s == [s[0]] + s[1..] && t == [t[0]] + t[1..];
    assert multiset(s[1..]) == multiset(s) - multiset{s[0]};
    assert multiset(t[1..]) == multiset(t) - multiset{t[0]};
  }

  /** A strictly sorted sequence is the only sorted arrangement of its
      elements. */
  lemma {:induction false} StrictSortUnique(s: seq<EntityResult>, t: seq<EntityResult>)
    requires StrictlySortedByKey(s) && SortedByKey(t)
    requires multiset(s) == multiset(t)
    ensures s == t
    decreases |s|
  {
    if s == [] {
      assert |t| == |multiset(t)| == 0;
    } else if t == [] {
      assert false;
    } else {
      StrictSortHeads(s, t);
      DropHeads(s, t);
      StrictSortUnique(s[1..], t[1..]);
      assert s == [s[0]] + s[1..] && t == [t[0]] + t[1..];
    }
  }

  lemma SamePages(a: seq<EntityResult>, b: seq<EntityResult>)
    requires multiset(a) == multiset(b)
    ensures HasPages(a) <==> HasPages(b)
  {
    forall r | r in a ensures r in b { assert r in multiset(a); }
    forall r | r in b ensures r in a { assert r in multiset(b); }
  }

  /** When no two results start at the same page, the combined text and
      entities do not depend on the order the results arrive in; the
      exception for a result without pages does not either. */
  lemma CombineOrderIndependent(a: seq<EntityResult>, b: seq<EntityResult>)
    requires multiset(a) == multiset(b)
    requires HasPages(a) ==> DistinctKeys(a)
    ensures Combine(a) == Combine(b)
  {
    SamePages(a, b);
    if HasPages(a) {
      SortSpec(a);
      SortSpec(b);
      SortStrictlySorted(a);
      StrictSortUnique(SortByFirstPage(a), SortByFirstPage(b));
    }
  }
}
