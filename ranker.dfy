/**
 The ranker: `sorted(occ.items(), key=itemgetter(1), reverse=True)`
 followed by the generator that keeps the entries whose word passes
 `isalpha`.

 The order in which `occ.items()` lists the table is not specified, so the
 model lets `Items` pick it; everything proved about the ranking holds
 whatever that order is.
 */
module Ranker {
  import opened Text
  import opened Selection
  import opened Aggregator

  /** One `(word, count)` pair of the table. */
  datatype Entry = Entry(word: string, count: nat)

  /** The pairs of a table, as a set. */
  function EntriesOf(occ: Table): set<Entry>
  {
    set w | w in occ :: Entry(w, occ[w])
  }

  /** `items` lists every pair of `occ` exactly once, in some order. */
  predicate IsEnumeration(items: seq<Entry>, occ: Table)
  {
    multiset(items) == multiset(EntriesOf(occ))
  }

  lemma MultisetOfSetAdd(s: set<Entry>, e: Entry)
    requires e !in s
    ensures multiset(s + {e}) == multiset(s) + multiset{e}
  {
    forall x ensures multiset(s + {e})[x] == (multiset(s) + multiset{e})[x] {
    }
  }

  /** Removing one key of a table removes exactly its pair from the table's pairs. */
  lemma EntriesOfRemove(occ: Table, w: string)
    requires w in occ
    ensures EntriesOf(occ) == EntriesOf(occ - {w}) + {Entry(w, occ[w])}
    ensures Entry(w, occ[w]) !in EntriesOf(occ - {w})
  {
    var smaller := occ - {w};
    forall x | x in EntriesOf(occ) ensures x in EntriesOf(smaller) + {Entry(w, occ[w])} {
      var v :| v in occ && x == Entry(v, occ[v]);
      if v != w {
        assert v in smaller && smaller[v] == occ[v];
      }
    }
    forall x | x in EntriesOf(smaller) ensures x in EntriesOf(occ) {
      var v :| v in smaller && x == Entry(v, smaller[v]);
      assert v in occ;
    }
  }

  /** `occ.items()`: lists the table's pairs one by one, in an order the model leaves open. */
  method Items(occ: Table) returns (items: seq<Entry>)
    ensures IsEnumeration(items, occ)
  {
    items := [];
    var rest := occ;
    while rest != map[]
      invariant multiset(items) + multiset(EntriesOf(rest)) == multiset(EntriesOf(occ))
      decreases rest.Keys
    {
      var w :| w in rest;
      var e := Entry(w, rest[w]);
      EntriesOfRemove(rest, w);
      MultisetOfSetAdd(EntriesOf(rest - {w}), e);
      items := items + [e];
      rest := rest - {w};
    }
    assert EntriesOf(rest) == {};
  }

  /**
   Every position of an enumeration holds a pair of the table, every pair of
   the table is listed, and no word is listed twice.
   */
  lemma EnumerationFacts(items: seq<Entry>, occ: Table)
    requires IsEnumeration(items, occ)
    ensures forall i :: 0 <= i < |items| ==> items[i].word in occ && items[i].count == occ[items[i].word]
    ensures forall w :: w in occ ==> Entry(w, occ[w]) in items
    ensures forall i, j :: 0 <= i < j < |items| ==> items[i].word != items[j].word
  {
    forall i | 0 <= i < |items|
      ensures items[i].word in occ && items[i].count == occ[items[i].word]
    {
      assert items[i] in multiset(items);
    }
    forall w | w in occ ensures Entry(w, occ[w]) in items {
      assert Entry(w, occ[w]) in multiset(EntriesOf(occ));
    }
    forall i, j | 0 <= i < j < |items| ensures items[i].word != items[j].word {
      NoRepeatedEntry(items, occ, i, j);
    }
  }

  lemma NoRepeatedEntry(items: seq<Entry>, occ: Table, i: nat, j: nat)
    requires IsEnumeration(items, occ) && i < j < |items|
    ensures items[i] != items[j]
  {
    var e, front, back := items[i], multiset(items[..j]), multiset(items[j..]);
    assert multiset(EntriesOf(occ))[e] <= 1;
    assert items == items[..j] + items[j..];
    assert e in front;
    assert items[j] in back;
    assert multiset(items)[e] == front[e] + back[e];
    assert items[j] == e ==> back[e] >= 1;
  }

  // ---------------- Sorting by count, highest first ----------------

  /** Counts never increase along the list. */
  predicate NonIncreasing(es: seq<Entry>)
  {
    forall i, j :: 0 <= i < j < |es| ==> es[i].count >= es[j].count
  }

  /**
   Places `e` before the first entry whose count is not above its own, so
   that among equal counts `e` stays ahead of the entries that followed it.
   */
  function Insert(e: Entry, es: seq<Entry>): seq<Entry>
  {
    if es == [] || es[0].count <= e.count then [e] + es
    else [es[0]] + Insert(e, es[1..])
  }

  lemma {:induction false} InsertPermutes(e: Entry, es: seq<Entry>)
    ensures multiset(Insert(e, es)) == multiset(es) + multiset{e}
  {
    if es != [] && es[0].count > e.count {
      InsertPermutes(e, es[1..]);
      assert es == [es[0]] + es[1..];
    }
  }

  /** A head whose count bounds every count of a non-increasing list keeps it non-increasing. */
  lemma ConsKeepsOrder(head: Entry, tail: seq<Entry>)
    requires NonIncreasing(tail)
    requires forall k :: 0 <= k < |tail| ==> tail[k].count <= head.count
    ensures NonIncreasing([head] + tail)
  {
    var r := [head] + tail;
    forall i, j | 0 <= i < j < |r| ensures r[i].count >= r[j].count {
      assert r[j] == tail[j - 1];
      if i > 0 {
        assert r[i] == tail[i - 1];
      }
    }
  }

  lemma {:induction false} InsertKeepsOrder(e: Entry, es: seq<Entry>)
    requires NonIncreasing(es)
    ensures NonIncreasing(Insert(e, es))
  {
    if es != [] && es[0].count > e.count {
      var head, rest := es[0], es[1..];
      var tail := Insert(e, rest);
      assert NonIncreasing(rest);
      InsertKeepsOrder(e, rest);
      InsertPermutes(e, rest);
      forall k | 0 <= k < |tail| ensures tail[k].count <= head.count {
        var x := tail[k];
        assert x in multiset(tail);
        if x != e {
          assert x in multiset(rest);
          var m :| 0 <= m < |rest| && rest[m] == x;
          assert es[m + 1] == x;
        }
      }
      ConsKeepsOrder(head, tail);
    }
  }

  /**
   `sorted(items, key=count, reverse=True)`: a stable sort by count,
   highest first. The result is a permutation of the input whose counts
   never increase.
   */
  function SortByCount(es: seq<Entry>): (r: seq<Entry>)
    ensures multiset(r) == multiset(es)
    ensures NonIncreasing(r)
  {
    if es == [] then []
    else
      var rest := SortByCount(es[1..]);
      InsertPermutes(es[0], rest);
      InsertKeepsOrder(es[0], rest);
      assert es == [es[0]] + es[1..];
      Insert(es[0], rest)
  }

  /** The ranked list is an enumeration of the table with counts never increasing. */
  predicate IsRanking(ranked: seq<Entry>, occ: Table)
  {
    IsEnumeration(ranked, occ) && NonIncreasing(ranked)
  }

  lemma SortedItemsAreRanking(items: seq<Entry>, occ: Table)
    requires IsEnumeration(items, occ)
    ensures IsRanking(SortByCount(items), occ)
  {
  }

  // ---------------- The alphabetic filter ----------------

  /** `(e for e in es if e[0].isalpha())` */
  function KeepAlpha(isLetter: char -> bool, es: seq<Entry>): seq<Entry>
  {
    if es == [] then []
    else (if IsAlpha(isLetter, es[0].word) then [es[0]] else []) + KeepAlpha(isLetter, es[1..])
  }

  /** An entry is kept iff it is in the input and its word passes `isalpha`. */
  lemma {:induction false} KeepAlphaMembers(isLetter: char -> bool, es: seq<Entry>)
    ensures forall e :: e in KeepAlpha(isLetter, es) <==> e in es && IsAlpha(isLetter, e.word)
  {
    if es != [] {
      KeepAlphaMembers(isLetter, es[1..]);
      assert es == [es[0]] + es[1..];
    }
  }

  /** The filter works entry by entry: filtering a concatenation concatenates the filtered parts. */
  lemma {:induction false} KeepAlphaConcat(isLetter: char -> bool, a: seq<Entry>, b: seq<Entry>)
    ensures KeepAlpha(isLetter, a + b) == KeepAlpha(isLetter, a) + KeepAlpha(isLetter, b)
  {
    if a == [] {
      assert a + b == b;
    } else {
      var head: seq<Entry> := if IsAlpha(isLetter, a[0].word) then [a[0]] else [];
      assert (a + b)[0] == a[0];
      assert (a + b)[1..] == a[1..] + b;
      assert KeepAlpha(isLetter, a + b) == head + KeepAlpha(isLetter, a[1..] + b);
      KeepAlphaConcat(isLetter, a[1..], b);
      assert KeepAlpha(isLetter, a) == head + KeepAlpha(isLetter, a[1..]);
    }
  }

  /** Filtering keeps the relative order, so the kept counts still never increase. */
  lemma {:induction false} KeepAlphaNonIncreasing(isLetter: char -> bool, es: seq<Entry>)
    requires NonIncreasing(es)
    ensures NonIncreasing(KeepAlpha(isLetter, es))
  {
    if es != [] {
      var head, rest := es[0], es[1..];
      var tail := KeepAlpha(isLetter, rest);
      assert NonIncreasing(rest);
      KeepAlphaNonIncreasing(isLetter, rest);
      if IsAlpha(isLetter, head.word) {
        KeepAlphaMembers(isLetter, rest);
        forall k | 0 <= k < |tail| ensures tail[k].count <= head.count {
          assert tail[k] in rest;
          var m :| 0 <= m < |rest| && rest[m] == tail[k];
          assert es[m + 1] == tail[k];
        }
        ConsKeepsOrder(head, tail);
      }
    }
  }

  /** The filtered list seen through `Insert`: inserting then filtering equals filtering then inserting. */
  lemma {:induction false} KeepAlphaInsert(isLetter: char -> bool, e: Entry, es: seq<Entry>)
    requires NonIncreasing(es)
    ensures KeepAlpha(isLetter, Insert(e, es)) ==
            if IsAlpha(isLetter, e.word) then Insert(e, KeepAlpha(isLetter, es)) else KeepAlpha(isLetter, es)
  {
    if es == [] || es[0].count <= e.count {
      KeepAlphaInsertAtFront(isLetter, e, es);
    } else {
      assert NonIncreasing(es[1..]);
      KeepAlphaInsert(isLetter, e, es[1..]);
      KeepAlphaInsertPastHead(isLetter, e, es);
    }
  }

  lemma KeepAlphaInsertAtFront(isLetter: char -> bool, e: Entry, es: seq<Entry>)
    requires NonIncreasing(es) && (es == [] || es[0].count <= e.count)
    ensures KeepAlpha(isLetter, Insert(e, es)) ==
            if IsAlpha(isLetter, e.word) then Insert(e, KeepAlpha(isLetter, es)) else KeepAlpha(isLetter, es)
  {
    var kept := KeepAlpha(isLetter, es);
    var eKept: seq<Entry> := if IsAlpha(isLetter, e.word) then [e] else [];
    assert Insert(e, es) == [e] + es;
    KeepAlphaConcat(isLetter, [e], es);
    assert KeepAlpha(isLetter, [e]) == eKept;
    if IsAlpha(isLetter, e.word) && kept != [] {
      KeepAlphaMembers(isLetter, es);
      assert kept[0] in es;
      var k :| 0 <= k < |es| && es[k] == kept[0];
      assert kept[0].count <= e.count;
      assert Insert(e, kept) == [e] + kept;
    }
  }

  /** Filtering a list with a known head: the head, if kept, then the filtered rest. */
  lemma KeepAlphaCons(isLetter: char -> bool, x: Entry, xs: seq<Entry>)
    ensures KeepAlpha(isLetter, [x] + xs) == (if IsAlpha(isLetter, x.word) then [x] else []) + KeepAlpha(isLetter, xs)
  {
    assert ([x] + xs)[0] == x;
    assert ([x] + xs)[1..] == xs;
  }

  lemma KeepAlphaInsertPastHead(isLetter: char -> bool, e: Entry, es: seq<Entry>)
    requires es != [] && es[0].count > e.count
    requires KeepAlpha(isLetter, Insert(e, es[1..])) ==
             if IsAlpha(isLetter, e.word) then Insert(e, KeepAlpha(isLetter, es[1..])) else KeepAlpha(isLetter, es[1..])
    ensures KeepAlpha(isLetter, Insert(e, es)) ==
            if IsAlpha(isLetter, e.word) then Insert(e, KeepAlpha(isLetter, es)) else KeepAlpha(isLetter, es)
  {
    var head, tail := es[0], es[1..];
    assert es == [head] + tail;
    assert Insert(e, es) == [head] + Insert(e, tail);
    KeepAlphaCons(isLetter, head, Insert(e, tail));
    KeepAlphaCons(isLetter, head, tail);
    if IsAlpha(isLetter, e.word) {
      InsertPastFilteredHead(isLetter, e, head, KeepAlpha(isLetter, tail));
    }
  }

  lemma InsertPastFilteredHead(isLetter: char -> bool, e: Entry, head: Entry, tailKept: seq<Entry>)
    requires head.count > e.count
    ensures Insert(e, (if IsAlpha(isLetter, head.word) then [head] else []) + tailKept) ==
            (if IsAlpha(isLetter, head.word) then [head] else []) + Insert(e, tailKept)
  {
    if IsAlpha(isLetter, head.word) {
      assert ([head] + tailKept)[0] == head;
      assert ([head] + tailKept)[1..] == tailKept;
    } else {
      assert [] + tailKept == tailKept;
      assert [] + Insert(e, tailKept) == Insert(e, tailKept);
    }
  }

  /**
   Sorting then filtering (the order the program uses) gives the same list
   as filtering then sorting: the stable sort does not reorder the kept entries.
   */
  lemma {:induction false} KeepAlphaCommutesWithSort(isLetter: char -> bool, es: seq<Entry>)
    ensures KeepAlpha(isLetter, SortByCount(es)) == SortByCount(KeepAlpha(isLetter, es))
  {
    if es != [] {
      var head, tail := es[0], es[1..];
      KeepAlphaCommutesWithSort(isLetter, tail);
      KeepAlphaInsert(isLetter, head, SortByCount(tail));
      var tailKept := KeepAlpha(isLetter, tail);
      if IsAlpha(isLetter, head.word) {
        assert KeepAlpha(isLetter, es) == [head] + tailKept;
        assert ([head] + tailKept)[1..] == tailKept;
        assert SortByCount(KeepAlpha(isLetter, es)) == Insert(head, SortByCount(tailKept));
      } else {
        assert KeepAlpha(isLetter, es) == tailKept;
      }
    }
  }

  /** The filter only drops entries: it never adds one nor repeats one. */
  lemma {:induction false} KeepAlphaSubBag(isLetter: char -> bool, es: seq<Entry>)
    ensures multiset(KeepAlpha(isLetter, es)) <= multiset(es)
  {
    if es != [] {
      KeepAlphaSubBag(isLetter, es[1..]);
      assert es == [es[0]] + es[1..];
    }
  }

  /** The part of a table whose words pass `isalpha`. */
  function AlphaPart(isLetter: char -> bool, occ: Table): Table
  {
    map w | w in occ && IsAlpha(isLetter, w) :: occ[w]
  }

  lemma EntriesOfAlphaPart(isLetter: char -> bool, occ: Table)
    ensures forall e :: e in EntriesOf(AlphaPart(isLetter, occ)) <==> e in EntriesOf(occ) && IsAlpha(isLetter, e.word)
  {
    var alpha := AlphaPart(isLetter, occ);
    forall e | e in EntriesOf(alpha) ensures e in EntriesOf(occ) && IsAlpha(isLetter, e.word) {
      var w :| w in alpha && e == Entry(w, alpha[w]);
    }
    forall e | e in EntriesOf(occ) && IsAlpha(isLetter, e.word) ensures e in EntriesOf(alpha) {
      var w :| w in occ && e == Entry(w, occ[w]);
      assert w in alpha && alpha[w] == occ[w];
    }
  }

  /** Filtering an enumeration of a table enumerates the table's alphabetic part. */
  lemma KeptIsEnumeration(isLetter: char -> bool, items: seq<Entry>, occ: Table)
    requires IsEnumeration(items, occ)
    ensures IsEnumeration(KeepAlpha(isLetter, items), AlphaPart(isLetter, occ))
  {
    var kept, pairs := multiset(KeepAlpha(isLetter, items)), multiset(EntriesOf(AlphaPart(isLetter, occ)));
    KeepAlphaSubBag(isLetter, items);
    KeepAlphaMembers(isLetter, items);
    EntriesOfAlphaPart(isLetter, occ);
    forall e ensures kept[e] == pairs[e] {
      assert kept[e] <= multiset(items)[e] == multiset(EntriesOf(occ))[e];
      assert e in EntriesOf(AlphaPart(isLetter, occ)) ==> e in multiset(items);
    }
    assert kept == pairs;
  }

  /**
   What the writer emits from a ranking: a ranking of the alphabetic part of
   the table, so exactly its pairs, each once, counts never increasing, and
   never an empty word.
   */
  lemma EmittedEntries(isLetter: char -> bool, ranked: seq<Entry>, occ: Table)
    requires IsRanking(ranked, occ)
    ensures IsRanking(KeepAlpha(isLetter, ranked), AlphaPart(isLetter, occ))
    ensures forall w :: w in occ && IsAlpha(isLetter, w) ==> Entry(w, occ[w]) in KeepAlpha(isLetter, ranked)
    ensures forall e :: e in KeepAlpha(isLetter, ranked) ==>
              e.word in occ && e.count == occ[e.word] && IsAlpha(isLetter, e.word) && e.word != ""
    ensures var kept := KeepAlpha(isLetter, ranked);
            forall i, j :: 0 <= i < j < |kept| ==> kept[i].word != kept[j].word
  {
    EnumerationFacts(ranked, occ);
    KeepAlphaMembers(isLetter, ranked);
    KeepAlphaNonIncreasing(isLetter, ranked);
    KeptIsEnumeration(isLetter, ranked, occ);
    EnumerationFacts(KeepAlpha(isLetter, ranked), AlphaPart(isLetter, occ));
  }

  // ---------------- Total of the counts ----------------

  function Sum(es: seq<Entry>): nat
  {
    if es == [] then 0 else es[0].count + Sum(es[1..])
  }

  lemma {:induction false} RemoveAllCard(bag: multiset<string>, w: string)
    ensures |bag[w := 0]| + bag[w] == |bag|
    decreases bag[w]
  {
    if bag[w] > 0 {
      var smaller := bag - multiset{w};
      assert bag == smaller + multiset{w};
      assert smaller[w := 0] == bag[w := 0];
      RemoveAllCard(smaller, w);
    } else {
      assert bag[w := 0] == bag;
    }
  }

  lemma EmptyTableHasNoEntries(bag: multiset<string>)
    ensures multiset(EntriesOf(ToTable(bag))) == multiset{} ==> bag == multiset{}
  {
    if bag != multiset{} {
      var w :| w in bag;
      assert w in ToTable(bag) && ToTable(bag)[w] == bag[w];
      assert Entry(w, bag[w]) in EntriesOf(ToTable(bag));
      assert Entry(w, bag[w]) in multiset(EntriesOf(ToTable(bag)));
    }
  }

  /** The counts of any enumeration of the table of a bag add up to the size of the bag. */
  lemma {:induction false} SumOfEnumeration(items: seq<Entry>, bag: multiset<string>)
    requires IsEnumeration(items, ToTable(bag))
    ensures Sum(items) == |bag|
    decreases |items|
  {
    var occ := ToTable(bag);
    if items == [] {
      EmptyTableHasNoEntries(bag);
    } else {
      var e := items[0];
      assert e in multiset(items);
      var w := e.word;
      assert w in bag && e.count == bag[w];
      var rest := bag[w := 0];
      assert ToTable(rest) == occ - {w};
      EntriesOfRemove(occ, w);
      MultisetOfSetAdd(EntriesOf(occ - {w}), e);
      assert e == Entry(w, occ[w]);
      assert items == [e] + items[1..];
      assert multiset(items) == multiset(items[1..]) + multiset{e};
      assert multiset(EntriesOf(occ)) == multiset(EntriesOf(occ - {w})) + multiset{e};
      assert multiset(items[1..]) == multiset(EntriesOf(occ - {w})) by {
        forall x ensures multiset(items[1..])[x] == multiset(EntriesOf(occ - {w}))[x] {
          assert multiset(items)[x] == multiset(items[1..])[x] + multiset{e}[x];
          assert multiset(EntriesOf(occ))[x] == multiset(EntriesOf(occ - {w}))[x] + multiset{e}[x];
        }
      }
      SumOfEnumeration(items[1..], rest);
      RemoveAllCard(bag, w);
    }
  }

  /**
   The counts of the ranking add up to the number of tokens read from the
   selected files.
   */
  lemma TotalCountIsTokenCount(lower: string -> string, files: seq<SourceFile>, ranked: seq<Entry>)
    requires IsEnumeration(ranked, TableOf(lower, files))
    ensures Sum(ranked) == |SelectedTokens(lower, files)|
  {
    SumOfEnumeration(ranked, multiset(Lowered(lower, SelectedTokens(lower, files))));
  }
}
