/**
 The aggregator: the frequency table `occ` built by the nested loops of
 `count_occ_in_dir`, one lower-cased token at a time.

 The table is specified as the multiset of lower-cased selected tokens,
 turned into a map that holds only the words that occur.
 */
module Aggregator {
  import opened Selection

  /** Word -> number of occurrences. */
  type Table = map<string, nat>

  /** The tokens, each lower-cased, in the same order. */
  function Lowered(lower: string -> string, tokens: seq<string>): seq<string>
  {
    seq(|tokens|, k requires 0 <= k < |tokens| => lower(tokens[k]))
  }

  /** The number of tokens whose lower-cased text is `w`. */
  function CountMatching(lower: string -> string, tokens: seq<string>, w: string): nat
  {
    if tokens == [] then 0
    else CountMatching(lower, tokens[1..], w) + (if lower(tokens[0]) == w then 1 else 0)
  }

  /** The map holding each element of `bag` with its multiplicity, and nothing else. */
  function ToTable(bag: multiset<string>): Table
  {
    map w | w in bag :: bag[w]
  }

  /** The table the run must end with. */
  function TableOf(lower: string -> string, files: seq<SourceFile>): Table
  {
    ToTable(multiset(Lowered(lower, SelectedTokens(lower, files))))
  }

  /**
   `occ[w] = occ.get(w, 0) + 1`: one token raises exactly one key by one and
   leaves every other key alone.
   */
  function Tally(occ: Table, w: string): (r: Table)
    ensures r.Keys == occ.Keys + {w}
    ensures w !in occ ==> r[w] == 1
    ensures w in occ ==> r[w] == occ[w] + 1
    ensures forall v :: v in occ && v != w ==> r[v] == occ[v]
  {
    occ[w := (if w in occ then occ[w] else 0) + 1]
  }

  /** Tallying a word into the table of a bag gives the table of the bag with that word added. */
  lemma TallyAddsToBag(bag: multiset<string>, w: string)
    ensures Tally(ToTable(bag), w) == ToTable(bag + multiset{w})
  {
    var lhs, rhs := Tally(ToTable(bag), w), ToTable(bag + multiset{w});
    assert lhs.Keys == rhs.Keys;
    forall v | v in lhs ensures lhs[v] == rhs[v] {
      if v == w {
        assert (bag + multiset{w})[w] == bag[w] + 1;
      } else {
        assert (bag + multiset{w})[v] == bag[v];
      }
    }
  }

  lemma LoweredAppend(lower: string -> string, tokens: seq<string>, t: string)
    ensures Lowered(lower, tokens + [t]) == Lowered(lower, tokens) + [lower(t)]
  {
  }

  lemma BagGrowsByOne(lower: string -> string, seen: seq<string>, tokens: seq<string>, j: nat)
    requires j < |tokens|
    ensures multiset(Lowered(lower, seen + tokens[..j + 1])) ==
            multiset(Lowered(lower, seen + tokens[..j])) + multiset{lower(tokens[j])}
  {
    assert seen + tokens[..j + 1] == (seen + tokens[..j]) + [tokens[j]];
    LoweredAppend(lower, seen + tokens[..j], tokens[j]);
  }

  lemma LoweredConcat(lower: string -> string, a: seq<string>, b: seq<string>)
    ensures Lowered(lower, a + b) == Lowered(lower, a) + Lowered(lower, b)
  {
  }

  /**
   The nested loops over files and tokens (`occ = {}` then one `Tally` per
   token of every selected file). The result is the table of the selected
   tokens.
   */
  method CountOccurrences(lower: string -> string, files: seq<SourceFile>) returns (occ: Table)
    ensures occ == TableOf(lower, files)
  {
    occ := map[];
    var i := 0;
    while i < |files|
      invariant 0 <= i <= |files|
      invariant occ == TableOf(lower, files[..i])
    {
      var file := files[i];
      SelectedTokensStep(lower, files, i);
      if Selected(lower, file.name) {
        ghost var seen := SelectedTokens(lower, files[..i]);
        ghost var bag := multiset(Lowered(lower, seen));
        assert seen + file.tokens[..0] == seen;
        var j := 0;
        while j < |file.tokens|
          invariant 0 <= j <= |file.tokens|
          invariant bag == multiset(Lowered(lower, seen + file.tokens[..j]))
          invariant occ == ToTable(bag)
        {
          var w := lower(file.tokens[j]);
          BagGrowsByOne(lower, seen, file.tokens, j);
          TallyAddsToBag(bag, w);
          occ := Tally(occ, w);
          bag := bag + multiset{w};
          j := j + 1;
        }
        assert file.tokens[..j] == file.tokens;
      } else {
        assert SelectedTokens(lower, files[..i + 1]) == SelectedTokens(lower, files[..i]);
      }
      i := i + 1;
    }
    assert files[..i] == files;
  }

  lemma {:induction false} CountMatchingIsMultiplicity(lower: string -> string, tokens: seq<string>, w: string)
    ensures multiset(Lowered(lower, tokens))[w] == CountMatching(lower, tokens, w)
  {
    if tokens != [] {
      CountMatchingIsMultiplicity(lower, tokens[1..], w);
      LoweredConcat(lower, [tokens[0]], tokens[1..]);
      assert tokens == [tokens[0]] + tokens[1..];
    }
  }

  /**
   The table counts tokens exactly: a word is a key iff some selected token
   lower-cases to it, and then its count is the number of such tokens.
   Words that never occur are absent rather than mapped to zero.
   */
  lemma TableCountsExactly(lower: string -> string, files: seq<SourceFile>, w: string)
    ensures w in TableOf(lower, files) <==> CountMatching(lower, SelectedTokens(lower, files), w) > 0
    ensures w in TableOf(lower, files) ==>
              TableOf(lower, files)[w] == CountMatching(lower, SelectedTokens(lower, files), w)
  {
    CountMatchingIsMultiplicity(lower, SelectedTokens(lower, files), w);
  }

  /**
   No selected token is dropped: whatever its characters (digits,
   punctuation), its lower-cased form is a key, and every count is positive.
   */
  lemma EveryTokenIsCounted(lower: string -> string, files: seq<SourceFile>)
    ensures forall t :: t in SelectedTokens(lower, files) ==> lower(t) in TableOf(lower, files)
    ensures forall w :: w in TableOf(lower, files) ==> TableOf(lower, files)[w] >= 1
  {
    var tokens := SelectedTokens(lower, files);
    forall t | t in tokens ensures lower(t) in TableOf(lower, files) {
      var k :| 0 <= k < |tokens| && tokens[k] == t;
      assert Lowered(lower, tokens)[k] == lower(t);
    }
  }
}
