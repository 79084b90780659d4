/**
 `count_occ_in_dir`: the whole pipeline. Count the lower-cased tokens of the
 selected files, rank the table's pairs by count (highest first), and write
 the pairs whose word is alphabetic, one line each, to the truncated output
 file.
 */
module FrequencyWords {
  import opened Text
  import opened Selection
  import opened Aggregator
  import opened Ranker
  import opened Writer

  /**
   `sorted(occ.items(), key=operator.itemgetter(1), reverse=True)`: the
   table's pairs, each once, counts never increasing.
   */
  method RankEntries(occ: Table) returns (sortedOcc: seq<Entry>)
    ensures IsRanking(sortedOcc, occ)
  {
    var items := Items(occ);
    sortedOcc := SortByCount(items);
  }

  /** Each step of the write loop adds the line of its entry, or nothing when the word is not alphabetic. */
  lemma EmitOneMore(isLetter: char -> bool, ranked: seq<Entry>, i: nat)
    requires i < |ranked|
    ensures Render(KeepAlpha(isLetter, ranked[..i + 1])) ==
            Render(KeepAlpha(isLetter, ranked[..i])) + (if IsAlpha(isLetter, ranked[i].word) then Line(ranked[i]) else "")
  {
    var e, written := ranked[i], KeepAlpha(isLetter, ranked[..i]);
    assert ranked[..i + 1] == ranked[..i] + [e];
    KeepAlphaConcat(isLetter, ranked[..i], [e]);
    assert [e][1..] == [];
    if IsAlpha(isLetter, e.word) {
      assert KeepAlpha(isLetter, [e]) == [e];
      assert Render([e]) == Line(e) + Render([]);
      RenderConcat(written, [e]);
    } else {
      assert written + [] == written;
    }
  }

  /**
   The pipeline over a corpus given as the files the walk visits. Returns
   the ranked list it computed, so that the contract can name it; the file
   ends up holding exactly the lines of its alphabetic entries, in ranked
   order, whatever it held before.
   */
  method CountOccInDir(lower: string -> string, isLetter: char -> bool, files: seq<SourceFile>, outfile: OutFile)
    returns (sortedOcc: seq<Entry>)
    modifies outfile
    ensures IsRanking(sortedOcc, TableOf(lower, files))
    ensures outfile.content == Render(KeepAlpha(isLetter, sortedOcc))
  {
    var occ := CountOccurrences(lower, files);
    sortedOcc := RankEntries(occ);
    outfile.Truncate();
    var i := 0;
    while i < |sortedOcc|
      invariant 0 <= i <= |sortedOcc|
      invariant outfile.content == Render(KeepAlpha(isLetter, sortedOcc[..i]))
    {
      var e := sortedOcc[i];
      EmitOneMore(isLetter, sortedOcc, i);
      if IsAlpha(isLetter, e.word) {
        outfile.Write(Line(e));
      }
      i := i + 1;
    }
    assert sortedOcc[..i] == sortedOcc;
  }

  // ---------------- Worked examples, with the ASCII case mapping ----------------

  lemma SelectedPlainName()
    ensures Selected(AsciiLower, "a.xml.gz")
  {
    var name := "a.xml.gz";
    assert AsciiLower(name) == name by {
      forall i | 0 <= i < |name| ensures AsciiLower(name)[i] == name[i] {
        assert AsciiLower(name)[i] == AsciiLowerChar(name[i]);
      }
    }
  }

  /** A table with two pairs of different counts has exactly one ranking. */
  lemma RankingOfTwo(ranked: seq<Entry>, occ: Table, a: Entry, b: Entry)
    requires IsRanking(ranked, occ)
    requires EntriesOf(occ) == {a, b} && a.count > b.count
    ensures ranked == [a, b]
  {
    assert |multiset(ranked)| == |ranked|;
    assert |multiset({a, b})| == 2;
    assert ranked[0] in multiset(ranked) && ranked[1] in multiset(ranked);
    NoRepeatedEntry(ranked, occ, 0, 1);
  }

  /** A single selected file: the table is the bag of its lower-cased tokens. */
  lemma TableOfOneFile(lower: string -> string, name: string, tokens: seq<string>)
    requires Selected(lower, name)
    ensures TableOf(lower, [SourceFile(name, tokens)]) == ToTable(multiset(Lowered(lower, tokens)))
  {
    var files := [SourceFile(name, tokens)];
    SelectedTokensStep(lower, files, 0);
    assert files[..1] == files && files[..0] == [];
    assert SelectedTokens(lower, files) == tokens;
  }

  lemma MixedTokensTable()
    ensures TableOf(AsciiLower, [SourceFile("a.xml.gz", ["ok", "42", "ok"])]) == map["ok" := 2, "42" := 1]
  {
    var tokens := ["ok", "42", "ok"];
    SelectedPlainName();
    assert AsciiLower("ok") == "ok";
    assert AsciiLower("42") == "42";
    assert Lowered(AsciiLower, tokens) == tokens;
    TableOfOneFile(AsciiLower, "a.xml.gz", tokens);
    MixedTokensBag();
  }

  lemma MixedTokensBag()
    ensures ToTable(multiset(["ok", "42", "ok"])) == map["ok" := 2, "42" := 1]
  {
    var bag := multiset(["ok", "42", "ok"]);
    assert bag == multiset{"ok", "ok", "42"};
    assert bag["ok"] == 2 && bag["42"] == 1;
    assert forall w :: w in bag ==> w == "ok" || w == "42";
    assert ToTable(bag).Keys == {"ok", "42"};
  }

  lemma MixedTokensEntries()
    ensures EntriesOf(map["ok" := 2, "42" := 1]) == {Entry("ok", 2), Entry("42", 1)}
  {
    var occ := map["ok" := 2, "42" := 1];
    var ok, num := Entry("ok", 2), Entry("42", 1);
    assert "ok" in occ && occ["ok"] == 2;
    assert "42" in occ && occ["42"] == 1;
    assert ok == Entry("ok", occ["ok"]) && num == Entry("42", occ["42"]);
    assert ok in EntriesOf(occ) && num in EntriesOf(occ);
    forall x | x in EntriesOf(occ) ensures x == ok || x == num {
      var w :| w in occ && x == Entry(w, occ[w]);
    }
  }

  lemma MixedTokensOutput()
    ensures Render(KeepAlpha(IsAsciiLetter, [Entry("ok", 2), Entry("42", 1)])) == "ok 2\n"
  {
    var ok, num := Entry("ok", 2), Entry("42", 1);
    assert !IsAlpha(IsAsciiLetter, "42") by {
      assert !IsAsciiLetter("42"[0]);
    }
    assert IsAlpha(IsAsciiLetter, "ok");
    assert [ok, num][1..] == [num] && [num][1..] == [];
    assert KeepAlpha(IsAsciiLetter, [num]) == [] + KeepAlpha(IsAsciiLetter, []);
    assert KeepAlpha(IsAsciiLetter, [ok, num]) == [ok] + KeepAlpha(IsAsciiLetter, [num]);
    assert NatToString(2) == "2";
    assert Render([ok]) == Line(ok) + Render([]);
  }

  /**
   A token made of digits is counted but never written: from the tokens
   `ok`, `42`, `ok` the table is {ok: 2, 42: 1} and the output is `ok 2`
   alone.
   */
  lemma DigitsAreCountedButNotWritten(ranked: seq<Entry>)
    requires IsRanking(ranked, TableOf(AsciiLower, [SourceFile("a.xml.gz", ["ok", "42", "ok"])]))
    ensures TableOf(AsciiLower, [SourceFile("a.xml.gz", ["ok", "42", "ok"])]) == map["ok" := 2, "42" := 1]
    ensures Render(KeepAlpha(IsAsciiLetter, ranked)) == "ok 2\n"
  {
    MixedTokensTable();
    MixedTokensEntries();
    RankingOfTwo(ranked, map["ok" := 2, "42" := 1], Entry("ok", 2), Entry("42", 1));
    MixedTokensOutput();
  }

  lemma CaseFoldedTable()
    ensures TableOf(AsciiLower, [SourceFile("a.xml.gz", ["The", "the", "cat"])]) == map["the" := 2, "cat" := 1]
  {
    SelectedPlainName();
    CaseFoldedTokens();
    TableOfOneFile(AsciiLower, "a.xml.gz", ["The", "the", "cat"]);
    CaseFoldedBag();
  }

  lemma CaseFoldedTokens()
    ensures Lowered(AsciiLower, ["The", "the", "cat"]) == ["the", "the", "cat"]
  {
    assert AsciiLower("The") == "the" by {
      assert AsciiLower("The")[0] == AsciiLowerChar('T');
    }
    assert AsciiLower("the") == "the";
    assert AsciiLower("cat") == "cat";
  }

  lemma CaseFoldedBag()
    ensures ToTable(multiset(["the", "the", "cat"])) == map["the" := 2, "cat" := 1]
  {
    var bag := multiset(["the", "the", "cat"]);
    assert bag == multiset{"the", "the", "cat"};
    assert bag["the"] == 2 && bag["cat"] == 1;
    assert forall w :: w in bag ==> w == "the" || w == "cat";
    assert ToTable(bag).Keys == {"the", "cat"};
  }

  lemma CaseFoldedEntries()
    ensures EntriesOf(map["the" := 2, "cat" := 1]) == {Entry("the", 2), Entry("cat", 1)}
  {
    var occ := map["the" := 2, "cat" := 1];
    var the, cat := Entry("the", 2), Entry("cat", 1);
    assert "the" in occ && occ["the"] == 2;
    assert "cat" in occ && occ["cat"] == 1;
    assert the == Entry("the", occ["the"]) && cat == Entry("cat", occ["cat"]);
    assert the in EntriesOf(occ) && cat in EntriesOf(occ);
    forall x | x in EntriesOf(occ) ensures x == the || x == cat {
      var w :| w in occ && x == Entry(w, occ[w]);
    }
  }

  lemma CaseFoldedOutput()
    ensures Render(KeepAlpha(IsAsciiLetter, [Entry("the", 2), Entry("cat", 1)])) == "the 2\ncat 1\n"
  {
    var the, cat := Entry("the", 2), Entry("cat", 1);
    assert IsAlpha(IsAsciiLetter, "the");
    assert IsAlpha(IsAsciiLetter, "cat");
    assert [the, cat][1..] == [cat] && [cat][1..] == [];
    assert KeepAlpha(IsAsciiLetter, [cat]) == [cat] + KeepAlpha(IsAsciiLetter, []);
    assert KeepAlpha(IsAsciiLetter, [the, cat]) == [the] + KeepAlpha(IsAsciiLetter, [cat]);
    assert NatToString(2) == "2" && NatToString(1) == "1";
    assert Render([cat]) == Line(cat) + Render([]);
    assert Render([the, cat]) == Line(the) + Render([cat]);
  }

  /**
   Tokens that differ only in case are counted as one word: from `The`,
   `the`, `cat` in one selected file the table is {the: 2, cat: 1} and the
   output is `the 2` then `cat 1`.
   */
  lemma CaseIsFolded(ranked: seq<Entry>)
    requires IsRanking(ranked, TableOf(AsciiLower, [SourceFile("a.xml.gz", ["The", "the", "cat"])]))
    ensures TableOf(AsciiLower, [SourceFile("a.xml.gz", ["The", "the", "cat"])]) == map["the" := 2, "cat" := 1]
    ensures Render(KeepAlpha(IsAsciiLetter, ranked)) == "the 2\ncat 1\n"
  {
    CaseFoldedTable();
    CaseFoldedEntries();
    RankingOfTwo(ranked, map["the" := 2, "cat" := 1], Entry("the", 2), Entry("cat", 1));
    CaseFoldedOutput();
  }
}
