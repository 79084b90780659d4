/**
 The traverser's output and its file filter. The recursive directory walk
 and the decompression/XML extraction are outside the model: the corpus
 arrives as the sequence of files the walk visits, in walk order, each with
 its base name and the texts of its `/document/s/w` elements in document
 order.
 */
module Selection {
  import opened Text

  /** The two-part suffix marking a compressed XML document. */
  const CompressedXmlSuffix: string := ".xml.gz"

  /** One file met by the walk: its base name and its word tokens. */
  datatype SourceFile = SourceFile(name: string, tokens: seq<string>)

  /** A file is read only when its lower-cased name ends with `.xml.gz`. */
  predicate Selected(lower: string -> string, name: string)
  {
    EndsWith(lower(name), CompressedXmlSuffix)
  }

  /**
   The tokens the aggregator sees: those of the selected files, file after
   file in walk order, each file's tokens in document order.
   */
  function SelectedTokens(lower: string -> string, files: seq<SourceFile>): seq<string>
  {
    if files == [] then []
    else
      var last := files[|files| - 1];
      SelectedTokens(lower, files[..|files| - 1]) + (if Selected(lower, last.name) then last.tokens else [])
  }

  /** Reading one more file appends its tokens when it is selected and nothing otherwise. */
  lemma SelectedTokensStep(lower: string -> string, files: seq<SourceFile>, i: nat)
    requires i < |files|
    ensures SelectedTokens(lower, files[..i + 1]) ==
            SelectedTokens(lower, files[..i]) + (if Selected(lower, files[i].name) then files[i].tokens else [])
  {
    assert files[..i + 1][..i] == files[..i];
  }

  /**
   Only selected files contribute: every token seen comes from a selected
   file, every token of a selected file is seen, and a corpus without a
   selected file yields no token at all.
   */
  lemma {:induction false} SelectedTokensOrigin(lower: string -> string, files: seq<SourceFile>)
    ensures (forall k :: 0 <= k < |files| ==> !Selected(lower, files[k].name)) ==>
              SelectedTokens(lower, files) == []
    ensures forall t :: t in SelectedTokens(lower, files) ==>
              exists k :: 0 <= k < |files| && Selected(lower, files[k].name) && t in files[k].tokens
    ensures forall k, t :: 0 <= k < |files| && Selected(lower, files[k].name) && t in files[k].tokens ==>
              t in SelectedTokens(lower, files)
  {
    if files != [] {
      var front := files[..|files| - 1];
      SelectedTokensOrigin(lower, front);
      forall k, t | 0 <= k < |files| && Selected(lower, files[k].name) && t in files[k].tokens
        ensures t in SelectedTokens(lower, files)
      {
        if k < |files| - 1 {
          assert front[k] == files[k];
        }
      }
      forall t | t in SelectedTokens(lower, files)
        ensures exists k :: 0 <= k < |files| && Selected(lower, files[k].name) && t in files[k].tokens
      {
        if t in SelectedTokens(lower, front) {
          var k :| 0 <= k < |front| && Selected(lower, front[k].name) && t in front[k].tokens;
          assert files[k] == front[k];
        }
      }
    }
  }

  /** With the ASCII case mapping, `X.XML.GZ` is selected and `x.xml` is not. */
  lemma SelectionExamples()
    ensures Selected(AsciiLower, "X.XML.GZ")
    ensures !Selected(AsciiLower, "x.xml")
  {
    var upper := AsciiLower("X.XML.GZ");
    assert upper[1..] == ".xml.gz" by {
      forall i | 1 <= i < 8 ensures upper[i] == ".xml.gz"[i - 1] {
        assert upper[i] == AsciiLowerChar("X.XML.GZ"[i]);
      }
    }
    var short := AsciiLower("x.xml");
    assert |short| == 5;
  }
}
