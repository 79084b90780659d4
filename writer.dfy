/**
 The writer: each kept entry becomes the line `word + " " + str(count) + "\n"`,
 written in ranked order to a file opened with mode `'w'`.

 The UTF-8 encoding of each line is not modelled: the output is the
 sequence of characters before encoding. A parser for the format is given
 to state what the output means: reading the file back yields exactly the
 entries that were written.
 */
module Writer {
  import opened Text
  import opened Ranker

  datatype Option<T> = None | Some(value: T)

  /** `e[0] + ' ' + str(e[1]) + '\n'` */
  function Line(e: Entry): (r: string)
    ensures |r| >= |e.word| + 3 && r[|r| - 1] == '\n'
  {
    e.word + " " + NatToString(e.count) + "\n"
  }

  /** The lines of the entries, one after the other: empty iff there is no entry, else ending in a newline. */
  function Render(es: seq<Entry>): (r: string)
    ensures r == "" <==> es == []
    ensures es != [] ==> r[|r| - 1] == '\n'
  {
    if es == [] then "" else Line(es[0]) + Render(es[1..])
  }

  /**
   A line is the word, one space, the count in decimal without a leading
   zero, and a newline (the newline is stated by `Line` itself).
   */
  lemma LineFormat(e: Entry)
    ensures Line(e)[..|e.word|] == e.word
    ensures Line(e)[|e.word|] == ' '
    ensures var digits := Line(e)[|e.word| + 1..|Line(e)| - 1];
            AllDigits(digits) && (|digits| > 1 ==> digits[0] != '0') && ParseDecimal(digits) == e.count
  {
    var digits := NatToString(e.count);
    assert Line(e)[|e.word| + 1..|Line(e)| - 1] == digits;
  }

  lemma {:induction false} RenderConcat(a: seq<Entry>, b: seq<Entry>)
    ensures Render(a + b) == Render(a) + Render(b)
  {
    if a == [] {
      assert a + b == b;
    } else {
      assert (a + b)[0] == a[0];
      assert (a + b)[1..] == a[1..] + b;
      RenderConcat(a[1..], b);
    }
  }

  /** The position of the first `c` in `s`, or `|s|` when there is none. */
  function FirstIndexOf(s: string, c: char): (k: nat)
    ensures k <= |s|
    ensures forall i :: 0 <= i < k ==> s[i] != c
    ensures k < |s| ==> s[k] == c
  {
    if s == [] then 0
    else if s[0] == c then 0
    else 1 + FirstIndexOf(s[1..], c)
  }

  lemma FirstIndexOfAt(s: string, c: char, k: nat)
    requires k < |s| && s[k] == c
    requires forall i :: 0 <= i < k ==> s[i] != c
    ensures FirstIndexOf(s, c) == k
  {
  }

  /** Reads one line of the output format back into an entry. */
  function ParseLine(line: string): Option<Entry>
  {
    if |line| == 0 || line[|line| - 1] != '\n' then None
    else
      var body := line[..|line| - 1];
      var k := FirstIndexOf(body, ' ');
      if k == |body| then None
      else
        var digits := body[k + 1..];
        if |digits| > 0 && AllDigits(digits) then Some(Entry(body[..k], ParseDecimal(digits)))
        else None
  }

  /** Reads a whole output text back into its entries. */
  function ParseOutput(s: string): Option<seq<Entry>>
    decreases |s|
  {
    if s == [] then Some([])
    else
      var k := FirstIndexOf(s, '\n');
      if k == |s| then None
      else
        match ParseLine(s[..k + 1])
        case None => None
        case Some(e) =>
          match ParseOutput(s[k + 1..])
          case None => None
          case Some(rest) => Some([e] + rest)
  }

  /** A word the format can carry: it contains neither the separator nor a newline. */
  predicate NoSeparator(e: Entry)
  {
    ' ' !in e.word && '\n' !in e.word
  }

  /** A line reads back as the entry it was made from. */
  lemma LineRoundTrip(e: Entry)
    requires ' ' !in e.word
    ensures ParseLine(Line(e)) == Some(e)
  {
    var line, digits := Line(e), NatToString(e.count);
    var body := line[..|line| - 1];
    assert body == e.word + " " + digits;
    forall i | 0 <= i < |e.word| ensures body[i] != ' ' {
      assert body[i] == e.word[i];
    }
    FirstIndexOfAt(body, ' ', |e.word|);
    var k := FirstIndexOf(body, ' ');
    assert body[k + 1..] == digits;
    assert body[..k] == e.word;
  }

  /** The only newline of a line is its last character. */
  lemma LineEndsAtNewline(e: Entry)
    requires NoSeparator(e)
    ensures forall i :: 0 <= i < |Line(e)| - 1 ==> Line(e)[i] != '\n'
  {
    var line, digits := Line(e), NatToString(e.count);
    assert line == e.word + " " + digits + "\n";
    forall i | 0 <= i < |line| - 1 ensures line[i] != '\n' {
      if i < |e.word| {
        assert line[i] == e.word[i];
      } else if i > |e.word| {
        assert line[i] == digits[i - |e.word| - 1];
      }
    }
  }

  /** Reading a line followed by more output: the line parses to its entry and the rest is what follows. */
  lemma ParseFirstLine(e: Entry, rest: string)
    requires NoSeparator(e)
    ensures ParseOutput(Line(e) + rest) ==
            match ParseOutput(rest)
            case None => None
            case Some(es) => Some([e] + es)
  {
    var line, s := Line(e), Line(e) + rest;
    LineEndsAtNewline(e);
    forall i | 0 <= i < |line| - 1 ensures s[i] != '\n' {
      assert s[i] == line[i];
    }
    FirstIndexOfAt(s, '\n', |line| - 1);
    assert s[..|line|] == line;
    assert s[|line|..] == rest;
    LineRoundTrip(e);
  }

  /** The whole output reads back as the entries it was made from, in the same order. */
  lemma {:induction false} RenderRoundTrip(es: seq<Entry>)
    requires forall e :: e in es ==> NoSeparator(e)
    ensures ParseOutput(Render(es)) == Some(es)
  {
    if es != [] {
      var e := es[0];
      assert e in es;
      assert Render(es) == Line(e) + Render(es[1..]);
      RenderRoundTrip(es[1..]);
      ParseFirstLine(e, Render(es[1..]));
      assert es == [e] + es[1..];
    }
  }

  /**
   When neither the space nor the newline counts as a letter (as for
   `str.isalpha`), what the writer emits reads back as the kept entries.
   */
  lemma EmittedOutputReadsBack(isLetter: char -> bool, ranked: seq<Entry>)
    requires !isLetter(' ') && !isLetter('\n')
    ensures ParseOutput(Render(KeepAlpha(isLetter, ranked))) == Some(KeepAlpha(isLetter, ranked))
  {
    KeepAlphaMembers(isLetter, ranked);
    forall e | e in KeepAlpha(isLetter, ranked) ensures NoSeparator(e) {
      AlphaExcludes(isLetter, e.word, ' ');
      AlphaExcludes(isLetter, e.word, '\n');
    }
    RenderRoundTrip(KeepAlpha(isLetter, ranked));
  }

  /**
   The output file. Opening it with mode `'w'` truncates whatever it held;
   each `write` appends.
   */
  class OutFile {
    var content: string

    constructor (previous: string)
      ensures content == previous
    {
      content := previous;
    }

    /** `open(outfilename, 'w')` */
    method Truncate()
      modifies this
      ensures content == []
    {
      content := [];
    }

    /** `outfile.write(s)` */
    method Write(s: string)
      modifies this
      ensures content == old(content) + s
    {
      content := content + s;
    }
  }
}
