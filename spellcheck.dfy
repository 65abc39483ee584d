/**
 * The spellchecker shared by spellcheck.rb, words.rb and words_to_file.rb:
 * splitting the dictionary and the checked text into words, keeping the
 * words the dictionary does not list, and the report that states their
 * number and lists them one per line.
 */
module Spellcheck {
  import opened Text
  import opened Seqs

  // ---------------------------------------------------------------------------
  // Splitting the inputs

  /** `split "\n"`: a real line feed. */
  const NewlineSep: Sep := Sep("\n", NoSpaces)

  /** `split '\n'`: in single quotes this is a backslash followed by the letter n, not a line feed. */
  const EscapedNewlineSep: Sep := Sep("\\n", NoSpaces)

  /** The words of a file split on line feeds. */
  function SplitLines(text: string): (ws: seq<string>)
    ensures forall i :: 0 <= i < |ws| ==> '\n' !in ws[i]
  {
    CutAvoids(text, '\n', []);
    Split(text, NewlineSep)
  }

  /** The words of a file split on the two characters backslash and n. */
  function SplitEscaped(text: string): seq<string> {
    Split(text, EscapedNewlineSep)
  }

  /** Lines without line feeds, the last one not empty, come back from `split "\n"` of their join. */
  lemma SplitLinesJoin(ws: seq<string>)
    requires ws != [] && ws[|ws| - 1] != []
    requires forall i :: 0 <= i < |ws| ==> '\n' !in ws[i]
    ensures SplitLines(Join(ws, "\n")) == ws
  {
    CutOfJoin(ws, "\n");
  }

  /** Text holding no backslash is not split at all by `split '\n'`: it is one word, line feeds included, or none when empty. */
  lemma SplitEscapedWhole(text: string)
    requires '\\' !in text
    ensures SplitEscaped(text) == if text == [] then [] else [text]
  {
    CutLast(text, EscapedNewlineSep, []);
    assert [] + text == text;
  }

  // ---------------------------------------------------------------------------
  // The filter

  /** The `select` test: the word is not an element of the dictionary list. */
  function NotListed(dictionary: seq<string>): string -> bool {
    (w: string) => w !in dictionary
  }

  /** `words.select { |word| !dictionary.include? word }`. */
  function Misspelled(words: seq<string>, dictionary: seq<string>): (r: seq<string>)
    ensures |r| <= |words|
  {
    Filter(words, NotListed(dictionary))
  }

  /**
   * A word is reported iff it is checked and not exactly in the dictionary;
   * reported words keep the order and the repetitions of the checked words.
   */
  lemma MisspelledSpec(words: seq<string>, dictionary: seq<string>, w: string)
    ensures w in Misspelled(words, dictionary) <==> w in words && w !in dictionary
    ensures IsSubsequence(Misspelled(words, dictionary), words)
    ensures multiset(Misspelled(words, dictionary))[w] == if w in dictionary then 0 else multiset(words)[w]
  {
    FilterIsSubsequence(words, NotListed(dictionary));
    FilterCounts(words, NotListed(dictionary), w);
  }

  /** A dictionary listing nothing that is checked reports every word; a dictionary listing every checked word reports none. */
  lemma MisspelledExtremes(words: seq<string>, dictionary: seq<string>)
    ensures (forall i :: 0 <= i < |words| ==> words[i] !in dictionary) ==> Misspelled(words, dictionary) == words
    ensures (forall i :: 0 <= i < |words| ==> words[i] in dictionary) ==> Misspelled(words, dictionary) == []
  {
    if forall i :: 0 <= i < |words| ==> words[i] !in dictionary {
      FilterKeepsAll(words, NotListed(dictionary));
    }
    if forall i :: 0 <= i < |words| ==> words[i] in dictionary {
      FilterDropsAll(words, NotListed(dictionary));
    }
  }

  // ---------------------------------------------------------------------------
  // The report

  /** The first line of the report, without its line feed. */
  function Header(count: nat): (h: string)
    ensures '\n' !in h
  {
    "There are " + Decimal(count) + " misspelled words:"
  }

  /** The header reads back as the count: the digits after "There are ". */
  lemma HeaderCount(count: nat)
    ensures var d := |Decimal(count)|;
            |Header(count)| == d + 28 && Header(count)[..10] == "There are "
            && DecimalValue(Header(count)[10..10 + d]) == count
            && Header(count)[10 + d..] == " misspelled words:"
  {
    var d := Decimal(count);
    assert Header(count)[10..10 + |d|] == d;
    DecimalRoundTrip(count);
  }

  /** Each word followed by a line feed. */
  function Lines(ws: seq<string>): string {
    if ws == [] then [] else ws[0] + "\n" + Lines(ws[1..])
  }

  lemma {:induction false} LinesAppend(ws: seq<string>, w: string)
    ensures Lines(ws + [w]) == Lines(ws) + w + "\n"
    decreases |ws|
  {
    if ws != [] {
      assert (ws + [w])[1..] == ws[1..] + [w];
      LinesAppend(ws[1..], w);
    }
  }

  /** Writing each word and a line feed is joining the words with line feeds, ending in an empty line. */
  lemma {:induction false} LinesJoin(ws: seq<string>)
    ensures Lines(ws) == Join(ws + [[]], "\n")
    decreases |ws|
  {
    if ws != [] {
      assert ws + [[]] == [ws[0]] + (ws[1..] + [[]]);
      JoinFront(ws[0], ws[1..] + [[]], "\n");
      LinesJoin(ws[1..]);
    }
  }

  /** The contents of errors.txt written by spellcheck.rb. */
  function Report(misspelled: seq<string>): string {
    Header(|misspelled|) + "\n" + Lines(misspelled)
  }

  /** The report, cut at its line feeds, is the header, then each word, then the empty rest after the last line feed. */
  lemma ReportLines(misspelled: seq<string>)
    requires forall i :: 0 <= i < |misspelled| ==> '\n' !in misspelled[i]
    ensures Pieces(Report(misspelled), NewlineSep) == [Header(|misspelled|)] + misspelled + [[]]
  {
    var h := Header(|misspelled|);
    var ps := [h] + misspelled + [[]];
    LinesJoin(misspelled);
    assert ps == [h] + (misspelled + [[]]);
    JoinFront(h, misspelled + [[]], "\n");
    CutOfJoin(ps, "\n");
  }

  /** The whole of spellcheck.rb: the errors.txt text for the two files' contents. */
  function SpellcheckErrors(checkMe: string, dictionary: string): string {
    Report(Misspelled(SplitLines(checkMe), SplitLines(dictionary)))
  }

  /** errors.txt lists, one per line after the count, exactly the checked lines the dictionary does not hold. */
  lemma SpellcheckErrorsLines(checkMe: string, dictionary: string)
    ensures var m := Misspelled(SplitLines(checkMe), SplitLines(dictionary));
            Pieces(SpellcheckErrors(checkMe, dictionary), NewlineSep) == [Header(|m|)] + m + [[]]
            && forall w :: w in m <==> w in SplitLines(checkMe) && w !in SplitLines(dictionary)
  {
    var words := SplitLines(checkMe);
    var dict := SplitLines(dictionary);
    var m := Misspelled(words, dict);
    ReportLines(m);
    forall w ensures w in m <==> w in words && w !in dict {
      MisspelledSpec(words, dict, w);
    }
  }
}
