/**
 * words.rb and words_to_file.rb: both inputs split on the two characters
 * backslash and n, the misspelled words gathered in a loop, and the report
 * written with `puts`, to standard output or to a fresh errors.txt.
 */
module WordsReport {
  import opened Text
  import opened Seqs
  import opened Spellcheck

  // ---------------------------------------------------------------------------
  // `puts`

  /** What `puts s` writes: `s`, then a line feed unless `s` already ends with one. */
  function PutsText(s: string): (r: string)
    ensures r != [] && r[|r| - 1] == '\n'
    ensures r[..|r| - 1] == s || r == s
    ensures s != [] && s[|s| - 1] == '\n' <==> r == s
  {
    if s != [] && s[|s| - 1] == '\n' then s else s + "\n"
  }

  /** `puts` on each word in turn. */
  function PutsAll(ws: seq<string>): string {
    if ws == [] then [] else PutsText(ws[0]) + PutsAll(ws[1..])
  }

  lemma {:induction false} PutsAllAppend(ws: seq<string>, w: string)
    ensures PutsAll(ws + [w]) == PutsAll(ws) + PutsText(w)
    decreases |ws|
  {
    if ws != [] {
      assert (ws + [w])[1..] == ws[1..] + [w];
      PutsAllAppend(ws[1..], w);
    }
  }

  /** For words without line feeds `puts` adds exactly one line feed after each. */
  lemma {:induction false} PutsAllLines(ws: seq<string>)
    requires forall i :: 0 <= i < |ws| ==> '\n' !in ws[i]
    ensures PutsAll(ws) == Lines(ws)
    decreases |ws|
  {
    if ws != [] {
      assert forall i :: 0 <= i < |ws[1..]| ==> ws[1..][i] == ws[i + 1];
      PutsAllLines(ws[1..]);
    }
  }

  /** The standard output or the file the report goes to. */
  class Output {
    var text: string

    constructor()
      ensures text == []
    {
      text := [];
    }

    /** `puts s`. */
    method Puts(s: string)
      modifies this
      ensures text == old(text) + PutsText(s)
    {
      text := text + PutsText(s);
    }
  }

  // ---------------------------------------------------------------------------
  // The loops

  /** `words_to_check.each { ... misspelled << the_word unless dictionary.include?(the_word) }`. */
  method CollectMisspelled(wordsToCheck: seq<string>, dictionary: seq<string>) returns (misspelled: seq<string>)
    ensures misspelled == Misspelled(wordsToCheck, dictionary)
  {
    misspelled := [];
    var i := 0;
    while i < |wordsToCheck|
      invariant 0 <= i <= |wordsToCheck|
      invariant misspelled == Misspelled(wordsToCheck[..i], dictionary)
    {
      var theWord := wordsToCheck[i];
      assert wordsToCheck[..i + 1] == wordsToCheck[..i] + [theWord];
      FilterAppend(wordsToCheck[..i], NotListed(dictionary), theWord);
      if theWord !in dictionary {
        misspelled := misspelled + [theWord];
      }
      i := i + 1;
    }
    assert wordsToCheck[..i] == wordsToCheck;
  }

  /** The printed report: the header line, then `puts` of each word. */
  function Printed(misspelled: seq<string>): string {
    PutsText(Header(|misspelled|)) + PutsAll(misspelled)
  }

  /** The report's first line is the count line, whatever the words hold. */
  lemma PrintedHeader(misspelled: seq<string>)
    ensures var h := Header(|misspelled|) + "\n";
            |h| <= |Printed(misspelled)| && Printed(misspelled)[..|h|] == h
  {
    var h := Header(|misspelled|);
    assert h != [] && h[|h| - 1] == ':';
  }

  /** For words without line feeds the printed report is exactly the one spellcheck.rb writes. */
  lemma PrintedIsReport(misspelled: seq<string>)
    requires forall i :: 0 <= i < |misspelled| ==> '\n' !in misspelled[i]
    ensures Printed(misspelled) == Report(misspelled)
    ensures Pieces(Printed(misspelled), NewlineSep) == [Header(|misspelled|)] + misspelled + [[]]
  {
    var h := Header(|misspelled|);
    assert h != [] && h[|h| - 1] == ':';
    PutsAllLines(misspelled);
    ReportLines(misspelled);
  }

  /** `puts` of the count line, then `misspelled.each { |w| puts w }`. */
  method PutsReport(out: Output, misspelled: seq<string>)
    modifies out
    ensures out.text == old(out.text) + Printed(misspelled)
  {
    out.Puts(Header(|misspelled|));
    PutsEach(out, misspelled);
  }

  /** `ws.each { |w| puts w }`. */
  method PutsEach(out: Output, ws: seq<string>)
    modifies out
    ensures out.text == old(out.text) + PutsAll(ws)
  {
    var i := 0;
    while i < |ws|
      invariant 0 <= i <= |ws|
      invariant out.text == old(out.text) + PutsAll(ws[..i])
    {
      PutsAllStep(ws, i);
      AppendAssoc(old(out.text), PutsAll(ws[..i]), PutsText(ws[i]));
      out.Puts(ws[i]);
      i := i + 1;
    }
    assert ws[..i] == ws;
  }

  lemma AppendAssoc(a: string, b: string, c: string)
    ensures a + b + c == a + (b + c)
  {
  }

  lemma PutsAllStep(ws: seq<string>, i: nat)
    requires i < |ws|
    ensures PutsAll(ws[..i + 1]) == PutsAll(ws[..i]) + PutsText(ws[i])
  {
    assert ws[..i + 1] == ws[..i] + [ws[i]];
    PutsAllAppend(ws[..i], ws[i]);
  }

  /** The misspelled words of words.rb and words_to_file.rb for the two files' contents. */
  function EscapedMisspelled(dictionaryText: string, checkMeText: string): seq<string> {
    Misspelled(SplitEscaped(checkMeText), SplitEscaped(dictionaryText))
  }

  /** Read both files, gather the misspelled words and print the report to `out`. */
  method CheckInto(dictionaryText: string, checkMeText: string, out: Output)
    modifies out
    ensures out.text == old(out.text) + Printed(EscapedMisspelled(dictionaryText, checkMeText))
  {
    var dictionary := SplitEscaped(dictionaryText);
    var wordsToCheck := SplitEscaped(checkMeText);
    var misspelled := CollectMisspelled(wordsToCheck, dictionary);
    PutsReport(out, misspelled);
  }

  /** words.rb: the report goes to standard output after whatever it already holds. */
  method Words(dictionaryText: string, checkMeText: string, stdout: Output)
    modifies stdout
    ensures stdout.text == old(stdout.text) + Printed(EscapedMisspelled(dictionaryText, checkMeText))
  {
    CheckInto(dictionaryText, checkMeText, stdout);
  }

  /** words_to_file.rb: errors.txt is opened with "w", so it holds the report alone. */
  method WordsToFile(dictionaryText: string, checkMeText: string) returns (file: Output)
    ensures fresh(file)
    ensures file.text == Printed(EscapedMisspelled(dictionaryText, checkMeText))
  {
    file := new Output();
    CheckInto(dictionaryText, checkMeText, file);
  }

  /**
   * Files without backslashes are not split: the whole checked file is one
   * word, reported unless it equals the whole dictionary file.
   */
  lemma WholeFileIsOneWord(dictionaryText: string, checkMeText: string)
    requires '\\' !in dictionaryText && '\\' !in checkMeText && checkMeText != []
    ensures EscapedMisspelled(dictionaryText, checkMeText)
         == if checkMeText == dictionaryText then [] else [checkMeText]
  {
    SplitEscapedWhole(dictionaryText);
    SplitEscapedWhole(checkMeText);
    var ws := [checkMeText];
    assert ws[..0] == [];
  }
}
