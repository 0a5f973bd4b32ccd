/**
 * The text program: a frequency table of the characters of a file, most
 * frequent first, and the printable name of each character.
 */
module TextEntropy {
  import opened Wrappers
  import opened Frequency
  import opened StableSort
  import opened OrderedTables

  /** The table of the characters: `GroupBy` then `OrderByDescending(x => x.Frecuencia)`. */
  function CharTable(contenido: string): seq<Entry<char>>
  {
    OrderedTable(contenido, (e: Entry<char>) => 0 - e.1 as int)
  }

  /**
   * The frequency part of the text analysis: None for empty content (the early
   * return), otherwise one row per distinct character with its exact count,
   * counts summing to the length of the content, highest count first and equal
   * counts in order of the character's first occurrence.
   */
  function AnalyseText(contenido: string): (r: Option<seq<Entry<char>>>)
    ensures r.None? <==> |contenido| == 0
    ensures r.Some? ==> IsFrequencyTable(contenido, r.value)
    ensures r.Some? ==> SumCounts(r.value) == |contenido|
    ensures r.Some? ==> forall i, j :: 0 <= i < j < |r.value| ==>
      r.value[i].1 > r.value[j].1
      || (r.value[i].1 == r.value[j].1 && IndexOf(contenido, r.value[i].0) < IndexOf(contenido, r.value[j].0))
  {
    if |contenido| == 0 then None
    else
      CharTableCorrect(contenido);
      Some(CharTable(contenido))
  }

  lemma CharTableCorrect(contenido: string)
    ensures IsFrequencyTable(contenido, CharTable(contenido))
    ensures SumCounts(CharTable(contenido)) == |contenido|
    ensures forall i, j :: 0 <= i < j < |CharTable(contenido)| ==>
      CharTable(contenido)[i].1 > CharTable(contenido)[j].1
      || (CharTable(contenido)[i].1 == CharTable(contenido)[j].1
          && IndexOf(contenido, CharTable(contenido)[i].0) < IndexOf(contenido, CharTable(contenido)[j].0))
  {
    OrderedTableIsTable(contenido, (e: Entry<char>) => 0 - e.1 as int);
  }

  /** The characters the table names with a tag instead of the character itself. */
  predicate IsTagged(c: char)
  {
    c == ' ' || c == '\n' || c == '\r' || c == '\t'
  }

  /** How a character is shown in the table. */
  function SymbolDisplay(c: char): (r: string)
    ensures c == ' ' ==> r == "[Espacio]"
    ensures c == '\n' ==> r == "[NL]"
    ensures c == '\r' ==> r == "[CR]"
    ensures c == '\t' ==> r == "[Tab]"
    ensures !IsTagged(c) ==> r == [c]
    ensures IsTagged(c) <==> |r| > 1
  {
    if c == ' ' then "[Espacio]"
    else if c == '\n' then "[NL]"
    else if c == '\r' then "[CR]"
    else if c == '\t' then "[Tab]"
    else [c]
  }

  /** Distinct characters are shown differently, so the table never shows two rows alike. */
  lemma SymbolDisplayInjective(a: char, b: char)
    requires SymbolDisplay(a) == SymbolDisplay(b)
    ensures a == b
  {
    if IsTagged(a) {
      assert SymbolDisplay(a)[1] == SymbolDisplay(b)[1];
    } else {
      assert SymbolDisplay(a)[0] == SymbolDisplay(b)[0];
    }
  }
}
