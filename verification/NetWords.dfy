/** The daemon's side of the exclusion list: cutting the configured text into words and sending them. */
module NetWords {
  import opened Common
  import opened CText
  import opened Words
  import opened StatExclude

  function IsBlank(): Blank { (c: char) => c == ' ' || c == '\t' || c == '\n' }

  /** A word is copied into a buffer of 128 bytes. */
  function Stored(w: string): string { Clip(w, 127) }

  /** The words of the configured text, cut in one pass over it. */
  method CutWords(text: CString) returns (words: seq<string>)
    ensures words == MapSeq(WordsFrom(text, 0, IsBlank()), Stored)
  {
    hide WordsFrom;
    words := [];
    ghost var done: seq<string> := [];
    var p := 0;
    CutStarts(text, IsBlank());
    while At(text, p) != NUL
      invariant Cut(text, IsBlank(), done, p)
      invariant words == MapSeq(done, Stored)
      decreases |text| - p
    {
      ghost var start, b := p, Skip(text, p, IsBlank(), true);
      while At(text, p) == ' ' || At(text, p) == '\t' || At(text, p) == '\n'
        invariant start <= p <= |text| && Skip(text, p, IsBlank(), true) == b
        decreases |text| - p
      {
        p := p + 1;
      }
      if At(text, p) == NUL {
        CutEnds(text, IsBlank(), done, start);
        return;
      }
      var begin := p;
      ghost var e := Skip(text, p, IsBlank(), false);
      while At(text, p) != NUL && At(text, p) != ' ' && At(text, p) != '\t' && At(text, p) != '\n'
        invariant begin <= p <= |text| && Skip(text, p, IsBlank(), false) == e
        decreases |text| - p
      {
        p := p + 1;
      }
      CutStep(text, IsBlank(), done, start, begin, p);
      var len := p - begin;
      if len >= 128 {
        len := 127;
      }
      words := words + [text[begin..begin + len]];
      assert Stored(text[begin..p]) == text[begin..begin + len];
      done := done + [text[begin..p]];
    }
    CutEnds(text, IsBlank(), done, p);
  }

  function TextItem(w: string): Item { Text(w) }

  /** The daemon sends every word as a text item, so the kernel's list becomes the first readable words. */
  method ApplyNets(text: CString, table: ExcludeTable, order: ByteOrder, pton: Pton, lanLan: bool, protoMask: U32)
    requires table.Valid()
    modifies table, table.nets
    ensures table.Valid() && table.lanLan == lanLan && table.protoMask == protoMask
    ensures table.nets[..table.netCount] ==
            First(Gather(MapSeq(WordsFrom(text, 0, IsBlank()), Stored), CidrMaker(order, pton)), 24)
  {
    hide CidrOf, WordsFrom, Gather, MapSeq;
    var words := CutWords(text);
    var items := MapSeq(words, TextItem);
    GatherMapped(words, TextItem, ItemMaker(order, pton), CidrMaker(order, pton));
    table.SetConfig(Config(Some(lanLan), Some(protoMask), Some(items)), order, pton);
  }

  /** Words without a blank, a tab or a line feed, however they are spaced by those, are what is cut out; of a word of
      128 characters or more the first 127 are sent. */
  lemma NetWordsOfText(ws: seq<string>, gaps: seq<string>)
    requires |gaps| == |ws|
    requires forall i :: 0 <= i < |ws| ==> |ws[i]| > 0 && ' ' !in ws[i] && '\t' !in ws[i] && '\n' !in ws[i]
    requires forall i :: 0 <= i < |gaps| ==> |gaps[i]| > 0 && forall c :: c in gaps[i] ==> c in " \t\n"
    ensures WordsFrom(Spaced(ws, gaps), 0, IsBlank()) == ws
    ensures var sent := MapSeq(WordsFrom(Spaced(ws, gaps), 0, IsBlank()), Stored);
            |sent| == |ws| && forall i :: 0 <= i < |ws| ==> sent[i] == if |ws[i]| < 128 then ws[i] else ws[i][..127]
  {
    forall i | 0 <= i < |ws| ensures IsWord(ws[i], IsBlank()) && IsGap(gaps[i], IsBlank()) {
      assert forall k :: 0 <= k < |gaps[i]| ==> gaps[i][k] in gaps[i];
    }
    WordsOfSpaced("", ws, gaps, IsBlank());
    assert "" + Spaced(ws, gaps) == Spaced(ws, gaps);
  }
}
