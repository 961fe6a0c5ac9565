/** Words of a text: the maximal stretches without a separating character. */
module Words {
  import opened Common
  import opened CText

  type Blank = char -> bool

  /** The first position from `from` on whose character is (or is not) a blank. */
  function Skip(s: string, from: nat, blank: Blank, blanks: bool): (i: nat)
    requires from <= |s|
    ensures from <= i <= |s| && (i < |s| ==> blank(s[i]) != blanks)
    ensures forall j :: from <= j < i ==> blank(s[j]) == blanks
    decreases |s| - from
  {
    if from < |s| && blank(s[from]) == blanks then Skip(s, from + 1, blank, blanks) else from
  }

  /** The maximal stretches without a blank, from a position on. */
  function WordsFrom(s: string, from: nat, blank: Blank): seq<string>
    requires from <= |s|
    decreases |s| - from
  {
    var b := Skip(s, from, blank, true);
    if b == |s| then [] else [s[b..Skip(s, b, blank, false)]] + WordsFrom(s, Skip(s, b, blank, false), blank)
  }

  // ---------------------------------------------------------------- cutting in a loop

  /** The words before position p have been cut. */
  ghost predicate Cut(text: string, blank: Blank, done: seq<string>, p: nat) {
    p <= |text| && done + WordsFrom(text, p, blank) == WordsFrom(text, 0, blank)
  }

  lemma CutStep(text: string, blank: Blank, done: seq<string>, p: nat, b: nat, e: nat)
    requires Cut(text, blank, done, p) && b == Skip(text, p, blank, true) && b < |text| && e == Skip(text, b, blank, false)
    ensures Cut(text, blank, done + [text[b..e]], e)
  {
    var word, rest := text[b..e], WordsFrom(text, e, blank);
    assert done + ([word] + rest) == (done + [word]) + rest;
  }

  lemma CutEnds(text: string, blank: Blank, done: seq<string>, p: nat)
    requires Cut(text, blank, done, p) && Skip(text, p, blank, true) == |text|
    ensures WordsFrom(text, 0, blank) == done
  {
  }

  lemma CutStarts(text: string, blank: Blank)
    ensures Cut(text, blank, [], 0)
  {
    assert [] + WordsFrom(text, 0, blank) == WordsFrom(text, 0, blank);
  }

  /** One call of `strtok_r`: the next word and where to go on. */
  method NextWord(text: string, from: nat, blank: Blank) returns (word: Option<string>, next: nat)
    requires from <= |text|
    ensures from <= next <= |text|
    ensures word.None? ==> Skip(text, from, blank, true) == |text|
    ensures word.Some? ==> var b := Skip(text, from, blank, true);
                           b < |text| && next == Skip(text, b, blank, false) > b && word.value == text[b..next]
  {
    ghost var b := Skip(text, from, blank, true);
    var p := from;
    while p < |text| && blank(text[p])
      invariant from <= p <= |text| && Skip(text, p, blank, true) == b
    {
      p := p + 1;
    }
    if p == |text| {
      return None, p;
    }
    var begin := p;
    ghost var e := Skip(text, p, blank, false);
    while p < |text| && !blank(text[p])
      invariant begin <= p <= |text| && Skip(text, p, blank, false) == e
    {
      p := p + 1;
    }
    return Some(text[begin..p]), p;
  }

  // ---------------------------------------------------------------- spacing words out

  predicate IsWord(w: string, blank: Blank) { |w| > 0 && forall i :: 0 <= i < |w| ==> !blank(w[i]) }

  predicate IsGap(g: string, blank: Blank) { |g| > 0 && forall i :: 0 <= i < |g| ==> blank(g[i]) }

  /** Words, each with the gap behind it. */
  function Spaced(ws: seq<string>, gaps: seq<string>): string
    requires |gaps| == |ws|
  {
    if |ws| == 0 then "" else ws[0] + gaps[0] + Spaced(ws[1..], gaps[1..])
  }

  /** However words are spaced, the cutting gives back exactly those words. */
  lemma {:induction false} WordsOfSpaced(pre: string, ws: seq<string>, gaps: seq<string>, blank: Blank)
    requires |gaps| == |ws| && (forall i :: 0 <= i < |ws| ==> IsWord(ws[i], blank) && IsGap(gaps[i], blank))
    ensures WordsFrom(pre + Spaced(ws, gaps), |pre|, blank) == ws
    decreases |ws|
  {
    hide IsWord, IsGap;
    if |ws| == 0 {
    } else {
      var s, next := pre + Spaced(ws, gaps), pre + ws[0] + gaps[0];
      WordsOfSpaced(next, ws[1..], gaps[1..], blank);
      Shape(pre, ws[0], gaps[0], Spaced(ws[1..], gaps[1..]));
      WordThenGap(s, |pre|, |pre + ws[0]|, |next|, blank);
    }
  }

  lemma Shape(a: string, b: string, c: string, d: string)
    ensures a + (b + c + d) == a + b + c + d
    ensures var s := a + b + c + d; s[|a|..|a + b|] == b && s[|a + b|..|a + b + c|] == c
  {
  }

  /** A word at b..e with a gap at e..f behind it is the first word, and the rest starts behind the gap. */
  lemma WordThenGap(s: string, b: nat, e: nat, f: nat, blank: Blank)
    requires b <= e <= f <= |s| && IsWord(s[b..e], blank) && IsGap(s[e..f], blank)
    ensures WordsFrom(s, b, blank) == [s[b..e]] + WordsFrom(s, f, blank)
  {
    assert forall j :: b <= j < e ==> s[j] == s[b..e][j - b];
    assert forall j :: e <= j < f ==> s[j] == s[e..f][j - e];
    assert Skip(s, b, blank, true) == b;
    assert s[e] == s[e..f][0] && blank(s[e]);
    var i := Skip(s, b, blank, false);
    assert i < |s| ==> blank(s[i]);
    assert i == e;
    SkipOver(s, e, f, blank);
  }

  lemma {:induction false} SkipOver(s: string, from: nat, k: nat, blank: Blank)
    requires from <= k <= |s| && forall j :: from <= j < k ==> blank(s[j])
    ensures Skip(s, from, blank, true) == Skip(s, k, blank, true)
    decreases k - from
  {
    if from == k {
    } else {
      SkipOver(s, from + 1, k, blank);
    }
  }

  /** Words joined by single blanks are given back as well. */
  lemma {:induction false} WordsOfJoined(pre: string, ws: seq<string>, sep: char, blank: Blank)
    requires |ws| > 0 && blank(sep) && forall i :: 0 <= i < |ws| ==> IsWord(ws[i], blank)
    ensures WordsFrom(pre + Join(ws, sep), |pre|, blank) == ws
    decreases |ws|
  {
    hide IsWord, Join;
    var s := pre + Join(ws, sep);
    if |ws| == 1 {
      JoinOne(ws, sep);
      assert s[|pre|..] == ws[0];
      LastWord(s, |pre|, blank);
    } else {
      var next := pre + ws[0] + [sep];
      WordsOfJoined(next, ws[1..], sep, blank);
      JoinedShape(pre, ws, sep);
      WordThenGap(s, |pre|, |pre + ws[0]|, |next|, blank);
      assert [ws[0]] + ws[1..] == ws;
    }
  }

  lemma JoinedShape(pre: string, ws: seq<string>, sep: char)
    requires |ws| > 1
    ensures var s, next := pre + Join(ws, sep), pre + ws[0] + [sep];
            s == next + Join(ws[1..], sep) && s[|pre|..|pre + ws[0]|] == ws[0] && s[|pre + ws[0]|..|next|] == [sep]
  {
    hide Join;
    JoinStep(pre, ws, sep);
    Shape(pre, ws[0], [sep], Join(ws[1..], sep));
  }

  /** A word up to the end is the only one. */
  lemma LastWord(s: string, b: nat, blank: Blank)
    requires b <= |s| && IsWord(s[b..], blank)
    ensures WordsFrom(s, b, blank) == [s[b..]]
  {
    assert forall j :: b <= j < |s| ==> s[j] == s[b..][j - b];
    assert Skip(s, b, blank, true) == b;
    var i := Skip(s, b, blank, false);
    assert i == |s|;
    assert WordsFrom(s, |s|, blank) == [];
    assert s[b..|s|] == s[b..];
  }
}
