/**
 C-string scanning shared by the signature parsers: the tokenizer loop, decimal and hexadecimal
 numbers as `sscanf` reads them, and trimming.
 A string value stands for the characters before the terminator.
 */
module CText {
  import opened Common
  import Bits

  const NUL := '\0'

  /** The character at position i, with the terminator readable right behind the text. */
  function At(s: string, i: nat): char
    requires i <= |s|
  {
    if i < |s| then s[i] else NUL
  }

  type CString = s: string | NUL !in s witness ""

  // ---------------------------------------------------------------- tokens

  /** The first position from `from` on that holds the separator, or the end. */
  function NextSep(s: string, sep: char, from: nat): (i: nat)
    ensures i == |s| || (from <= i < |s| && s[i] == sep)
    ensures forall j :: from <= j < i ==> s[j] != sep
    decreases |s| - from
  {
    if from >= |s| then |s| else if s[from] == sep then from else NextSep(s, sep, from + 1)
  }

  /** The pieces of s from `begin` on, cut at the separators from position `from` on. */
  function Pieces(s: string, sep: char, begin: nat, from: nat): (ps: seq<string>)
    requires begin <= |s| && begin <= from
    ensures |ps| >= 1
    decreases |s| - begin
  {
    var i := NextSep(s, sep, from);
    if i == |s| then [s[begin..]] else [s[begin..i]] + Pieces(s, sep, i + 1, i + 1)
  }

  /** All tokenizer loops test the character behind the one they just left, so position 0 is never a separator. */
  function Tokens(s: string, sep: char): seq<string> {
    Pieces(s, sep, 0, 1)
  }

  /** The invariant of a tokenizer loop that is about to test position p + 1: the tokens so far, and then what
      the rest will be cut into. */
  ghost predicate Tokenizing(s: string, sep: char, done: seq<string>, begin: nat, p: nat) {
    p <= |s| && begin <= p + 1 && begin <= |s| && done + Pieces(s, sep, begin, p + 1) == Tokens(s, sep)
  }

  lemma TokenStart(s: string, sep: char)
    ensures Tokenizing(s, sep, [], 0, 0)
  {
  }

  /** One step of the loop, from p to q. */
  lemma TokenStep(s: string, sep: char, done: seq<string>, begin: nat, p: nat, q: nat)
    requires p < |s| && q == p + 1 && sep != NUL && Tokenizing(s, sep, done, begin, p)
    ensures begin <= q
    ensures if At(s, q) == sep then Tokenizing(s, sep, done + [s[begin..q]], q + 1, q)
            else Tokenizing(s, sep, done, begin, q)
  {
    if At(s, q) == sep {
      var rest := Pieces(s, sep, q + 1, q + 1);
      assert done + ([s[begin..q]] + rest) == (done + [s[begin..q]]) + rest;
    }
  }

  /** The loop leaves at the terminator with one token to go. */
  lemma TokenEnd(s: string, sep: char, done: seq<string>, begin: nat)
    requires Tokenizing(s, sep, done, begin, |s|)
    ensures Tokens(s, sep) == done + [s[begin..]]
  {
  }

  function Join(ps: seq<string>, sep: char): string
    requires |ps| >= 1
  {
    if |ps| == 1 then ps[0] else ps[0] + [sep] + Join(ps[1..], sep)
  }

  lemma JoinOne(ps: seq<string>, sep: char)
    requires |ps| == 1
    ensures Join(ps, sep) == ps[0]
  {
  }

  lemma JoinTwo(ps: seq<string>, sep: char)
    requires |ps| == 2
    ensures Join(ps, sep) == ps[0] + [sep] + ps[1]
  {
    JoinOne(ps[1..], sep);
  }

  lemma JoinCons(piece: string, rest: seq<string>, sep: char)
    requires |rest| >= 1
    ensures Join([piece] + rest, sep) == piece + [sep] + Join(rest, sep)
  {
    assert ([piece] + rest)[1..] == rest;
  }

  /** Tokens lose nothing: putting the separators back gives the text. */
  lemma {:induction false} JoinPieces(s: string, sep: char, begin: nat, from: nat)
    requires begin <= |s| && begin <= from
    ensures Join(Pieces(s, sep, begin, from), sep) == s[begin..]
    decreases |s| - begin
  {
    hide NextSep, Join;
    var i := NextSep(s, sep, from);
    if i == |s| {
      JoinOne([s[begin..]], sep);
    } else {
      var rest := Pieces(s, sep, i + 1, i + 1);
      JoinPieces(s, sep, i + 1, i + 1);
      JoinCons(s[begin..i], rest, sep);
      assert s[begin..] == s[begin..i] + [sep] + s[i + 1..];
    }
  }

  ghost predicate SepFree(ps: seq<string>, sep: char) {
    forall i :: 0 <= i < |ps| ==> sep !in ps[i]
  }

  /** Tokenizing joined pieces behind any prefix gives the pieces. */
  lemma {:induction false} PiecesOfJoin(pre: string, ps: seq<string>, sep: char, from: nat)
    requires |ps| >= 1 && SepFree(ps, sep)
    requires |pre| <= from && (|ps| == 1 || from <= |pre| + |ps[0]|)
    ensures Pieces(pre + Join(ps, sep), sep, |pre|, from) == ps
    decreases |ps|
  {
    if |ps| == 1 {
      NoSep(pre, ps[0], sep, from);
    } else {
      var next := pre + ps[0] + [sep];
      var rest := Join(ps[1..], sep);
      assert Pieces(next + rest, sep, |next|, |next|) == ps[1..] by {
        PiecesOfJoin(next, ps[1..], sep, |next|);
      }
      assert Pieces(next + rest, sep, |pre|, from) == ps by {
        FirstPiece(pre, ps[0], sep, rest, from);
        assert [ps[0]] + ps[1..] == ps;
      }
      JoinStep(pre, ps, sep);
    }
  }

  lemma JoinStep(pre: string, ps: seq<string>, sep: char)
    requires |ps| > 1
    ensures pre + Join(ps, sep) == pre + ps[0] + [sep] + Join(ps[1..], sep)
  {
    var rest := Join(ps[1..], sep);
    assert Join(ps, sep) == ps[0] + [sep] + rest;
    assert pre + (ps[0] + [sep] + rest) == pre + ps[0] + [sep] + rest;
  }

  lemma FirstPiece(pre: string, piece: string, sep: char, rest: string, from: nat)
    requires sep !in piece && |pre| <= from <= |pre| + |piece|
    ensures var next := pre + piece + [sep];
            Pieces(next + rest, sep, |pre|, from) == [piece] + Pieces(next + rest, sep, |next|, |next|)
  {
    var s, k := pre + piece + [sep] + rest, |pre| + |piece|;
    assert forall j :: |pre| <= j < k ==> s[j] == piece[j - |pre|];
    assert s[k] == sep;
    assert NextSep(s, sep, from) == k;
    assert s[|pre|..k] == piece;
  }

  lemma NoSep(pre: string, piece: string, sep: char, from: nat)
    requires sep !in piece && |pre| <= from
    ensures Pieces(pre + piece, sep, |pre|, from) == [piece]
  {
    var s := pre + piece;
    assert forall j :: |pre| <= j < |s| ==> s[j] == piece[j - |pre|];
    assert s[|pre|..] == piece;
  }

  /** Tokenizing joined pieces gives the pieces exactly when the first is not an empty one before others. */
  lemma TokensOfJoin(ps: seq<string>, sep: char)
    requires |ps| >= 1 && SepFree(ps, sep)
    ensures Tokens(Join(ps, sep), sep) == ps <==> |ps| == 1 || |ps[0]| > 0
  {
    var s := Join(ps, sep);
    if |ps| == 1 || |ps[0]| > 0 {
      PiecesOfJoin("", ps, sep, 1);
      assert "" + s == s;
    } else {
      assert s[0] == sep;
      assert Tokens(s, sep)[0][0] == sep;
    }
  }

  // ---------------------------------------------------------------- numbers

  function DigitValue(c: char): nat {
    if '0' <= c <= '9' then c as nat - '0' as nat
    else if 'a' <= c <= 'f' then c as nat - 'a' as nat + 10
    else if 'A' <= c <= 'F' then c as nat - 'A' as nat + 10
    else 16
  }

  function DigitChar(d: nat): (c: char)
    requires d < 16
    ensures DigitValue(c) == d && IsNumeralChar(c)
  {
    if d < 10 then '0' + d as char else 'a' + (d - 10) as char
  }

  predicate IsNumeralChar(c: char) { '0' <= c <= '9' || 'a' <= c <= 'f' }

  predicate IsDigit(c: char, base: nat) { DigitValue(c) < base }

  predicate StartsWithDigit(s: string, base: nat) { |s| > 0 && IsDigit(s[0], base) }

  /** Reads digits as long as there are any: the number and what follows it. */
  function Digits(s: string, base: nat, acc: nat): (nat, string) {
    if StartsWithDigit(s, base) then Digits(s[1..], base, acc * base + DigitValue(s[0])) else (acc, s)
  }

  function Numeral(n: nat, base: nat): (s: string)
    requires 2 <= base <= 16
    ensures |s| > 0 && forall i :: 0 <= i < |s| ==> IsDigit(s[i], base) && IsNumeralChar(s[i])
  {
    if n < base then [DigitChar(n)] else Numeral(n / base, base) + [DigitChar(n % base)]
  }

  function Power(base: nat, k: nat): nat { if k == 0 then 1 else base * Power(base, k - 1) }

  lemma QuotientBelow(n: nat, base: nat, p: nat)
    requires base >= 1 && n < base * p
    ensures n / base < p
  {
    LastDigit(n, base);
    if n / base >= p {
      assert base * (n / base) >= base * p by { Bits.Grows(base, p, n / base); }
    }
  }

  /** A number below base^k has at most k digits. */
  lemma {:induction false} NumeralLength(n: nat, base: nat, k: nat)
    requires 2 <= base <= 16 && k >= 1 && n < Power(base, k)
    ensures |Numeral(n, base)| <= k
    decreases k
  {
    if n < base {
    } else {
      QuotientBelow(n, base, Power(base, k - 1));
      NumeralLength(n / base, base, k - 1);
    }
  }

  /** The digits of 32-bit numbers. */
  lemma Int32Length(n: nat)
    requires n <= 0x8000_0000
    ensures |Numeral(n, 10)| <= 10 && |Numeral(n, 16)| <= 8
  {
    assert Power(10, 5) == 100_000 by { assert Power(10, 3) == 1000; }
    assert Power(10, 7) == 10_000_000;
    assert Power(10, 9) == 1_000_000_000;
    NumeralLength(n, 10, 10);
    assert Power(16, 4) == 0x1_0000;
    assert Power(16, 6) == 0x100_0000;
    NumeralLength(n, 16, 8);
  }

  lemma {:induction false} DigitsOfNumeral(n: nat, base: nat, t: string)
    requires 2 <= base <= 16
    ensures Digits(Numeral(n, base) + t, base, 0) == Digits(t, base, n)
    decreases n
  {
    if n < base {
      DigitsStep(DigitChar(n), t, base, 0);
    } else {
      var d := DigitChar(n % base);
      LastDigit(n, base);
      var q := n / base;
      DigitsOfNumeral(q, base, [d] + t);
      DigitsStep(d, t, base, q);
      assert Numeral(n, base) + t == Numeral(q, base) + ([d] + t);
    }
  }

  lemma DigitsStep(c: char, t: string, base: nat, acc: nat)
    requires IsDigit(c, base)
    ensures Digits([c] + t, base, acc) == Digits(t, base, acc * base + DigitValue(c))
  {
    assert ([c] + t)[1..] == t;
  }

  lemma LastDigit(n: nat, base: nat)
    requires base > 0
    ensures n / base * base + n % base == n && (n >= base >= 2 ==> n / base < n)
  {
  }

  predicate IsSpace(c: char) { c == ' ' || c == '\t' || c == '\n' || c == '\r' }

  function TrimLeft(s: string): string {
    if |s| > 0 && IsSpace(s[0]) then TrimLeft(s[1..]) else s
  }

  function TrimRight(s: string): string {
    if |s| > 0 && IsSpace(s[|s| - 1]) then TrimRight(s[..|s| - 1]) else s
  }

  function Trim(s: string): string { TrimRight(TrimLeft(s)) }

  lemma TrimSolid(s: string)
    requires |s| == 0 || (!IsSpace(s[0]) && !IsSpace(s[|s| - 1]))
    ensures Trim(s) == s
  {
  }

  /** Optional blanks, an optional sign, at least one digit: the number and what follows it. */
  function ScanNumber(s: string): Option<(int, string)> {
    var t := TrimLeft(s);
    var u := if |t| > 0 && t[0] in "+-" then t[1..] else t;
    if !StartsWithDigit(u, 10) then None
    else
      var (n, rest) := Digits(u, 10, 0);
      var value: int := if t[0] == '-' then -(n as int) else n;
      Some((value, rest))
  }

  /** `%d` stores 32 bits. */
  function ScanInt(s: string): Option<(int, string)> {
    match ScanNumber(s) case None => None case Some((n, rest)) => Some((ToInt32(n), rest))
  }

  /** `%x` into an int: optional blanks, an optional 0x, at least one hexadecimal digit. */
  function ScanHex(s: string): Option<(int, string)> {
    var t := TrimLeft(s);
    if !StartsWithDigit(t, 16) then None
    else
      var (n, rest) := Digits(if |t| >= 3 && t[0] == '0' && t[1] in "xX" && IsDigit(t[2], 16) then t[2..] else t, 16, 0);
      Some((ToInt32(n), rest))
  }

  function Decimal(n: int): string {
    if n < 0 then "-" + Numeral(-n, 10) else Numeral(n, 10)
  }

  /** Reading back a printed number, with anything behind it that does not go on with a digit: what is stored are
      its 32 lowest bits. */
  lemma ScanOfDecimal(n: int, t: string)
    requires !StartsWithDigit(t, 10)
    ensures ScanInt(Decimal(n) + t) == Some((ToInt32(n), t))
  {
    hide ToInt32;
    var s := Decimal(n) + t;
    var digits := Numeral(if n < 0 then -n else n, 10) + t;
    assert TrimLeft(s) == s;
    assert n < 0 ==> s == "-" + digits;
    assert (if n < 0 then s[1..] else s) == digits;
    assert digits[0] == Numeral(if n < 0 then -n else n, 10)[0];
    DigitsOfNumeral(if n < 0 then -n else n, 10, t);
  }

  lemma ScanOfHex(n: nat)
    ensures ScanHex(Numeral(n, 16)) == Some((ToInt32(n), ""))
  {
    hide ToInt32;
    var s := Numeral(n, 16);
    assert TrimLeft(s) == s;
    assert s + "" == s;
    DigitsOfNumeral(n, 16, "");
  }

  function Atoi(s: string): (n: int)
    ensures IsInt32(n)
  {
    match ScanInt(s) case None => 0 case Some((n, _)) => n
  }

  /** What a bounded copy keeps. */
  function Clip(s: string, max: nat): string { if |s| > max then s[..max] else s }

  /** The blanks that are skipped, and how numbers are read, by example: blanks and a sign may precede one, and `0x` a
      hexadecimal one. */
  lemma ScanExamples()
    ensures forall c :: IsSpace(c) <==> c in " \t\n\r"
    ensures ScanInt(" +12") == Some((12, "")) && ScanInt("-7-9") == Some((-7, "-9")) && ScanInt("x1") == None && ScanInt("-") == None
    ensures ScanHex("0x1F") == Some((31, "")) && ScanHex("fg") == Some((15, "g")) && ScanHex("g") == None
  {
    hide Digits;
    DigitExamples();
    assert TrimLeft(" +12") == "+12" && "+12"[1..] == "12";
    assert "-7-9"[1..] == "7-9" && "-"[1..] == "" && "0x1F"[2..] == "1F";
  }

  lemma DigitExamples()
    ensures Digits("12", 10, 0) == (12, "") && Digits("7-9", 10, 0) == (7, "-9")
    ensures Digits("1F", 16, 0) == (31, "") && Digits("fg", 16, 0) == (15, "g")
  {
    assert "12"[1..] == "2" && "2"[1..] == "" && "7-9"[1..] == "-9";
    assert "1F"[1..] == "F" && "F"[1..] == "" && "fg"[1..] == "g";
    assert Digits("2", 10, 1) == (12, "") && Digits("F", 16, 1) == (31, "");
  }
}
