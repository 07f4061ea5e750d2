/** Character classes, the two validation grammars of the converter, decimal
    conversion in both directions, and the string utilities the converter
    borrows from Python (str.strip, str.split, str.join).

    The classes are ASCII ones. Python's `\d` also accepts other Unicode
    decimal digits; `str.isdigit` accepts those and digits such as '²' that
    int() then rejects. `str.split`/`str.strip` also treat \x1c-\x1f and
    Unicode spaces as whitespace. Those differences are not modelled. */
module Lexical {

  predicate IsDigit(c: char) { '0' <= c <= '9' }

  predicate IsLetter(c: char) { 'a' <= c <= 'z' || 'A' <= c <= 'Z' }

  /** The six ASCII whitespace characters; Python's str.split() and
      str.strip() also treat \x1c-\x1f and Unicode spaces as whitespace,
      which is not modelled. */
  predicate IsSpace(c: char)
  {
    c == ' ' || c == '\t' || c == '\n' || c == '\r' || c == '\U{000B}' || c == '\U{000C}'
  }

  predicate AllDigits(s: string) { forall i :: 0 <= i < |s| ==> IsDigit(s[i]) }

  /** NAME_REGEX: a letter followed by letters and digits. */
  predicate IsName(s: string)
  {
    |s| > 0 && IsLetter(s[0]) && forall i :: 1 <= i < |s| ==> IsLetter(s[i]) || IsDigit(s[i])
  }

  /** NUMBER_REGEX (and str.isdigit on a token): one or more digits. */
  predicate IsNumber(s: string) { |s| > 0 && AllDigits(s) }

  /** The string without one final newline, if it has one. */
  function Chomp(s: string): (r: string)
    ensures s != [] && s[|s| - 1] == '\n' ==> r == s[..|s| - 1]
    ensures (s == [] || s[|s| - 1] != '\n') ==> r == s
  {
    if s != [] && s[|s| - 1] == '\n' then s[..|s| - 1] else s
  }

  /** re.match(NAME_REGEX, s): the pattern is anchored with `^...$`, and
      Python's `$` matches at the very end or just before a final newline. */
  predicate NameMatch(s: string) { IsName(Chomp(s)) }

  /** re.match(NUMBER_REGEX, s), with the same reading of `$`. */
  predicate NumberMatch(s: string) { IsNumber(Chomp(s)) }

  /** A string is accepted as a name (a number) exactly when it is one, or
      is one followed by a single newline. */
  lemma AnchorAllowsFinalNewline(s: string)
    ensures NameMatch(s) <==> IsName(s) || (|s| >= 2 && s[|s| - 1] == '\n' && IsName(s[..|s| - 1]))
    ensures NumberMatch(s) <==> IsNumber(s) || (|s| >= 2 && s[|s| - 1] == '\n' && IsNumber(s[..|s| - 1]))
  {
  }

  function DigitValue(c: char): (d: nat)
    requires IsDigit(c)
    ensures d < 10
  {
    c as int - '0' as int
  }

  function DigitChar(d: nat): (c: char)
    requires d < 10
    ensures IsDigit(c) && DigitValue(c) == d
  {
    ('0' as int + d) as char
  }

  /** int(s) for a string of decimal digits, read left to right. */
  function DigitsValue(s: string): nat
    requires AllDigits(s)
  {
    if s == [] then 0 else DigitsValue(s[..|s| - 1]) * 10 + DigitValue(s[|s| - 1])
  }

  /** Appending a digit shifts the value one decimal place. */
  lemma DigitsValueSnoc(s: string, c: char)
    requires AllDigits(s) && IsDigit(c)
    ensures AllDigits(s + [c]) && DigitsValue(s + [c]) == DigitsValue(s) * 10 + DigitValue(c)
  {
    assert (s + [c])[..|s|] == s;
  }

  /** int(s) for a string NUMBER_REGEX accepts: int() ignores the final
      newline the pattern lets through. */
  function NumberValue(s: string): (n: nat)
    requires NumberMatch(s)
    ensures IsNumber(s) ==> n == DigitsValue(s)
    ensures !IsNumber(s) ==> |s| >= 2 && s[|s| - 1] == '\n' && IsNumber(s[..|s| - 1]) && n == DigitsValue(s[..|s| - 1])
  {
    DigitsValue(Chomp(s))
  }

  /** str(n) for a non-negative integer: the shortest decimal numeral. */
  function NatToString(n: nat): string
  {
    if n < 10 then [DigitChar(n)] else NatToString(n / 10) + [DigitChar(n % 10)]
  }

  /** str(n) is a digit string that reads back as n, with no leading zero
      unless n is 0. */
  lemma {:induction false} NatToStringReadsBack(n: nat)
    ensures IsNumber(NatToString(n)) && DigitsValue(NatToString(n)) == n
    ensures NatToString(n)[0] == '0' ==> n == 0
    ensures NatToString(n)[0] == '0' ==> NatToString(n) == "0"
  {
    if n >= 10 {
      NatToStringReadsBack(n / 10);
      DigitsValueSnoc(NatToString(n / 10), DigitChar(n % 10));
    }
  }

  /** str(n) for any integer: a minus sign in front of the magnitude. */
  function IntToString(n: int): string
  {
    if n >= 0 then NatToString(n) else "-" + NatToString(-n)
  }

  /** str(n) is the numeral of n, preceded by `-` when n is negative. */
  lemma IntToStringReadsBack(n: int)
    ensures n >= 0 ==> IsNumber(IntToString(n)) && DigitsValue(IntToString(n)) == n
    ensures n < 0 ==> var r := IntToString(n);
                      |r| > 1 && r[0] == '-' && IsNumber(r[1..]) && DigitsValue(r[1..]) == -n
    ensures n < 0 ==> IntToString(n)[1..] == NatToString(-n)
    ensures n > 0 ==> IntToString(n)[0] != '0'
    ensures n == 0 ==> IntToString(n) == "0"
    ensures n < 0 ==> IntToString(n)[1] != '0'
  {
    if n >= 0 {
      NatToStringReadsBack(n);
    } else {
      NatToStringReadsBack(-n);
      assert IntToString(n)[1..] == NatToString(-n);
    }
  }

  /** Drops the longest prefix whose characters all satisfy `drop`. */
  function TrimLeft(s: string, drop: char -> bool): string
  {
    if s != [] && drop(s[0]) then TrimLeft(s[1..], drop) else s
  }

  /** What TrimLeft drops is a prefix of droppable characters, and what it
      keeps does not start with one. */
  lemma {:induction false} TrimLeftDrops(s: string, drop: char -> bool)
    ensures var r := TrimLeft(s, drop);
            && |r| <= |s| && r == s[|s| - |r|..]
            && (forall i :: 0 <= i < |s| - |r| ==> drop(s[i]))
            && (r != [] ==> !drop(r[0]))
  {
    if s != [] && drop(s[0]) {
      TrimLeftDrops(s[1..], drop);
      var r := TrimLeft(s[1..], drop);
      assert s[1..][|s| - 1 - |r|..] == s[|s| - |r|..];
      assert forall i :: 1 <= i < |s| - |r| ==> s[i] == s[1..][i - 1];
    }
  }

  /** Drops the longest suffix whose characters all satisfy `drop`. */
  function TrimRight(s: string, drop: char -> bool): string
  {
    if s != [] && drop(s[|s| - 1]) then TrimRight(s[..|s| - 1], drop) else s
  }

  /** What TrimRight drops is a suffix of droppable characters, and what it
      keeps does not end with one. */
  lemma {:induction false} TrimRightDrops(s: string, drop: char -> bool)
    ensures var r := TrimRight(s, drop);
            && |r| <= |s| && r == s[..|r|]
            && (forall i :: |r| <= i < |s| ==> drop(s[i]))
            && (r != [] ==> !drop(r[|r| - 1]))
  {
    if s != [] && drop(s[|s| - 1]) {
      TrimRightDrops(s[..|s| - 1], drop);
      var r := TrimRight(s[..|s| - 1], drop);
      assert s[..|s| - 1][..|r|] == s[..|r|];
      assert forall i :: |r| <= i < |s| - 1 ==> s[i] == s[..|s| - 1][i];
    }
  }

  /** str.strip(chars): drops matching characters from both ends. */
  function Strip(s: string, drop: char -> bool): string
  {
    TrimRight(TrimLeft(s, drop), drop)
  }

  /** Strip drops matching characters from the ends only: the result is a
      slice of `s` with nothing but matching characters on either side of
      it; it is empty exactly when every character matches, otherwise
      neither of its ends matches, and a string with no matching end is
      unchanged. */
  lemma StripTrims(s: string, drop: char -> bool)
    ensures var r := Strip(s, drop);
            && |r| <= |s|
            && (exists i, j :: 0 <= i <= j <= |s| && r == s[i..j] &&
                  (forall k :: 0 <= k < i ==> drop(s[k])) &&
                  (forall k :: j <= k < |s| ==> drop(s[k])))
            && (r == [] <==> forall i :: 0 <= i < |s| ==> drop(s[i]))
            && (r != [] ==> !drop(r[0]) && !drop(r[|r| - 1]))
            && (s == [] || (!drop(s[0]) && !drop(s[|s| - 1])) ==> r == s)
  {
    var t := TrimLeft(s, drop);
    TrimLeftDrops(s, drop);
    TrimRightDrops(t, drop);
    var r := TrimRight(t, drop);
    assert r != [] ==> r[0] == t[0];
    if r == [] {
      assert t == [];
    }
    var i, j := |s| - |t|, |s| - |t| + |r|;
    assert r == s[i..j];
    forall k | j <= k < |s|
      ensures drop(s[k])
    {
      assert s[k] == t[k - i];
    }
  }

  predicate NoSpace(s: string) { forall i :: 0 <= i < |s| ==> !IsSpace(s[i]) }

  /** The characters of `s` that are not whitespace, in order. */
  function RemoveSpaces(s: string): string
  {
    if s == [] then []
    else if IsSpace(s[0]) then RemoveSpaces(s[1..])
    else [s[0]] + RemoveSpaces(s[1..])
  }

  function Concat(ts: seq<string>): string
  {
    if ts == [] then [] else ts[0] + Concat(ts[1..])
  }

  lemma {:induction false} RemoveSpacesAppend(a: string, b: string)
    ensures RemoveSpaces(a + b) == RemoveSpaces(a) + RemoveSpaces(b)
  {
    if a != [] {
      assert (a + b)[1..] == a[1..] + b;
      RemoveSpacesAppend(a[1..], b);
    } else {
      assert a + b == b;
    }
  }

  lemma {:induction false} RemoveSpacesOfSpaces(s: string)
    requires forall i :: 0 <= i < |s| ==> IsSpace(s[i])
    ensures RemoveSpaces(s) == []
  {
    if s != [] {
      RemoveSpacesOfSpaces(s[1..]);
    }
  }

  lemma {:induction false} RemoveSpacesOfWord(s: string)
    requires NoSpace(s)
    ensures RemoveSpaces(s) == s
  {
    if s != [] {
      RemoveSpacesOfWord(s[1..]);
      assert [s[0]] + s[1..] == s;
    }
  }

  /** The longest prefix of `s` without whitespace. */
  function Word(s: string): string
  {
    if s == [] || IsSpace(s[0]) then [] else [s[0]] + Word(s[1..])
  }

  /** A word is a whitespace-free prefix, ended by whitespace or the end. */
  lemma {:induction false} WordIsPrefix(s: string)
    ensures var w := Word(s);
            && |w| <= |s| && w == s[..|w|] && NoSpace(w)
            && (|w| < |s| ==> IsSpace(s[|w|]))
  {
    if s != [] && !IsSpace(s[0]) {
      WordIsPrefix(s[1..]);
    }
  }

  /** str.split() without arguments: the maximal runs of non-whitespace
      characters, in order. */
  function Split(s: string): seq<string>
    decreases |s|
  {
    var t := TrimLeft(s, IsSpace);
    TrimLeftDrops(s, IsSpace);
    if t == [] then []
    else
      var w := Word(t);
      WordIsPrefix(t);
      [w] + Split(t[|w|..])
  }

  /** Every token is non-empty and free of whitespace. */
  lemma {:induction false} SplitTokens(s: string)
    ensures forall i :: 0 <= i < |Split(s)| ==> Split(s)[i] != [] && NoSpace(Split(s)[i])
    decreases |s|
  {
    var t := TrimLeft(s, IsSpace);
    TrimLeftDrops(s, IsSpace);
    if t != [] {
      var w := Word(t);
      WordIsPrefix(t);
      SplitTokens(t[|w|..]);
      assert Split(s) == [w] + Split(t[|w|..]);
    }
  }

  /** A whitespace-free string is its own first word. */
  lemma {:induction false} WordOfWord(w: string, rest: string)
    requires NoSpace(w) && (rest == [] || IsSpace(rest[0]))
    ensures Word(w + rest) == w
  {
    if w != [] {
      assert (w + rest)[1..] == w[1..] + rest;
      WordOfWord(w[1..], rest);
    }
  }

  /** Whitespace in front of the tokens is skipped. */
  lemma SplitSkipsSpace(c: char, rest: string)
    requires IsSpace(c)
    ensures Split([c] + rest) == Split(rest)
  {
    assert ([c] + rest)[1..] == rest;
    assert TrimLeft([c] + rest, IsSpace) == TrimLeft(rest, IsSpace);
  }

  /** A maximal run of non-whitespace characters is one token, and the
      tokens of what follows come after it. */
  lemma SplitTakesWord(w: string, rest: string)
    requires w != [] && NoSpace(w) && (rest == [] || IsSpace(rest[0]))
    ensures Split(w + rest) == [w] + Split(rest)
  {
    var s := w + rest;
    assert TrimLeft(s, IsSpace) == s;
    WordOfWord(w, rest);
    assert s[|w|..] == rest;
  }

  /** Leading whitespace contributes no characters. */
  lemma LeadingSpacesVanish(s: string)
    ensures RemoveSpaces(s) == RemoveSpaces(TrimLeft(s, IsSpace))
  {
    TrimLeftDrops(s, IsSpace);
    var t := TrimLeft(s, IsSpace);
    var lead := s[..|s| - |t|];
    assert s == lead + t;
    RemoveSpacesAppend(lead, t);
    RemoveSpacesOfSpaces(lead);
  }

  /** A word keeps all its characters, in front of those of the rest. */
  lemma WordThenRest(t: string)
    ensures |Word(t)| <= |t| && RemoveSpaces(t) == Word(t) + RemoveSpaces(t[|Word(t)|..])
  {
    WordIsPrefix(t);
    var w := Word(t);
    assert t == w + t[|w|..];
    RemoveSpacesAppend(w, t[|w|..]);
    RemoveSpacesOfWord(w);
  }

  lemma ConcatCons(w: string, ts: seq<string>)
    ensures Concat([w] + ts) == w + Concat(ts)
  {
    assert ([w] + ts)[1..] == ts;
  }

  /** Splitting loses only whitespace: the tokens together hold exactly the
      non-whitespace characters of `s`, in order. */
  lemma {:induction false} SplitKeepsCharacters(s: string)
    ensures Concat(Split(s)) == RemoveSpaces(s)
    decreases |s|
  {
    var t := TrimLeft(s, IsSpace);
    TrimLeftDrops(s, IsSpace);
    LeadingSpacesVanish(s);
    if t != [] {
      var w := Word(t);
      WordIsPrefix(t);
      var rest := t[|w|..];
      assert |w| > 0;
      WordThenRest(t);
      SplitKeepsCharacters(rest);
      assert Split(s) == [w] + Split(rest);
      ConcatCons(w, Split(rest));
    }
  }

  function TotalLength(lines: seq<string>): nat
  {
    if lines == [] then 0 else TotalLength(lines[..|lines| - 1]) + |lines[|lines| - 1]|
  }

  /** sep.join(lines): the lines in order with one separator between
      neighbours. */
  function Join(lines: seq<string>, sep: string): string
  {
    if lines == [] then ""
    else if |lines| == 1 then lines[0]
    else Join(lines[..|lines| - 1], sep) + sep + lines[|lines| - 1]
  }

  /** The joined length is the lines' total plus one separator per gap; a
      single line is returned as it is, and the last line ends the result. */
  lemma {:induction false} JoinShape(lines: seq<string>, sep: string)
    ensures var r := Join(lines, sep);
            && |r| == TotalLength(lines) + (if lines == [] then 0 else (|lines| - 1) * |sep|)
            && (|lines| == 1 ==> r == lines[0])
            && (lines != [] ==> |lines[|lines| - 1]| <= |r| && r[|r| - |lines[|lines| - 1]|..] == lines[|lines| - 1])
  {
    if |lines| > 1 {
      var init := lines[..|lines| - 1];
      JoinShape(init, sep);
      assert TotalLength(init[..|init| - 1]) + |init[|init| - 1]| == TotalLength(init);
      assert (|lines| - 1) * |sep| == (|init| - 1) * |sep| + |sep|;
    }
  }

  /** Joining two non-empty runs of lines is joining each and putting one
      separator between them. */
  lemma {:induction false} JoinAppend(a: seq<string>, b: seq<string>, sep: string)
    requires a != [] && b != []
    ensures Join(a + b, sep) == Join(a, sep) + sep + Join(b, sep)
    decreases |b|
  {
    var ab := a + b;
    DropLastOfAppend(a, b);
    if |b| == 1 {
      assert ab[..|ab| - 1] == a;
    } else {
      JoinAppend(a, b[..|b| - 1], sep);
      assert ab[|ab| - 1] == b[|b| - 1];
    }
  }

  lemma DropLastOfAppend<T>(a: seq<T>, b: seq<T>)
    requires b != []
    ensures (a + b)[..|a + b| - 1] == a + b[..|b| - 1]
  {
  }
}
