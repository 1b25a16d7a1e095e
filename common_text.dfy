/** The string operations of Rust's `str` that the puzzle parsers use, on
    sequences of characters. All inputs are ASCII, so a character stands for
    one byte and character positions are byte offsets. */
module Text {
  import opened Wrappers
  import opened Positional
  import opened Decimal

  type String = seq<char>

  predicate IsDigit(c: char) {
    '0' <= c <= '9'
  }

  function DigitOf(c: char): (d: nat)
    requires IsDigit(c)
    ensures d < 10
  {
    (c as int - '0' as int) as nat
  }

  function CharOfDigit(d: nat): (c: char)
    requires d < 10
    ensures IsDigit(c) && DigitOf(c) == d
  {
    ('0' as int + d) as char
  }

  predicate AllDigits(s: String) {
    forall i :: 0 <= i < |s| ==> IsDigit(s[i])
  }

  function DigitsOfText(s: String): (ds: seq<nat>)
    requires AllDigits(s)
    ensures |ds| == |s| && DigitsBelow(ds, 10)
  {
    seq(|s|, i requires 0 <= i < |s| => DigitOf(s[i]))
  }

  /** `n.to_string()`. */
  function NatToText(n: nat): (s: String)
    ensures |s| >= 1 && AllDigits(s)
  {
    var ds := Digits(n);
    seq(|ds|, i requires 0 <= i < |ds| => CharOfDigit(ds[i]))
  }

  /** The syntax of `str::parse` for an unsigned integer, before its range
      check: an optional `+` and at least one decimal digit; anything else is
      an error. */
  function ParseNat(s: String): (r: Option<nat>)
    ensures r.Some? <==> (|s| >= 1 && AllDigits(s)) || (|s| >= 2 && s[0] == '+' && AllDigits(s[1..]))
  {
    if |s| >= 1 && AllDigits(s) then Some(ValueOf(DigitsOfText(s)))
    else if |s| >= 2 && s[0] == '+' && AllDigits(s[1..]) then Some(ValueOf(DigitsOfText(s[1..])))
    else None
  }

  /** The syntax of `str::parse` for a signed integer, before its range
      check: an optional sign and at least one decimal digit. */
  function ParseInt(s: String): (r: Option<int>)
    ensures r.Some? <==> ParseNat(s).Some? || (|s| >= 2 && s[0] == '-' && AllDigits(s[1..]))
    ensures ParseNat(s).Some? ==> r == Some(ParseNat(s).value as int)
  {
    if |s| >= 2 && s[0] == '-' && AllDigits(s[1..]) then Some(-(ValueOf(DigitsOfText(s[1..])) as int))
    else match ParseNat(s)
      case Some(n) => Some(n as int)
      case None => None
  }

  /** `num.parse::<T>()` for an unsigned type whose values are below `limit`. */
  function ParseBelow(s: String, limit: nat): (r: Option<nat>)
    ensures r.Some? <==> ParseNat(s).Some? && ParseNat(s).value < limit
    ensures r.Some? ==> r.value < limit && ParseNat(s) == r
  {
    match ParseNat(s)
    case Some(v) => if v < limit then Some(v) else None
    case None => None
  }

  /** Printing a number and parsing it back gives the number. */
  lemma ParseNatToText(n: nat)
    ensures ParseNat(NatToText(n)) == Some(n)
  {
    var s := NatToText(n);
    assert DigitsOfText(s) == Digits(n);
    ValueOfDigits(n);
  }

  const I32_MIN: int := -0x8000_0000
  const I32_LIMIT: int := 0x8000_0000

  /** `str::parse::<i32>()`: the signed syntax, then the range check. */
  function ParseI32(s: String): (r: Option<int>)
    ensures r.Some? <==> ParseInt(s).Some? && I32_MIN <= ParseInt(s).value < I32_LIMIT
    ensures r.Some? ==> I32_MIN <= r.value < I32_LIMIT && ParseInt(s) == r
  {
    match ParseInt(s)
    case Some(v) => if I32_MIN <= v < I32_LIMIT then Some(v) else None
    case None => None
  }

  /** Position of the first `c` in `s`. */
  function IndexOf(s: String, c: char): (i: nat)
    requires c in s
    ensures i < |s| && s[i] == c && c !in s[..i]
  {
    if s[0] == c then 0 else 1 + IndexOf(s[1..], c)
  }

  /** `s.split(c)` for a character `c`: always at least one piece. */
  function Split(s: String, c: char): (r: seq<String>)
    ensures |r| >= 1
    ensures forall k :: 0 <= k < |r| ==> c !in r[k]
    decreases |s|
  {
    if c in s then
      var i := IndexOf(s, c);
      [s[..i]] + Split(s[i + 1..], c)
    else [s]
  }

  /** The pieces glued back together with `sep` between them. */
  function Join(parts: seq<String>, sep: String): String {
    if |parts| == 0 then []
    else if |parts| == 1 then parts[0]
    else parts[0] + sep + Join(parts[1..], sep)
  }

  lemma {:induction false} JoinSplit(s: String, c: char)
    ensures Join(Split(s, c), [c]) == s
    decreases |s|
  {
    if c in s {
      var i := IndexOf(s, c);
      var tail := s[i + 1..];
      var rest := Split(tail, c);
      JoinSplit(tail, c);
      SplitCons(s, c, i);
      JoinCons(s[..i], rest, [c]);
      SliceAround(s, i);
    }
  }

  /** The first piece of a split, then the split of what follows the separator. */
  lemma SplitCons(s: String, c: char, i: nat)
    requires c in s && i == IndexOf(s, c)
    ensures Split(s, c) == [s[..i]] + Split(s[i + 1..], c)
  {
  }

  lemma SliceAround<T>(s: seq<T>, i: nat)
    requires i < |s|
    ensures s == s[..i] + [s[i]] + s[i + 1..]
  {
  }

  lemma {:induction false} IndexOfAfter(a: String, c: char, b: String)
    requires c !in a
    ensures IndexOf(a + [c] + b, c) == |a|
  {
    if a != [] {
      assert (a + [c] + b)[1..] == a[1..] + [c] + b;
      IndexOfAfter(a[1..], c, b);
    }
  }

  lemma {:induction false} SplitJoin(parts: seq<String>, c: char)
    requires |parts| >= 1
    requires forall k :: 0 <= k < |parts| ==> c !in parts[k]
    ensures Split(Join(parts, [c]), c) == parts
  {
    if |parts| > 1 {
      var s := Join(parts, [c]);
      var rest := Join(parts[1..], [c]);
      assert s == parts[0] + [c] + rest;
      assert s[|parts[0]|] == c;
      assert s[..|parts[0]|] == parts[0];
      IndexOfAfter(parts[0], c, rest);
      assert s[|parts[0]| + 1..] == rest;
      SplitJoin(parts[1..], c);
    }
  }

  /** `pat` occurs in `s` at position `i`. */
  predicate MatchAt(s: String, pat: String, i: int) {
    0 <= i && i + |pat| <= |s| && s[i..i + |pat|] == pat
  }

  lemma MatchAtShift(s: String, pat: String)
    requires |s| >= 1
    ensures forall i {:trigger MatchAt(s[1..], pat, i)} :: 0 <= i ==> (MatchAt(s[1..], pat, i) <==> MatchAt(s, pat, i + 1))
    ensures forall i {:trigger MatchAt(s, pat, i)} :: 1 <= i ==> (MatchAt(s, pat, i) <==> MatchAt(s[1..], pat, i - 1))
  {
    forall i | 0 <= i
      ensures MatchAt(s[1..], pat, i) <==> MatchAt(s, pat, i + 1)
    {
      if 0 <= i && i + 1 + |pat| <= |s| {
        assert s[1..][i..i + |pat|] == s[i + 1..i + 1 + |pat|];
      }
    }
  }

  /** `s.find(pat)`: the first position where `pat` occurs. */
  function Find(s: String, pat: String): (r: Option<nat>)
    ensures r.Some? ==> MatchAt(s, pat, r.value)
    ensures forall i :: 0 <= i < (if r.Some? then r.value else |s| + 1) ==> !MatchAt(s, pat, i)
    decreases |s|
  {
    if |pat| <= |s| && s[..|pat|] == pat then Some(0)
    else if s == [] then None
    else
      var r := Find(s[1..], pat);
      MatchAtShift(s, pat);
      if r.Some? then Some(r.value + 1) else None
  }

  /** The first occurrence is the one with no occurrence before it. */
  lemma FindAt(s: String, pat: String, k: nat)
    requires MatchAt(s, pat, k)
    requires forall i :: 0 <= i < k ==> !MatchAt(s, pat, i)
    ensures Find(s, pat) == Some(k)
  {
  }

  /** A character first occurs at position `k` when the text before has none. */
  lemma FirstCharAt(s: String, c: char, k: nat)
    requires k < |s| && s[k] == c && c !in s[..k]
    ensures Find(s, [c]) == Some(k)
  {
    assert s[k..k + 1] == [c];
    forall i | 0 <= i < k ensures !MatchAt(s, [c], i) {
      assert s[..k][i] == s[i];
      assert s[i..i + 1][0] == s[i];
    }
    FindAt(s, [c], k);
  }

  /** `s.split(pat)` for a non-empty string pattern: the pieces between the
      non-overlapping occurrences of `pat`, searched from the left. */
  function SplitOn(s: String, pat: String): (r: seq<String>)
    requires |pat| >= 1
    ensures |r| >= 1
    decreases |s|
  {
    match Find(s, pat)
    case Some(i) => [s[..i]] + SplitOn(s[i + |pat|..], pat)
    case None => [s]
  }

  /** No piece of `SplitOn` contains the pattern. */
  lemma {:induction false} SplitOnPieces(s: String, pat: String)
    requires |pat| >= 1
    ensures forall k, i :: 0 <= k < |SplitOn(s, pat)| && 0 <= i ==> !MatchAt(SplitOn(s, pat)[k], pat, i)
    decreases |s|
  {
    match Find(s, pat)
    case Some(j) =>
      SplitOnPieces(s[j + |pat|..], pat);
      forall i | 0 <= i
        ensures !MatchAt(s[..j], pat, i)
      {
        if i + |pat| <= j {
          assert !MatchAt(s, pat, i);
          assert s[..j][i..i + |pat|] == s[i..i + |pat|];
        }
      }
    case None =>
  }

  lemma {:induction false} JoinSplitOn(s: String, pat: String)
    requires |pat| >= 1
    ensures Join(SplitOn(s, pat), pat) == s
    decreases |s|
  {
    var f := Find(s, pat);
    if f.Some? {
      var i := f.value;
      var tail := s[i + |pat|..];
      SplitOnSome(s, pat, i);
      JoinSplitOn(tail, pat);
      JoinCons(s[..i], SplitOn(tail, pat), pat);
    }
  }

  /** One step of `SplitOn` at the first occurrence. */
  lemma SplitOnSome(s: String, pat: String, i: nat)
    requires |pat| >= 1 && Find(s, pat) == Some(i)
    ensures i + |pat| <= |s|
    ensures SplitOn(s, pat) == [s[..i]] + SplitOn(s[i + |pat|..], pat)
    ensures s == s[..i] + pat + s[i + |pat|..]
  {
    MatchAtSplits(s, pat, i);
  }

  /** An occurrence cuts the text into what precedes it, the pattern, and the rest. */
  lemma MatchAtSplits(s: String, pat: String, i: int)
    requires MatchAt(s, pat, i)
    ensures s == s[..i] + pat + s[i + |pat|..]
  {
    assert s == s[..i] + s[i..i + |pat|] + s[i + |pat|..];
  }

  lemma JoinCons(a: String, rest: seq<String>, sep: String)
    requires |rest| >= 1
    ensures Join([a] + rest, sep) == a + sep + Join(rest, sep)
  {
    assert ([a] + rest)[1..] == rest;
  }

  /** `s.matches(pat).count()`: the number of non-overlapping occurrences. */
  function CountMatches(s: String, pat: String): nat
    requires |pat| >= 1
  {
    |SplitOn(s, pat)| - 1
  }

  /** `char::is_whitespace` on ASCII: space, tab, line feed, vertical tab,
      form feed and carriage return. */
  predicate IsWhitespace(c: char) {
    c == ' ' || '\t' <= c <= '\r'
  }

  predicate AllWhitespace(s: String) {
    forall i :: 0 <= i < |s| ==> IsWhitespace(s[i])
  }

  predicate NoWhitespace(s: String) {
    forall i :: 0 <= i < |s| ==> !IsWhitespace(s[i])
  }

  /** Length of the leading whitespace run. */
  function LeadingWhitespace(s: String): (n: nat)
    ensures n <= |s| && AllWhitespace(s[..n]) && (n < |s| ==> !IsWhitespace(s[n]))
  {
    if s != [] && IsWhitespace(s[0]) then
      var n := 1 + LeadingWhitespace(s[1..]);
      assert s[..n] == [s[0]] + s[1..][..n - 1];
      n
    else 0
  }

  /** Length of the leading run without whitespace. */
  function LeadingWord(s: String): (n: nat)
    ensures n <= |s| && NoWhitespace(s[..n]) && (n < |s| ==> IsWhitespace(s[n]))
  {
    if s != [] && !IsWhitespace(s[0]) then
      var n := 1 + LeadingWord(s[1..]);
      assert s[..n] == [s[0]] + s[1..][..n - 1];
      n
    else 0
  }

  /** `s.split_whitespace()`: the maximal runs of non-whitespace characters. */
  function SplitWhitespace(s: String): (r: seq<String>)
    ensures forall k :: 0 <= k < |r| ==> |r[k]| >= 1 && NoWhitespace(r[k])
    decreases |s|
  {
    var a := LeadingWhitespace(s);
    if a == |s| then []
    else
      var t := s[a..];
      var w := LeadingWord(t);
      [t[..w]] + SplitWhitespace(t[w..])
  }

  /** The characters of `s` that are not whitespace. */
  function DropWhitespace(s: String): String {
    if s == [] then []
    else (if IsWhitespace(s[0]) then [] else [s[0]]) + DropWhitespace(s[1..])
  }

  lemma {:induction false} DropWhitespaceAppend(x: String, y: String)
    ensures DropWhitespace(x + y) == DropWhitespace(x) + DropWhitespace(y)
  {
    if x != [] {
      assert (x + y)[0] == x[0];
      assert (x + y)[1..] == x[1..] + y;
      DropWhitespaceAppend(x[1..], y);
    } else {
      assert x + y == y;
    }
  }

  lemma {:induction false} DropWhitespaceAll(x: String)
    ensures AllWhitespace(x) ==> DropWhitespace(x) == []
    ensures NoWhitespace(x) ==> DropWhitespace(x) == x
  {
    if x != [] {
      DropWhitespaceAll(x[1..]);
    }
  }

  function Concat(ws: seq<String>): String {
    if ws == [] then [] else ws[0] + Concat(ws[1..])
  }

  /** The words of `split_whitespace` are exactly the non-whitespace characters, in order. */
  lemma {:induction false} SplitWhitespaceContent(s: String)
    ensures Concat(SplitWhitespace(s)) == DropWhitespace(s)
    decreases |s|
  {
    var a := LeadingWhitespace(s);
    if a < |s| {
      var rest := WordStep(s);
      SplitWhitespaceContent(rest);
      ConcatCons(s[a..][..LeadingWord(s[a..])], SplitWhitespace(rest));
    } else {
      assert s[..a] == s;
      DropWhitespaceAll(s);
    }
  }

  /** Text with a word: whitespace, the word, then the rest, which both
      `split_whitespace` and dropping the whitespace continue with. */
  lemma WordStep(s: String) returns (rest: String)
    requires LeadingWhitespace(s) < |s|
    ensures var t := s[LeadingWhitespace(s)..]; var word := t[..LeadingWord(t)];
      && rest == t[LeadingWord(t)..] && |rest| < |s|
      && SplitWhitespace(s) == [word] + SplitWhitespace(rest)
      && DropWhitespace(s) == word + DropWhitespace(rest)
  {
    var t := s[LeadingWhitespace(s)..];
    DropLeading(s);
    DropWord(t);
    rest := t[LeadingWord(t)..];
  }

  lemma DropLeading(s: String)
    ensures DropWhitespace(s) == DropWhitespace(s[LeadingWhitespace(s)..])
  {
    var a := LeadingWhitespace(s);
    assert s == s[..a] + s[a..];
    DropWhitespaceAppend(s[..a], s[a..]);
    DropWhitespaceAll(s[..a]);
  }

  lemma DropWord(t: String)
    ensures DropWhitespace(t) == t[..LeadingWord(t)] + DropWhitespace(t[LeadingWord(t)..])
  {
    var w := LeadingWord(t);
    assert t == t[..w] + t[w..];
    DropWhitespaceAppend(t[..w], t[w..]);
    DropWhitespaceAll(t[..w]);
  }

  lemma ConcatCons(w: String, ws: seq<String>)
    ensures Concat([w] + ws) == w + Concat(ws)
  {
    assert ([w] + ws)[1..] == ws;
  }

  /** Words each written after one space. */
  function Spaced(ws: seq<String>): String {
    if ws == [] then [] else " " + ws[0] + Spaced(ws[1..])
  }

  /** A word followed by whitespace or nothing is the leading word. */
  lemma {:induction false} LeadingWordOf(w: String, rest: String)
    requires NoWhitespace(w) && (rest == [] || IsWhitespace(rest[0]))
    ensures LeadingWord(w + rest) == |w|
  {
    if w != [] {
      assert (w + rest)[0] == w[0];
      assert (w + rest)[1..] == w[1..] + rest;
      LeadingWordOf(w[1..], rest);
    } else {
      assert w + rest == rest;
    }
  }

  /** Non-empty words without whitespace, written with spaces, split back. */
  lemma {:induction false} SplitWhitespaceSpaced(ws: seq<String>)
    requires forall k :: 0 <= k < |ws| ==> |ws[k]| >= 1 && NoWhitespace(ws[k])
    ensures SplitWhitespace(Spaced(ws)) == ws
  {
    if ws != [] {
      var rest := Spaced(ws[1..]);
      SpacedCons(ws);
      SplitSpacedWord(ws[0], rest);
      SplitWhitespaceSpaced(ws[1..]);
      assert ws == [ws[0]] + ws[1..];
    }
  }

  lemma SpacedCons(ws: seq<String>)
    requires ws != []
    ensures Spaced(ws) == [' '] + (ws[0] + Spaced(ws[1..]))
    ensures Spaced(ws[1..]) == [] || Spaced(ws[1..])[0] == ' '
  {
    var rest := ws[1..];
    if rest != [] {
      assert Spaced(rest) == " " + rest[0] + Spaced(rest[1..]);
    }
  }

  /** A space, a word, then nothing or more spaced text: the word is split off. */
  lemma SplitSpacedWord(w: String, rest: String)
    requires |w| >= 1 && NoWhitespace(w)
    requires rest == [] || rest[0] == ' '
    ensures SplitWhitespace([' '] + (w + rest)) == [w] + SplitWhitespace(rest)
  {
    var s := [' '] + (w + rest);
    var t := s[1..];
    assert t == w + rest;
    assert t[0] == w[0];
    assert LeadingWhitespace(t) == 0;
    assert LeadingWhitespace(s) == 1;
    LeadingWordOf(w, rest);
    assert t[..|w|] == w;
    assert t[|w|..] == rest;
  }

  /** `s.trim()`: `s` without leading and trailing whitespace. */
  function Trim(s: String): (r: String)
    ensures exists a, b :: 0 <= a <= b <= |s| && r == s[a..b] && AllWhitespace(s[..a]) && AllWhitespace(s[b..])
    ensures r != [] ==> !IsWhitespace(r[0]) && !IsWhitespace(r[|r| - 1])
    decreases |s|
  {
    var a := LeadingWhitespace(s);
    var t := s[a..];
    var b := TrailingStart(t);
    assert s[a..][..b] == s[a..a + b];
    assert s[a + b..] == t[b..];
    t[..b]
  }

  /** Where the trailing whitespace run of `s` starts. */
  function TrailingStart(s: String): (b: nat)
    ensures b <= |s| && AllWhitespace(s[b..]) && (b > 0 ==> !IsWhitespace(s[b - 1]))
  {
    if s != [] && IsWhitespace(s[|s| - 1]) then
      var b := TrailingStart(s[..|s| - 1]);
      assert s[b..] == s[..|s| - 1][b..] + [s[|s| - 1]];
      b
    else |s|
  }

  /** The line without a final carriage return, as `str::lines` does. */
  function StripCR(line: String): (r: String)
    ensures r == line || (line == r + ['\r'])
  {
    if line != [] && line[|line| - 1] == '\r' then line[..|line| - 1] else line
  }

  /** `s.lines()`: pieces between line feeds, each without a final carriage
      return; a final line feed does not open an empty last line. */
  function Lines(s: String): (r: seq<String>)
    ensures forall k :: 0 <= k < |r| ==> '\n' !in r[k]
  {
    var parts := Split(s, '\n');
    var kept := if parts[|parts| - 1] == [] then parts[..|parts| - 1] else parts;
    seq(|kept|, k requires 0 <= k < |kept| => StripCR(kept[k]))
  }

  /** Without carriage returns, joining the lines with line feeds gives the text
      back, up to a final line feed. */
  lemma LinesJoin(s: String)
    requires '\r' !in s
    ensures Join(Lines(s), "\n") == s || Join(Lines(s), "\n") + "\n" == s
  {
    var parts := Split(s, '\n');
    JoinSplit(s, '\n');
    forall k | 0 <= k < |parts| ensures StripCR(parts[k]) == parts[k] {
      JoinContains(parts, "\n", k);
      if parts[k] != [] {
        var c := parts[k][|parts[k]| - 1];
        assert c in multiset(parts[k]);
        assert c in multiset(s);
        assert c in s;
      }
    }
    if parts[|parts| - 1] == [] {
      var kept := parts[..|parts| - 1];
      assert Lines(s) == kept;
      if |parts| > 1 {
        JoinLastEmpty(parts, "\n");
      }
    } else {
      assert Lines(s) == parts;
    }
  }

  lemma {:induction false} JoinContains(parts: seq<String>, sep: String, k: nat)
    requires k < |parts|
    ensures multiset(parts[k]) <= multiset(Join(parts, sep))
  {
    if |parts| > 1 {
      var rest := Join(parts[1..], sep);
      assert Join(parts, sep) == parts[0] + sep + rest;
      if k > 0 {
        JoinContains(parts[1..], sep, k - 1);
      }
    }
  }

  lemma {:induction false} JoinLastEmpty(parts: seq<String>, sep: String)
    requires |parts| >= 2 && parts[|parts| - 1] == []
    ensures Join(parts, sep) == Join(parts[..|parts| - 1], sep) + sep
  {
    if |parts| > 2 {
      JoinLastEmpty(parts[1..], sep);
      assert parts[1..][..|parts| - 2] == parts[..|parts| - 1][1..];
    }
  }

  /** `s.replace(c, "")` for one character `c`: `s` with every `c` deleted. */
  function Remove(s: String, c: char): (r: String)
    ensures c !in r && |r| <= |s|
    ensures forall x :: x != c ==> multiset(r)[x] == multiset(s)[x]
  {
    if s == [] then []
    else
      assert s == [s[0]] + s[1..];
      (if s[0] == c then [] else [s[0]]) + Remove(s[1..], c)
  }

  lemma {:induction false} RemoveAbsent(s: String, c: char)
    requires c !in s
    ensures Remove(s, c) == s
  {
    if s != [] {
      RemoveAbsent(s[1..], c);
    }
  }

  lemma {:induction false} RemoveAppend(x: String, y: String, c: char)
    ensures Remove(x + y, c) == Remove(x, c) + Remove(y, c)
    decreases |x|
  {
    if x != [] {
      assert (x + y)[1..] == x[1..] + y;
      RemoveAppend(x[1..], y, c);
    } else {
      assert x + y == y;
    }
  }

  /** Deleting the separator from pieces joined by it concatenates them. */
  lemma {:induction false} RemoveJoin(parts: seq<String>, c: char)
    requires forall k :: 0 <= k < |parts| ==> c !in parts[k]
    ensures Remove(Join(parts, [c]), c) == Concat(parts)
    decreases |parts|
  {
    if |parts| == 1 {
      RemoveAbsent(parts[0], c);
      assert Concat(parts[1..]) == [];
    } else if |parts| > 1 {
      RemoveJoin(parts[1..], c);
      RemoveAppend(parts[0] + [c], Join(parts[1..], [c]), c);
      RemoveAppend(parts[0], [c], c);
      RemoveAbsent(parts[0], c);
    }
  }

  /** Two digit strings joined by a dash hold no other non-digit character. */
  lemma DashedAvoids(a: String, b: String, c: char)
    requires AllDigits(a) && AllDigits(b) && !IsDigit(c) && c != '-'
    ensures c !in a + "-" + b
  {
    var f := a + "-" + b;
    forall i | 0 <= i < |f| ensures f[i] != c {
      if i < |a| {
        assert f[i] == a[i];
      } else if i > |a| {
        assert f[i] == b[i - |a| - 1];
      }
    }
  }

  /** A digit string holds no separator. */
  lemma DigitsAvoid(s: String, c: char)
    requires AllDigits(s) && !IsDigit(c)
    ensures c !in s
  {
    forall i | 0 <= i < |s| ensures s[i] != c {
      assert IsDigit(s[i]);
    }
  }

  /** Two digit strings joined by a non-digit split back at it. */
  lemma DigitPairSplits(a: String, b: String, c: char)
    requires AllDigits(a) && AllDigits(b) && !IsDigit(c)
    ensures Split(a + [c] + b, c) == [a, b]
  {
    DigitsAvoid(a, c);
    DigitsAvoid(b, c);
    SplitJoin([a, b], c);
    assert Join([a, b], [c]) == a + [c] + b;
  }

  /** Two digit strings joined by a dash split back at the dash. */
  lemma DashedSplits(a: String, b: String)
    requires AllDigits(a) && AllDigits(b)
    ensures Split(a + "-" + b, '-') == [a, b]
  {
    DigitPairSplits(a, b, '-');
  }

  const U64_LIMIT: nat := 0x1_0000_0000_0000_0000

  /** `str::parse::<u64>`. */
  function ParseU64(s: String): (r: Option<nat>)
    ensures r.Some? <==> ParseNat(s).Some? && ParseNat(s).value < U64_LIMIT
    ensures r.Some? ==> r.value < U64_LIMIT && ParseNat(s) == r
  {
    ParseBelow(s, U64_LIMIT)
  }

  /** A number below 2^64, printed, parses back as a `u64`. */
  lemma ParseU64ToText(n: nat)
    requires n < U64_LIMIT
    ensures ParseU64(NatToText(n)) == Some(n)
  {
    ParseNatToText(n);
  }

  /** The decimal texts of some numbers. */
  function Texts(ns: seq<nat>): (r: seq<String>)
    ensures |r| == |ns|
    ensures forall k :: 0 <= k < |r| ==> r[k] == NatToText(ns[k])
  {
    seq(|ns|, k requires 0 <= k < |ns| => NatToText(ns[k]))
  }

  /** Numbers in range written with spaces parse back. */
  lemma ParseNumbersBack(ns: seq<nat>)
    requires forall k :: 0 <= k < |ns| ==> ns[k] < U64_LIMIT
    ensures MapAll(SplitWhitespace(Spaced(Texts(ns))), ParseU64) == Some(ns)
  {
    var texts := Texts(ns);
    forall k | 0 <= k < |texts| ensures |texts[k]| >= 1 && NoWhitespace(texts[k]) {
      forall j | 0 <= j < |texts[k]| ensures !IsWhitespace(texts[k][j]) {
        assert IsDigit(texts[k][j]);
      }
    }
    SplitWhitespaceSpaced(texts);
    forall k | 0 <= k < |texts| ensures ParseU64(texts[k]) == Some(ns[k]) {
      ParseNatToText(ns[k]);
    }
    var parsed := MapAll(texts, ParseU64);
    assert parsed.Some?;
    assert parsed.value == ns;
  }
}
