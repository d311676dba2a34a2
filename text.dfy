/**
 * The pieces of Rust's string library that the HTTP code relies on, as
 * functions on `string` (a sequence of Unicode scalar values):
 * `str::split("\r\n")` and `[&str]::join("\r\n")`, `str::split_whitespace`,
 * `str::trim`, `str::to_lowercase` (ASCII letters only), `str::find` for a
 * character, the decimal `Display` of an unsigned integer and `str::len`,
 * which counts UTF-8 bytes.
 */
module Text {
  import opened Wrappers

  const CRLF: string := "\r\n"

  // ---------------------------------------------------------------------------
  // Whitespace, as `char::is_whitespace` decides it (the Unicode White_Space set)
  // ---------------------------------------------------------------------------

  predicate IsWhitespace(c: char) {
    var n := c as int;
    (0x09 <= n <= 0x0D) || n == 0x20 || n == 0x85 || n == 0xA0 || n == 0x1680
    || (0x2000 <= n <= 0x200A) || n == 0x2028 || n == 0x2029 || n == 0x202F
    || n == 0x205F || n == 0x3000
  }

  predicate AllWhitespace(s: string) {
    forall i :: 0 <= i < |s| ==> IsWhitespace(s[i])
  }

  predicate NoWhitespace(s: string) {
    forall i :: 0 <= i < |s| ==> !IsWhitespace(s[i])
  }

  // ---------------------------------------------------------------------------
  // str::find for one character
  // ---------------------------------------------------------------------------

  /** The index of the first occurrence of `c` in `s`, if any. */
  function Find(s: string, c: char): (r: Option<nat>)
    ensures r.None? <==> c !in s
    ensures r.Some? ==> r.value < |s| && s[r.value] == c && c !in s[..r.value]
  {
    if s == [] then None
    else if s[0] == c then Some(0)
    else
      match Find(s[1..], c)
      case None => None
      case Some(i) =>
        assert s[..i + 1] == [s[0]] + s[1..][..i];
        Some(i + 1)
  }

  // ---------------------------------------------------------------------------
  // str::split("\r\n") and join("\r\n")
  // ---------------------------------------------------------------------------

  /** A carriage return followed by a line feed starts at index `i` of `s`. */
  predicate CrlfAt(s: string, i: int) {
    0 <= i && i + 1 < |s| && s[i] == '\r' && s[i + 1] == '\n'
  }

  predicate NoCrlf(s: string) {
    forall i :: 0 <= i < |s| ==> !CrlfAt(s, i)
  }

  /** The index of the first "\r\n" in `s`, or `|s|` when there is none. */
  function FindCrlf(s: string): (i: nat)
    ensures i <= |s|
    ensures i == |s| || CrlfAt(s, i)
    ensures forall j :: 0 <= j < i ==> !CrlfAt(s, j)
    decreases |s|
  {
    if |s| < 2 then |s|
    else if s[0] == '\r' && s[1] == '\n' then 0
    else
      var i := FindCrlf(s[1..]);
      assert forall j :: 1 <= j <= i ==> (CrlfAt(s, j) <==> CrlfAt(s[1..], j - 1));
      1 + i
  }

  /** The pieces of `s` between the "\r\n" separators, scanning left to right. */
  function SplitCrlf(s: string): (lines: seq<string>)
    ensures |lines| >= 1
    decreases |s|
  {
    var i := FindCrlf(s);
    if i == |s| then [s] else [s[..i]] + SplitCrlf(s[i + 2..])
  }

  /** The pieces joined back together with "\r\n" between neighbours. */
  function JoinCrlf(lines: seq<string>): string {
    if lines == [] then ""
    else if |lines| == 1 then lines[0]
    else lines[0] + CRLF + JoinCrlf(lines[1..])
  }

  /** Joining the pieces of a split gives back the original string. */
  lemma {:induction false} JoinSplitCrlf(s: string)
    ensures JoinCrlf(SplitCrlf(s)) == s
    decreases |s|
  {
    var i := FindCrlf(s);
    if i < |s| {
      var rest := s[i + 2..];
      JoinSplitCrlf(rest);
      SplitCrlfStep(s);
      JoinCrlfCons(s[..i], SplitCrlf(rest));
      CutAtCrlf(s, i);
    }
  }

  /** Joining a first line onto at least one more puts a separator between them. */
  lemma JoinCrlfCons(line: string, lines: seq<string>)
    requires |lines| >= 1
    ensures JoinCrlf([line] + lines) == line + CRLF + JoinCrlf(lines)
  {
    assert ([line] + lines)[1..] == lines;
  }

  /** A string with "\r\n" at `i` is the text before it, the separator and the text after. */
  lemma CutAtCrlf(s: string, i: nat)
    requires CrlfAt(s, i)
    ensures s == s[..i] + CRLF + s[i + 2..]
  {
    assert s[i..i + 2] == CRLF;
    assert s == s[..i] + s[i..i + 2] + s[i + 2..];
  }

  /** A string without "\r\n" splits into itself alone. */
  lemma SplitCrlfSingle(s: string)
    requires NoCrlf(s)
    ensures SplitCrlf(s) == [s]
  {
  }

  /** The least index at which "\r\n" starts is the one `FindCrlf` gives. */
  lemma FindCrlfLeast(s: string, i: nat)
    requires CrlfAt(s, i)
    requires forall j :: 0 <= j < i ==> !CrlfAt(s, j)
    ensures FindCrlf(s) == i
  {
  }

  /** A separator found inside `a` is still the first one once text is appended. */
  lemma FindCrlfInPrefix(a: string, b: string)
    requires FindCrlf(a) < |a|
    ensures FindCrlf(a + b) == FindCrlf(a)
  {
    var x := a + b;
    var i := FindCrlf(a);
    forall j | 0 <= j < i ensures !CrlfAt(x, j) {
      assert !CrlfAt(a, j);
    }
    FindCrlfLeast(x, i);
  }

  /** When `a` has no separator, the first one in `a + "\r\n" + b` is the inserted one. */
  lemma FindCrlfAtSeparator(a: string, b: string)
    requires FindCrlf(a) == |a|
    ensures FindCrlf(a + CRLF + b) == |a|
  {
    var x := a + CRLF + b;
    forall j | 0 <= j < |a| ensures !CrlfAt(x, j) {
      if j + 1 < |a| {
        assert !CrlfAt(a, j);
      } else {
        assert x[j + 1] == '\r';
      }
    }
    FindCrlfLeast(x, |a|);
  }

  /** One step of the split: the piece before the first separator, then the rest. */
  lemma SplitCrlfStep(s: string)
    requires FindCrlf(s) < |s|
    ensures SplitCrlf(s) == [s[..FindCrlf(s)]] + SplitCrlf(s[FindCrlf(s) + 2..])
  {
  }

  /** No separator: the split has one piece. */
  lemma SplitCrlfNone(s: string)
    requires FindCrlf(s) == |s|
    ensures SplitCrlf(s) == [s]
  {
  }

  /** When `a` holds a separator, splitting `a + "\r\n" + b` starts with `a`'s first piece. */
  lemma SplitCrlfAppendStep(a: string, b: string)
    requires FindCrlf(a) < |a|
    ensures var i := FindCrlf(a);
      SplitCrlf(a + CRLF + b) == [a[..i]] + SplitCrlf(a[i + 2..] + CRLF + b)
  {
    var x := a + CRLF + b;
    var i := FindCrlf(a);
    assert x == a + (CRLF + b);
    FindCrlfInPrefix(a, CRLF + b);
    assert x[..i] == a[..i];
    assert x[i + 2..] == a[i + 2..] + CRLF + b;
    SplitCrlfStep(x);
  }

  /** When `a` holds no separator, `a` is the first piece of `a + "\r\n" + b`. */
  lemma SplitCrlfAppendBase(a: string, b: string)
    requires FindCrlf(a) == |a|
    ensures SplitCrlf(a + CRLF + b) == SplitCrlf(a) + SplitCrlf(b)
  {
    var x := a + CRLF + b;
    FindCrlfAtSeparator(a, b);
    SplitCrlfStep(x);
    SplitCrlfNone(a);
    assert x[..|a|] == a;
    assert x[|a| + 2..] == b;
  }

  lemma ConcatAssociative<T>(x: seq<T>, y: seq<T>, z: seq<T>)
    ensures x + (y + z) == (x + y) + z
  {
  }

  /**
   * Splitting around one separator is splitting each side: no "\r\n" can
   * straddle the separator that is put in.
   */
  lemma {:induction false} SplitCrlfAppend(a: string, b: string)
    ensures SplitCrlf(a + CRLF + b) == SplitCrlf(a) + SplitCrlf(b)
    decreases |a|
  {
    var i := FindCrlf(a);
    if i == |a| {
      SplitCrlfAppendBase(a, b);
    } else {
      var rest := a[i + 2..];
      SplitCrlfAppendStep(a, b);
      SplitCrlfStep(a);
      SplitCrlfAppend(rest, b);
      ConcatAssociative([a[..i]], SplitCrlf(rest), SplitCrlf(b));
    }
  }

  /** Splitting a join of separator-free pieces gives back the pieces. */
  lemma {:induction false} SplitJoinCrlf(lines: seq<string>)
    requires |lines| >= 1
    requires forall l :: l in lines ==> NoCrlf(l)
    ensures SplitCrlf(JoinCrlf(lines)) == lines
  {
    if |lines| == 1 {
      SplitCrlfSingle(lines[0]);
    } else {
      assert lines[0] in lines;
      SplitJoinCrlf(lines[1..]);
      SplitCrlfAppend(lines[0], JoinCrlf(lines[1..]));
      SplitCrlfSingle(lines[0]);
      assert lines == [lines[0]] + lines[1..];
    }
  }

  /** Joining one more line appends a separator and that line. */
  lemma {:induction false} JoinCrlfSnoc(lines: seq<string>, line: string)
    requires |lines| >= 1
    ensures JoinCrlf(lines + [line]) == JoinCrlf(lines) + CRLF + line
  {
    var all := lines + [line];
    if |lines| == 1 {
      assert all[1..] == [line];
    } else {
      assert all[1..] == lines[1..] + [line];
      JoinCrlfSnoc(lines[1..], line);
      ConcatAssociative(lines[0] + CRLF, JoinCrlf(lines[1..]) + CRLF, line);
    }
  }

  /** No carriage return, no "\r\n". */
  lemma NoCrlfWithoutCarriageReturn(s: string)
    requires '\r' !in s
    ensures NoCrlf(s)
  {
  }

  /**
   * The lines of a message made of a first line, further lines, an empty
   * line and a body: the body's own lines come after the empty one.
   */
  lemma SplitCrlfMessage(line: string, fields: seq<string>, body: string)
    requires NoCrlf(line)
    requires forall f :: f in fields ==> NoCrlf(f)
    ensures SplitCrlf(JoinCrlf([line] + fields) + CRLF + CRLF + body)
         == ([line] + fields) + ([""] + SplitCrlf(body))
  {
    var head := JoinCrlf([line] + fields);
    assert head + CRLF + CRLF + body == head + CRLF + ("" + CRLF + body);
    SplitCrlfAppend(head, "" + CRLF + body);
    SplitCrlfAppend("", body);
    assert SplitCrlf("") == [""];
    SplitJoinCrlf([line] + fields);
  }

  // ---------------------------------------------------------------------------
  // str::split_whitespace
  // ---------------------------------------------------------------------------

  /** The length of the longest prefix of `s` without whitespace. */
  function WordLength(s: string): (n: nat)
    ensures n <= |s|
    ensures NoWhitespace(s[..n])
    ensures n == |s| || IsWhitespace(s[n])
  {
    if s == [] || IsWhitespace(s[0]) then 0
    else
      var n := WordLength(s[1..]);
      assert s[..n + 1] == [s[0]] + s[1..][..n];
      1 + n
  }

  /** The maximal runs of non-whitespace characters of `s`, in order. */
  function Tokens(s: string): (ts: seq<string>)
    ensures forall t :: t in ts ==> t != "" && NoWhitespace(t)
    decreases |s|
  {
    if s == [] then []
    else if IsWhitespace(s[0]) then Tokens(s[1..])
    else
      var n := WordLength(s);
      [s[..n]] + Tokens(s[n..])
  }

  /** Leading whitespace produces no token. */
  lemma {:induction false} TokensSkipWhitespace(w: string, rest: string)
    requires AllWhitespace(w)
    ensures Tokens(w + rest) == Tokens(rest)
    decreases |w|
  {
    if w == [] {
      assert w + rest == rest;
    } else {
      assert (w + rest)[0] == w[0] && IsWhitespace(w[0]);
      assert (w + rest)[1..] == w[1..] + rest;
      TokensSkipWhitespace(w[1..], rest);
    }
  }

  /** A word followed by whitespace (or by nothing) is the first token. */
  lemma TokensWord(word: string, rest: string)
    requires word != "" && NoWhitespace(word)
    requires rest == "" || IsWhitespace(rest[0])
    ensures Tokens(word + rest) == [word] + Tokens(rest)
  {
    var s := word + rest;
    assert s[0] == word[0];
    assert forall i :: 0 <= i < |word| ==> s[i] == word[i];
    assert |word| == |s| || s[|word|] == rest[0];
    assert WordLength(s) == |word|;
    assert s[..|word|] == word && s[|word|..] == rest;
  }

  lemma ThreeWordsRegrouped(a: string, b: string, c: string)
    ensures a + " " + b + " " + c == a + (" " + (b + (" " + c)))
  {
  }

  /** A space, then a word followed by whitespace (or by nothing): the word is the first token. */
  lemma TokensSpaceWord(word: string, rest: string)
    requires word != "" && NoWhitespace(word)
    requires rest == "" || IsWhitespace(rest[0])
    ensures Tokens(" " + (word + rest)) == [word] + Tokens(rest)
  {
    TokensSkipWhitespace(" ", word + rest);
    TokensWord(word, rest);
  }

  /** Three words separated by single spaces split into exactly those words. */
  lemma TokensOfThreeWords(a: string, b: string, c: string)
    requires a != "" && NoWhitespace(a)
    requires b != "" && NoWhitespace(b)
    requires c != "" && NoWhitespace(c)
    ensures Tokens(a + " " + b + " " + c) == [a, b, c]
  {
    var tailC := " " + (c + "");
    var tailB := " " + (b + tailC);
    TokensSpaceWord(c, "");
    assert Tokens(tailC) == [c];
    TokensSpaceWord(b, tailC);
    assert Tokens(tailB) == [b, c];
    TokensWord(a, tailB);
    assert c + "" == c;
    ThreeWordsRegrouped(a, b, c);
  }

  // ---------------------------------------------------------------------------
  // str::trim
  // ---------------------------------------------------------------------------

  /** The number of whitespace characters at the start of `s`. */
  function LeadingWhitespace(s: string): (n: nat)
    ensures n <= |s|
    ensures forall i :: 0 <= i < n ==> IsWhitespace(s[i])
    ensures n == |s| || !IsWhitespace(s[n])
  {
    if s == [] || !IsWhitespace(s[0]) then 0
    else 1 + LeadingWhitespace(s[1..])
  }

  /** The number of whitespace characters at the end of `s`. */
  function TrailingWhitespace(s: string): (n: nat)
    ensures n <= |s|
    ensures forall i :: |s| - n <= i < |s| ==> IsWhitespace(s[i])
    ensures n == |s| || !IsWhitespace(s[|s| - 1 - n])
  {
    if s == [] || !IsWhitespace(s[|s| - 1]) then 0
    else 1 + TrailingWhitespace(s[..|s| - 1])
  }

  /** Neither the first nor the last character is whitespace. */
  predicate IsTrimmed(t: string) {
    t == "" || (!IsWhitespace(t[0]) && !IsWhitespace(t[|t| - 1]))
  }

  /** `s` with leading and trailing whitespace removed. */
  function Trim(s: string): (t: string)
    ensures IsTrimmed(t)
  {
    var a := LeadingWhitespace(s);
    var rest := s[a..];
    var b := TrailingWhitespace(rest);
    var t := rest[..|rest| - b];
    assert t != "" ==> t[0] == s[a] && t[|t| - 1] == rest[|rest| - 1 - b];
    t
  }

  /**
   * Trimming only drops whitespace, and only from the two ends: every string
   * is some whitespace, its trimmed form, and some more whitespace.
   */
  lemma TrimDropsOnlyWhitespace(s: string)
    ensures exists w1, w2 :: AllWhitespace(w1) && AllWhitespace(w2) && s == w1 + Trim(s) + w2
  {
    var a := LeadingWhitespace(s);
    var rest := s[a..];
    var b := TrailingWhitespace(rest);
    var t := rest[..|rest| - b];
    assert Trim(s) == t;
    LeadingIsWhitespace(s, a);
    TrailingIsWhitespace(s, a, b);
    CutInThree(s, a, b);
  }

  /** A string is its first `a` characters, its middle and its last `b` characters. */
  lemma CutInThree(s: string, a: nat, b: nat)
    requires a + b <= |s|
    ensures s == s[..a] + s[a..][..|s| - a - b] + s[|s| - b..]
  {
    assert s[a..] == s[a..][..|s| - a - b] + s[|s| - b..];
  }

  lemma LeadingIsWhitespace(s: string, a: nat)
    requires a <= |s| && forall i :: 0 <= i < a ==> IsWhitespace(s[i])
    ensures AllWhitespace(s[..a])
  {
    var head := s[..a];
    forall i | 0 <= i < |head| ensures IsWhitespace(head[i]) {
      assert head[i] == s[i];
    }
  }

  lemma TrailingIsWhitespace(s: string, a: nat, b: nat)
    requires a <= |s| && b <= |s| - a
    requires forall i :: |s[a..]| - b <= i < |s[a..]| ==> IsWhitespace(s[a..][i])
    ensures AllWhitespace(s[|s| - b..])
  {
    var rest := s[a..];
    var tail := s[|s| - b..];
    forall i | 0 <= i < |tail| ensures IsWhitespace(tail[i]) {
      assert tail[i] == rest[|rest| - b + i];
    }
  }

  /** The leading-whitespace count is determined by its defining property. */
  lemma LeadingWhitespaceIs(s: string, n: nat)
    requires n <= |s|
    requires forall i :: 0 <= i < n ==> IsWhitespace(s[i])
    requires n == |s| || !IsWhitespace(s[n])
    ensures LeadingWhitespace(s) == n
  {
  }

  /** The trailing-whitespace count is determined by its defining property. */
  lemma TrailingWhitespaceIs(s: string, n: nat)
    requires n <= |s|
    requires forall i :: |s| - n <= i < |s| ==> IsWhitespace(s[i])
    requires n == |s| || !IsWhitespace(s[|s| - 1 - n])
    ensures TrailingWhitespace(s) == n
  {
  }

  /** Trimming removes exactly the surrounding whitespace. */
  lemma TrimSurrounded(w1: string, t: string, w2: string)
    requires AllWhitespace(w1) && AllWhitespace(w2) && IsTrimmed(t)
    ensures Trim(w1 + t + w2) == t
  {
    var s := w1 + t + w2;
    if t == "" {
      assert s == w1 + w2;
      forall k | 0 <= k < |s| ensures IsWhitespace(s[k]) {
        if k < |w1| { assert s[k] == w1[k]; } else { assert s[k] == w2[k - |w1|]; }
      }
      LeadingWhitespaceIs(s, |s|);
      assert s[|s|..] == "";
    } else {
      forall k | 0 <= k < |w1| ensures IsWhitespace(s[k]) {
        assert s[k] == w1[k];
      }
      assert s[|w1|] == t[0];
      LeadingWhitespaceIs(s, |w1|);
      var rest := s[|w1|..];
      assert rest == t + w2;
      forall k | |rest| - |w2| <= k < |rest| ensures IsWhitespace(rest[k]) {
        assert rest[k] == w2[k - |t|];
      }
      assert rest[|rest| - 1 - |w2|] == t[|t| - 1];
      TrailingWhitespaceIs(rest, |w2|);
      assert rest[..|rest| - |w2|] == t;
    }
  }

  // ---------------------------------------------------------------------------
  // str::to_lowercase, restricted to ASCII letters
  // ---------------------------------------------------------------------------

  predicate IsLowercase(s: string) {
    forall i :: 0 <= i < |s| ==> !('A' <= s[i] <= 'Z')
  }

  function LowerChar(c: char): char {
    if 'A' <= c <= 'Z' then (c as int + 32) as char else c
  }

  /** `s` with every ASCII capital replaced by its small letter. */
  function ToLower(s: string): (r: string)
    ensures |r| == |s| && IsLowercase(r)
    ensures forall i :: 0 <= i < |s| ==>
              if 'A' <= s[i] <= 'Z' then r[i] as int == s[i] as int + 32 else r[i] == s[i]
  {
    seq(|s|, i requires 0 <= i < |s| => LowerChar(s[i]))
  }

  /** Lowercasing keeps a trimmed string trimmed: letters are never whitespace. */
  lemma ToLowerKeepsTrimmed(s: string)
    requires IsTrimmed(s)
    ensures IsTrimmed(ToLower(s))
  {
  }

  // ---------------------------------------------------------------------------
  // Decimal rendering of an unsigned integer (`Display` for u16 and usize)
  // ---------------------------------------------------------------------------

  predicate IsDigit(c: char) {
    '0' <= c <= '9'
  }

  predicate AllDigits(s: string) {
    forall i :: 0 <= i < |s| ==> IsDigit(s[i])
  }

  /** The number a string of decimal digits stands for. */
  function DigitsValue(s: string): nat
    requires AllDigits(s)
  {
    if s == [] then 0
    else DigitsValue(s[..|s| - 1]) * 10 + (s[|s| - 1] as int - '0' as int)
  }

  /** Reading a decimal numeral back, as `str::parse::<usize>` does for plain digits. */
  function ParseDecimal(s: string): Option<nat> {
    if s != "" && AllDigits(s) then Some(DigitsValue(s)) else None
  }

  /** The shortest decimal numeral of `n`: it reads back as `n` and has no leading zero. */
  function Decimal(n: nat): (s: string)
    ensures s != "" && AllDigits(s)
    ensures DigitsValue(s) == n
    ensures |s| > 1 ==> s[0] != '0'
  {
    var digit := ('0' as int + n % 10) as char;
    if n < 10 then [digit]
    else
      var prefix := Decimal(n / 10);
      assert (prefix + [digit])[..|prefix|] == prefix;
      prefix + [digit]
  }

  /** Rendering and reading back are inverse. */
  lemma DecimalRoundTrip(n: nat)
    ensures ParseDecimal(Decimal(n)) == Some(n)
  {
  }

  // ---------------------------------------------------------------------------
  // str::len: the UTF-8 encoded length in bytes
  // ---------------------------------------------------------------------------

  predicate IsAscii(s: string) {
    forall i :: 0 <= i < |s| ==> s[i] as int < 0x80
  }

  /** The number of bytes UTF-8 uses for one scalar value. */
  function Utf8Width(c: char): nat {
    var n := c as int;
    if n < 0x80 then 1 else if n < 0x800 then 2 else if n < 0x1_0000 then 3 else 4
  }

  /** The UTF-8 byte length of `s`: between one and four bytes per character, one for ASCII. */
  function Utf8Length(s: string): (n: nat)
    ensures |s| <= n <= 4 * |s|
    ensures IsAscii(s) ==> n == |s|
  {
    if s == [] then 0 else Utf8Length(s[..|s| - 1]) + Utf8Width(s[|s| - 1])
  }
}
