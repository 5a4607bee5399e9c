/** The java.lang.String operations the core relies on, written out over `seq<char>`:
    `trim()`, `split("\\s+")` after a trim, `split(",")`, `String.valueOf(int)`,
    `Integer.parseInt` and the `LIKE '%x%'` containment test. */
module Text {
  import opened Wrappers

  // ---------------------------------------------------------------------------
  // String.trim(): removes every leading and trailing character at or below U+0020.
  // ---------------------------------------------------------------------------

  predicate IsTrimmed(c: char) { c <= ' ' }

  function TrimLeft(s: string): string
    decreases |s|
  {
    if s != [] && IsTrimmed(s[0]) then TrimLeft(s[1..]) else s
  }

  function TrimRight(s: string): string
    decreases |s|
  {
    if s != [] && IsTrimmed(s[|s| - 1]) then TrimRight(s[..|s| - 1]) else s
  }

  function Trim(s: string): string
  {
    TrimRight(TrimLeft(s))
  }

  /** `s.trim().isEmpty()` */
  predicate IsBlank(s: string)
  {
    Trim(s) == []
  }

  lemma {:induction false} TrimLeftShape(s: string)
    ensures var t := TrimLeft(s);
      && exists k :: 0 <= k <= |s| && t == s[k..] && forall j :: 0 <= j < k ==> IsTrimmed(s[j])
    ensures TrimLeft(s) != [] ==> !IsTrimmed(TrimLeft(s)[0])
    decreases |s|
  {
    if s != [] && IsTrimmed(s[0]) {
      TrimLeftShape(s[1..]);
      var k :| 0 <= k <= |s[1..]| && TrimLeft(s[1..]) == s[1..][k..] && forall j :: 0 <= j < k ==> IsTrimmed(s[1..][j]);
      assert TrimLeft(s) == s[k + 1..];
      assert forall j :: 0 <= j < k + 1 ==> IsTrimmed(s[j]) by {
        forall j | 0 <= j < k + 1 ensures IsTrimmed(s[j]) {
          if j > 0 { assert s[j] == s[1..][j - 1]; }
        }
      }
    } else {
      assert TrimLeft(s) == s[0..];
    }
  }

  lemma {:induction false} TrimRightShape(s: string)
    ensures var t := TrimRight(s);
      && exists k :: 0 <= k <= |s| && t == s[..k] && forall j :: k <= j < |s| ==> IsTrimmed(s[j])
    ensures TrimRight(s) != [] ==> !IsTrimmed(TrimRight(s)[|TrimRight(s)| - 1])
    decreases |s|
  {
    if s != [] && IsTrimmed(s[|s| - 1]) {
      var p := s[..|s| - 1];
      TrimRightShape(p);
      var k :| 0 <= k <= |p| && TrimRight(p) == p[..k] && forall j :: k <= j < |p| ==> IsTrimmed(p[j]);
      assert TrimRight(s) == s[..k];
    } else {
      assert TrimRight(s) == s[..|s|];
    }
  }

  /** A string that starts and ends with a character above U+0020 is its own trim. */
  lemma {:induction false} TrimOfClean(s: string)
    requires s != [] && !IsTrimmed(s[0]) && !IsTrimmed(s[|s| - 1])
    ensures Trim(s) == s
  {
    assert TrimLeft(s) == s;
    assert TrimRight(s) == s;
  }

  /** Trimming removes one trailing blank from a clean string, and nothing else. */
  lemma {:induction false} TrimOfCleanPlusSpace(s: string)
    requires s != [] && !IsTrimmed(s[0]) && !IsTrimmed(s[|s| - 1])
    ensures Trim(s + " ") == s
  {
    var t := s + " ";
    assert TrimLeft(t) == t;
    assert t[..|t| - 1] == s;
    assert TrimRight(t) == TrimRight(s);
    TrimOfClean(s);
  }

  // ---------------------------------------------------------------------------
  // Word splitting: `text.trim().split("\\s+")`. The regular expression class \s is
  // [ \t\n\x0B\f\r]; every one of those is also removed by trim(), but trim() removes
  // more (every control character), so a token may still hold other control characters.
  // ---------------------------------------------------------------------------

  predicate IsRegexSpace(c: char)
  {
    c as int in {9, 10, 11, 12, 13, 32}
  }

  /** Number of leading characters of `s` that are not \s. */
  function WordLength(s: string): (n: nat)
    ensures n <= |s|
    ensures forall j :: 0 <= j < n ==> !IsRegexSpace(s[j])
    ensures n < |s| ==> IsRegexSpace(s[n])
    decreases |s|
  {
    if s == [] || IsRegexSpace(s[0]) then 0 else 1 + WordLength(s[1..])
  }

  /** The maximal runs of non-\s characters of `s`, in order. */
  function Tokens(s: string): seq<string>
    decreases |s|
  {
    if s == [] then []
    else if IsRegexSpace(s[0]) then Tokens(s[1..])
    else
      var n := WordLength(s);
      [s[..n]] + Tokens(s[n..])
  }

  /** What `text.trim().split("\\s+")` returns. Splitting the empty string yields
      one empty token; otherwise the trimmed text neither starts nor ends with \s,
      so the pieces are exactly its maximal non-\s runs. */
  function Words(text: string): seq<string>
  {
    var t := Trim(text);
    if t == [] then [""] else Tokens(t)
  }

  /** `Student.countWords`: the number of pieces `split` returns. */
  function CountWords(text: string): (n: nat)
    ensures n >= 1
  {
    WordsNonEmpty(text);
    |Words(text)|
  }

  lemma WordsNonEmpty(text: string)
    ensures |Words(text)| >= 1
  {
    var t := Trim(text);
    if t != [] {
      TrimLeftShape(text);
      TrimRightShape(TrimLeft(text));
      assert t == TrimRight(TrimLeft(text));
      var k :| 0 <= k <= |TrimLeft(text)| && t == TrimLeft(text)[..k];
      assert t[0] == TrimLeft(text)[0];
      assert !IsRegexSpace(t[0]);
    }
  }

  /** Each token `w` followed by one blank: what the StringBuilder loop of
      `trimToMaxWords` accumulates. */
  function Spaced(ws: seq<string>): string
  {
    if ws == [] then [] else ws[0] + " " + Spaced(ws[1..])
  }

  lemma {:induction false} SpacedSnoc(ws: seq<string>, w: string)
    ensures Spaced(ws + [w]) == Spaced(ws) + w + " "
  {
    if ws == [] {
      assert ws + [w] == [w];
      assert Spaced([w]) == w + " " + Spaced([]);
    } else {
      assert (ws + [w])[0] == ws[0];
      assert (ws + [w])[1..] == ws[1..] + [w];
      SpacedSnoc(ws[1..], w);
    }
  }

  /** Tokens joined by single blanks. */
  function JoinWords(ws: seq<string>): string
    requires ws != []
  {
    if |ws| == 1 then ws[0] else ws[0] + " " + JoinWords(ws[1..])
  }

  lemma {:induction false} SpacedIsJoinPlusBlank(ws: seq<string>)
    requires ws != []
    ensures Spaced(ws) == JoinWords(ws) + " "
  {
    if |ws| == 1 {
      assert Spaced(ws) == ws[0] + " " + Spaced([]);
    } else {
      SpacedIsJoinPlusBlank(ws[1..]);
    }
  }

  /** A word that `Tokens` can return: non-empty, no \s in it. */
  predicate IsToken(w: string)
  {
    w != [] && forall j :: 0 <= j < |w| ==> !IsRegexSpace(w[j])
  }

  /** A token with no character at or below U+0020, which trim() could strip. */
  predicate IsPlainToken(w: string)
  {
    w != [] && forall j :: 0 <= j < |w| ==> !IsTrimmed(w[j])
  }

  lemma {:induction false} WordLengthOfTokenPrefix(w: string, rest: string)
    requires IsToken(w)
    requires rest == [] || IsRegexSpace(rest[0])
    ensures WordLength(w + rest) == |w|
    decreases |w|
  {
    var s := w + rest;
    if |w| == 1 {
      assert s[1..] == rest;
    } else {
      assert s[1..] == w[1..] + rest;
      WordLengthOfTokenPrefix(w[1..], rest);
    }
  }

  /** Splitting single-blank-joined tokens on \s gives the tokens back. */
  lemma {:induction false} TokensOfJoin(ws: seq<string>)
    requires ws != []
    requires forall i :: 0 <= i < |ws| ==> IsToken(ws[i])
    ensures Tokens(JoinWords(ws)) == ws
  {
    var s := JoinWords(ws);
    var w := ws[0];
    if |ws| == 1 {
      WordLengthOfTokenPrefix(w, []);
      assert w + [] == w;
      assert s[|w|..] == [];
    } else {
      var tail := JoinWords(ws[1..]);
      assert s == w + (" " + tail);
      WordLengthOfTokenPrefix(w, " " + tail);
      assert s[..|w|] == w;
      assert s[|w|..] == " " + tail;
      assert Tokens(" " + tail) == Tokens(tail) by {
        assert (" " + tail)[1..] == tail;
      }
      TokensOfJoin(ws[1..]);
    }
  }

  /** Every piece `Tokens` returns is a token. */
  lemma {:induction false} TokensAreTokens(s: string)
    ensures forall i :: 0 <= i < |Tokens(s)| ==> IsToken(Tokens(s)[i])
    decreases |s|
  {
    if s != [] {
      if IsRegexSpace(s[0]) {
        TokensAreTokens(s[1..]);
      } else {
        var n := WordLength(s);
        TokensAreTokens(s[n..]);
        assert IsToken(s[..n]);
      }
    }
  }

  /** The word length is where the first \s stands. */
  lemma WordLengthIs(s: string, n: nat)
    requires n <= |s|
    requires forall j :: 0 <= j < n ==> !IsRegexSpace(s[j])
    requires n < |s| ==> IsRegexSpace(s[n])
    ensures WordLength(s) == n
  {
    var m := WordLength(s);
    assert m < |s| ==> IsRegexSpace(s[m]);
  }

  /** Cutting off the end of a string never adds a piece. */
  lemma {:induction false} TokensOfPrefix(s: string, j: nat)
    requires j <= |s|
    ensures |Tokens(s[..j])| <= |Tokens(s)|
    decreases |s|
  {
    if j > 0 {
      var p := s[..j];
      if IsRegexSpace(s[0]) {
        assert p[1..] == s[1..][..j - 1];
        TokensOfPrefix(s[1..], j - 1);
      } else {
        var n := WordLength(s);
        if j <= n {
          WordLengthIs(p, j);
          assert p[j..] == [];
        } else {
          WordLengthIs(p, n);
          assert p[n..] == s[n..][..j - n];
          TokensOfPrefix(s[n..], j - n);
        }
      }
    }
  }

  /** Cutting off the start of a string never adds a piece. */
  lemma {:induction false} TokensOfSuffix(s: string, i: nat)
    requires i <= |s|
    ensures |Tokens(s[i..])| <= |Tokens(s)|
    decreases |s|
  {
    if i > 0 {
      if IsRegexSpace(s[0]) {
        assert s[i..] == s[1..][i - 1..];
        TokensOfSuffix(s[1..], i - 1);
      } else {
        var n := WordLength(s);
        if n <= i {
          assert s[i..] == s[n..][i - n..];
          TokensOfSuffix(s[n..], i - n);
        } else {
          var q := s[i..];
          WordLengthIs(q, n - i);
          assert q[n - i..] == s[n..];
        }
      }
    }
  }

  lemma {:induction false} TokensOfTrimLeft(s: string)
    ensures |Tokens(TrimLeft(s))| <= |Tokens(s)|
    decreases |s|
  {
    if s != [] && IsTrimmed(s[0]) {
      TokensOfTrimLeft(s[1..]);
      TokensOfSuffix(s, 1);
    }
  }

  lemma {:induction false} TokensOfTrimRight(s: string)
    ensures |Tokens(TrimRight(s))| <= |Tokens(s)|
    decreases |s|
  {
    if s != [] && IsTrimmed(s[|s| - 1]) {
      TokensOfTrimRight(s[..|s| - 1]);
      TokensOfPrefix(s, |s| - 1);
    }
  }

  /** trim() never adds a piece. */
  lemma TokensOfTrim(s: string)
    ensures |Tokens(Trim(s))| <= |Tokens(s)|
  {
    TokensOfTrimLeft(s);
    TokensOfTrimRight(TrimLeft(s));
  }

  /** Splitting tokens that each carry a trailing blank gives the tokens back. */
  lemma {:induction false} TokensOfSpaced(ws: seq<string>)
    requires forall i :: 0 <= i < |ws| ==> IsToken(ws[i])
    ensures Tokens(Spaced(ws)) == ws
  {
    if ws != [] {
      var s := Spaced(ws);
      var rest := Spaced(ws[1..]);
      assert s == ws[0] + (" " + rest);
      WordLengthOfTokenPrefix(ws[0], " " + rest);
      assert s[..|ws[0]|] == ws[0];
      assert s[|ws[0]|..] == " " + rest;
      assert Tokens(" " + rest) == Tokens(rest) by {
        assert (" " + rest)[1..] == rest;
      }
      TokensOfSpaced(ws[1..]);
      assert ws == [ws[0]] + ws[1..];
    }
  }

  /** Re-splitting the first `k` words of a text gives at most `k` words, whatever
      characters the words hold. */
  lemma FirstWordsBound(text: string, k: nat)
    requires 1 <= k <= |Words(text)|
    ensures CountWords(FirstWords(text, k)) <= k
  {
    var ws := Words(text)[..k];
    var t := Trim(text);
    if t == [] {
      assert |Words(text)| == 1 && ws == [""];
      assert Spaced(ws) == " ";
      assert TrimLeft(" ") == TrimLeft(" "[1..]);
      assert " "[1..] == [];
      assert FirstWords(text, k) == [];
      assert Trim([]) == [];
    } else {
      TokensAreTokens(t);
      TokensOfSpaced(ws);
      TokensOfTrim(Spaced(ws));
      TokensOfTrim(Trim(Spaced(ws)));
    }
  }

  lemma {:induction false} JoinWordsEnds(ws: seq<string>)
    requires ws != [] && ws[0] != [] && ws[|ws| - 1] != []
    requires forall i :: 0 <= i < |ws| ==> IsPlainToken(ws[i])
    ensures var s := JoinWords(ws); s != [] && s[0] == ws[0][0] && s[|s| - 1] == ws[|ws| - 1][|ws[|ws| - 1]| - 1]
  {
    if |ws| > 1 {
      assert IsPlainToken(ws[1]);
      JoinWordsEnds(ws[1..]);
      var tail := JoinWords(ws[1..]);
      assert JoinWords(ws) == ws[0] + " " + tail;
    }
  }

  /** The first `k` words of `text` re-joined by single blanks, as `trimToMaxWords`
      builds them: each word and a blank, then one trim() over the whole. */
  function FirstWords(text: string, k: nat): string
    requires k <= |Words(text)|
  {
    Trim(Spaced(Words(text)[..k]))
  }

  /** Re-splitting the first `k` words gives exactly those `k` words back, provided
      none of them holds a control character that trim() would strip. */
  lemma {:induction false} FirstWordsAreKept(text: string, k: nat)
    requires 1 <= k <= |Words(text)|
    requires forall i :: 0 <= i < k ==> IsPlainToken(Words(text)[i])
    ensures FirstWords(text, k) == JoinWords(Words(text)[..k])
    ensures Words(FirstWords(text, k)) == Words(text)[..k]
    ensures CountWords(FirstWords(text, k)) == k
  {
    var ws := Words(text)[..k];
    assert forall i :: 0 <= i < |ws| ==> IsPlainToken(ws[i]);
    forall i | 0 <= i < |ws| ensures IsToken(ws[i]) {
      var w := ws[i];
      forall j | 0 <= j < |w| ensures !IsRegexSpace(w[j]) {
        assert !IsTrimmed(w[j]);
      }
    }
    SpacedIsJoinPlusBlank(ws);
    assert IsPlainToken(ws[0]) && IsPlainToken(ws[|ws| - 1]);
    JoinWordsEnds(ws);
    var joined := JoinWords(ws);
    TrimOfCleanPlusSpace(joined);
    assert FirstWords(text, k) == joined;
    TrimOfClean(joined);
    TokensOfJoin(ws);
  }

  // ---------------------------------------------------------------------------
  // Substring containment: the model of `column LIKE '%x%'` for a pattern without
  // the LIKE wildcards `%` and `_`.
  // ---------------------------------------------------------------------------

  predicate Contains(s: string, part: string)
    decreases |s|
  {
    part <= s || (s != [] && Contains(s[1..], part))
  }

  // ---------------------------------------------------------------------------
  // `line.split(",")`: the comma-separated fields, with trailing empty fields
  // dropped; a line without a comma is returned whole (even when empty).
  // ---------------------------------------------------------------------------

  /** Index of the first comma of `s`, or |s|. */
  function CommaIndex(s: string): (i: nat)
    ensures i <= |s|
    ensures forall j :: 0 <= j < i ==> s[j] != ','
    ensures i < |s| ==> s[i] == ','
    decreases |s|
  {
    if s == [] || s[0] == ',' then 0 else 1 + CommaIndex(s[1..])
  }

  /** Every comma-separated field of `s`, empty ones included. */
  function Fields(s: string): (fs: seq<string>)
    ensures |fs| >= 1
    decreases |s|
  {
    var i := CommaIndex(s);
    if i == |s| then [s] else [s[..i]] + Fields(s[i + 1..])
  }

  function DropTrailingEmpty(fs: seq<string>): seq<string>
    decreases |fs|
  {
    if fs != [] && fs[|fs| - 1] == [] then DropTrailingEmpty(fs[..|fs| - 1]) else fs
  }

  function SplitOnComma(s: string): seq<string>
  {
    if ',' !in s then [s] else DropTrailingEmpty(Fields(s))
  }

  predicate CommaFree(s: string) { ',' !in s }

  /** Fields joined by single commas. */
  function JoinFields(fs: seq<string>): string
    requires fs != []
  {
    if |fs| == 1 then fs[0] else fs[0] + "," + JoinFields(fs[1..])
  }

  lemma {:induction false} CommaIndexOfFree(s: string, rest: string)
    requires CommaFree(s)
    requires rest == [] || rest[0] == ','
    ensures CommaIndex(s + rest) == |s|
    decreases |s|
  {
    if s != [] {
      assert (s + rest)[1..] == s[1..] + rest;
      CommaIndexOfFree(s[1..], rest);
    } else {
      assert s + rest == rest;
    }
  }

  lemma {:induction false} FieldsOfJoin(fs: seq<string>)
    requires fs != []
    requires forall i :: 0 <= i < |fs| ==> CommaFree(fs[i])
    ensures Fields(JoinFields(fs)) == fs
  {
    var s := JoinFields(fs);
    if |fs| == 1 {
      CommaIndexOfFree(fs[0], []);
      assert fs[0] + [] == fs[0];
    } else {
      var tail := JoinFields(fs[1..]);
      assert s == fs[0] + ("," + tail);
      CommaIndexOfFree(fs[0], "," + tail);
      assert s[..|fs[0]|] == fs[0];
      assert s[|fs[0]| + 1..] == tail;
      FieldsOfJoin(fs[1..]);
    }
  }

  lemma {:induction false} JoinHasComma(fs: seq<string>)
    requires |fs| >= 2
    ensures ',' in JoinFields(fs)
  {
    var s := JoinFields(fs);
    assert s == fs[0] + "," + JoinFields(fs[1..]);
    assert s[|fs[0]|] == ',';
  }

  /** Dropping trailing empty fields never adds one, and drops the last when it is empty. */
  lemma {:induction false} DropTrailingEmptyShrinks(fs: seq<string>)
    ensures |DropTrailingEmpty(fs)| <= |fs|
    ensures fs != [] && fs[|fs| - 1] == [] ==> |DropTrailingEmpty(fs)| < |fs|
    decreases |fs|
  {
    if fs != [] && fs[|fs| - 1] == [] {
      DropTrailingEmptyShrinks(fs[..|fs| - 1]);
    }
  }

  /** `split(",")` undoes the comma join when no field holds a comma and the last
      field is not empty (Java drops trailing empty fields). */
  lemma SplitOfJoin(fs: seq<string>)
    requires |fs| >= 2
    requires forall i :: 0 <= i < |fs| ==> CommaFree(fs[i])
    requires fs[|fs| - 1] != []
    ensures SplitOnComma(JoinFields(fs)) == fs
  {
    JoinHasComma(fs);
    FieldsOfJoin(fs);
  }

  // ---------------------------------------------------------------------------
  // Decimal numbers: `String.valueOf(int)` and `Integer.parseInt` (ASCII digits).
  // ---------------------------------------------------------------------------

  const IntMin: int := -0x8000_0000
  const IntMax: int := 0x7FFF_FFFF

  predicate IsInt32(n: int) { IntMin <= n <= IntMax }

  predicate IsDigit(c: char) { '0' <= c <= '9' }

  function DigitChar(d: nat): (c: char)
    requires d < 10
    ensures IsDigit(c) && c as int - '0' as int == d
  {
    ('0' as int + d) as char
  }

  function NatToString(n: nat): (s: string)
    ensures s != []
    ensures forall j :: 0 <= j < |s| ==> IsDigit(s[j])
  {
    if n < 10 then [DigitChar(n)] else NatToString(n / 10) + [DigitChar(n % 10)]
  }

  function IntToString(n: int): string
  {
    if n < 0 then "-" + NatToString(-n) else NatToString(n)
  }

  function DigitsValue(s: string): nat
    requires forall j :: 0 <= j < |s| ==> IsDigit(s[j])
  {
    if s == [] then 0
    else
      assert IsDigit(s[|s| - 1]);
      DigitsValue(s[..|s| - 1]) * 10 + (s[|s| - 1] as int - '0' as int)
  }

  lemma {:induction false} DigitsValueOfNat(n: nat)
    ensures DigitsValue(NatToString(n)) == n
  {
    var s := NatToString(n);
    if n >= 10 {
      DigitsValueOfNat(n / 10);
      assert s[..|s| - 1] == NatToString(n / 10);
    }
  }

  /** `Integer.parseInt`: an optional sign, then one or more digits, in 32-bit range. */
  function ParseInt(s: string): Option<int>
  {
    if s == [] then None
    else
      var signed := s[0] == '-' || s[0] == '+';
      var digits := if signed then s[1..] else s;
      if digits == [] || exists j | 0 <= j < |digits| :: !IsDigit(digits[j]) then None
      else
        var v: int := if s[0] == '-' then -(DigitsValue(digits) as int) else DigitsValue(digits);
        if IsInt32(v) then Some(v) else None
  }

  lemma IntToStringCommaFree(n: int)
    ensures CommaFree(IntToString(n))
  {
    var d := NatToString(if n < 0 then -n else n);
    assert forall j :: 0 <= j < |d| ==> d[j] != ',';
    if n < 0 {
      assert IntToString(n) == "-" + d;
      assert forall j :: 0 <= j < |"-" + d| ==> ("-" + d)[j] != ',' by {
        forall j | 0 <= j < |"-" + d| ensures ("-" + d)[j] != ',' {
          if j > 0 { assert ("-" + d)[j] == d[j - 1]; }
        }
      }
    }
  }

  /** Parsing undoes printing for every 32-bit int. */
  lemma {:induction false} ParseIntOfIntToString(n: int)
    requires IsInt32(n)
    ensures ParseInt(IntToString(n)) == Some(n)
  {
    var s := IntToString(n);
    if n < 0 {
      var d := NatToString(-n);
      DigitsValueOfNat(-n);
      assert s[1..] == d;
    } else {
      DigitsValueOfNat(n);
      assert IsDigit(s[0]);
    }
  }
}
