/**
 * String primitives the three scripts rely on, stated the way Python's `str`
 * behaves: decimal rendering of non-negative integers, zero padding (`{:04d}`),
 * left and right justification (`{:<7}`, `{:>4}`), `sep.join`, `s.split(sep)`,
 * `s.split()` on whitespace and `s.upper()`.
 */
module Text {

  // ---------------------------------------------------------------------------
  // Decimal digits
  // ---------------------------------------------------------------------------

  predicate IsDigit(c: char) {
    '0' <= c <= '9'
  }

  predicate AllDigits(s: string) {
    forall i :: 0 <= i < |s| ==> IsDigit(s[i])
  }

  function DigitChar(d: nat): (c: char)
    requires d < 10
    ensures IsDigit(c)
  {
    ('0' as int + d) as char
  }

  function DigitValue(c: char): (d: nat)
    requires IsDigit(c)
    ensures d < 10
  {
    c as int - '0' as int
  }

  function Pow10(k: nat): (p: nat)
    ensures p >= 1
  {
    if k == 0 then 1 else 10 * Pow10(k - 1)
  }

  /** The decimal rendering of `n`, as Python's `str(n)` / `f"{n:d}"` writes it. */
  function Digits(n: nat): (s: string)
    ensures |s| >= 1 && AllDigits(s)
    decreases n
  {
    if n < 10 then [DigitChar(n)] else Digits(n / 10) + [DigitChar(n % 10)]
  }

  /** The number a digit string denotes, as Python's `int(s)` reads it. */
  function Value(s: string): nat
    requires AllDigits(s)
  {
    if s == [] then 0 else Value(s[..|s| - 1]) * 10 + DigitValue(s[|s| - 1])
  }

  /** Reading back a rendered number gives the number. */
  lemma {:induction false} ValueOfDigits(n: nat)
    ensures Value(Digits(n)) == n
    decreases n
  {
    var s := Digits(n);
    if n >= 10 {
      ValueOfDigits(n / 10);
      assert s[..|s| - 1] == Digits(n / 10);
      assert DigitValue(s[|s| - 1]) == n % 10;
    }
  }

  /** A number below 10^k needs at most k digits; one of at least 10^(k-1) needs at least k. */
  lemma {:induction false} DigitsLength(n: nat, k: nat)
    requires k >= 1
    ensures n < Pow10(k) ==> |Digits(n)| <= k
    ensures n >= Pow10(k - 1) ==> |Digits(n)| >= k
    decreases n
  {
    if n >= 10 {
      if k >= 2 {
        DigitsLength(n / 10, k - 1);
      }
    } else if k >= 2 {
      assert Pow10(k - 1) >= 10 by { Pow10Grows(k - 1); }
    }
  }

  lemma {:induction false} Pow10Grows(k: nat)
    requires k >= 1
    ensures Pow10(k) >= 10
  {
    if k > 1 {
      Pow10Grows(k - 1);
    }
  }

  /** The value of a concatenation of two digit strings. */
  lemma {:induction false} ValueConcat(a: string, b: string)
    requires AllDigits(a) && AllDigits(b)
    ensures AllDigits(a + b)
    ensures Value(a + b) == Value(a) * Pow10(|b|) + Value(b)
    decreases |b|
  {
    var ab := a + b;
    if b == [] {
      assert ab == a;
    } else {
      var b' := b[..|b| - 1];
      var d := DigitValue(b[|b| - 1]);
      assert ab[..|ab| - 1] == a + b';
      ValueConcat(a, b');
      assert Value(ab) == Value(a + b') * 10 + d;
      assert Value(b) == Value(b') * 10 + d;
      assert Pow10(|b|) == 10 * Pow10(|b'|);
      Distribute(Value(a), Pow10(|b'|), Value(b'), d);
    }
  }

  lemma Distribute(x: int, p: int, y: int, d: int)
    ensures (x * p + y) * 10 + d == x * (10 * p) + (y * 10 + d)
  {
  }

  // ---------------------------------------------------------------------------
  // Padding and justification
  // ---------------------------------------------------------------------------

  function Repeat(c: char, n: nat): (s: string)
    ensures |s| == n && forall i :: 0 <= i < n ==> s[i] == c
  {
    if n == 0 then [] else [c] + Repeat(c, n - 1)
  }

  function Spaces(n: nat): (s: string)
    ensures |s| == n && forall i :: 0 <= i < n ==> s[i] == ' '
  {
    Repeat(' ', n)
  }

  function Max(a: nat, b: nat): nat {
    if a < b then b else a
  }

  /** `f"{n:0Wd}"` for a non-negative `n`: the digits, with zeros added in front up to width `w`. */
  function ZeroPad(s: string, w: nat): (r: string)
    ensures |r| == Max(|s|, w)
    ensures r[|r| - |s|..] == s
    ensures forall i :: 0 <= i < |r| - |s| ==> r[i] == '0'
  {
    if |s| < w then Repeat('0', w - |s|) + s else s
  }

  /** Leading zeros do not change the value of a digit string. */
  lemma ValueZeroPad(s: string, w: nat)
    requires AllDigits(s)
    ensures AllDigits(ZeroPad(s, w)) && Value(ZeroPad(s, w)) == Value(s)
  {
    if |s| < w {
      var z := Repeat('0', w - |s|);
      ValueOfZeros(w - |s|);
      ValueConcat(z, s);
    }
  }

  lemma {:induction false} ValueOfZeros(n: nat)
    ensures AllDigits(Repeat('0', n)) && Value(Repeat('0', n)) == 0
  {
    if n > 0 {
      ValueOfZeros(n - 1);
      assert Repeat('0', n)[..n - 1] == Repeat('0', n - 1);
    }
  }

  /** `f"{s:<w}"`: `s` followed by spaces up to width `w`; never truncated. */
  function LJust(s: string, w: nat): (r: string)
    ensures |r| == Max(|s|, w)
    ensures r[..|s|] == s
    ensures forall i :: |s| <= i < |r| ==> r[i] == ' '
  {
    if |s| < w then s + Spaces(w - |s|) else s
  }

  /** `f"{s:>w}"`: spaces up to width `w` followed by `s`; never truncated. */
  function RJust(s: string, w: nat): (r: string)
    ensures |r| == Max(|s|, w)
    ensures r[|r| - |s|..] == s
    ensures forall i :: 0 <= i < |r| - |s| ==> r[i] == ' '
  {
    if |s| < w then Spaces(w - |s|) + s else s
  }

  // ---------------------------------------------------------------------------
  // Joining and splitting on a separator character
  // ---------------------------------------------------------------------------

  /** `sep.join(parts)`: the parts with one separator between neighbours and none at the end. */
  function Join(parts: seq<string>, sep: char): string {
    if |parts| == 0 then ""
    else if |parts| == 1 then parts[0]
    else parts[0] + [sep] + Join(parts[1..], sep)
  }

  /** `s.split(sep)`: the maximal separator-free pieces, empty ones included. */
  function Split(s: string, sep: char): (parts: seq<string>)
    ensures |parts| >= 1
    decreases |s|
  {
    if s == [] then [""]
    else
      var rest := Split(s[1..], sep);
      if s[0] == sep then [""] + rest else [[s[0]] + rest[0]] + rest[1..]
  }

  lemma {:induction false} SplitPrefix(p: string, t: string, sep: char)
    requires sep !in p
    ensures Split(p + t, sep) == [p + Split(t, sep)[0]] + Split(t, sep)[1..]
    decreases |p|
  {
    var st := Split(t, sep);
    if p != [] {
      assert (p + t)[1..] == p[1..] + t;
      SplitPrefix(p[1..], t, sep);
      assert [p[0]] + (p[1..] + st[0]) == p + st[0];
    } else {
      assert p + t == t;
      assert st == [st[0]] + st[1..];
      assert p + st[0] == st[0];
    }
  }

  /** Splitting a joined text on its separator gives back the parts, when no part holds the separator. */
  lemma {:induction false} SplitJoin(parts: seq<string>, sep: char)
    requires |parts| >= 1
    requires forall i :: 0 <= i < |parts| ==> sep !in parts[i]
    ensures Split(Join(parts, sep), sep) == parts
    decreases |parts|
  {
    if |parts| == 1 {
      SplitPrefix(parts[0], "", sep);
      assert parts[0] + "" == parts[0];
    } else {
      var rest := Join(parts[1..], sep);
      assert Join(parts, sep) == parts[0] + ([sep] + rest);
      SplitPrefix(parts[0], [sep] + rest, sep);
      assert ([sep] + rest)[1..] == rest;
      SplitJoin(parts[1..], sep);
      assert Split([sep] + rest, sep) == [""] + parts[1..];
      assert parts[0] + "" == parts[0];
    }
  }

  /** The number of occurrences of `c` in `s`. */
  function Count(s: string, c: char): nat {
    if s == [] then 0 else (if s[0] == c then 1 else 0) + Count(s[1..], c)
  }

  lemma {:induction false} CountConcat(a: string, b: string, c: char)
    ensures Count(a + b, c) == Count(a, c) + Count(b, c)
    decreases |a|
  {
    if a == [] {
      assert a + b == b;
    } else {
      assert (a + b)[1..] == a[1..] + b;
      CountConcat(a[1..], b, c);
    }
  }

  lemma {:induction false} CountAbsent(s: string, c: char)
    requires c !in s
    ensures Count(s, c) == 0
    decreases |s|
  {
    if s != [] {
      CountAbsent(s[1..], c);
    }
  }

  /** Joining n separator-free parts puts exactly n - 1 separators in the text. */
  lemma {:induction false} CountJoin(parts: seq<string>, sep: char)
    requires |parts| >= 1
    requires forall i :: 0 <= i < |parts| ==> sep !in parts[i]
    ensures Count(Join(parts, sep), sep) == |parts| - 1
    decreases |parts|
  {
    CountAbsent(parts[0], sep);
    if |parts| > 1 {
      CountJoin(parts[1..], sep);
      CountConcat(parts[0] + [sep], Join(parts[1..], sep), sep);
      CountConcat(parts[0], [sep], sep);
    }
  }

  // ---------------------------------------------------------------------------
  // Whitespace words: Python's `s.split()` with no argument
  // ---------------------------------------------------------------------------

  /** The characters `str.isspace` accepts, which `s.split()` separates on. */
  predicate IsSpace(c: char) {
    || c == ' ' || c == '\t' || c == '\n' || c == '\r' || c == '\U{000B}' || c == '\U{000C}'
    || ('\U{001C}' <= c <= '\U{001F}') || c == '\U{0085}' || c == '\U{00A0}' || c == '\U{1680}'
    || ('\U{2000}' <= c <= '\U{200A}') || c == '\U{2028}' || c == '\U{2029}' || c == '\U{202F}'
    || c == '\U{205F}' || c == '\U{3000}'
  }

  predicate NoSpace(w: string) {
    forall i :: 0 <= i < |w| ==> !IsSpace(w[i])
  }

  /** The length of the run of non-space characters that starts `s`. */
  function WordLength(s: string): (n: nat)
    ensures n <= |s| && NoSpace(s[..n])
    ensures n < |s| ==> IsSpace(s[n])
  {
    if s == [] || IsSpace(s[0]) then 0
    else
      var m := WordLength(s[1..]);
      assert s[..m + 1] == [s[0]] + s[1..][..m];
      m + 1
  }

  /**
   * `s.split()`: the maximal runs of non-space characters, in order; leading,
   * trailing and repeated whitespace produce no empty words.
   */
  function Words(s: string): (ws: seq<string>)
    decreases |s|
  {
    if s == [] then []
    else if IsSpace(s[0]) then Words(s[1..])
    else
      var n := WordLength(s);
      [s[..n]] + Words(s[n..])
  }

  /** Every word is non-empty and free of whitespace. */
  lemma {:induction false} WordsWellFormed(s: string)
    ensures forall i :: 0 <= i < |Words(s)| ==> |Words(s)[i]| >= 1 && NoSpace(Words(s)[i])
    decreases |s|
  {
    if s != [] {
      if IsSpace(s[0]) {
        WordsWellFormed(s[1..]);
      } else {
        WordsWellFormed(s[WordLength(s)..]);
      }
    }
  }

  /** A text that starts with a non-space character has a first word, which starts with that character. */
  lemma WordsHead(s: string)
    requires s != [] && !IsSpace(s[0])
    ensures |Words(s)| >= 1 && Words(s)[0] == s[..WordLength(s)] && Words(s)[0][0] == s[0]
  {
  }

  lemma {:induction false} WordLengthOfWord(w: string, t: string)
    requires NoSpace(w)
    requires t == [] || IsSpace(t[0])
    ensures WordLength(w + t) == |w|
    decreases |w|
  {
    if w != [] {
      assert (w + t)[1..] == w[1..] + t;
      WordLengthOfWord(w[1..], t);
    } else {
      assert w + t == t;
    }
  }

  /** Splitting space-joined words gives back the words. */
  lemma {:induction false} WordsOfJoin(ws: seq<string>)
    requires forall i :: 0 <= i < |ws| ==> |ws[i]| >= 1 && NoSpace(ws[i])
    ensures Words(Join(ws, ' ')) == ws
    decreases |ws|
  {
    if |ws| == 1 {
      WordLengthOfWord(ws[0], "");
      assert ws[0] + "" == ws[0];
      assert ws[0][|ws[0]|..] == [];
    } else if |ws| > 1 {
      var w := ws[0];
      var rest := Join(ws[1..], ' ');
      var s := w + ([' '] + rest);
      assert Join(ws, ' ') == s;
      WordLengthOfWord(w, [' '] + rest);
      assert s[..|w|] == w;
      assert s[|w|..] == [' '] + rest;
      assert ([' '] + rest)[1..] == rest;
      WordsOfJoin(ws[1..]);
    }
  }

  lemma {:induction false} WordLengthExtend(a: string, b: string)
    requires WordLength(a) < |a|
    ensures WordLength(a + b) == WordLength(a)
  {
    var n := WordLength(a);
    WordLengthOfWord(a[..n], a[n..] + b);
    assert a[..n] + (a[n..] + b) == a + b;
  }

  /** Text that starts with whitespace (or is empty) adds its words after those of what precedes it. */
  lemma {:induction false} WordsConcat(a: string, b: string)
    requires b == [] || IsSpace(b[0])
    ensures Words(a + b) == Words(a) + Words(b)
    decreases |a|
  {
    if a == [] {
      assert a + b == b;
    } else if IsSpace(a[0]) {
      assert (a + b)[1..] == a[1..] + b;
      WordsConcat(a[1..], b);
    } else if WordLength(a) < |a| {
      var n := WordLength(a);
      WordsConcat(a[n..], b);
      WordsConcatSplit(a, b);
    } else {
      WordsConcatWhole(a, b);
    }
  }

  /** The step of `WordsConcat` where the first word of `a` ends inside `a`. */
  lemma WordsConcatSplit(a: string, b: string)
    requires a != [] && !IsSpace(a[0]) && WordLength(a) < |a|
    requires Words(a[WordLength(a)..] + b) == Words(a[WordLength(a)..]) + Words(b)
    ensures Words(a + b) == Words(a) + Words(b)
  {
    var n := WordLength(a);
    var ab := a + b;
    WordLengthExtend(a, b);
    assert ab[0] == a[0];
    assert ab[..n] == a[..n] && ab[n..] == a[n..] + b;
    assert Words(ab) == [a[..n]] + Words(a[n..] + b);
    assert Words(a) == [a[..n]] + Words(a[n..]);
  }

  /** The step of `WordsConcat` where `a` is a single word. */
  lemma WordsConcatWhole(a: string, b: string)
    requires a != [] && !IsSpace(a[0]) && WordLength(a) == |a|
    requires b == [] || IsSpace(b[0])
    ensures Words(a + b) == Words(a) + Words(b)
  {
    var n := WordLength(a);
    assert a[..n] == a;
    WordLengthOfWord(a, b);
    assert (a + b)[..n] == a && (a + b)[n..] == b;
    assert a[n..] == [];
  }

  /** Every character of every word is a character of the text. */
  lemma {:induction false} WordsChars(s: string)
    ensures forall i, j :: 0 <= i < |Words(s)| && 0 <= j < |Words(s)[i]| ==> Words(s)[i][j] in s
    decreases |s|
  {
    if s != [] {
      if IsSpace(s[0]) {
        WordsChars(s[1..]);
      } else {
        var n := WordLength(s);
        WordsChars(s[n..]);
        forall i, j | 0 <= i < |Words(s)| && 0 <= j < |Words(s)[i]| ensures Words(s)[i][j] in s {
          if i == 0 {
            assert Words(s)[0][j] == s[j];
          } else {
            assert Words(s)[i] == Words(s[n..])[i - 1];
            assert Words(s)[i][j] in s[n..];
          }
        }
      }
    }
  }

  /** Leading spaces produce no word. */
  lemma {:induction false} WordsAfterSpaces(n: nat, t: string)
    ensures Words(Spaces(n) + t) == Words(t)
    decreases n
  {
    if n > 0 {
      assert (Spaces(n) + t)[1..] == Spaces(n - 1) + t;
      WordsAfterSpaces(n - 1, t);
    } else {
      assert Spaces(n) + t == t;
    }
  }

  /** A word followed by whitespace (or by nothing) is the first word. */
  lemma WordThen(w: string, t: string)
    requires |w| >= 1 && NoSpace(w)
    requires t == [] || IsSpace(t[0])
    ensures Words(w + t) == [w] + Words(t)
  {
    WordLengthOfWord(w, t);
    assert (w + t)[..|w|] == w && (w + t)[|w|..] == t;
  }

  // ---------------------------------------------------------------------------
  // Upper case: Python's `s.upper()` on ASCII and Latin-1
  // ---------------------------------------------------------------------------

  /** The upper-case form of one character; '\U{00DF}' becomes "SS". */
  function UpperChar(c: char): (u: string)
    ensures c != '\U{00DF}' ==> |u| == 1
  {
    if 'a' <= c <= 'z' then [(c as int - 32) as char]
    else if '\U{00E0}' <= c <= '\U{00FE}' && c != '\U{00F7}' then [(c as int - 32) as char]
    else if c == '\U{00FF}' then ['\U{0178}']
    else if c == '\U{00B5}' then ['\U{039C}']
    else if c == '\U{00DF}' then "SS"
    else [c]
  }

  function Upper(s: string): string {
    if s == [] then "" else UpperChar(s[0]) + Upper(s[1..])
  }

  lemma {:induction false} UpperConcat(a: string, b: string)
    ensures Upper(a + b) == Upper(a) + Upper(b)
    decreases |a|
  {
    if a == [] {
      assert a + b == b;
    } else {
      assert (a + b)[1..] == a[1..] + b;
      UpperConcat(a[1..], b);
    }
  }

  /** Without a sharp s, upper-casing keeps the length. */
  lemma {:induction false} UpperLength(s: string)
    requires '\U{00DF}' !in s
    ensures |Upper(s)| == |s|
    decreases |s|
  {
    if s != [] {
      UpperLength(s[1..]);
    }
  }

  /** Upper-case letters, digits and other characters without a case are left unchanged. */
  lemma {:induction false} UpperFixed(s: string)
    requires forall i :: 0 <= i < |s| ==> ('A' <= s[i] <= 'Z' || IsDigit(s[i]) || s[i] == '_')
    ensures Upper(s) == s
    decreases |s|
  {
    if s != [] {
      UpperFixed(s[1..]);
    }
  }
}
