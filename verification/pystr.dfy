/** The Python `str` operations the backend relies on, over `string`, a
    sequence of Unicode scalar values: a Python `str` is a sequence of code
    points, which may also include lone surrogates that a `char` cannot
    hold. */
module PyStr {

  /** Python's `str.isspace()`: the Unicode white-space characters plus the
      information separators U+001C..U+001F. */
  predicate IsSpace(c: char) {
    || c == ' '
    || ('\t' <= c <= '\r')
    || ('\U{1C}' <= c <= '\U{1F}')
    || c == '\U{85}' || c == '\U{A0}' || c == '\U{1680}'
    || ('\U{2000}' <= c <= '\U{200A}')
    || c == '\U{2028}' || c == '\U{2029}' || c == '\U{202F}'
    || c == '\U{205F}' || c == '\U{3000}'
  }

  /** `pat` occurs in `s` starting at index `i`. */
  predicate OccursAt(s: string, pat: string, i: int) {
    0 <= i && i + |pat| <= |s| && s[i..i + |pat|] == pat
  }

  /** `pat` occurs nowhere in `s`. */
  predicate Absent(s: string, pat: string) {
    forall i :: 0 <= i <= |s| ==> !OccursAt(s, pat, i)
  }

  /** A one-character pattern occurs exactly where that character stands. */
  lemma OccursAtChar(s: string, c: char)
    ensures forall i :: OccursAt(s, [c], i) <==> 0 <= i < |s| && s[i] == c
  {
    forall i | 0 <= i < |s|
      ensures OccursAt(s, [c], i) <==> s[i] == c
    {
      assert s[i..i + 1] == [s[i]];
    }
  }

  /** Python's `s.find(pat)`: the lowest index at which `pat` occurs, or -1. */
  function Find(s: string, pat: string): (r: int)
    ensures -1 <= r <= |s|
    ensures r >= 0 ==> OccursAt(s, pat, r)
    ensures forall j :: 0 <= j < r ==> !OccursAt(s, pat, j)
    ensures r == -1 ==> Absent(s, pat)
  {
    FindFrom(s, pat, 0)
  }

  /** The lowest index at or after `i` at which `pat` occurs, or -1. */
  function FindFrom(s: string, pat: string, i: nat): (r: int)
    requires i <= |s|
    ensures r == -1 || (i <= r <= |s| && OccursAt(s, pat, r))
    ensures forall j :: i <= j < r ==> !OccursAt(s, pat, j)
    ensures r == -1 ==> forall j :: i <= j ==> !OccursAt(s, pat, j)
    decreases |s| - i
  {
    if OccursAt(s, pat, i) then i
    else if i == |s| then -1
    else FindFrom(s, pat, i + 1)
  }

  /** Python's `s.rfind(pat)`: the highest index at which `pat` occurs, or -1. */
  function RFind(s: string, pat: string): (r: int)
    ensures r == -1 || OccursAt(s, pat, r)
    ensures forall j :: r < j ==> !OccursAt(s, pat, j)
  {
    RFindBefore(s, pat, |s| + 1)
  }

  /** The highest index below `n` at which `pat` occurs, or -1. */
  function RFindBefore(s: string, pat: string, n: nat): (r: int)
    ensures r == -1 || (0 <= r < n && OccursAt(s, pat, r))
    ensures forall j :: r < j < n ==> !OccursAt(s, pat, j)
    decreases n
  {
    if n == 0 then -1
    else if OccursAt(s, pat, n - 1) then n - 1
    else RFindBefore(s, pat, n - 1)
  }

  /** Python's slice `s[:n]`, including a negative `n` counted from the end. */
  function Prefix<T>(s: seq<T>, n: int): (r: seq<T>)
    ensures r <= s
    ensures n >= 0 ==> |r| == (if n < |s| then n else |s|)
    ensures n < 0 ==> |r| == (if |s| + n > 0 then |s| + n else 0)
  {
    if n >= 0 then (if n < |s| then s[..n] else s)
    else if |s| + n > 0 then s[..|s| + n]
    else []
  }

  /** Python's `s.lstrip(chars)`: drops the leading characters found in `chars`. */
  function LStripChars(s: string, chars: set<char>): (r: string)
    ensures |r| <= |s| && r == s[|s| - |r|..]
    ensures forall i :: 0 <= i < |s| - |r| ==> s[i] in chars
    ensures |r| > 0 ==> r[0] !in chars
    decreases |s|
  {
    if |s| > 0 && s[0] in chars then LStripChars(s[1..], chars) else s
  }

  /** Python's `s.lstrip()`: drops leading white space. */
  function LStrip(s: string): (r: string)
    ensures |r| <= |s| && r == s[|s| - |r|..]
    ensures forall i :: 0 <= i < |s| - |r| ==> IsSpace(s[i])
    ensures |r| > 0 ==> !IsSpace(r[0])
    decreases |s|
  {
    if |s| > 0 && IsSpace(s[0]) then LStrip(s[1..]) else s
  }

  /** Python's `s.rstrip()`: drops trailing white space. */
  function RStrip(s: string): (r: string)
    ensures |r| <= |s| && r == s[..|r|]
    ensures forall i :: |r| <= i < |s| ==> IsSpace(s[i])
    ensures |r| > 0 ==> !IsSpace(r[|r| - 1])
    decreases |s|
  {
    if |s| > 0 && IsSpace(s[|s| - 1]) then RStrip(s[..|s| - 1]) else s
  }

  /** Python's `s.strip()`. */
  function Strip(s: string): string {
    RStrip(LStrip(s))
  }

  /** Text that is all white space strips to nothing. */
  lemma StripOfBlankStart(s: string)
    ensures LStrip(s) == "" ==> Strip(s) == ""
  {
  }

  /** Python's `c.lower()` restricted to ASCII: only `A`..`Z` change. */
  function LowerChar(c: char): char {
    if 'A' <= c <= 'Z' then (c as int + 32) as char else c
  }

  /** Python's `s.lower()` restricted to ASCII. */
  function LowerAscii(s: string): (r: string)
    ensures |r| == |s|
    ensures forall i :: 0 <= i < |s| ==> r[i] == LowerChar(s[i])
    ensures forall i :: 0 <= i < |r| ==> !('A' <= r[i] <= 'Z')
  {
    seq(|s|, i requires 0 <= i < |s| => LowerChar(s[i]))
  }

  /** Lower-casing twice is lower-casing once. */
  lemma LowerAsciiIdempotent(s: string)
    ensures LowerAscii(LowerAscii(s)) == LowerAscii(s)
  {
  }

  /** Python's `s.replace(a, b)` for one-character `a` and `b`. */
  function ReplaceChar(s: string, a: char, b: char): (r: string)
    ensures |r| == |s|
    ensures forall i :: 0 <= i < |s| ==> r[i] == (if s[i] == a then b else s[i])
    ensures a != b ==> a !in r
    ensures a !in s ==> r == s
  {
    seq(|s|, i requires 0 <= i < |s| => if s[i] == a then b else s[i])
  }

  /** Python's `s.replace(a, rep)` for a one-character `a`. */
  function ReplaceWith(s: string, a: char, rep: string): (r: string)
    ensures a !in s ==> r == s
    ensures a !in rep ==> a !in r
    decreases |s|
  {
    if |s| == 0 then ""
    else (if s[0] == a then rep else [s[0]]) + ReplaceWith(s[1..], a, rep)
  }

  /** A single character is replaced by `rep` exactly when it is `a`. */
  lemma ReplaceWithChar(c: char, a: char, rep: string)
    ensures ReplaceWith([c], a, rep) == if c == a then rep else [c]
  {
    assert [c][1..] == "";
  }

  /** Replacing works piece by piece: with `ReplaceWithChar` this fixes the
      result for every text. */
  lemma {:induction false} ReplaceWithConcat(s: string, t: string, a: char, rep: string)
    ensures ReplaceWith(s + t, a, rep) == ReplaceWith(s, a, rep) + ReplaceWith(t, a, rep)
    decreases |s|
  {
    if |s| == 0 {
      assert s + t == t;
    } else {
      assert (s + t)[0] == s[0];
      assert (s + t)[1..] == s[1..] + t;
      ReplaceWithConcat(s[1..], t, a, rep);
    }
  }

  /** What reading a file in text mode (`open(path)` with the default
      `newline=None`) returns for the text it holds: every `\r\n` and every
      lone `\r` becomes `\n`. */
  function ReadText(s: string): (r: string)
    ensures '\r' !in r
    ensures |r| <= |s|
    decreases |s|
  {
    if |s| == 0 then ""
    else if s[0] == '\r' then "\n" + ReadText(if |s| > 1 && s[1] == '\n' then s[2..] else s[1..])
    else [s[0]] + ReadText(s[1..])
  }

  /** Text without `\r` reads back exactly as written. */
  lemma {:induction false} ReadTextWithoutReturn(s: string)
    requires '\r' !in s
    ensures ReadText(s) == s
    decreases |s|
  {
    if |s| > 0 {
      assert s[0] in s;
      assert forall c :: c in s[1..] ==> c in s;
      ReadTextWithoutReturn(s[1..]);
      assert s == [s[0]] + s[1..];
    }
  }

  /** The units of the translation: `\r\n` and a lone `\r` each read as
      `\n`, and every other character reads as itself. */
  lemma ReadTextUnits(c: char)
    ensures ReadText("\r\n") == "\n" && ReadText("\r") == "\n"
    ensures c != '\r' ==> ReadText([c]) == [c]
  {
    assert "\r\n"[2..] == "";
    assert "\r"[1..] == "";
    assert [c][1..] == "";
  }

  /** Reading works piece by piece wherever the cut does not split a
      `\r\n`: with `ReadTextUnits` this fixes the result for every text. */
  lemma {:induction false} ReadTextConcat(x: string, y: string)
    requires |x| == 0 || x[|x| - 1] != '\r' || |y| == 0 || y[0] != '\n'
    ensures ReadText(x + y) == ReadText(x) + ReadText(y)
    decreases |x|
  {
    var s := x + y;
    if |x| == 0 {
      assert s == y;
    } else if x[0] == '\r' && |x| > 1 && x[1] == '\n' {
      assert s[0] == '\r' && s[1] == '\n' && s[2..] == x[2..] + y;
      assert ReadText(s) == "\n" + ReadText(s[2..]);
      assert ReadText(x) == "\n" + ReadText(x[2..]);
      ReadTextConcat(x[2..], y);
      ConcatAssoc("\n", ReadText(x[2..]), ReadText(y));
    } else if x[0] == '\r' && |x| == 1 {
      assert s[0] == '\r' && s[1..] == y;
      assert ReadText(s) == "\n" + ReadText(y);
      assert ReadText(x) == "\n";
    } else if x[0] == '\r' {
      assert s[0] == '\r' && s[1] == x[1] && x[1] != '\n' && s[1..] == x[1..] + y;
      assert ReadText(s) == "\n" + ReadText(s[1..]);
      assert ReadText(x) == "\n" + ReadText(x[1..]);
      ReadTextConcat(x[1..], y);
      ConcatAssoc("\n", ReadText(x[1..]), ReadText(y));
    } else {
      assert s[0] == x[0] && s[1..] == x[1..] + y;
      assert ReadText(s) == [x[0]] + ReadText(s[1..]);
      assert ReadText(x) == [x[0]] + ReadText(x[1..]);
      ReadTextConcat(x[1..], y);
      ConcatAssoc([x[0]], ReadText(x[1..]), ReadText(y));
    }
  }

  /** Joining is associative. */
  lemma ConcatAssoc<T>(a: seq<T>, b: seq<T>, c: seq<T>)
    ensures a + (b + c) == a + b + c
  {
  }

  /** Python's `s.split(sep)` for a one-character separator: the pieces
      between consecutive separators, always at least one. */
  function Split(s: string, sep: char): (parts: seq<string>)
    ensures |parts| >= 1
    ensures forall k :: 0 <= k < |parts| ==> sep !in parts[k]
    decreases |s|
  {
    OccursAtChar(s, sep);
    var i := Find(s, [sep]);
    if i < 0 then [s] else [s[..i]] + Split(s[i + 1..], sep)
  }

  /** Splitting text free of the separator yields the text itself. */
  lemma SplitWithout(s: string, sep: char)
    requires sep !in s
    ensures Split(s, sep) == [s]
  {
    OccursAtChar(s, sep);
  }

  /** Splitting stops at the first separator and continues after it. */
  lemma SplitAtFirst(a: string, sep: char, b: string)
    requires sep !in a
    ensures Split(a + [sep] + b, sep) == [a] + Split(b, sep)
  {
    var s := a + [sep] + b;
    OccursAtChar(s, sep);
    assert s[|a|] == sep;
    assert Find(s, [sep]) == |a|;
    assert s[..|a|] == a;
    assert s[|a| + 1..] == b;
  }

  /** No occurrence of `c` below `n` means `c` is not in `s[..n]`. */
  lemma NoneBefore(s: string, c: char, n: nat)
    requires n <= |s|
    requires forall j :: 0 <= j < n ==> !OccursAt(s, [c], j)
    ensures c !in s[..n]
  {
    OccursAtChar(s, c);
  }

  /** No occurrence of `c` at or after `n` means `c` is not in `s[n..]`. */
  lemma NoneAfter(s: string, c: char, n: nat)
    requires n <= |s|
    requires forall j :: n <= j ==> !OccursAt(s, [c], j)
    ensures c !in s[n..]
  {
    OccursAtChar(s, c);
    forall i | 0 <= i < |s| - n ensures s[n..][i] != c {
      assert !OccursAt(s, [c], n + i);
    }
  }

  /** A pattern made of characters missing from `s` does not occur in it. */
  lemma AbsentWithoutChar(s: string, p: string)
    requires |p| > 0 && p[0] !in s
    ensures Absent(s, p)
  {
    forall i | 0 <= i <= |s| ensures !OccursAt(s, p, i) {
      if i + |p| <= |s| {
        assert s[i..i + |p|][0] == s[i] != p[0];
      }
    }
  }

  /** A pattern absent from both halves is absent from the whole when one
      character at the seam is foreign to the pattern. */
  lemma AbsentConcat(a: string, b: string, p: string)
    requires Absent(a, p) && Absent(b, p)
    requires |a| == 0 || |b| == 0 || a[|a| - 1] !in p || b[0] !in p
    ensures Absent(a + b, p)
  {
    var s := a + b;
    forall i | 0 <= i <= |s| ensures !OccursAt(s, p, i) {
      if i + |p| <= |a| {
        assert s[i..i + |p|] == a[i..i + |p|];
        assert !OccursAt(a, p, i);
      } else if i >= |a| {
        if i + |p| <= |s| {
          assert s[i..i + |p|] == b[i - |a|..i - |a| + |p|];
        }
        assert !OccursAt(b, p, i - |a|);
      } else if i + |p| <= |s| {
        var w := s[i..i + |p|];
        assert w[|a| - 1 - i] == a[|a| - 1] && w[|a| - i] == b[0];
        assert w[|a| - 1 - i] !in p || w[|a| - i] !in p;
      }
    }
  }

  /** A pattern absent from `s` is absent from every suffix of it. */
  lemma AbsentSuffix(s: string, k: nat, p: string)
    requires Absent(s, p) && k <= |s|
    ensures Absent(s[k..], p)
  {
    forall i | 0 <= i <= |s| - k ensures !OccursAt(s[k..], p, i) {
      if i + |p| <= |s| - k {
        assert s[k..][i..i + |p|] == s[k + i..k + i + |p|];
      }
      assert !OccursAt(s, p, k + i);
    }
  }

  /** The first occurrence is right after a prefix that does not contain the
      pattern and does not end in one of its characters. */
  lemma FindAfter(a: string, b: string, p: string)
    requires Absent(a, p) && OccursAt(b, p, 0)
    requires |a| == 0 || a[|a| - 1] !in p
    ensures Find(a + b, p) == |a|
  {
    var s := a + b;
    assert s[|a|..|a| + |p|] == b[..|p|];
    assert OccursAt(s, p, |a|);
    forall j | 0 <= j < |a| ensures !OccursAt(s, p, j) {
      if j + |p| <= |a| {
        assert s[j..j + |p|] == a[j..j + |p|];
        assert !OccursAt(a, p, j);
      } else if j + |p| <= |s| {
        assert s[j..j + |p|][|a| - 1 - j] == a[|a| - 1];
      }
    }
  }

  /** Leading white space is dropped entirely. */
  lemma {:induction false} LStripSpaces(w: string, x: string)
    requires forall i :: 0 <= i < |w| ==> IsSpace(w[i])
    ensures LStrip(w + x) == LStrip(x)
    decreases |w|
  {
    if |w| > 0 {
      assert (w + x)[1..] == w[1..] + x;
      LStripSpaces(w[1..], x);
    } else {
      assert w + x == x;
    }
  }

  /** Text after something that is not all white space is kept. */
  lemma {:induction false} LStripKeeps(x: string, y: string)
    requires LStrip(x) != ""
    ensures LStrip(x + y) == LStrip(x) + y
    decreases |x|
  {
    if IsSpace(x[0]) {
      assert (x + y)[1..] == x[1..] + y;
      LStripKeeps(x[1..], y);
    }
  }

  /** Trailing white space is dropped entirely. */
  lemma {:induction false} RStripSpaces(x: string, w: string)
    requires forall i :: 0 <= i < |w| ==> IsSpace(w[i])
    ensures RStrip(x + w) == RStrip(x)
    decreases |w|
  {
    if |w| > 0 {
      assert (x + w)[..|x + w| - 1] == x + w[..|w| - 1];
      RStripSpaces(x, w[..|w| - 1]);
    } else {
      assert x + w == x;
    }
  }

  /** Text before something that is not all white space is kept. */
  lemma {:induction false} RStripKeeps(x: string, y: string)
    requires RStrip(y) != ""
    ensures RStrip(x + y) == x + RStrip(y)
    decreases |y|
  {
    if IsSpace(y[|y| - 1]) {
      assert (x + y)[..|x + y| - 1] == x + y[..|y| - 1];
      RStripKeeps(x, y[..|y| - 1]);
    }
  }

  /** Leading characters from the stripped set are dropped entirely. */
  lemma {:induction false} LStripCharsDrops(w: string, x: string, chars: set<char>)
    requires forall i :: 0 <= i < |w| ==> w[i] in chars
    ensures LStripChars(w + x, chars) == LStripChars(x, chars)
    decreases |w|
  {
    if |w| > 0 {
      assert (w + x)[1..] == w[1..] + x;
      LStripCharsDrops(w[1..], x, chars);
    } else {
      assert w + x == x;
    }
  }

  /** Python's ordering of strings: lexicographic by code point, a proper
      prefix coming first. */
  predicate LexLe(a: string, b: string)
    decreases |a|
  {
    |a| == 0 || (|b| > 0 && (a[0] < b[0] || (a[0] == b[0] && LexLe(a[1..], b[1..]))))
  }

  lemma {:induction false} LexLeTotal(a: string, b: string)
    ensures LexLe(a, b) || LexLe(b, a)
    decreases |a|
  {
    if |a| > 0 && |b| > 0 && a[0] == b[0] {
      LexLeTotal(a[1..], b[1..]);
    }
  }

  lemma {:induction false} LexLeTransitive(a: string, b: string, c: string)
    requires LexLe(a, b) && LexLe(b, c)
    ensures LexLe(a, c)
    decreases |a|
  {
    if |a| > 0 && a[0] == b[0] && b[0] == c[0] {
      LexLeTransitive(a[1..], b[1..], c[1..]);
    }
  }

  lemma {:induction false} LexLeAntisymmetric(a: string, b: string)
    requires LexLe(a, b) && LexLe(b, a)
    ensures a == b
    decreases |a|
  {
    if |a| > 0 {
      LexLeAntisymmetric(a[1..], b[1..]);
      assert a == [a[0]] + a[1..];
      assert b == [b[0]] + b[1..];
    }
  }
}
