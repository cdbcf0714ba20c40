/** The few Python `str` operations the paper heuristics rely on: `isspace`,
    `strip`, `lower`, `find`, `rfind`, `startswith`, `split`, `join` and
    `str()` of a non-negative integer. */
module Strings {

  // ---------------------------------------------------------------------------
  // Whitespace and strip()
  // ---------------------------------------------------------------------------

  /** Python's `str.isspace` for a single character: the characters that
      `str.strip()` with no argument removes. */
  predicate IsWhitespace(c: char) {
    ('\t' <= c <= '\r') || ('\U{1C}' <= c <= ' ') || c == '\U{85}' || c == '\U{A0}'
    || c == '\U{1680}' || ('\U{2000}' <= c <= '\U{200A}') || c == '\U{2028}'
    || c == '\U{2029}' || c == '\U{202F}' || c == '\U{205F}' || c == '\U{3000}'
  }

  predicate AllWhitespace(s: string) {
    forall i :: 0 <= i < |s| ==> IsWhitespace(s[i])
  }

  /** Neither the first nor the last character is whitespace. */
  predicate IsTrimmed(s: string) {
    s == [] || (!IsWhitespace(s[0]) && !IsWhitespace(s[|s| - 1]))
  }

  /** Where the text of `s[..n]` ends once trailing whitespace is dropped:
      just past its last character that is not whitespace, or 0. */
  function TrimEnd(s: string, n: nat): (e: nat)
    requires n <= |s|
    ensures e <= n
    ensures forall i :: e <= i < n ==> IsWhitespace(s[i])
    ensures e == 0 || !IsWhitespace(s[e - 1])
  {
    if n == 0 || !IsWhitespace(s[n - 1]) then n else TrimEnd(s, n - 1)
  }

  /** Where the text of `s[b..e]` starts once leading whitespace is
      dropped: at its first character that is not whitespace, or at `e`. */
  function TrimStart(s: string, b: nat, e: nat): (m: nat)
    requires b <= e <= |s|
    ensures b <= m <= e
    ensures forall i :: b <= i < m ==> IsWhitespace(s[i])
    ensures m == e || !IsWhitespace(s[m])
    decreases e - b
  {
    if b == e || !IsWhitespace(s[b]) then b else TrimStart(s, b + 1, e)
  }

  /** `s.strip()`: the part of `s` between its leading and its trailing
      whitespace. It is trimmed, it is empty exactly when `s` is all
      whitespace, and a string that is already trimmed comes back as is. */
  function Strip(s: string): (r: string)
    ensures IsTrimmed(r)
    ensures |r| <= |s|
    ensures r == [] <==> AllWhitespace(s)
    ensures IsTrimmed(s) ==> r == s
  {
    var e := TrimEnd(s, |s|);
    var m := TrimStart(s, 0, e);
    s[m..e]
  }

  /** Any end that has only whitespace after it, up to `n`, and a character
      that is not whitespace just before it is the one `TrimEnd` finds. */
  lemma {:induction false} TrimEndUnique(s: string, n: nat, e: nat)
    requires e <= n <= |s|
    requires forall i :: e <= i < n ==> IsWhitespace(s[i])
    requires e == 0 || !IsWhitespace(s[e - 1])
    ensures TrimEnd(s, n) == e
    decreases n
  {
    if n > e {
      TrimEndUnique(s, n - 1, e);
    }
  }

  /** Any start that has only whitespace before it, from `b`, and a
      character that is not whitespace at it is the one `TrimStart` finds. */
  lemma {:induction false} TrimStartUnique(s: string, b: nat, e: nat, m: nat)
    requires b <= m <= e <= |s|
    requires forall i :: b <= i < m ==> IsWhitespace(s[i])
    requires m == e || !IsWhitespace(s[m])
    ensures TrimStart(s, b, e) == m
    decreases e - b
  {
    if b < m {
      TrimStartUnique(s, b + 1, e, m);
    }
  }

  /** Leading whitespace in front of a trimmed string is all that `strip()`
      removes. */
  lemma StripPrependWhitespace(w: string, x: string)
    requires AllWhitespace(w) && IsTrimmed(x)
    ensures Strip(w + x) == x
  {
    var y := w + x;
    if x != [] {
      assert y[|y| - 1] == x[|x| - 1];
      TrimEndUnique(y, |y|, |y|);
      assert y[|w|] == x[0];
      TrimStartUnique(y, 0, |y|, |w|);
      assert y[|w|..|y|] == x;
    } else {
      assert y == w;
    }
  }

  /** Trailing whitespace does not change what `strip()` returns. */
  lemma StripAppendWhitespace(x: string, w: string)
    requires AllWhitespace(w)
    ensures Strip(x + w) == Strip(x)
  {
    var y := x + w;
    var e := TrimEnd(x, |x|);
    forall i | e <= i < |y| ensures IsWhitespace(y[i]) {
      if i >= |x| {
        assert y[i] == w[i - |x|];
      }
    }
    assert e == 0 || y[e - 1] == x[e - 1];
    TrimEndUnique(y, |y|, e);
    var m := TrimStart(x, 0, e);
    assert m == e || y[m] == x[m];
    TrimStartUnique(y, 0, e, m);
    assert y[m..e] == x[m..e];
  }

  /** Stripping a string whose first `k` characters are not whitespace only
      removes trailing whitespace, and keeps at least those `k` characters. */
  lemma StripKeepsSolidPrefix(s: string, k: nat)
    requires 0 < k <= |s|
    requires forall i :: 0 <= i < k ==> !IsWhitespace(s[i])
    ensures var e := TrimEnd(s, |s|);
            k <= e && Strip(s) == s[..e] && AllWhitespace(s[e..])
  {
    var e := TrimEnd(s, |s|);
    assert !IsWhitespace(s[k - 1]);
    assert k <= e;
    TrimStartUnique(s, 0, e, 0);
    assert Strip(s) == s[0..e];
    forall i | 0 <= i < |s[e..]| ensures IsWhitespace(s[e..][i]) {
      assert s[e..][i] == s[e + i];
    }
  }

  // ---------------------------------------------------------------------------
  // lower()
  // ---------------------------------------------------------------------------

  /** Lower-casing of one character. Only ASCII letters are mapped, so the
      mapping never changes the length of a string. */
  function LowerChar(c: char): char {
    if 'A' <= c <= 'Z' then (c as int + 32) as char else c
  }

  /** `s.lower()`, character by character. */
  function Lower(s: string): (r: string)
    ensures |r| == |s|
    ensures forall i :: 0 <= i < |s| ==> r[i] == LowerChar(s[i])
  {
    seq(|s|, i requires 0 <= i < |s| => LowerChar(s[i]))
  }

  /** A character that lower-cases to something other than whitespace is not
      whitespace itself. */
  lemma LowerKeepsWhitespace(c: char)
    ensures IsWhitespace(c) ==> LowerChar(c) == c
  {
  }

  // ---------------------------------------------------------------------------
  // find(), rfind(), startswith()
  // ---------------------------------------------------------------------------

  /** `sub` occurs in `s` starting at index `i`. */
  predicate OccursAt(s: string, sub: string, i: nat) {
    i + |sub| <= |s| && s[i..i + |sub|] == sub
  }

  /** Python's `s.find(sub, start)`: -1, or the least index at or after
      `start` where `sub` occurs. */
  function Find(s: string, sub: string, start: nat): (r: int)
    ensures r == -1 || (start <= r && OccursAt(s, sub, r))
    ensures r == -1 ==> forall i :: start <= i ==> !OccursAt(s, sub, i)
    ensures r != -1 ==> forall i :: start <= i < r ==> !OccursAt(s, sub, i)
    decreases |s| - start
  {
    if start + |sub| > |s| then -1
    else if s[start..start + |sub|] == sub then start
    else Find(s, sub, start + 1)
  }

  /** `s.rfind(c)` for a single character. */
  function RFindChar(s: string, c: char): (r: int)
    ensures -1 <= r < |s|
    ensures r == -1 ==> c !in s
    ensures r != -1 ==> s[r] == c && c !in s[r + 1..]
  {
    if s == [] then -1
    else if s[|s| - 1] == c then |s| - 1
    else
      var r := RFindChar(s[..|s| - 1], c);
      assert r != -1 ==> s[r + 1..] == s[..|s| - 1][r + 1..] + [s[|s| - 1]];
      assert r == -1 ==> s == s[..|s| - 1] + [s[|s| - 1]];
      r
  }
  /** The last occurrence is the one with no occurrence after it. */
  lemma RFindCharIsLast(s: string, c: char, i: nat)
    requires i < |s| && s[i] == c && c !in s[i + 1..]
    ensures RFindChar(s, c) == i
  {
    forall j | i < j < |s| ensures s[j] != c {
      assert s[j] == s[i + 1..][j - i - 1];
    }
  }


  /** Python's slice `s[i:j]` for non-negative bounds: both bounds are
      clamped to the length, and the slice is empty unless `j` is after
      `i`. */
  function Slice(s: string, i: nat, j: nat): (r: string)
    ensures i <= j <= |s| ==> r == s[i..j]
    ensures i <= |s| <= j ==> r == s[i..]
    ensures j <= i || |s| <= i ==> r == []
  {
    var a := if i < |s| then i else |s|;
    var b := if j < a then a else if j < |s| then j else |s|;
    s[a..b]
  }

  /** A suffix is the slice up to some point followed by the rest. */
  lemma SliceConcat(s: string, i: nat, j: nat)
    requires i <= j <= |s|
    ensures s[i..j] + s[j..] == s[i..]
  {
  }

  /** A suffix of a prefix is a slice. */
  lemma SliceOfPrefix(s: string, e: nat, k: nat)
    requires k <= e <= |s|
    ensures s[..e][k..] == s[k..e]
  {
  }

  /** `s.startswith(prefix)`. */
  predicate StartsWith(s: string, prefix: string) {
    |prefix| <= |s| && s[..|prefix|] == prefix
  }

  // ---------------------------------------------------------------------------
  // split() and join()
  // ---------------------------------------------------------------------------

  /** Number of occurrences of `c` in `s`. */
  function Count(s: string, c: char): nat {
    if s == [] then 0 else (if s[0] == c then 1 else 0) + Count(s[1..], c)
  }

  /** `s.split(sep)` for a one-character separator: always at least one
      piece, one more piece than there are separators, and no piece holds the
      separator. */
  function Split(s: string, sep: char): (parts: seq<string>)
    ensures |parts| == Count(s, sep) + 1
    ensures forall k :: 0 <= k < |parts| ==> sep !in parts[k]
  {
    if s == [] then [""]
    else if s[0] == sep then [""] + Split(s[1..], sep)
    else
      var rest := Split(s[1..], sep);
      [[s[0]] + rest[0]] + rest[1..]
  }

  /** `sep.join(parts)`. */
  function Join(parts: seq<string>, sep: string): string {
    if parts == [] then ""
    else if |parts| == 1 then parts[0]
    else parts[0] + sep + Join(parts[1..], sep)
  }

  /** Joining the pieces of a split with the same separator gives back the
      original string. */
  lemma {:induction false} JoinSplit(s: string, sep: char)
    ensures Join(Split(s, sep), [sep]) == s
  {
    if s == [] {
    } else if s[0] == sep {
      JoinSplit(s[1..], sep);
      var rest := Split(s[1..], sep);
      assert Join([""] + rest, [sep]) == "" + [sep] + Join(rest, [sep]);
    } else {
      JoinSplit(s[1..], sep);
      var rest := Split(s[1..], sep);
      var parts := [[s[0]] + rest[0]] + rest[1..];
      if |rest| == 1 {
        assert Join(rest, [sep]) == rest[0];
      } else {
        assert parts[1..] == rest[1..];
        assert Join(rest, [sep]) == rest[0] + [sep] + Join(rest[1..], [sep]);
      }
    }
  }

  /** Splitting `a + sep + b`, where `a` holds no separator, yields `a`
      followed by the pieces of `b`. */
  lemma {:induction false} SplitAtFirst(a: string, b: string, sep: char)
    requires sep !in a
    ensures Split(a + [sep] + b, sep) == [a] + Split(b, sep)
  {
    if a == [] {
      assert a + [sep] + b == [sep] + b;
      assert ([sep] + b)[1..] == b;
    } else {
      assert (a + [sep] + b)[1..] == a[1..] + [sep] + b;
      SplitAtFirst(a[1..], b, sep);
      assert [a[0]] + a[1..] == a;
    }
  }

  /** A string without the separator splits into itself. */
  lemma {:induction false} SplitNoSeparator(a: string, sep: char)
    requires sep !in a
    ensures Split(a, sep) == [a]
  {
    if a != [] {
      SplitNoSeparator(a[1..], sep);
      assert [a[0]] + a[1..] == a;
    }
  }

  /** Splitting what was joined gives back the pieces, provided there was at
      least one piece and no piece holds the separator. */
  lemma {:induction false} SplitJoin(parts: seq<string>, sep: char)
    requires |parts| >= 1
    requires forall k :: 0 <= k < |parts| ==> sep !in parts[k]
    ensures Split(Join(parts, [sep]), sep) == parts
  {
    if |parts| == 1 {
      SplitNoSeparator(parts[0], sep);
    } else {
      SplitJoin(parts[1..], sep);
      SplitAtFirst(parts[0], Join(parts[1..], [sep]), sep);
      assert [parts[0]] + parts[1..] == parts;
    }
  }

  // ---------------------------------------------------------------------------
  // str() of a non-negative integer
  // ---------------------------------------------------------------------------

  predicate IsDigit(c: char) {
    '0' <= c <= '9'
  }

  function DigitChar(d: nat): (c: char)
    requires d < 10
    ensures IsDigit(c)
  {
    ('0' as int + d) as char
  }

  function DigitValue(c: char): nat
    requires IsDigit(c)
  {
    c as int - '0' as int
  }

  /** `str(n)` for `n >= 0`: decimal digits, most significant first, without
      leading zeros. */
  function NatToString(n: nat): (r: string)
    ensures r != []
    ensures forall i :: 0 <= i < |r| ==> IsDigit(r[i])
  {
    if n < 10 then [DigitChar(n)] else NatToString(n / 10) + [DigitChar(n % 10)]
  }

  /** `int(s)` for a non-empty string of decimal digits. */
  function ParseNat(s: string): nat
    requires forall i :: 0 <= i < |s| ==> IsDigit(s[i])
  {
    if s == [] then 0 else ParseNat(s[..|s| - 1]) * 10 + DigitValue(s[|s| - 1])
  }

  /** Reading back the decimal form of `n` gives `n`. */
  lemma {:induction false} ParseNatToString(n: nat)
    ensures ParseNat(NatToString(n)) == n
  {
    if n >= 10 {
      ParseNatToString(n / 10);
      var s := NatToString(n);
      assert s[..|s| - 1] == NatToString(n / 10);
    }
  }
}
