/**
  The few JavaScript string operations the modelled code relies on, over
  Unicode code points: `trim`, `startsWith`, `endsWith`, `includes`,
  `split` on one character, `toLowerCase` on ASCII letters, and `length`,
  which JavaScript counts in UTF-16 code units.
 */
module JsString {

  type String = seq<char>

  /** ECMAScript WhiteSpace and LineTerminator code points: what `trim()` strips and `\s` matches. */
  predicate IsWhitespace(c: char) {
    var n := c as int;
    (0x09 <= n <= 0x0D) || n == 0x20 || n == 0xA0 || n == 0x1680
    || (0x2000 <= n <= 0x200A) || n == 0x2028 || n == 0x2029
    || n == 0x202F || n == 0x205F || n == 0x3000 || n == 0xFEFF
  }

  predicate AllWhitespace(s: String) {
    forall i :: 0 <= i < |s| ==> IsWhitespace(s[i])
  }

  /** Neither starts nor ends with whitespace: a fixed point of `trim()`. */
  predicate IsTrimmed(s: String) {
    s == [] || (!IsWhitespace(s[0]) && !IsWhitespace(s[|s| - 1]))
  }

  /** Number of whitespace characters `trimStart()` removes. */
  function LeadingWhitespace(s: String): (k: nat)
    ensures k <= |s|
    ensures forall i :: 0 <= i < k ==> IsWhitespace(s[i])
    ensures k < |s| ==> !IsWhitespace(s[k])
  {
    if s != [] && IsWhitespace(s[0]) then 1 + LeadingWhitespace(s[1..]) else 0
  }

  /** Number of whitespace characters `trimEnd()` removes. */
  function TrailingWhitespace(s: String): (k: nat)
    ensures k <= |s|
    ensures forall i :: |s| - k <= i < |s| ==> IsWhitespace(s[i])
    ensures k < |s| ==> !IsWhitespace(s[|s| - 1 - k])
  {
    if s != [] && IsWhitespace(s[|s| - 1]) then 1 + TrailingWhitespace(s[..|s| - 1]) else 0
  }

  /** JavaScript's `s.trim()`. */
  function Trim(s: String): (r: String)
    ensures IsTrimmed(r)
    ensures r == [] <==> AllWhitespace(s)
    ensures IsTrimmed(s) ==> r == s
  {
    var t := s[LeadingWhitespace(s)..];
    TrimmedSlice(s, t);
    t[..|t| - TrailingWhitespace(t)]
  }

  /** What `trim()` keeps once both runs of whitespace are cut off. */
  lemma TrimmedSlice(s: String, t: String)
    requires t == s[LeadingWhitespace(s)..]
    ensures IsTrimmed(t[..|t| - TrailingWhitespace(t)])
    ensures t[..|t| - TrailingWhitespace(t)] == [] <==> AllWhitespace(s)
    ensures IsTrimmed(s) ==> t[..|t| - TrailingWhitespace(t)] == s
  {
    var a := LeadingWhitespace(s);
    var b := TrailingWhitespace(t);
    var r := t[..|t| - b];
    if a == |s| {
      assert AllWhitespace(s);
      assert r == [];
    } else {
      assert !IsWhitespace(t[0]);
      assert b < |t|;
      assert r != [] && r[0] == t[0] && r[|r| - 1] == t[|t| - 1 - b];
      assert !AllWhitespace(s) by {
        assert !IsWhitespace(s[a]);
      }
      if IsTrimmed(s) {
        assert a == 0;
        assert b == 0;
        assert r == s;
      }
    }
  }

  /** `trim()` only removes characters from the two ends. */
  lemma TrimIsSlice(s: String)
    ensures exists a, b :: 0 <= a <= b <= |s| && Trim(s) == s[a..b]
  {
    var t := s[LeadingWhitespace(s)..];
    assert Trim(s) == s[LeadingWhitespace(s)..|s| - TrailingWhitespace(t)];
  }

  /** The leading whitespace run is the longest whitespace prefix. */
  lemma {:induction false} LeadingWhitespaceIs(s: String, k: nat)
    requires k <= |s| && forall i :: 0 <= i < k ==> IsWhitespace(s[i])
    requires k < |s| ==> !IsWhitespace(s[k])
    ensures LeadingWhitespace(s) == k
  {
  }

  /** The trailing whitespace run is the longest whitespace suffix. */
  lemma {:induction false} TrailingWhitespaceIs(s: String, k: nat)
    requires k <= |s| && forall i :: |s| - k <= i < |s| ==> IsWhitespace(s[i])
    requires k < |s| ==> !IsWhitespace(s[|s| - 1 - k])
    ensures TrailingWhitespace(s) == k
  {
  }

  /** When the outer parts end and start in non-whitespace, `trim()` cuts only their far ends and keeps the middle. */
  lemma {:induction false} TrimAround(x: String, m: String, y: String)
    requires x != [] && !IsWhitespace(x[|x| - 1])
    requires y != [] && !IsWhitespace(y[0])
    ensures Trim(x + m + y) == Trim(x) + m + Trim(y)
  {
    TrimOuterRuns(x, m, y);
    TrimEndingInWord(x);
    TrimStartingWithWord(y);
  }

  lemma {:induction false} TrimEndingInWord(x: String)
    requires x != [] && !IsWhitespace(x[|x| - 1])
    ensures Trim(x) == x[LeadingWhitespace(x)..]
  {
    var t := x[LeadingWhitespace(x)..];
    NoTrailingRun(x, t);
    TrimCuts(x, t);
    assert t[..|t|] == t;
  }

  lemma {:induction false} NoTrailingRun(x: String, t: String)
    requires x != [] && !IsWhitespace(x[|x| - 1])
    requires t == x[LeadingWhitespace(x)..]
    ensures TrailingWhitespace(t) == 0
  {
    assert t[|t| - 1] == x[|x| - 1];
  }

  /** `trim()` is the slice between its two whitespace runs. */
  lemma {:induction false} TrimCuts(s: String, t: String)
    requires t == s[LeadingWhitespace(s)..]
    ensures Trim(s) == t[..|t| - TrailingWhitespace(t)]
  {
  }

  lemma {:induction false} TrimStartingWithWord(y: String)
    requires y != [] && !IsWhitespace(y[0])
    ensures Trim(y) == y[..|y| - TrailingWhitespace(y)]
  {
    assert LeadingWhitespace(y) == 0;
    assert y[0..] == y;
  }

  lemma {:induction false} TrimOuterRuns(x: String, m: String, y: String)
    requires x != [] && !IsWhitespace(x[|x| - 1])
    requires y != [] && !IsWhitespace(y[0])
    ensures Trim(x + m + y) == x[LeadingWhitespace(x)..] + m + y[..|y| - TrailingWhitespace(y)]
  {
    var a := LeadingWhitespace(x);
    var b := TrailingWhitespace(y);
    EndingInWordIsNotAllWhitespace(x);
    LeadingRunInFirst(x, m + y);
    assert x + (m + y) == x + m + y;
    var t := (x + m + y)[a..];
    assert t == x[a..] + m + y by {
      SuffixOfAppend(x + m, y, a);
      SuffixOfAppend(x, m, a);
    }
    TrailingRunInLast(x[a..] + m, y);
    CutEnds(x, m, y, a, b);
  }

  lemma {:induction false} EndingInWordIsNotAllWhitespace(x: String)
    requires x != [] && !IsWhitespace(x[|x| - 1])
    ensures LeadingWhitespace(x) < |x|
  {
  }

  lemma {:induction false} LeadingRunInFirst(x: String, r: String)
    requires LeadingWhitespace(x) < |x|
    ensures LeadingWhitespace(x + r) == LeadingWhitespace(x)
  {
    var s := x + r;
    var a := LeadingWhitespace(x);
    assert forall i :: 0 <= i <= a ==> s[i] == x[i];
    LeadingWhitespaceIs(s, a);
  }

  lemma {:induction false} TrailingRunInLast(l: String, y: String)
    requires y != [] && !IsWhitespace(y[0])
    ensures TrailingWhitespace(l + y) == TrailingWhitespace(y)
  {
    var t := l + y;
    var b := TrailingWhitespace(y);
    assert forall i :: |t| - 1 - b <= i < |t| ==> t[i] == y[i - |l|];
    TrailingWhitespaceIs(t, b);
  }

  /** Cutting `a` characters from the front and `b` from the back of `x + m + y` cuts only `x` and `y`. */
  lemma {:induction false} CutEnds(x: String, m: String, y: String, a: nat, b: nat)
    requires a <= |x| && b <= |y|
    ensures (x + m + y)[a..][..|x + m + y| - a - b] == x[a..] + m + y[..|y| - b]
  {
    var u := x[a..] + m;
    assert (x + m + y)[a..] == u + y by {
      SuffixOfAppend(x + m, y, a);
      SuffixOfAppend(x, m, a);
    }
    PrefixOfAppend(u, y, |y| - b);
  }

  lemma {:induction false} PrefixOfAppend(u: String, y: String, k: nat)
    requires k <= |y|
    ensures (u + y)[..|u| + k] == u + y[..k]
  {
  }

  lemma {:induction false} SuffixOfAppend(x: String, y: String, a: nat)
    requires a <= |x|
    ensures (x + y)[a..] == x[a..] + y
  {
  }

  /** Length as JavaScript's `.length` reports it: code points above U+FFFF take two UTF-16 units. */
  function Utf16Length(s: String): (n: nat)
    ensures |s| <= n <= 2 * |s|
  {
    if s == [] then 0 else (if s[0] as int > 0xFFFF then 2 else 1) + Utf16Length(s[1..])
  }

  lemma {:induction false} Utf16LengthAppend(a: String, b: String)
    ensures Utf16Length(a + b) == Utf16Length(a) + Utf16Length(b)
  {
    if a != [] {
      assert (a + b)[1..] == a[1..] + b;
      Utf16LengthAppend(a[1..], b);
    } else {
      assert a + b == b;
    }
  }

  /** A string with no code point above U+FFFF has as many UTF-16 units as characters. */
  lemma {:induction false} Utf16LengthBmp(s: String)
    requires forall i :: 0 <= i < |s| ==> s[i] as int <= 0xFFFF
    ensures Utf16Length(s) == |s|
  {
    if s != [] {
      Utf16LengthBmp(s[1..]);
    }
  }

  /** `trim()` removes one leading space from a trimmed string. */
  lemma TrimLeadingSpace(w: String)
    requires w != [] && IsTrimmed(w)
    ensures Trim([' '] + w) == w
  {
    var s := [' '] + w;
    assert s[1..] == w;
    assert LeadingWhitespace(s) == 1;
    assert s[LeadingWhitespace(s)..] == w;
  }

  predicate StartsWith(s: String, prefix: String) {
    |prefix| <= |s| && s[..|prefix|] == prefix
  }

  predicate EndsWith(s: String, suffix: String) {
    |suffix| <= |s| && s[|s| - |suffix|..] == suffix
  }

  /** JavaScript's `s.includes(part)`. */
  predicate Contains(s: String, part: String) {
    exists i :: 0 <= i <= |s| - |part| && OccursAt(s, part, i)
  }

  predicate OccursAt(s: String, part: String, i: int) {
    0 <= i <= |s| - |part| && s[i..i + |part|] == part
  }

  /** `s.split(c)[0]`: everything before the first `c`, or all of `s`. */
  function BeforeFirst(s: String, c: char): (r: String)
    ensures c !in r
    ensures |r| <= |s| && r == s[..|r|]
    ensures |r| < |s| ==> s[|r|] == c
  {
    if s == [] || s[0] == c then [] else [s[0]] + BeforeFirst(s[1..], c)
  }

  /** Parts joined with `sep` between consecutive ones: JavaScript's `parts.join(sep)`. */
  function Join(parts: seq<String>, sep: String): String {
    if |parts| == 0 then []
    else if |parts| == 1 then parts[0]
    else Join(parts[..|parts| - 1], sep) + sep + parts[|parts| - 1]
  }

  /** JavaScript's `s.split(c)` for a one-character separator. */
  function SplitOn(s: String, c: char): (parts: seq<String>)
    ensures |parts| >= 1
    ensures forall i :: 0 <= i < |parts| ==> c !in parts[i]
  {
    if s == [] then [[]]
    else
      var rest := SplitOn(s[1..], c);
      if s[0] == c then [[]] + rest else [[s[0]] + rest[0]] + rest[1..]
  }

  lemma {:induction false} JoinCons(p: String, parts: seq<String>, sep: String)
    requires |parts| >= 1
    ensures Join([p] + parts, sep) == p + sep + Join(parts, sep)
    decreases |parts|
  {
    var ps := [p] + parts;
    var init := parts[..|parts| - 1];
    assert ps[..|ps| - 1] == [p] + init;
    if |parts| == 1 {
      assert [p] + init == [p];
    } else {
      JoinCons(p, init, sep);
    }
  }

  /** Splitting on a character and joining the parts with it gives the string back. */
  lemma {:induction false} SplitOnJoin(s: String, c: char)
    ensures Join(SplitOn(s, c), [c]) == s
  {
    if s != [] {
      var rest := SplitOn(s[1..], c);
      SplitOnJoin(s[1..], c);
      if s[0] == c {
        JoinCons([], rest, [c]);
      } else {
        JoinPrepend(s[0], rest, [c]);
      }
    }
  }

  /** Prepending a character to the first part prepends it to the joined string. */
  lemma JoinPrepend(x: char, parts: seq<String>, sep: String)
    requires |parts| >= 1
    ensures Join([[x] + parts[0]] + parts[1..], sep) == [x] + Join(parts, sep)
  {
    if |parts| > 1 {
      JoinCons(parts[0], parts[1..], sep);
      JoinCons([x] + parts[0], parts[1..], sep);
      assert [x] + parts[0] + sep + Join(parts[1..], sep) == [x] + (parts[0] + sep + Join(parts[1..], sep));
      assert [parts[0]] + parts[1..] == parts;
    }
  }

  function LowerAscii(c: char): char {
    if 'A' <= c <= 'Z' then (c as int + 32) as char else c
  }

  /** `toLowerCase` restricted to ASCII letters: the only case folding a non-Unicode `/i` regex applies to ASCII patterns. */
  function ToLowerAscii(s: String): (r: String)
    ensures |r| == |s|
    ensures forall i :: 0 <= i < |s| ==> r[i] == LowerAscii(s[i])
  {
    if s == [] then [] else [LowerAscii(s[0])] + ToLowerAscii(s[1..])
  }
}
