/**
 The few java.lang.String operations the extraction code relies on, over
 `seq<char>`: `trim`, `indexOf`, `lastIndexOf`, `endsWith`, and ASCII case
 mapping for `toUpperCase`/`toLowerCase`.
 */
module JavaStrings {

  /** `String.trim` strips every char at or below U+0020 from both ends. */
  predicate IsTrimmable(c: char) {
    c <= ' '
  }

  /** The regex class `\s` of java.util.regex: space, tab, line feed,
      vertical tab, form feed and carriage return. */
  predicate IsRegexSpace(c: char) {
    c == ' ' || c == '\t' || c == '\n' || c == '\r' || c as int == 0x0B || c as int == 0x0C
  }

  predicate AllTrimmable(s: string) {
    forall k :: 0 <= k < |s| ==> IsTrimmable(s[k])
  }

  /** Neither end of `s` is a char that `trim` would remove. */
  predicate Unpadded(s: string) {
    s == [] || (!IsTrimmable(s[0]) && !IsTrimmable(s[|s| - 1]))
  }

  function UpperChar(c: char): char {
    if 'a' <= c <= 'z' then (c as int - 32) as char else c
  }

  function LowerChar(c: char): char {
    if 'A' <= c <= 'Z' then (c as int + 32) as char else c
  }

  /** `toUpperCase`, restricted to the ASCII letters. */
  function UpperAscii(s: string): (r: string)
    ensures |r| == |s|
    ensures forall k :: 0 <= k < |s| ==> r[k] == UpperChar(s[k])
  {
    seq(|s|, k requires 0 <= k < |s| => UpperChar(s[k]))
  }

  /** `toLowerCase`, restricted to the ASCII letters. */
  function LowerAscii(s: string): (r: string)
    ensures |r| == |s|
    ensures forall k :: 0 <= k < |s| ==> r[k] == LowerChar(s[k])
  {
    seq(|s|, k requires 0 <= k < |s| => LowerChar(s[k]))
  }

  /** Case-insensitive comparison, char by char. */
  predicate EqualsIgnoreCase(a: string, b: string) {
    |a| == |b| && forall k :: 0 <= k < |a| ==> UpperChar(a[k]) == UpperChar(b[k])
  }

  /** A key written in upper case: upper-casing leaves it alone. */
  predicate IsUpperKey(key: string) {
    forall k :: 0 <= k < |key| ==> UpperChar(key[k]) == key[k]
  }

  /** Upper-casing a name and comparing with an upper-case key is exactly a
      case-insensitive comparison with that key. */
  lemma UpperAsciiMatchesKey(name: string, key: string)
    requires IsUpperKey(key)
    ensures UpperAscii(name) == key <==> EqualsIgnoreCase(name, key)
  {
    if EqualsIgnoreCase(name, key) {
      assert forall k :: 0 <= k < |key| ==> UpperAscii(name)[k] == key[k];
    }
  }

  function EndsWith(s: string, suffix: string): bool {
    |suffix| <= |s| && s[|s| - |suffix|..] == suffix
  }

  /** `s.indexOf(c)`: the first position of `c`, or -1. */
  function IndexOf(s: string, c: char): (i: int)
    ensures -1 <= i < |s|
    ensures i == -1 <==> c !in s
    ensures 0 <= i ==> s[i] == c && c !in s[..i]
  {
    if |s| == 0 then -1
    else if s[0] == c then 0
    else
      var k := IndexOf(s[1..], c);
      if k == -1 then -1
      else
        assert s[..k + 1] == [s[0]] + s[1..][..k];
        k + 1
  }

  /** `s.lastIndexOf(c)`: the last position of `c`, or -1. */
  function LastIndexOf(s: string, c: char): (i: int)
    ensures -1 <= i < |s|
    ensures i == -1 <==> c !in s
    ensures 0 <= i ==> s[i] == c && c !in s[i + 1..]
  {
    if |s| == 0 then -1
    else if s[|s| - 1] == c then |s| - 1
    else
      var k := LastIndexOf(s[..|s| - 1], c);
      if k == -1 then
        assert s == s[..|s| - 1] + [s[|s| - 1]];
        -1
      else
        assert s[k + 1..] == s[..|s| - 1][k + 1..] + [s[|s| - 1]];
        k
  }

  /** A char at the front is found at position 0. */
  lemma IndexOfHead(s: string, c: char)
    requires |s| > 0 && s[0] == c
    ensures IndexOf(s, c) == 0
  {
  }

  /** A char at the end is the last occurrence. */
  lemma LastIndexOfTail(s: string, c: char)
    ensures LastIndexOf(s + [c], c) == |s|
    ensures (s + [c])[..|s|] == s
  {
  }

  /** Number of leading chars `trim` removes (Java's `st`). */
  function TrimStart(s: string): (n: nat)
    ensures n <= |s|
    ensures forall k :: 0 <= k < n ==> IsTrimmable(s[k])
    ensures n < |s| ==> !IsTrimmable(s[n])
  {
    if |s| > 0 && IsTrimmable(s[0]) then 1 + TrimStart(s[1..]) else 0
  }

  /** End of the kept region once the trailing chars at or below U+0020 are
      dropped, never going below `st` (Java's `len`). */
  function TrimEnd(s: string, st: nat): (len: nat)
    requires st <= |s|
    ensures st <= len <= |s|
    ensures forall k :: len <= k < |s| ==> IsTrimmable(s[k])
    ensures st < len ==> !IsTrimmable(s[len - 1])
  {
    if st < |s| && IsTrimmable(s[|s| - 1]) then TrimEnd(s[..|s| - 1], st) else |s|
  }

  /** `s.trim()`. */
  function Trim(s: string): (r: string)
    ensures |r| <= |s|
    ensures Unpadded(r)
  {
    var st := TrimStart(s);
    s[st..TrimEnd(s, st)]
  }

  /** Trim takes away exactly the padding around an unpadded core, and
      nothing else. */
  lemma TrimOfPadded(w1: string, x: string, w2: string)
    requires AllTrimmable(w1) && AllTrimmable(w2) && Unpadded(x)
    ensures Trim(w1 + x + w2) == x
  {
    var s := w1 + x + w2;
    var st := TrimStart(s);
    var len := TrimEnd(s, st);
    assert forall k :: 0 <= k < |w1| ==> s[k] == w1[k];
    assert forall k :: 0 <= k < |w2| ==> s[|w1| + |x| + k] == w2[k];
    if x == [] {
      assert st == |s|;
    } else {
      assert s[|w1|] == x[0];
      assert st == |w1|;
      assert s[|w1| + |x| - 1] == x[|x| - 1];
      assert len == |w1| + |x|;
      assert s[st..len] == x;
    }
  }

  /** `trim` returns a contiguous part of its input. */
  lemma TrimIsInfix(s: string)
    ensures 0 <= TrimStart(s) <= TrimEnd(s, TrimStart(s)) <= |s|
    ensures Trim(s) == s[TrimStart(s)..TrimEnd(s, TrimStart(s))]
  {
  }
}
