/**
 * The Python string operations the upload handler relies on: `str.isspace`,
 * `str.strip()` without arguments, `str.lower()` restricted to ASCII letters,
 * and `str.rfind` for a single character.
 */
module Text {

  /** Python's `str.isspace()` for one character. */
  predicate IsSpace(c: char) {
    || ('\U{9}' <= c <= '\U{D}')
    || ('\U{1C}' <= c <= '\U{20}')
    || c == '\U{85}' || c == '\U{A0}' || c == '\U{1680}'
    || ('\U{2000}' <= c <= '\U{200A}')
    || c == '\U{2028}' || c == '\U{2029}' || c == '\U{202F}'
    || c == '\U{205F}' || c == '\U{3000}'
  }

  predicate AllSpace(s: string) {
    forall i :: 0 <= i < |s| ==> IsSpace(s[i])
  }

  /** Neither the first nor the last character is whitespace. */
  predicate NoOuterSpace(s: string) {
    s == [] || (!IsSpace(s[0]) && !IsSpace(s[|s| - 1]))
  }

  /** Drops the leading whitespace: what is left starts with a non-space. */
  function TrimLeft(s: string): (r: string)
    ensures r == [] || !IsSpace(r[0])
  {
    if |s| > 0 && IsSpace(s[0]) then TrimLeft(s[1..]) else s
  }

  /** What TrimLeft leaves is a suffix, and what it drops is whitespace. */
  lemma {:induction false} TrimLeftIsSuffix(s: string)
    ensures |TrimLeft(s)| <= |s| && TrimLeft(s) == s[|s| - |TrimLeft(s)|..]
    ensures AllSpace(s[..|s| - |TrimLeft(s)|])
  {
    if |s| > 0 && IsSpace(s[0]) {
      var t := s[1..];
      TrimLeftIsSuffix(t);
      assert s[..|s| - |TrimLeft(s)|] == [s[0]] + t[..|t| - |TrimLeft(t)|];
    }
  }

  /** Drops the trailing whitespace: what is left ends with a non-space. */
  function TrimRight(s: string): (r: string)
    ensures r == [] || !IsSpace(r[|r| - 1])
  {
    if |s| > 0 && IsSpace(s[|s| - 1]) then TrimRight(s[..|s| - 1]) else s
  }

  /** What TrimRight leaves is a prefix, and what it drops is whitespace. */
  lemma {:induction false} TrimRightIsPrefix(s: string)
    ensures |TrimRight(s)| <= |s| && TrimRight(s) == s[..|TrimRight(s)|]
    ensures AllSpace(s[|TrimRight(s)|..])
  {
    if |s| > 0 && IsSpace(s[|s| - 1]) {
      var t := s[..|s| - 1];
      TrimRightIsPrefix(t);
      assert s[|TrimRight(s)|..] == t[|TrimRight(t)|..] + [s[|s| - 1]];
    }
  }

  /** `s.strip()`: removes the whitespace at both ends. */
  function Strip(s: string): (r: string)
    ensures NoOuterSpace(r)
  {
    var t := TrimRight(s);
    TrimLeftIsSuffix(t);
    TrimLeft(t)
  }

  /**
   * What Strip removes is whitespace: the result is a slice of `s` with
   * only whitespace before and after it.
   */
  lemma StripIsSlice(s: string)
    ensures exists i :: 0 <= i <= |s| - |Strip(s)| && Strip(s) == s[i..i + |Strip(s)|] &&
                        AllSpace(s[..i]) && AllSpace(s[i + |Strip(s)|..])
  {
    var t := TrimRight(s);
    var r := TrimLeft(t);
    TrimRightIsPrefix(s);
    TrimLeftIsSuffix(t);
    var i := |t| - |r|;
    assert s[..i] == t[..i] && s[i..i + |r|] == r;
    forall k | i + |r| <= k < |s| ensures IsSpace(s[k]) {
      if k >= |t| { assert s[k] == s[|t|..][k - |t|]; }
    }
    assert AllSpace(s[i + |r|..]);
  }

  lemma {:induction false} TrimLeftOfSpaces(a: string, y: string)
    requires AllSpace(a)
    requires y == [] || !IsSpace(y[0])
    ensures TrimLeft(a + y) == y
  {
    if a != [] {
      assert (a + y)[1..] == a[1..] + y;
      TrimLeftOfSpaces(a[1..], y);
    } else {
      assert a + y == y;
    }
  }

  lemma {:induction false} TrimRightOfSpaces(x: string, b: string)
    requires AllSpace(b)
    requires x == [] || !IsSpace(x[|x| - 1])
    ensures TrimRight(x + b) == x
  {
    if b != [] {
      assert (x + b)[..|x + b| - 1] == x + b[..|b| - 1];
      TrimRightOfSpaces(x, b[..|b| - 1]);
    } else {
      assert x + b == x;
    }
  }

  /**
   * Strip is determined by its contract: whatever whitespace surrounds a
   * string without outer whitespace, stripping gives that string back.
   */
  lemma StripUnique(a: string, m: string, b: string)
    requires AllSpace(a) && AllSpace(b) && NoOuterSpace(m)
    ensures Strip(a + m + b) == m
  {
    if m == [] {
      assert a + m + b == [] + (a + b);
      TrimRightOfSpaces([], a + b);
    } else {
      TrimRightOfSpaces(a + m, b);
      TrimLeftOfSpaces(a, m);
    }
  }

  /** Stripping twice is stripping once. */
  lemma StripIdempotent(s: string)
    ensures Strip(Strip(s)) == Strip(s)
  {
    var r := Strip(s);
    assert [] + r + [] == r;
    StripUnique([], r, []);
  }

  /** Lower-cases the ASCII letters A-Z and leaves every other character as it is. */
  function LowerChar(c: char): (r: char)
    ensures !('A' <= r <= 'Z')
    ensures r == c || 'A' <= c <= 'Z'
  {
    if 'A' <= c <= 'Z' then (c as int + 32) as char else c
  }

  /** `s.lower()`, one character at a time; the index guard always holds. */
  function Lower(s: string): (r: string)
    ensures |r| == |s|
  {
    seq(|s|, i => if 0 <= i < |s| then LowerChar(s[i]) else ' ')
  }

  /**
   * `s.rfind(c)`: the index of the last occurrence of `c`, or -1 when `c`
   * does not occur.
   */
  function RFind(s: string, c: char): (r: int)
    ensures -1 <= r < |s|
    ensures 0 <= r ==> s[r] == c
  {
    if |s| == 0 then -1
    else if s[|s| - 1] == c then |s| - 1
    else RFind(s[..|s| - 1], c)
  }

  /** RFind gives -1 exactly when `c` does not occur, and no `c` follows its index. */
  lemma {:induction false} RFindIsLast(s: string, c: char)
    ensures RFind(s, c) == -1 <==> c !in s
    ensures forall j :: RFind(s, c) < j < |s| ==> s[j] != c
  {
    if |s| > 0 && s[|s| - 1] != c {
      var t := s[..|s| - 1];
      RFindIsLast(t, c);
      assert forall j :: 0 <= j < |t| ==> t[j] == s[j];
      assert s == t + [s[|s| - 1]];
    }
  }
}
