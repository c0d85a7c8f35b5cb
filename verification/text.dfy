/**
 * The few pieces of Go's `strings` package the condition engine relies on:
 * `HasPrefix`, `Split` on a one-character separator and `TrimSpace`.
 * Strings are sequences of Unicode characters.
 */
module Text {

  /** `strings.HasPrefix(s, p)`. */
  predicate HasPrefix(s: string, p: string) {
    |p| <= |s| && s[..|p|] == p
  }

  /** Number of times `c` occurs in `s`. */
  function Occurrences(s: string, c: char): (n: nat)
    ensures n == 0 <==> c !in s
    ensures n <= |s|
  {
    if s == [] then 0
    else (if s[0] == c then 1 else 0) + Occurrences(s[1..], c)
  }

  /** `strings.Join(parts, string(sep))`. */
  function Join(parts: seq<string>, sep: char): string {
    if |parts| == 0 then ""
    else if |parts| == 1 then parts[0]
    else parts[0] + [sep] + Join(parts[1..], sep)
  }

  /**
   * `strings.Split(s, string(sep))`: the pieces of `s` between occurrences of
   * `sep`, empty pieces included. There is one more piece than there are
   * separators, no piece contains the separator, and joining the pieces back
   * gives `s`.
   */
  function Split(s: string, sep: char): (parts: seq<string>)
    ensures |parts| == Occurrences(s, sep) + 1
    ensures forall i :: 0 <= i < |parts| ==> sep !in parts[i]
    ensures Join(parts, sep) == s
  {
    if s == [] then [""]
    else
      var rest := Split(s[1..], sep);
      if s[0] == sep then
        assert ([""] + rest)[1..] == rest;
        [""] + rest
      else
        var parts := [[s[0]] + rest[0]] + rest[1..];
        assert parts[1..] == rest[1..];
        assert s == [s[0]] + s[1..];
        parts
  }

  /** A separator-free prefix splits off as the first piece. */
  lemma {:induction false} SplitAfter(a: string, b: string, sep: char)
    requires sep !in a
    ensures Split(a + [sep] + b, sep) == [a] + Split(b, sep)
    decreases |a|
  {
    var s := a + [sep] + b;
    if a == [] {
      assert s[0] == sep && s[1..] == b;
    } else {
      assert s[0] == a[0] != sep && s[1..] == a[1..] + [sep] + b;
      assert [a[0]] + a[1..] == a;
      SplitAfter(a[1..], b, sep);
      var rest := Split(s[1..], sep);
      assert rest[0] == a[1..] && rest[1..] == Split(b, sep);
    }
  }

  /** `Split` inverts `Join` on separator-free pieces. */
  lemma {:induction false} SplitJoin(parts: seq<string>, sep: char)
    requires |parts| >= 1
    requires forall i :: 0 <= i < |parts| ==> sep !in parts[i]
    ensures Split(Join(parts, sep), sep) == parts
    decreases |parts|
  {
    if |parts| == 1 {
      var p := Split(parts[0], sep);
      assert |p| == 1;
    } else {
      SplitJoin(parts[1..], sep);
      SplitAfter(parts[0], Join(parts[1..], sep), sep);
      assert [parts[0]] + parts[1..] == parts;
    }
  }

  lemma JoinThree(a: string, b: string, c: string, sep: char)
    ensures Join([a, b, c], sep) == a + [sep] + b + [sep] + c
  {
    assert [a, b, c][1..] == [b, c];
    assert [b, c][1..] == [c];
    assert Join([c], sep) == c;
    assert Join([b, c], sep) == b + [sep] + c;
  }

  /** Three pieces joined by single spaces split back into exactly those pieces. */
  lemma SplitThree(a: string, b: string, c: string)
    requires ' ' !in a && ' ' !in b && ' ' !in c
    ensures Split(a + " " + b + " " + c, ' ') == [a, b, c]
  {
    JoinThree(a, b, c, ' ');
    SplitJoin([a, b, c], ' ');
  }

  /** `unicode.IsSpace`: the Latin-1 spaces plus the Unicode White_Space property. */
  predicate IsSpace(c: char) {
    var n := c as int;
    (9 <= n <= 13) || n == 0x20 || n == 0x85 || n == 0xA0 || n == 0x1680
    || (0x2000 <= n <= 0x200A) || n == 0x2028 || n == 0x2029 || n == 0x202F
    || n == 0x205F || n == 0x3000
  }

  predicate AllSpace(s: string) {
    forall k :: 0 <= k < |s| ==> IsSpace(s[k])
  }

  /** `s` with its leading white space removed. */
  function TrimLeftSpace(s: string): (r: string)
    ensures |r| <= |s| && r == s[|s| - |r|..]
    ensures AllSpace(s[..|s| - |r|])
    ensures r == [] || !IsSpace(r[0])
  {
    if s != [] && IsSpace(s[0]) then
      var r := TrimLeftSpace(s[1..]);
      assert s[..|s| - |r|] == [s[0]] + s[1..][..|s| - 1 - |r|];
      r
    else s
  }

  /** `s` with its trailing white space removed. */
  function TrimRightSpace(s: string): (r: string)
    ensures |r| <= |s| && r == s[..|r|]
    ensures AllSpace(s[|r|..])
    ensures r == [] || !IsSpace(r[|r| - 1])
  {
    if s != [] && IsSpace(s[|s| - 1]) then
      var r := TrimRightSpace(s[..|s| - 1]);
      assert s[|r|..] == s[..|s| - 1][|r|..] + [s[|s| - 1]];
      r
    else s
  }

  /** `strings.TrimSpace(s)`. */
  function TrimSpace(s: string): string {
    TrimRightSpace(TrimLeftSpace(s))
  }

  lemma {:induction false} TrimLeftSkips(s: string, i: nat)
    requires i <= |s| && AllSpace(s[..i])
    requires i == |s| || !IsSpace(s[i])
    ensures TrimLeftSpace(s) == s[i..]
    decreases i
  {
    if i > 0 {
      var t := s[1..];
      assert IsSpace(s[..i][0]) && s[0] == s[..i][0];
      assert t[..i - 1] == s[..i][1..] && t[i - 1..] == s[i..];
      TrimLeftSkips(t, i - 1);
    }
  }

  lemma {:induction false} TrimRightSkips(s: string, j: nat)
    requires j <= |s| && AllSpace(s[j..])
    requires j == 0 || !IsSpace(s[j - 1])
    ensures TrimRightSpace(s) == s[..j]
    decreases |s| - j
  {
    if j < |s| {
      var t := s[..|s| - 1];
      assert t[j..] == s[j..|s| - 1];
      TrimRightSkips(t, j);
      assert t[..j] == s[..j];
    }
  }

  /** `s` is `w` with white space, and only white space, on either side. */
  predicate Padded(s: string, w: string) {
    exists i, j :: 0 <= i <= j <= |s| && s[i..j] == w && AllSpace(s[..i]) && AllSpace(s[j..])
  }

  /** Cutting a suffix of `s` is cutting `s` itself, shifted by where the suffix starts. */
  lemma SuffixSlices(s: string, i: nat, n: nat)
    requires i + n <= |s|
    ensures s[i..][..n] == s[i..i + n] && s[i..][n..] == s[i + n..]
  {
  }

  /** Trimming a word leaves it where it stood, between two runs of white space. */
  lemma TrimSpaceFindsWord(s: string, w: string)
    requires TrimSpace(s) == w
    ensures Padded(s, w)
  {
    var l := TrimLeftSpace(s);
    var i := |s| - |l|;
    var j := i + |w|;
    assert l == s[i..] && AllSpace(s[..i]);
    assert w == l[..|w|] && AllSpace(l[|w|..]);
    SuffixSlices(s, i, |w|);
    assert 0 <= i <= j <= |s| && s[i..j] == w && AllSpace(s[..i]) && AllSpace(s[j..]);
  }

  /** A word padded with white space trims back to the word. */
  lemma TrimSpaceOfPadded(s: string, w: string, i: nat, j: nat)
    requires w != [] && !IsSpace(w[0]) && !IsSpace(w[|w| - 1])
    requires i <= j <= |s| && s[i..j] == w && AllSpace(s[..i]) && AllSpace(s[j..])
    ensures TrimSpace(s) == w
  {
    var l := s[i..];
    assert s[i] == w[0];
    assert l[j - i..] == s[j..] && l[..j - i] == w;
    assert l[j - i - 1] == w[|w| - 1];
    TrimLeftSkips(s, i);
    TrimRightSkips(l, j - i);
  }

  /**
   * For a word `w` that neither starts nor ends with white space,
   * `TrimSpace(s) == w` exactly when `s` is `w` padded with white space.
   */
  lemma TrimSpaceIsWord(s: string, w: string)
    requires w != [] && !IsSpace(w[0]) && !IsSpace(w[|w| - 1])
    ensures TrimSpace(s) == w <==> Padded(s, w)
  {
    if TrimSpace(s) == w {
      TrimSpaceFindsWord(s, w);
    }
    if Padded(s, w) {
      var i, j :| 0 <= i <= j <= |s| && s[i..j] == w && AllSpace(s[..i]) && AllSpace(s[j..]);
      TrimSpaceOfPadded(s, w, i, j);
    }
  }
}
