/**
 The handful of Python `str` and list operations the scraper relies on, stated
 over `seq<char>`: `strip()`, `lower()`, `split(sep, 1)`, `split(sep)[0]`,
 `startswith`, `replace(" ", "%20")` and the slice `xs[:n]`.
 */
module PyStr {
  import opened Wrappers

  /** Python's `str.isspace()` for a single character. */
  predicate IsSpace(c: char) {
    || ('\t' <= c <= '\r')            // tab, line feed, vertical tab, form feed, carriage return
    || ('\U{1C}' <= c <= '\U{1F}')    // file, group, record and unit separators
    || c == ' '
    || c == '\U{85}' || c == '\U{A0}' || c == '\U{1680}'
    || ('\U{2000}' <= c <= '\U{200A}')
    || c == '\U{2028}' || c == '\U{2029}' || c == '\U{202F}' || c == '\U{205F}' || c == '\U{3000}'
  }

  predicate AllSpace(s: string) {
    forall i :: 0 <= i < |s| ==> IsSpace(s[i])
  }

  /** No whitespace at either end: what `strip()` leaves behind. */
  predicate Trimmed(s: string) {
    s == [] || (!IsSpace(s[0]) && !IsSpace(s[|s| - 1]))
  }

  /** `s.lstrip()`: drops the leading whitespace and nothing else. */
  function TrimStart(s: string): (r: string)
    ensures |r| <= |s| && r == s[|s| - |r|..]
    ensures forall i :: 0 <= i < |s| - |r| ==> IsSpace(s[i])
    ensures r == [] || !IsSpace(r[0])
  {
    if s != [] && IsSpace(s[0]) then
      var r := TrimStart(s[1..]);
      assert s[1..][|s| - 1 - |r|..] == s[|s| - |r|..];
      r
    else s
  }

  /** `s.rstrip()`: drops the trailing whitespace and nothing else. */
  function TrimEnd(s: string): (r: string)
    ensures |r| <= |s| && r == s[..|r|]
    ensures forall i :: |r| <= i < |s| ==> IsSpace(s[i])
    ensures r == [] || !IsSpace(r[|r| - 1])
  {
    if s != [] && IsSpace(s[|s| - 1]) then
      var r := TrimEnd(s[..|s| - 1]);
      assert s[..|s| - 1][..|r|] == s[..|r|];
      r
    else s
  }

  /** `s.strip()`. */
  function Strip(s: string): (r: string)
    ensures Trimmed(r)
    ensures |r| <= |s|
  {
    TrimEnd(TrimStart(s))
  }

  lemma {:induction false} TrimStartOfSpacePrefix(a: string, b: string)
    requires AllSpace(a)
    requires b == [] || !IsSpace(b[0])
    ensures TrimStart(a + b) == b
    decreases |a|
  {
    if a != [] {
      assert (a + b)[1..] == a[1..] + b;
      TrimStartOfSpacePrefix(a[1..], b);
    }
  }

  lemma {:induction false} TrimEndOfSpaceSuffix(b: string, c: string)
    requires AllSpace(c)
    requires b == [] || !IsSpace(b[|b| - 1])
    ensures TrimEnd(b + c) == b
    decreases |c|
  {
    if c != [] {
      assert (b + c)[..|b + c| - 1] == b + c[..|c| - 1];
      TrimEndOfSpaceSuffix(b, c[..|c| - 1]);
    }
  }

  /** `strip()` removes exactly the surrounding whitespace: if `s` is a trimmed
      core wrapped in whitespace, the core is what comes back. */
  lemma StripSurrounded(a: string, b: string, c: string)
    requires AllSpace(a) && AllSpace(c) && Trimmed(b)
    ensures Strip(a + b + c) == b
  {
    if b == [] {
      assert AllSpace(a + c);
      assert a + b + c == (a + c) + [];
      TrimStartOfSpacePrefix(a + c, []);
    } else {
      assert a + b + c == a + (b + c);
      TrimStartOfSpacePrefix(a, b + c);
      TrimEndOfSpaceSuffix(b, c);
    }
  }

  /** Python's `c.lower()` on the ASCII letters. */
  function LowerChar(c: char): char {
    if 'A' <= c <= 'Z' then (c as int - 'A' as int + 'a' as int) as char else c
  }

  /** `s.lower()`, restricted to ASCII case mapping. */
  function Lower(s: string): (r: string)
    ensures |r| == |s|
    ensures forall i :: 0 <= i < |r| ==> !('A' <= r[i] <= 'Z')
    ensures forall i :: 0 <= i < |s| && !('A' <= s[i] <= 'Z') ==> r[i] == s[i]
    ensures forall i :: 0 <= i < |s| && 'A' <= s[i] <= 'Z' ==> r[i] as int == s[i] as int + 32
  {
    seq(|s|, i requires 0 <= i < |s| => LowerChar(s[i]))
  }

  /** The position of the first `c` in `s`, if any. */
  function IndexOf(s: string, c: char): (r: Option<nat>)
    ensures r.Some? ==> r.value < |s| && s[r.value] == c && c !in s[..r.value]
    ensures r.None? <==> c !in s
  {
    if s == [] then None
    else if s[0] == c then Some(0)
    else match IndexOf(s[1..], c)
      case None => None
      case Some(i) => Some(i + 1)
  }

  /** `s.split(sep, 1)`: one piece when `sep` is absent, otherwise the text
      before the first `sep` and everything after it. */
  function SplitOnce(s: string, sep: char): (pieces: seq<string>)
    ensures 1 <= |pieces| <= 2
    ensures sep !in pieces[0]
    ensures |pieces| == 1 <==> sep !in s
    ensures |pieces| == 1 ==> pieces[0] == s
    ensures |pieces| == 2 ==> pieces[0] + [sep] + pieces[1] == s
  {
    match IndexOf(s, sep)
    case None => [s]
    case Some(i) =>
      assert s == s[..i] + [sep] + s[i + 1..];
      [s[..i], s[i + 1..]]
  }

  /** Splitting a string that was joined at its first separator gives the two
      parts back. */
  lemma SplitOnceOfJoin(a: string, sep: char, b: string)
    requires sep !in a
    ensures SplitOnce(a + [sep] + b, sep) == [a, b]
  {
    var s := a + [sep] + b;
    assert s[|a|] == sep;
    assert s[..|a|] == a;
    var i := IndexOf(s, sep).value;
    assert s[..i] == a;
    assert s[i + 1..] == b;
  }

  /** `s.split(sep)[0]`: the text up to, and not including, the first `sep`. */
  function BeforeFirst(s: string, sep: char): (r: string)
    ensures sep !in r
    ensures |r| <= |s| && r == s[..|r|]
    ensures r == s || s[|r|] == sep
  {
    match IndexOf(s, sep)
    case None => s
    case Some(i) => s[..i]
  }

  predicate StartsWith(s: string, prefix: string) {
    |prefix| <= |s| && s[..|prefix|] == prefix
  }

  predicate EndsWith(s: string, suffix: string) {
    |suffix| <= |s| && s[|s| - |suffix|..] == suffix
  }

  function CountOf(s: string, c: char): nat {
    if s == [] then 0 else (if s[0] == c then 1 else 0) + CountOf(s[1..], c)
  }

  /** `s.replace(" ", "%20")`. */
  function EncodeSpaces(s: string): (r: string)
    ensures ' ' !in r
    ensures |r| == |s| + 2 * CountOf(s, ' ')
  {
    if s == [] then []
    else (if s[0] == ' ' then "%20" else [s[0]]) + EncodeSpaces(s[1..])
  }

  /** The encoding works character by character: a space becomes `%20` and
      every other character, `%` included, is kept as it is. */
  lemma EncodeSpacesChar(c: char)
    ensures EncodeSpaces([c]) == if c == ' ' then "%20" else [c]
  {
    assert [c][1..] == [];
  }

  /** Encoding a concatenation is concatenating the encodings. */
  lemma {:induction false} EncodeSpacesAppend(a: string, b: string)
    ensures EncodeSpaces(a + b) == EncodeSpaces(a) + EncodeSpaces(b)
    decreases |a|
  {
    if a == [] {
      assert a + b == b;
    } else {
      assert (a + b)[0] == a[0];
      assert (a + b)[1..] == a[1..] + b;
      EncodeSpacesAppend(a[1..], b);
    }
  }

  /** Reads every `%20` back as a space, left to right. */
  function DecodeSpaces(t: string): string
    decreases |t|
  {
    if |t| >= 3 && t[..3] == "%20" then " " + DecodeSpaces(t[3..])
    else if t == [] then []
    else [t[0]] + DecodeSpaces(t[1..])
  }

  /** The encoding loses nothing on text that has no `%` of its own. */
  lemma {:induction false} DecodeEncodeSpaces(s: string)
    requires '%' !in s
    ensures DecodeSpaces(EncodeSpaces(s)) == s
  {
    if s != [] {
      var rest := EncodeSpaces(s[1..]);
      DecodeEncodeSpaces(s[1..]);
      if s[0] == ' ' {
        assert ("%20" + rest)[..3] == "%20";
        assert ("%20" + rest)[3..] == rest;
      } else {
        var t := [s[0]] + rest;
        assert t[0] == s[0] && t[1..] == rest;
        if |t| >= 3 {
          assert t[..3][0] == s[0] != '%';
        }
      }
    }
  }

  /** Python's `xs[:n]`, negative `n` counting from the end. */
  function SliceTo<T>(xs: seq<T>, n: int): (r: seq<T>)
    ensures |r| <= |xs| && r == xs[..|r|]
    ensures 0 <= n <= |xs| ==> |r| == n
    ensures n > |xs| ==> r == xs
    ensures n < 0 ==> |r| == if |xs| + n > 0 then |xs| + n else 0
  {
    if n >= 0 then (if n <= |xs| then xs[..n] else xs)
    else (if |xs| + n > 0 then xs[..|xs| + n] else [])
  }
}
