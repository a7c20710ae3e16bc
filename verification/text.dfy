/**
  The string operations the bridge relies on, written out so that their
  behaviour can be stated exactly:
  - `Find`, `SplitOnce` and `Split` follow Python's `str.find(c)`,
    `str.split(c, 1)` and `str.split(c)` for a one-character separator;
  - `Strip` follows Python 3's `str.strip()` with no argument;
  - `FoldChar` and `Lower` are the IRC case mapping of section 2.2 of
    RFC 1459, where `{`, `}` and `|` are the lower-case forms of `[`, `]`
    and `\`.
 */
module Text {

  /* ---------------------------------------------------------------------- */
  /* Searching and splitting                                                */
  /* ---------------------------------------------------------------------- */

  /** Index of the first occurrence of `c` in `s`, or -1 when there is none. */
  function Find(s: string, c: char): (r: int)
    ensures -1 <= r < |s|
    ensures r == -1 <==> c !in s
    ensures 0 <= r ==> s[r] == c && c !in s[..r]
    decreases |s|
  {
    if |s| == 0 then -1
    else if s[0] == c then 0
    else
      var k := Find(s[1..], c);
      if k < 0 then -1
      else
        assert s[1..][..k] == s[1..k + 1];
        assert s[..k + 1] == [s[0]] + s[1..k + 1];
        k + 1
  }

  /** The first occurrence is unique: any index holding `c` with no `c`
      before it is the one `Find` reports. */
  lemma FindIsFirst(s: string, c: char, i: int)
    requires 0 <= i < |s| && s[i] == c && c !in s[..i]
    ensures Find(s, c) == i
  {
  }

  /** Python's `s.split(sep, 1)`: one piece when `sep` does not occur, else
      the text before the first `sep` and everything after it. */
  function SplitOnce(s: string, sep: char): (parts: seq<string>)
    ensures 1 <= |parts| <= 2
    ensures |parts| == 1 <==> sep !in s
    ensures |parts| == 1 ==> parts[0] == s
    ensures |parts| == 2 ==> sep !in parts[0] && parts[0] + [sep] + parts[1] == s
  {
    var k := Find(s, sep);
    if k < 0 then [s]
    else
      assert s[..k] + [sep] + s[k + 1..] == s[..k] + s[k..];
      [s[..k], s[k + 1..]]
  }

  /** The text on either side of a separator placed between two strings. */
  lemma AroundSeparator(a: string, sep: char, b: string)
    ensures (a + [sep] + b)[..|a|] == a
    ensures (a + [sep] + b)[|a|] == sep
    ensures (a + [sep] + b)[|a| + 1..] == b
  {
  }

  /** The pieces `SplitOnce` returns, read back off the first separator. */
  lemma SplitOnceAtFirst(s: string, sep: char, i: int)
    requires 0 <= i < |s| && s[i] == sep && sep !in s[..i]
    ensures SplitOnce(s, sep) == [s[..i], s[i + 1..]]
  {
    FindIsFirst(s, sep, i);
  }

  /** Inverse of `Split`: the pieces glued back with `sep` between them. */
  function Join(parts: seq<string>, sep: char): string
  {
    if |parts| == 0 then ""
    else if |parts| == 1 then parts[0]
    else parts[0] + [sep] + Join(parts[1..], sep)
  }

  /** Python's `s.split(sep)`: the maximal `sep`-free pieces of `s`, in
      order; the empty string gives one empty piece. */
  function Split(s: string, sep: char): (parts: seq<string>)
    ensures |parts| >= 1
    ensures forall i :: 0 <= i < |parts| ==> sep !in parts[i]
    ensures Join(parts, sep) == s
    decreases |s|
  {
    var k := Find(s, sep);
    if k < 0 then [s]
    else
      var rest := Split(s[k + 1..], sep);
      var parts := [s[..k]] + rest;
      assert parts[1..] == rest;
      forall i | 1 <= i < |parts|
        ensures sep !in parts[i]
      {
        assert parts[i] == rest[i - 1];
      }
      assert Join(parts, sep) == s[..k] + [sep] + s[k + 1..];
      assert s[..k] + [sep] + s[k + 1..] == s[..k] + s[k..];
      parts
  }

  /** Splitting undoes joining: any non-empty list of `sep`-free pieces is
      recovered from its joined form. */
  lemma {:induction false} SplitJoin(parts: seq<string>, sep: char)
    requires |parts| >= 1
    requires forall i :: 0 <= i < |parts| ==> sep !in parts[i]
    ensures Split(Join(parts, sep), sep) == parts
    decreases |parts|
  {
    if |parts| == 1 {
      assert Find(parts[0], sep) == -1;
    } else {
      var rest := Join(parts[1..], sep);
      SplitAtFirst(parts[0], sep, rest);
      SplitJoin(parts[1..], sep);
      assert parts == [parts[0]] + parts[1..];
    }
  }

  /** Splitting text whose first separator follows `p` yields `p`, then the
      pieces of what follows the separator. */
  lemma SplitAtFirst(p: string, sep: char, rest: string)
    requires sep !in p
    ensures Split(p + [sep] + rest, sep) == [p] + Split(rest, sep)
  {
    var s := p + [sep] + rest;
    assert s[..|p|] == p;
    FindIsFirst(s, sep, |p|);
    assert s[|p| + 1..] == rest;
  }

  /* ---------------------------------------------------------------------- */
  /* Whitespace stripping                                                   */
  /* ---------------------------------------------------------------------- */

  /** The characters Python 3's `str.isspace()` accepts. */
  predicate IsSpace(c: char)
  {
    || ('\t' <= c <= '\r')
    || ('\U{1C}' <= c <= ' ')
    || c == '\U{85}' || c == '\U{A0}' || c == '\U{1680}'
    || ('\U{2000}' <= c <= '\U{200A}')
    || c == '\U{2028}' || c == '\U{2029}' || c == '\U{202F}'
    || c == '\U{205F}' || c == '\U{3000}'
  }

  predicate AllSpace(s: string)
  {
    forall i :: 0 <= i < |s| ==> IsSpace(s[i])
  }

  /** Neither end of `s` is whitespace (vacuously so when `s` is empty). */
  predicate Trimmed(s: string)
  {
    |s| == 0 || (!IsSpace(s[0]) && !IsSpace(s[|s| - 1]))
  }

  /** `s` without its leading whitespace. */
  function StripLeft(s: string): (r: string)
    ensures |r| <= |s| && r == s[|s| - |r|..]
    ensures AllSpace(s[..|s| - |r|])
    ensures |r| == 0 || !IsSpace(r[0])
    decreases |s|
  {
    if |s| > 0 && IsSpace(s[0]) then
      var r := StripLeft(s[1..]);
      assert s[..|s| - |r|] == [s[0]] + s[1..][..|s| - 1 - |r|];
      r
    else s
  }

  /** `s` without its trailing whitespace. */
  function StripRight(s: string): (r: string)
    ensures |r| <= |s| && r == s[..|r|]
    ensures AllSpace(s[|r|..])
    ensures |r| == 0 || !IsSpace(r[|r| - 1])
    decreases |s|
  {
    if |s| > 0 && IsSpace(s[|s| - 1]) then
      var r := StripRight(s[..|s| - 1]);
      assert s[|r|..] == s[..|s| - 1][|r|..] + [s[|s| - 1]];
      r
    else s
  }

  /** Python's `s.strip()`: the slice of `s` left once the whitespace at
      both ends is cut away. */
  function Strip(s: string): (r: string)
    ensures Trimmed(r)
    ensures exists i, j :: 0 <= i <= j <= |s| && r == s[i..j] && AllSpace(s[..i]) && AllSpace(s[j..])
  {
    var l := StripLeft(s);
    var r := StripRight(l);
    StripBothEnds(s, l, r);
    r
  }

  /** The two halves of `Strip` put together, on named intermediate
      results. */
  lemma StripBothEnds(s: string, l: string, r: string)
    requires |l| <= |s| && l == s[|s| - |l|..]
    requires |l| == 0 || !IsSpace(l[0])
    requires |r| <= |l| && r == l[..|r|]
    requires AllSpace(l[|r|..])
    requires |r| == 0 || !IsSpace(r[|r| - 1])
    ensures Trimmed(r)
    ensures r == s[|s| - |l|..|s| - |l| + |r|]
    ensures AllSpace(s[|s| - |l| + |r|..])
  {
    var i := |s| - |l|;
    var j := i + |r|;
    assert l[|r|..] == s[j..];
    if |r| > 0 {
      assert r[0] == l[0];
    }
  }

  lemma {:induction false} StripLeftPadded(a: string, b: string)
    requires AllSpace(a)
    requires |b| == 0 || !IsSpace(b[0])
    ensures StripLeft(a + b) == b
    decreases |a|
  {
    if |a| == 0 {
      assert a + b == b;
    } else {
      assert (a + b)[1..] == a[1..] + b;
      StripLeftPadded(a[1..], b);
    }
  }

  lemma {:induction false} StripRightPadded(b: string, c: string)
    requires AllSpace(c)
    requires |b| == 0 || !IsSpace(b[|b| - 1])
    ensures StripRight(b + c) == b
    decreases |c|
  {
    if |c| == 0 {
      assert b + c == b;
    } else {
      assert (b + c)[..|b + c| - 1] == b + c[..|c| - 1];
      StripRightPadded(b, c[..|c| - 1]);
    }
  }

  /** The strip is determined by what it keeps: a trimmed text between two
      runs of whitespace strips to itself, and no other way. */
  lemma StripPadded(a: string, b: string, c: string)
    requires AllSpace(a) && AllSpace(c) && Trimmed(b)
    ensures Strip(a + b + c) == b
  {
    if |b| == 0 {
      assert a + b + c == a + c;
      StripLeftPadded(a + c, "");
      assert a + c + "" == a + c;
      assert StripLeft(a + c) == "";
    } else {
      assert a + b + c == a + (b + c);
      StripLeftPadded(a, b + c);
      StripRightPadded(b, c);
    }
  }

  /** Stripping twice changes nothing more. */
  lemma StripIdempotent(s: string)
    ensures Strip(Strip(s)) == Strip(s)
  {
    var r := Strip(s);
    assert "" + r + "" == r;
    StripPadded("", r, "");
  }

  /* ---------------------------------------------------------------------- */
  /* IRC case folding (section 2.2 of RFC 1459)                             */
  /* ---------------------------------------------------------------------- */

  /** The characters that have a distinct lower-case form. */
  predicate IsUpper(c: char)
  {
    ('A' <= c <= 'Z') || c == '[' || c == ']' || c == '\\'
  }

  /** The lower-case form of one character. */
  function FoldChar(c: char): (d: char)
    ensures !IsUpper(d)
    ensures d != c <==> IsUpper(c)
    ensures 'A' <= c <= 'Z' ==> d as int == c as int + 32
    ensures c == '[' ==> d == '{'
    ensures c == ']' ==> d == '}'
    ensures c == '\\' ==> d == '|'
  {
    if 'A' <= c <= 'Z' then (c as int + 32) as char
    else if c == '[' then '{'
    else if c == ']' then '}'
    else if c == '\\' then '|'
    else c
  }

  /** The lower-case form of a whole string, character by character. */
  function Lower(s: string): (r: string)
    ensures |r| == |s|
    decreases |s|
  {
    if |s| == 0 then "" else [FoldChar(s[0])] + Lower(s[1..])
  }

  /** Folding works position by position. */
  lemma {:induction false} LowerAt(s: string)
    ensures forall i :: 0 <= i < |s| ==> Lower(s)[i] == FoldChar(s[i])
    decreases |s|
  {
    if |s| > 0 {
      LowerAt(s[1..]);
      forall i | 1 <= i < |s|
        ensures Lower(s)[i] == FoldChar(s[i])
      {
        assert Lower(s)[i] == Lower(s[1..])[i - 1];
      }
    }
  }

  predicate IsFolded(s: string)
  {
    forall i :: 0 <= i < |s| ==> !IsUpper(s[i])
  }

  /** Folding yields a folded string, leaves folded strings alone and so is
      idempotent. */
  lemma LowerFolds(s: string)
    ensures |Lower(s)| == |s|
    ensures IsFolded(Lower(s))
    ensures IsFolded(s) ==> Lower(s) == s
    ensures Lower(Lower(s)) == Lower(s)
  {
    var l := Lower(s);
    LowerAt(s);
    LowerAt(l);
    assert IsFolded(l);
    if IsFolded(s) {
      assert forall i :: 0 <= i < |s| ==> l[i] == s[i];
    }
    assert forall i :: 0 <= i < |l| ==> Lower(l)[i] == l[i];
  }

  /** Two characters fold together exactly when they are equal or one is
      the upper-case form of the other. */
  lemma FoldCharSame(x: char, y: char)
    ensures FoldChar(x) == FoldChar(y) <==>
      x == y || (IsUpper(x) && FoldChar(x) == y) || (IsUpper(y) && FoldChar(y) == x)
  {
  }

  /** Two strings fold together exactly when they have the same length and
      fold together position by position. */
  lemma LowerSame(a: string, b: string)
    ensures Lower(a) == Lower(b) <==>
      |a| == |b| && forall i :: 0 <= i < |a| ==> FoldChar(a[i]) == FoldChar(b[i])
  {
    var la, lb := Lower(a), Lower(b);
    LowerAt(a);
    LowerAt(b);
    if |a| == |b| && forall i :: 0 <= i < |a| ==> FoldChar(a[i]) == FoldChar(b[i]) {
      assert |la| == |lb|;
      assert forall i :: 0 <= i < |la| ==> la[i] == lb[i];
      assert la == lb;
    }
    if la == lb {
      forall i | 0 <= i < |a|
        ensures FoldChar(a[i]) == FoldChar(b[i])
      {
        assert la[i] == lb[i];
      }
    }
  }
}
