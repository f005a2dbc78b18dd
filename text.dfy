// String primitives of Python that the retrieval pipeline relies on:
// `str.isspace`, `str.strip`, `sep.join(parts)` and the substring test
// `k in s`.  Strings are sequences of Unicode code points, as in Python 3.

module Text {

  /** Python's `str.isspace()`, which is also what `\s` matches in a `str`
      pattern and what `str.strip()` removes: tab, line feed, vertical tab,
      form feed, carriage return, the four information separators
      U+001C..U+001F, space, NEL, no-break space, the Ogham space mark,
      the typographic spaces U+2000..U+200A, the line and paragraph
      separators, the narrow no-break space, the medium mathematical space
      and the ideographic space. */
  predicate IsSpace(c: char) {
    || ('\t' <= c <= '\r')
    || ('\U{1C}' <= c <= ' ')
    || c == '\U{85}' || c == '\U{A0}' || c == '\U{1680}'
    || ('\U{2000}' <= c <= '\U{200A}')
    || c == '\U{2028}' || c == '\U{2029}' || c == '\U{202F}'
    || c == '\U{205F}' || c == '\U{3000}'
  }

  predicate AllSpace(s: string) {
    forall k :: 0 <= k < |s| ==> IsSpace(s[k])
  }

  /** Neither starts nor ends with whitespace (the empty string included). */
  predicate IsTrimmed(s: string) {
    s == [] || (!IsSpace(s[0]) && !IsSpace(s[|s| - 1]))
  }

  /** The first index at or after `i` that does not hold whitespace. */
  function SkipSpace(s: string, i: nat): (j: nat)
    requires i <= |s|
    ensures i <= j <= |s|
    ensures j == |s| || !IsSpace(s[j])
    ensures forall k :: i <= k < j ==> IsSpace(s[k])
    decreases |s| - i
  {
    if i < |s| && IsSpace(s[i]) then SkipSpace(s, i + 1) else i
  }

  /** Moving back from `j`, but not before `lo`: the index just after the
      last character in `s[lo..j]` that is not whitespace. */
  function SkipSpaceBack(s: string, lo: nat, j: nat): (e: nat)
    requires lo <= j <= |s|
    ensures lo <= e <= j
    ensures e == lo || !IsSpace(s[e - 1])
    ensures forall k :: e <= k < j ==> IsSpace(s[k])
    decreases j
  {
    if lo < j && IsSpace(s[j - 1]) then SkipSpaceBack(s, lo, j - 1) else j
  }

  /** Where `s.strip()` begins in `s`. */
  function StripStart(s: string): nat
    ensures StripStart(s) <= |s|
  {
    SkipSpace(s, 0)
  }

  /** Where `s.strip()` ends in `s`. */
  function StripEnd(s: string): nat
    ensures StripStart(s) <= StripEnd(s) <= |s|
  {
    SkipSpaceBack(s, StripStart(s), |s|)
  }

  /** `s.strip()`: `s` without the whitespace at both ends.  Only whitespace
      lies outside the slice it returns. */
  function Strip(s: string): (r: string)
    ensures IsTrimmed(r)
    ensures r == s[StripStart(s)..StripEnd(s)]
    ensures forall k :: 0 <= k < StripStart(s) || StripEnd(s) <= k < |s| ==> IsSpace(s[k])
    ensures r == [] <==> AllSpace(s)
  {
    s[StripStart(s)..StripEnd(s)]
  }

  /** Stripping a string that is already trimmed changes nothing. */
  lemma StripTrimmed(s: string)
    requires IsTrimmed(s)
    ensures Strip(s) == s
  {
  }

  /** Python's `sep.join(parts)`. */
  function Join(sep: string, parts: seq<string>): string {
    if |parts| == 0 then ""
    else if |parts| == 1 then parts[0]
    else parts[0] + sep + Join(sep, parts[1..])
  }

  /** Joining one more part appends the separator and the part. */
  lemma {:induction false} JoinSnoc(sep: string, parts: seq<string>, x: string)
    ensures Join(sep, parts + [x]) == if parts == [] then x else Join(sep, parts) + sep + x
  {
    if |parts| > 1 {
      assert (parts + [x])[1..] == parts[1..] + [x];
      JoinSnoc(sep, parts[1..], x);
    } else if |parts| == 1 {
      assert (parts + [x])[1..] == [x];
    }
  }

  /** Python's `k in s` for strings: `k` occurs as a contiguous substring. */
  predicate Contains(s: string, k: string) {
    k <= s || (s != [] && Contains(s[1..], k))
  }

  /** The concatenation of a sequence of sequences, such as the chunks of
      a text read one after the other. */
  function Flatten<T>(xss: seq<seq<T>>): seq<T> {
    if xss == [] then [] else Flatten(xss[..|xss| - 1]) + xss[|xss| - 1]
  }

  lemma {:induction false} FlattenCons<T>(x: seq<T>, xss: seq<seq<T>>)
    ensures Flatten([x] + xss) == x + Flatten(xss)
    decreases |xss|
  {
    if xss == [] {
      assert [x] + xss == [x];
      assert [x][..0] == [];
    } else {
      var init := xss[..|xss| - 1];
      assert ([x] + xss)[..|xss|] == [x] + init;
      FlattenCons(x, init);
    }
  }

  /** An element of a concatenation comes from element `m` of part `p`. */
  lemma {:induction false} FlattenOrigin<T>(xss: seq<seq<T>>, k: nat) returns (p: nat, m: nat)
    requires k < |Flatten(xss)|
    ensures p < |xss| && m < |xss[p]| && Flatten(xss)[k] == xss[p][m]
    decreases |xss|
  {
    var init := xss[..|xss| - 1];
    if k < |Flatten(init)| {
      p, m := FlattenOrigin(init, k);
    } else {
      p, m := |xss| - 1, k - |Flatten(init)|;
    }
  }

  /** The characters of `s` that are not whitespace, in their order. */
  function NonSpace(s: string): string {
    if s == [] then [] else (if IsSpace(s[0]) then [] else [s[0]]) + NonSpace(s[1..])
  }

  lemma {:induction false} NonSpaceConcat(a: string, b: string)
    ensures NonSpace(a + b) == NonSpace(a) + NonSpace(b)
    decreases |a|
  {
    if a == [] {
      assert a + b == b;
    } else {
      assert (a + b)[1..] == a[1..] + b;
      NonSpaceConcat(a[1..], b);
    }
  }

  lemma {:induction false} NonSpaceAllSpace(s: string)
    requires AllSpace(s)
    ensures NonSpace(s) == []
    decreases |s|
  {
    if s != [] {
      assert AllSpace(s[1..]) by {
        forall k | 0 <= k < |s| - 1 ensures IsSpace(s[1..][k]) {
          assert s[1..][k] == s[k + 1];
        }
      }
      NonSpaceAllSpace(s[1..]);
    }
  }

  /** Dropping a run of whitespace from the front of a suffix leaves its
      other characters as they were. */
  lemma NonSpaceSkip(s: string, i: nat, j: nat)
    requires i <= j <= |s|
    requires forall k :: i <= k < j ==> IsSpace(s[k])
    ensures NonSpace(s[i..]) == NonSpace(s[j..])
  {
    assert s[i..] == s[i..j] + s[j..];
    NonSpaceConcat(s[i..j], s[j..]);
    assert AllSpace(s[i..j]) by {
      forall k | 0 <= k < j - i ensures IsSpace(s[i..j][k]) {
        assert s[i..j][k] == s[i + k];
      }
    }
    NonSpaceAllSpace(s[i..j]);
  }

  /** Dropping trailing whitespace leaves the other characters as they
      were. */
  lemma NonSpaceTrailing(s: string, e: nat)
    requires e <= |s|
    requires forall k :: e <= k < |s| ==> IsSpace(s[k])
    ensures NonSpace(s[..e]) == NonSpace(s)
  {
    assert s == s[..e] + s[e..];
    NonSpaceConcat(s[..e], s[e..]);
    NonSpaceSkip(s, e, |s|);
    assert s[|s|..] == [];
  }

  /** `strip()` removes whitespace only. */
  lemma NonSpaceStrip(s: string)
    ensures NonSpace(Strip(s)) == NonSpace(s)
  {
    var a, e := StripStart(s), StripEnd(s);
    NonSpaceSkip(s, 0, a);
    assert s[0..] == s;
    var u := s[a..];
    assert u[..e - a] == Strip(s);
    forall k | e - a <= k < |u| ensures IsSpace(u[k]) {
      assert u[k] == s[a + k];
    }
    NonSpaceTrailing(u, e - a);
  }
}

// Python's `str.lower()`.

module CaseFold {

  /** The lower case of one code point, where it is one code point: ASCII
      capitals; the Latin-1 capitals U+00C0..U+00DE except the
      multiplication sign; the capitals of Latin Extended-A, Ő and Ű among
      them (the even code points of U+0100..U+012F, U+0132..U+0137 and
      U+014A..U+0177, the odd ones of U+0139..U+0148 and U+0179..U+017E,
      and Ÿ); the Kelvin sign, which lowers to `k`; and the Ångström sign.
      Every other code point is left as it is. */
  function LowerChar(c: char): char {
    if ('A' <= c <= 'Z') || ('\U{C0}' <= c <= '\U{DE}' && c != '\U{D7}') then
      (c as int + 32) as char
    else if (('\U{100}' <= c <= '\U{12F}') || ('\U{132}' <= c <= '\U{137}') || ('\U{14A}' <= c <= '\U{177}'))
            && c as int % 2 == 0 then
      (c as int + 1) as char
    else if (('\U{139}' <= c <= '\U{148}') || ('\U{179}' <= c <= '\U{17E}')) && c as int % 2 == 1 then
      (c as int + 1) as char
    else if c == '\U{178}' then '\U{FF}'
    else if c == '\U{212A}' then 'k'
    else if c == '\U{212B}' then '\U{E5}'
    else c
  }

  /** The lower case of one code point.  İ (U+0130) is the one code point
      whose lower case is two: `i` and the combining dot above. */
  function LowerCodePoint(c: char): string {
    if c == '\U{130}' then "i\U{307}" else [LowerChar(c)]
  }

  /** `s.lower()`: the lower cases of its code points, in order. */
  function Lower(s: string): string {
    if s == [] then [] else Lower(s[..|s| - 1]) + LowerCodePoint(s[|s| - 1])
  }

  /** Lower-casing works code point by code point: the lower case of a
      concatenation is the concatenation of the lower cases. */
  lemma {:induction false} LowerConcat(a: string, b: string)
    ensures Lower(a + b) == Lower(a) + Lower(b)
    decreases |b|
  {
    if b == [] {
      assert a + b == a;
    } else {
      var init := b[..|b| - 1];
      assert (a + b)[..|a + b| - 1] == a + init;
      LowerConcat(a, init);
    }
  }

  /** Without İ, lower-casing keeps the length and maps each code point on
      its own. */
  lemma {:induction false} LowerPointwise(s: string)
    requires forall k :: 0 <= k < |s| ==> s[k] != '\U{130}'
    ensures |Lower(s)| == |s|
    ensures forall k :: 0 <= k < |s| ==> Lower(s)[k] == LowerChar(s[k])
    decreases |s|
  {
    if s != [] {
      var init := s[..|s| - 1];
      assert forall k :: 0 <= k < |init| ==> init[k] == s[k];
      LowerPointwise(init);
    }
  }
}
