/** The few Python string builtins the unit parser relies on: `str.isspace`
    (per character), `str.strip()` with no argument, `in` on a one-character
    separator, and `str.split(sep, 1)`. Strings are sequences of code points. */
module PyString {

  /** Python's `str.isspace()` on a single code point: the ASCII controls
      TAB..CR and FS..US, SPACE, and the Unicode separators that Python
      classifies as whitespace. `str.strip()` removes exactly these. */
  predicate IsSpace(c: char)
  {
    c == ' ' || ('\t' <= c <= '\r') || ('\U{1C}' <= c <= '\U{1F}')
    || c == '\U{85}' || c == '\U{A0}' || c == '\U{1680}'
    || ('\U{2000}' <= c <= '\U{200A}')
    || c == '\U{2028}' || c == '\U{2029}' || c == '\U{202F}'
    || c == '\U{205F}' || c == '\U{3000}'
  }

  predicate AllSpace(s: string)
  {
    forall i :: 0 <= i < |s| ==> IsSpace(s[i])
  }

  /** Neither the first nor the last character is whitespace (vacuous for ""). */
  predicate Trimmed(s: string)
  {
    s == [] || (!IsSpace(s[0]) && !IsSpace(s[|s| - 1]))
  }

  /** The first position at or after `i` that is not whitespace, or `|s|`. */
  function SkipSpaceForward(s: string, i: nat): (k: nat)
    requires i <= |s|
    ensures i <= k <= |s|
    ensures forall m :: i <= m < k ==> IsSpace(s[m])
    ensures k < |s| ==> !IsSpace(s[k])
    decreases |s| - i
  {
    if i < |s| && IsSpace(s[i]) then SkipSpaceForward(s, i + 1) else i
  }

  /** Moving down from `j` but not below `lo`, the end of the last character
      that is not whitespace, or `lo`. */
  function SkipSpaceBackward(s: string, lo: nat, j: nat): (k: nat)
    requires lo <= j <= |s|
    ensures lo <= k <= j
    ensures forall m :: k <= m < j ==> IsSpace(s[m])
    ensures k > lo ==> !IsSpace(s[k - 1])
    decreases j
  {
    if j > lo && IsSpace(s[j - 1]) then SkipSpaceBackward(s, lo, j - 1) else j
  }

  /** `lead` whitespace characters, then `r`, then only whitespace make up `s`. */
  ghost predicate StripsTo(s: string, lead: nat, r: string)
  {
    lead + |r| <= |s| && s[lead..lead + |r|] == r
    && (forall m :: 0 <= m < lead ==> IsSpace(s[m]))
    && (forall m :: lead + |r| <= m < |s| ==> IsSpace(s[m]))
  }

  /** `s.strip()`: `s` with its leading and trailing whitespace removed and
      nothing else changed. As in CPython, the start moves forward past
      whitespace, then the end moves back, never past the start. */
  function Strip(s: string): (r: string)
    ensures Trimmed(r)
    ensures StripsTo(s, SkipSpaceForward(s, 0), r)
  {
    var i := SkipSpaceForward(s, 0);
    var j := SkipSpaceBackward(s, i, |s|);
    assert j > i ==> !IsSpace(s[i]);
    s[i..j]
  }

  /** A string of whitespace only strips to the empty string. */
  lemma StripAllSpace(s: string)
    requires AllSpace(s)
    ensures Strip(s) == []
  {
  }

  /** Strip is characterised independently of how it is computed: whatever
      whitespace surrounds a trimmed core, stripping yields exactly that core. */
  lemma StripUnique(a: string, m: string, b: string)
    requires AllSpace(a) && AllSpace(b) && Trimmed(m)
    ensures Strip(a + m + b) == m
  {
    var s := a + m + b;
    if m == [] {
      assert AllSpace(s) by {
        forall k | 0 <= k < |s| ensures IsSpace(s[k]) {
          if k < |a| { assert s[k] == a[k]; } else { assert s[k] == b[k - |a|]; }
        }
      }
      StripAllSpace(s);
    } else {
      var i := SkipSpaceForward(s, 0);
      assert i == |a| by {
        assert s[|a|] == m[0];
        assert forall k :: 0 <= k < |a| ==> s[k] == a[k];
      }
      var j := SkipSpaceBackward(s, i, |s|);
      assert j == |a| + |m| by {
        assert s[|a| + |m| - 1] == m[|m| - 1];
        assert forall k :: |a| + |m| <= k < |s| ==> s[k] == b[k - |a| - |m|];
      }
      assert s[i..j] == m;
    }
  }

  /** Stripping twice is the same as stripping once. */
  lemma StripIdempotent(s: string)
    ensures Strip(Strip(s)) == Strip(s)
  {
    var r := Strip(s);
    assert r == [] + r + [];
    StripUnique([], r, []);
  }

  /** Every character of `s.strip()` is a character of `s`. */
  lemma StripKeepsOnlyOwnChars(s: string, c: char)
    requires c !in s
    ensures c !in Strip(s)
  {
  }

  /** `s.find(c)` for a one-character `c`, except that "not found" is `|s|`
      rather than -1: the first position holding `c`. */
  function IndexOf(s: string, c: char): (i: nat)
    ensures i <= |s|
    ensures c !in s[..i]
    ensures i < |s| ==> s[i] == c
  {
    if s == [] || s[0] == c then 0
    else
      var i := 1 + IndexOf(s[1..], c);
      assert s[..i] == [s[0]] + s[1..][..i - 1];
      i
  }

  lemma IndexOfAbsent(s: string, c: char)
    ensures IndexOf(s, c) == |s| <==> c !in s
  {
    var i := IndexOf(s, c);
    assert s[..|s|] == s;
  }

  /** `s.split(sep, 1)` for a one-character separator: `[s]` when `sep` does
      not occur, otherwise the text before the first `sep` and everything
      after it (which may contain further separators). */
  function Split1(s: string, sep: char): (parts: seq<string>)
    ensures sep !in s ==> parts == [s]
    ensures sep in s ==> |parts| == 2 && sep !in parts[0]
    ensures sep in s ==> parts[0] + [sep] + parts[1] == s
  {
    IndexOfAbsent(s, sep);
    var i := IndexOf(s, sep);
    if i == |s| then [s]
    else
      assert s[..i] + [sep] + s[i + 1..] == s[..i] + s[i..];
      [s[..i], s[i + 1..]]
  }

  /** The split point is the FIRST separator: any decomposition of `s` around a
      separator whose left part holds no separator is the one Split1 returns. */
  lemma {:induction false} Split1Unique(p: string, sep: char, q: string)
    requires sep !in p
    ensures Split1(p + [sep] + q, sep) == [p, q]
  {
    var s := p + [sep] + q;
    assert s[|p|] == sep;
    var i := IndexOf(s, sep);
    assert i == |p|;
    assert s[..|p|] == p;
    assert s[|p| + 1..] == q;
  }
}
