/**
  The handful of JavaScript string operations the bot relies on, stated over
  `string` (a `seq<char>`): `String.prototype.trim`, `split` with a
  one-character separator, `slice(0, n)` and `includes`.
 */
module JsText {

  /** ECMAScript WhiteSpace and LineTerminator code points: the characters
      `trim` removes (tab, vertical tab, form feed, space, no-break space,
      byte-order mark, the other Zs space separators, LF, CR, LS, PS). */
  predicate IsWhitespace(c: char) {
    var n := c as int;
    || n == 0x09 || n == 0x0A || n == 0x0B || n == 0x0C || n == 0x0D
    || n == 0x20 || n == 0xA0 || n == 0x1680
    || (0x2000 <= n <= 0x200A)
    || n == 0x2028 || n == 0x2029 || n == 0x202F || n == 0x205F
    || n == 0x3000 || n == 0xFEFF
  }

  /** The same set, listed code point by code point. */
  const WhitespaceCodes: set<int> :=
    {0x09, 0x0A, 0x0B, 0x0C, 0x0D, 0x20, 0xA0, 0x1680,
     0x2000, 0x2001, 0x2002, 0x2003, 0x2004, 0x2005, 0x2006, 0x2007, 0x2008, 0x2009, 0x200A,
     0x2028, 0x2029, 0x202F, 0x205F, 0x3000, 0xFEFF}

  lemma WhitespaceCodePoints(c: char)
    ensures IsWhitespace(c) <==> c as int in WhitespaceCodes
  {
  }

  predicate AllWhitespace(s: string) {
    forall i :: 0 <= i < |s| ==> IsWhitespace(s[i])
  }

  /** A text is all whitespace exactly when each of its parts is. */
  lemma AllWhitespaceConcat(a: string, c: char, b: string)
    ensures AllWhitespace(a + [c] + b) <==> AllWhitespace(a) && IsWhitespace(c) && AllWhitespace(b)
  {
    var s := a + [c] + b;
    assert forall j :: 0 <= j < |a| ==> s[j] == a[j];
    assert forall j :: 0 <= j < |b| ==> s[|a| + 1 + j] == b[j];
    assert s[|a|] == c;
  }

  /** The first index at or after `i` that holds no whitespace, or `|s|`
      when there is none: where the text left after leading whitespace starts. */
  function TextStart(s: string, i: nat): (k: nat)
    requires i <= |s|
    ensures i <= k <= |s|
    ensures forall j :: i <= j < k ==> IsWhitespace(s[j])
    ensures k < |s| ==> !IsWhitespace(s[k])
    decreases |s| - i
  {
    if i < |s| && IsWhitespace(s[i]) then TextStart(s, i + 1) else i
  }

  /** The end of the text left in `s[lo..hi]` once its trailing whitespace is
      dropped: every character from there up to `hi` is whitespace, and the
      one just before it is not (unless nothing is left). */
  function TextEnd(s: string, lo: nat, hi: nat): (k: nat)
    requires lo <= hi <= |s|
    ensures lo <= k <= hi
    ensures forall j :: k <= j < hi ==> IsWhitespace(s[j])
    ensures k > lo ==> !IsWhitespace(s[k - 1])
    decreases hi - lo
  {
    if hi > lo && IsWhitespace(s[hi - 1]) then TextEnd(s, lo, hi - 1) else hi
  }

  /** `r` is the window `s[lo..lo + |r|]` with only whitespace on either side
      of it and no whitespace at either of its own ends. */
  ghost predicate TrimWindow(s: string, lo: int, r: string) {
    && 0 <= lo <= lo + |r| <= |s|
    && r == s[lo..lo + |r|]
    && (forall i :: 0 <= i < lo ==> IsWhitespace(s[i]))
    && (forall i :: lo + |r| <= i < |s| ==> IsWhitespace(s[i]))
    && (r != [] ==> !IsWhitespace(r[0]) && !IsWhitespace(r[|r| - 1]))
  }

  /** `String.prototype.trim`: `s` with its leading and trailing whitespace
      removed (see `TrimIsWindow` and `TrimWindowUnique`). */
  function Trim(s: string): (r: string)
    ensures |r| <= |s|
    ensures r == [] <==> AllWhitespace(s)
    ensures r != [] ==> !IsWhitespace(r[0]) && !IsWhitespace(r[|r| - 1])
  {
    var lo := TextStart(s, 0);
    s[lo..TextEnd(s, lo, |s|)]
  }

  /** What `Trim` keeps is the window starting at the first non-whitespace
      character. */
  lemma TrimAt(s: string)
    ensures TrimWindow(s, TextStart(s, 0), Trim(s))
  {
    var lo := TextStart(s, 0);
    var hi := TextEnd(s, lo, |s|);
    var r := s[lo..hi];
    assert |r| == hi - lo;
    if r != [] {
      assert r[0] == s[lo] && r[|r| - 1] == s[hi - 1];
    }
  }

  /** Trimming leaves nothing exactly when the string is all whitespace. */
  lemma TrimEmptyIff(s: string)
    ensures Trim(s) == [] <==> AllWhitespace(s)
  {
    TrimAt(s);
    WindowEmptyIff(s, TextStart(s, 0), Trim(s));
  }

  /** A window of the `TrimWindow` shape is empty exactly when the whole
      string is whitespace. */
  lemma WindowEmptyIff(s: string, lo: int, r: string)
    requires TrimWindow(s, lo, r)
    ensures r == [] <==> AllWhitespace(s)
  {
    if r != [] {
      assert s[lo] == r[0];
    }
  }

  /** What `Trim` keeps is a window with whitespace only outside it and
      non-whitespace at both its ends. */
  lemma TrimIsWindow(s: string)
    ensures exists lo :: TrimWindow(s, lo, Trim(s))
  {
    TrimAt(s);
  }

  /** Two windows of the shape `TrimWindow` describes are the same window:
      both start at the first non-whitespace character and end at the last. */
  lemma WindowsAgree(s: string, lo: int, r: string, lo': int, r': string)
    requires TrimWindow(s, lo, r) && TrimWindow(s, lo', r')
    ensures r == r'
  {
    if r != [] && r' != [] {
      assert s[lo] == r[0] && s[lo'] == r'[0];
      assert lo == lo';
      var hi, hi' := lo + |r|, lo' + |r'|;
      assert s[hi - 1] == r[|r| - 1] && s[hi' - 1] == r'[|r'| - 1];
      assert hi == hi';
    } else {
      assert r == [] ==> AllWhitespace(s);
      assert r' == [] ==> AllWhitespace(s);
    }
  }

  /** Any window of the shape `TrimWindow` describes is the one `Trim` returns:
      trimming has exactly one possible result. */
  lemma TrimWindowUnique(s: string, lo: int, r: string)
    requires TrimWindow(s, lo, r)
    ensures Trim(s) == r
  {
    TrimAt(s);
    WindowsAgree(s, TextStart(s, 0), Trim(s), lo, r);
  }

  /** Trimming an already trimmed string changes nothing. */
  lemma TrimIdempotent(s: string)
    ensures Trim(Trim(s)) == Trim(s)
  {
    var r := Trim(s);
    assert TrimWindow(r, 0, r);
    TrimWindowUnique(r, 0, r);
  }

  /** A string with no whitespace at either end is its own trim. */
  lemma TrimOfTrimmed(s: string)
    requires s != [] ==> !IsWhitespace(s[0]) && !IsWhitespace(s[|s| - 1])
    ensures Trim(s) == s
  {
    assert TrimWindow(s, 0, s);
    TrimWindowUnique(s, 0, s);
  }

  /** Every character `Trim` keeps comes from `s`. */
  lemma TrimKeepsContents(s: string)
    ensures forall c :: c in Trim(s) ==> c in s
  {
    var lo := TextStart(s, 0);
    SliceContents(s, lo, lo + |Trim(s)|);
  }

  lemma SliceContents(s: string, lo: int, hi: int)
    requires 0 <= lo <= hi <= |s|
    ensures forall c :: c in s[lo..hi] ==> c in s
  {
    forall c | c in s[lo..hi] ensures c in s {
      var k :| 0 <= k < hi - lo && s[lo..hi][k] == c;
      assert s[lo + k] == c;
    }
  }

  /** `s.split(sep)` for a one-character separator: the text between
      consecutive separators, always at least one (possibly empty) piece. */
  function Split(s: string, sep: char): (parts: seq<string>)
    ensures |parts| >= 1
    ensures forall k :: 0 <= k < |parts| ==> sep !in parts[k]
    decreases |s|
  {
    if s == [] then [[]]
    else
      var rest := Split(s[1..], sep);
      if s[0] == sep then [[]] + rest
      else [[s[0]] + rest[0]] + rest[1..]
  }

  /** Joining the pieces with the separator gives back the split string. */
  lemma {:induction false} JoinSplit(s: string, sep: char)
    ensures Join(Split(s, sep), sep) == s
    decreases |s|
  {
    if s != [] {
      JoinSplit(s[1..], sep);
      var rest := Split(s[1..], sep);
      assert s == [s[0]] + s[1..];
      if s[0] == sep {
        assert ([[]] + rest)[1..] == rest;
      } else {
        var parts := [[s[0]] + rest[0]] + rest[1..];
        assert |rest| > 1 ==> parts[1..] == rest[1..];
      }
    }
  }

  /** `parts.join(sep)`. */
  function Join(parts: seq<string>, sep: char): string
  {
    if |parts| == 0 then []
    else if |parts| == 1 then parts[0]
    else parts[0] + [sep] + Join(parts[1..], sep)
  }

  /** A string without the separator is a single piece. */
  lemma {:induction false} SplitWithoutSeparator(s: string, sep: char)
    requires sep !in s
    ensures Split(s, sep) == [s]
    decreases |s|
  {
    if s != [] {
      SplitWithoutSeparator(s[1..], sep);
      assert s == [s[0]] + s[1..];
    }
  }

  /** Splitting at one separator occurrence splits the two sides
      independently: the pieces of `a` come first, then those of `b`. */
  lemma {:induction false} SplitConcat(a: string, b: string, sep: char)
    ensures Split(a + [sep] + b, sep) == Split(a, sep) + Split(b, sep)
    decreases |a|
  {
    var s := a + [sep] + b;
    if a == [] {
      assert s[1..] == b;
    } else {
      assert s[0] == a[0];
      assert s[1..] == a[1..] + [sep] + b;
      SplitConcat(a[1..], b, sep);
      var ra, rb := Split(a[1..], sep), Split(b, sep);
      assert Split(s[1..], sep) == ra + rb;
      if a[0] != sep {
        assert (ra + rb)[0] == ra[0];
        assert (ra + rb)[1..] == ra[1..] + rb;
        assert Split(s, sep) == [[a[0]] + ra[0]] + (ra[1..] + rb);
        assert Split(a, sep) == [[a[0]] + ra[0]] + ra[1..];
        ConcatAssoc([[a[0]] + ra[0]], ra[1..], rb);
      } else {
        assert Split(s, sep) == [[]] + (ra + rb);
        assert Split(a, sep) == [[]] + ra;
        ConcatAssoc([[]], ra, rb);
      }
    }
  }

  lemma ConcatAssoc<T>(x: seq<T>, y: seq<T>, z: seq<T>)
    ensures x + (y + z) == (x + y) + z
  {
  }

  /** Every character of every piece comes from the split string. */
  lemma {:induction false} SplitKeepsContents(s: string, sep: char)
    ensures forall k, c :: 0 <= k < |Split(s, sep)| && c in Split(s, sep)[k] ==> c in s
    decreases |s|
  {
    if s != [] {
      SplitKeepsContents(s[1..], sep);
      var rest := Split(s[1..], sep);
      forall k, c | 0 <= k < |Split(s, sep)| && c in Split(s, sep)[k] ensures c in s {
        var j := if s[0] == sep then k - 1 else k;
        assert c == s[0] || (0 <= j < |rest| && c in rest[j]);
        if c != s[0] {
          assert c in s[1..];
        }
      }
    }
  }

  /** `join` followed by `split` gives back the pieces, provided none of them
      contains the separator. */
  lemma {:induction false} SplitJoin(parts: seq<string>, sep: char)
    requires |parts| >= 1
    requires forall k :: 0 <= k < |parts| ==> sep !in parts[k]
    ensures Split(Join(parts, sep), sep) == parts
    decreases |parts|
  {
    SplitWithoutSeparator(parts[0], sep);
    if |parts| > 1 {
      SplitJoin(parts[1..], sep);
      SplitConcat(parts[0], Join(parts[1..], sep), sep);
      assert parts == [parts[0]] + parts[1..];
    }
  }

  /** `s.slice(0, n)` for `n >= 0`: the first `min(n, |s|)` characters. */
  function Prefix(s: string, n: nat): (r: string)
    ensures |r| == if n < |s| then n else |s|
    ensures r <= s
    ensures forall c :: c in r ==> c in s
  {
    if n < |s| then s[..n] else s
  }

  /** `s.includes(pattern)`: `pattern` occurs somewhere in `s`. */
  predicate Includes(s: string, pattern: string) {
    exists i :: 0 <= i <= |s| && pattern <= s[i..]
  }

  /** A pattern placed anywhere inside a text is found. */
  lemma IncludesInfix(a: string, pattern: string, b: string)
    ensures Includes(a + pattern + b, pattern)
  {
    var s := a + pattern + b;
    assert s[|a|..] == pattern + b;
  }

  /** A text only includes patterns no longer than itself. */
  lemma IncludesLength(s: string, pattern: string)
    ensures Includes(s, pattern) ==> |pattern| <= |s|
  {
  }
}
