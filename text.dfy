/** Python string operations the resume pipeline relies on: whitespace, lower-casing,
    strip(), split(sep), split(), substring test and decimal formatting of integers. */
module Text {

  /** The characters Python's str.isspace() accepts; str.split() and str.strip()
      with no argument cut on exactly these. */
  predicate IsSpace(c: char) {
    || c == ' '
    || ('\t' <= c <= '\r')
    || ('\U{1C}' <= c <= '\U{1F}')
    || c == '\U{85}' || c == '\U{A0}' || c == '\U{1680}'
    || ('\U{2000}' <= c <= '\U{200A}')
    || c == '\U{2028}' || c == '\U{2029}' || c == '\U{202F}' || c == '\U{205F}' || c == '\U{3000}'
  }

  /** Lower-casing of one character (ASCII letters only). */
  function LowerChar(c: char): (d: char)
    ensures 'A' <= c <= 'Z' ==> d as int == c as int + 32
    ensures !('A' <= c <= 'Z') ==> d == c
  {
    if 'A' <= c <= 'Z' then (c as int + 32) as char else c
  }

  /** str.lower(), character by character. */
  function Lower(s: string): string {
    seq(|s|, i requires 0 <= i < |s| => LowerChar(s[i]))
  }

  lemma LowerIdempotent(s: string)
    ensures Lower(Lower(s)) == Lower(s)
  {
  }

  // ---------------------------------------------------------------------------
  // strip()

  function TrimStart(s: string): (r: string)
    ensures |r| <= |s| && r == s[|s| - |r|..]
    ensures r == [] || !IsSpace(r[0])
    ensures forall i :: 0 <= i < |s| - |r| ==> IsSpace(s[i])
  {
    if s != [] && IsSpace(s[0]) then TrimStart(s[1..]) else s
  }

  function TrimEnd(s: string): (r: string)
    ensures |r| <= |s| && r == s[..|r|]
    ensures r == [] || !IsSpace(r[|r| - 1])
    ensures forall i :: |r| <= i < |s| ==> IsSpace(s[i])
  {
    if s != [] && IsSpace(s[|s| - 1]) then TrimEnd(s[..|s| - 1]) else s
  }

  /** Every character is whitespace. */
  predicate AllSpace(s: string) {
    forall i :: 0 <= i < |s| ==> IsSpace(s[i])
  }

  /** Every character is whitespace or c. */
  predicate AllSpaceOr(s: string, c: char) {
    forall i :: 0 <= i < |s| ==> IsSpace(s[i]) || s[i] == c
  }

  /** r sits in s at k with only whitespace before it and only whitespace after it. */
  predicate PaddedAt(r: string, s: string, k: nat) {
    && k + |r| <= |s|
    && r == s[k..k + |r|]
    && (forall i :: 0 <= i < k ==> IsSpace(s[i]))
    && (forall i :: k + |r| <= i < |s| ==> IsSpace(s[i]))
  }

  /** A whitespace-only head cut off s, then a whitespace-only tail cut off what is left, leaves
      r padded in s. */
  lemma PaddedByTrims(s: string, t: string, r: string)
    requires |t| <= |s| && t == s[|s| - |t|..] && forall i :: 0 <= i < |s| - |t| ==> IsSpace(s[i])
    requires |r| <= |t| && r == t[..|r|] && forall i :: |r| <= i < |t| ==> IsSpace(t[i])
    ensures PaddedAt(r, s, |s| - |t|)
    ensures OccursAt(r, s, |s| - |t|)
  {
    var k := |s| - |t|;
    assert r == s[k..k + |r|];
    forall i | k + |r| <= i < |s| ensures IsSpace(s[i]) {
      assert s[i] == t[i - k];
    }
  }

  /** str.strip(): drops whitespace at both ends and nothing else (StripPadded); the result is
      a piece of s. */
  function Strip(s: string): (r: string)
    ensures exists i: nat :: OccursAt(r, s, i)
  {
    var t := TrimStart(s);
    var r := TrimEnd(t);
    PaddedByTrims(s, t, r);
    r
  }

  /** What strip() removes is whitespace: the result sits in s with only whitespace before it
      and only whitespace after it. */
  lemma StripPadded(s: string)
    ensures exists k: nat :: PaddedAt(Strip(s), s, k)
  {
    var t := TrimStart(s);
    PaddedByTrims(s, t, TrimEnd(t));
    assert PaddedAt(Strip(s), s, |s| - |t|);
  }

  /** Neither end of a stripped string is whitespace. */
  lemma StripEnds(s: string)
    ensures Strip(s) == [] || (!IsSpace(Strip(s)[0]) && !IsSpace(Strip(s)[|Strip(s)| - 1]))
  {
    var t := TrimStart(s);
    assert Strip(s) != [] ==> Strip(s)[0] == t[0];
  }

  /** Stripping a stripped string changes nothing. */
  lemma StripIdempotent(s: string)
    ensures Strip(Strip(s)) == Strip(s)
  {
    var r := Strip(s);
    assert TrimStart(r) == r;
    assert TrimEnd(r) == r;
  }

  /** A string stays non-empty under strip() exactly when it has a non-whitespace character. */
  lemma {:induction false} StripEmptyIff(s: string)
    ensures Strip(s) == [] <==> forall i :: 0 <= i < |s| ==> IsSpace(s[i])
  {
    var t := TrimStart(s);
    if t != [] {
      assert !IsSpace(t[0]);
      assert !IsSpace(s[|s| - |t|]);
    }
  }

  // ---------------------------------------------------------------------------
  // split(sep) and its inverse sep.join(...)

  /** str.split(sep) for a one-character separator: every piece between separators,
      empty pieces included. */
  function SplitOn(s: string, sep: char): (parts: seq<string>)
    ensures |parts| >= 1
    ensures forall p :: p in parts ==> sep !in p
    decreases |s|
  {
    if s == [] then [[]]
    else
      var rest := SplitOn(s[1..], sep);
      if s[0] == sep then [[]] + rest
      else [[s[0]] + rest[0]] + rest[1..]
  }

  /** sep.join(parts). */
  function Join(parts: seq<string>, sep: char): string
    decreases |parts|
  {
    if |parts| == 0 then []
    else if |parts| == 1 then parts[0]
    else parts[0] + [sep] + Join(parts[1..], sep)
  }

  /** Every part is whitespace only exactly when their sep.join holds nothing but whitespace and
      separators. */
  lemma {:induction false} JoinBlankIff(parts: seq<string>, sep: char)
    requires forall i :: 0 <= i < |parts| ==> sep !in parts[i]
    ensures (forall i :: 0 <= i < |parts| ==> AllSpace(parts[i])) <==> AllSpaceOr(Join(parts, sep), sep)
    decreases |parts|
  {
    if |parts| == 1 {
      assert AllSpace(parts[0]) <==> AllSpaceOr(parts[0], sep);
    } else if |parts| > 1 {
      var head := parts[0];
      var rest := parts[1..];
      JoinBlankIff(rest, sep);
      var tail := Join(rest, sep);
      var j := Join(parts, sep);
      assert j == head + [sep] + tail;
      assert forall i :: 1 <= i < |parts| ==> parts[i] == rest[i - 1];
      if AllSpaceOr(j, sep) {
        forall i | 0 <= i < |head| ensures IsSpace(head[i]) {
          assert j[i] == head[i];
        }
        forall i | 0 <= i < |tail| ensures IsSpace(tail[i]) || tail[i] == sep {
          assert j[|head| + 1 + i] == tail[i];
        }
      }
      if forall i :: 0 <= i < |parts| ==> AllSpace(parts[i]) {
        assert AllSpace(head);
        forall i | 0 <= i < |j| ensures IsSpace(j[i]) || j[i] == sep {
          if i < |head| {
            assert j[i] == head[i];
          } else if i > |head| {
            assert j[i] == tail[i - |head| - 1];
          }
        }
      }
    }
  }

  /** Joining the pieces with the separator gives back the string. */
  lemma {:induction false} JoinSplitOn(s: string, sep: char)
    ensures Join(SplitOn(s, sep), sep) == s
    decreases |s|
  {
    if s != [] {
      var rest := SplitOn(s[1..], sep);
      JoinSplitOn(s[1..], sep);
      if s[0] == sep {
        assert SplitOn(s, sep) == [[]] + rest;
        assert ([[]] + rest)[1..] == rest;
      } else {
        var parts := [[s[0]] + rest[0]] + rest[1..];
        assert SplitOn(s, sep) == parts;
        if |rest| == 1 {
          assert Join(rest, sep) == rest[0];
        } else {
          assert parts[1..] == rest[1..];
          assert Join(rest, sep) == rest[0] + [sep] + Join(rest[1..], sep);
        }
      }
    }
  }

  lemma {:induction false} SplitOnNoSep(p: string, sep: char)
    requires sep !in p
    ensures SplitOn(p, sep) == [p]
    decreases |p|
  {
    if p != [] {
      SplitOnNoSep(p[1..], sep);
      assert [p[0]] + p[1..] == p;
    }
  }

  lemma {:induction false} SplitOnAfterSep(a: string, b: string, sep: char)
    requires sep !in a
    ensures SplitOn(a + [sep] + b, sep) == [a] + SplitOn(b, sep)
    decreases |a|
  {
    var s := a + [sep] + b;
    if a == [] {
      assert s[0] == sep && s[1..] == b;
    } else {
      assert s[0] == a[0] && s[1..] == a[1..] + [sep] + b;
      SplitOnAfterSep(a[1..], b, sep);
      assert [a[0]] + a[1..] == a;
    }
  }

  /** Splitting a join of separator-free pieces gives back the pieces. */
  lemma {:induction false} SplitOnJoin(parts: seq<string>, sep: char)
    requires |parts| >= 1
    requires forall i :: 0 <= i < |parts| ==> sep !in parts[i]
    ensures SplitOn(Join(parts, sep), sep) == parts
    decreases |parts|
  {
    if |parts| == 1 {
      SplitOnNoSep(parts[0], sep);
    } else {
      SplitOnJoin(parts[1..], sep);
      SplitOnAfterSep(parts[0], Join(parts[1..], sep), sep);
      assert [parts[0]] + parts[1..] == parts;
    }
  }

  // ---------------------------------------------------------------------------
  // split() with no argument

  /** Length of the longest prefix of s without whitespace. */
  function WordLength(s: string): (n: nat)
    ensures n <= |s|
    ensures forall i :: 0 <= i < n ==> !IsSpace(s[i])
    ensures n < |s| ==> IsSpace(s[n])
  {
    if s == [] || IsSpace(s[0]) then 0 else 1 + WordLength(s[1..])
  }

  /** str.split(): the maximal runs of non-whitespace characters, in order. */
  function Words(s: string): (ws: seq<string>)
    ensures forall w :: w in ws ==> w != [] && forall i :: 0 <= i < |w| ==> !IsSpace(w[i])
    decreases |s|
  {
    if s == [] then []
    else if IsSpace(s[0]) then Words(s[1..])
    else
      var n := WordLength(s);
      [s[..n]] + Words(s[n..])
  }

  /** split() finds no word exactly when the string is all whitespace. */
  lemma {:induction false} WordsEmptyIff(s: string)
    ensures Words(s) == [] <==> forall i :: 0 <= i < |s| ==> IsSpace(s[i])
    decreases |s|
  {
    if s != [] {
      WordsEmptyIff(s[1..]);
      if IsSpace(s[0]) {
        assert forall i :: 1 <= i < |s| ==> s[i] == s[1..][i - 1];
      }
    }
  }

  /** Every word split() returns is a piece of the string. */
  lemma {:induction false} WordsAreSubstrings(s: string, w: string)
    requires w in Words(s)
    ensures IsSubstring(w, s)
    decreases |s|
  {
    if IsSpace(s[0]) {
      WordsAreSubstrings(s[1..], w);
    } else {
      var n := WordLength(s);
      if w == s[..n] {
        assert w <= s;
      } else {
        WordsAreSubstrings(s[n..], w);
        SubstringOfSuffix(w, s, n);
      }
    }
  }

  // ---------------------------------------------------------------------------
  // the `in` operator on strings

  /** Python's `p in t` for strings: p occurs in t at some position (the empty string everywhere). */
  function IsSubstring(p: string, t: string): bool
    decreases |t|
  {
    p <= t || (t != [] && IsSubstring(p, t[1..]))
  }

  /** p occurs in t starting at index i. */
  predicate OccursAt(p: string, t: string, i: nat) {
    i + |p| <= |t| && t[i..i + |p|] == p
  }

  lemma OccursAtTail(p: string, t: string, i: nat)
    requires t != []
    ensures OccursAt(p, t, i + 1) <==> OccursAt(p, t[1..], i)
  {
    if i + 1 + |p| <= |t| {
      assert t[1..][i..i + |p|] == t[i + 1..i + 1 + |p|];
    }
  }

  /** The recursive test agrees with "p occurs at some index of t". */
  lemma {:induction false} IsSubstringIff(p: string, t: string)
    ensures IsSubstring(p, t) <==> exists i: nat :: OccursAt(p, t, i)
    decreases |t|
  {
    if p <= t {
      assert OccursAt(p, t, 0);
    } else if t != [] {
      IsSubstringIff(p, t[1..]);
      if IsSubstring(p, t[1..]) {
        var i: nat :| OccursAt(p, t[1..], i);
        OccursAtTail(p, t, i);
      }
      if exists i: nat :: OccursAt(p, t, i) {
        var i: nat :| OccursAt(p, t, i);
        assert i != 0;
        OccursAtTail(p, t, i - 1);
      }
    } else {
      assert forall i: nat :: !OccursAt(p, t, i);
    }
  }

  lemma {:induction false} SubstringOfSuffix(p: string, t: string, n: nat)
    requires n <= |t|
    requires IsSubstring(p, t[n..])
    ensures IsSubstring(p, t)
    decreases n
  {
    if n > 0 {
      assert t[1..][n - 1..] == t[n..];
      SubstringOfSuffix(p, t[1..], n - 1);
    }
  }

  // ---------------------------------------------------------------------------
  // str(n) for a natural number

  function DigitChar(d: nat): (c: char)
    requires d < 10
    ensures '0' <= c <= '9'
  {
    ('0' as int + d) as char
  }

  /** The decimal digits of n, most significant first, as f"{n}" writes them. */
  function Decimal(n: nat): (s: string)
    ensures |s| >= 1
    ensures forall i :: 0 <= i < |s| ==> '0' <= s[i] <= '9'
    ensures |s| == 1 || s[0] != '0'
  {
    if n < 10 then [DigitChar(n)] else Decimal(n / 10) + [DigitChar(n % 10)]
  }

  /** The value of a string of decimal digits. */
  function DecimalValue(s: string): nat
    requires forall i :: 0 <= i < |s| ==> '0' <= s[i] <= '9'
  {
    if s == [] then 0 else DecimalValue(s[..|s| - 1]) * 10 + (s[|s| - 1] as int - '0' as int)
  }

  /** Formatting then reading back gives the number. */
  lemma {:induction false} DecimalRoundTrip(n: nat)
    ensures DecimalValue(Decimal(n)) == n
  {
    if n >= 10 {
      DecimalRoundTrip(n / 10);
      var s := Decimal(n);
      assert s[..|s| - 1] == Decimal(n / 10);
    }
  }
}
