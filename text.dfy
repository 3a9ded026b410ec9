/** The string operations of Python that the extractors use: `str.strip()`,
    `str.split(sep)`, `str.replace(c, "")`, and the character classes of
    `str.isdigit`, `\d`, `\s` and `[a-zA-Z]`, restricted to ASCII and Latin-1. */
module Text {
  import opened Results

  /** Whitespace as `str.strip()` and the regex class `\s` see it (the
      characters below U+0100). */
  predicate IsSpace(c: char) {
    c == ' ' || (9 <= c as int <= 13) || (28 <= c as int <= 31) || c as int == 0x85 || c as int == 0xA0
  }

  predicate IsDigit(c: char) {
    '0' <= c <= '9'
  }

  predicate IsAsciiLetter(c: char) {
    ('a' <= c <= 'z') || ('A' <= c <= 'Z')
  }

  predicate AllDigits(s: string) {
    forall i :: 0 <= i < |s| ==> IsDigit(s[i])
  }

  predicate AllLetters(s: string) {
    forall i :: 0 <= i < |s| ==> IsAsciiLetter(s[i])
  }

  predicate AllSpace(s: string) {
    forall i :: 0 <= i < |s| ==> IsSpace(s[i])
  }

  /** Number of whitespace characters at the front of `s`. */
  function LeadingSpaces(s: string): (n: nat)
    ensures n <= |s|
    ensures AllSpace(s[..n])
    ensures n == |s| || !IsSpace(s[n])
  {
    if s != [] && IsSpace(s[0]) then 1 + LeadingSpaces(s[1..]) else 0
  }

  /** Number of ASCII digits at the front of `s` (the greedy `\d+`). */
  function LeadingDigits(s: string): (n: nat)
    ensures n <= |s|
    ensures AllDigits(s[..n])
    ensures n == |s| || !IsDigit(s[n])
  {
    if s != [] && IsDigit(s[0]) then 1 + LeadingDigits(s[1..]) else 0
  }

  /** Number of ASCII letters at the front of `s` (the greedy `[a-zA-Z]+`). */
  function LeadingLetters(s: string): (n: nat)
    ensures n <= |s|
    ensures AllLetters(s[..n])
    ensures n == |s| || !IsAsciiLetter(s[n])
  {
    if s != [] && IsAsciiLetter(s[0]) then 1 + LeadingLetters(s[1..]) else 0
  }

  /** A digit run followed by a non-digit (or the end) is the leading run. */
  lemma {:induction false} LeadingDigitsExact(s: string, k: nat)
    requires k <= |s| && AllDigits(s[..k]) && (k == |s| || !IsDigit(s[k]))
    ensures LeadingDigits(s) == k
  {
    if k > 0 {
      assert IsDigit(s[..k][0]);
      assert s[1..][..k - 1] == s[..k][1..];
      LeadingDigitsExact(s[1..], k - 1);
    }
  }

  /** A letter run followed by a non-letter (or the end) is the leading run. */
  lemma {:induction false} LeadingLettersExact(s: string, k: nat)
    requires k <= |s| && AllLetters(s[..k]) && (k == |s| || !IsAsciiLetter(s[k]))
    ensures LeadingLetters(s) == k
  {
    if k > 0 {
      assert IsAsciiLetter(s[..k][0]);
      assert s[1..][..k - 1] == s[..k][1..];
      LeadingLettersExact(s[1..], k - 1);
    }
  }

  /** A whitespace run followed by a non-space (or the end) is the leading run. */
  lemma {:induction false} LeadingSpacesExact(s: string, k: nat)
    requires k <= |s| && AllSpace(s[..k]) && (k == |s| || !IsSpace(s[k]))
    ensures LeadingSpaces(s) == k
  {
    if k > 0 {
      assert IsSpace(s[..k][0]);
      assert s[1..][..k - 1] == s[..k][1..];
      LeadingSpacesExact(s[1..], k - 1);
    }
  }

  /** Number of whitespace characters at the end of `s`. */
  function TrailingSpaces(s: string): (n: nat)
    ensures n <= |s|
    ensures AllSpace(s[|s| - n..])
    ensures n == |s| || !IsSpace(s[|s| - n - 1])
  {
    if s != [] && IsSpace(s[|s| - 1]) then 1 + TrailingSpaces(s[..|s| - 1]) else 0
  }

  /** `s.strip()`: the result is the middle of `s` once the whitespace at
      both ends is cut off, and neither of its ends is whitespace. */
  function Trim(s: string): (r: string)
    ensures LeadingSpaces(s) + |r| <= |s|
    ensures r == s[LeadingSpaces(s)..LeadingSpaces(s) + |r|]
    ensures AllSpace(s[LeadingSpaces(s) + |r|..])
    ensures r == [] || (!IsSpace(r[0]) && !IsSpace(r[|r| - 1]))
  {
    var t := s[LeadingSpaces(s)..];
    t[..|t| - TrailingSpaces(t)]
  }

  /** A string with no whitespace at either end is its own `strip()`. */
  lemma TrimUntrimmed(s: string)
    requires s == [] || (!IsSpace(s[0]) && !IsSpace(s[|s| - 1]))
    ensures Trim(s) == s
  {
  }

  /** Whitespace in front of a text that neither starts nor ends with
      whitespace is what `strip()` removes. */
  lemma TrimPadded(ws: string, g: string)
    requires AllSpace(ws)
    requires g != [] && !IsSpace(g[0]) && !IsSpace(g[|g| - 1])
    ensures Trim(ws + g) == g
  {
    var s := ws + g;
    assert s[..|ws|] == ws;
    LeadingSpacesExact(s, |ws|);
    assert s[|ws|..] == g;
  }

  /** Whitespace holds no character that is not whitespace. */
  lemma SpacesFree(ws: string, c: char)
    requires AllSpace(ws) && !IsSpace(c)
    ensures c !in ws
  {
    forall i | 0 <= i < |ws| ensures ws[i] != c {
      assert IsSpace(ws[i]);
    }
  }

  /** `strip()` is idempotent. */
  lemma TrimIdempotent(s: string)
    ensures Trim(Trim(s)) == Trim(s)
  {
    TrimUntrimmed(Trim(s));
  }

  /** `strip()` removes only characters, it never adds one. */
  lemma TrimSubset(s: string, c: char)
    requires c in Trim(s)
    ensures c in s
  {
    var k :| 0 <= k < |Trim(s)| && Trim(s)[k] == c;
    assert s[LeadingSpaces(s) + k] == c;
  }

  /** `sep` occurs in `s` starting at index `k`. */
  predicate OccursAt(s: string, sep: string, k: nat) {
    k + |sep| <= |s| && s[k..k + |sep|] == sep
  }

  /** The index of the first occurrence of `sep` in `s`, as `str.find`. */
  function IndexOf(s: string, sep: string): (r: Option<nat>)
    requires |sep| > 0
    ensures r.Some? ==> OccursAt(s, sep, r.value)
    ensures r.Some? ==> forall k :: 0 <= k < r.value ==> !OccursAt(s, sep, k)
    ensures r.None? ==> forall k :: 0 <= k <= |s| ==> !OccursAt(s, sep, k)
    decreases |s|
  {
    if |s| < |sep| then None
    else if s[..|sep|] == sep then Some(0)
    else
      match IndexOf(s[1..], sep)
      case None =>
        assert forall k :: 1 <= k <= |s| ==> (OccursAt(s, sep, k) ==> OccursAt(s[1..], sep, k - 1));
        None
      case Some(i) =>
        assert forall k :: 1 <= k <= i ==> (OccursAt(s, sep, k) ==> OccursAt(s[1..], sep, k - 1));
        assert s[1..][i..i + |sep|] == s[i + 1..i + 1 + |sep|];
        Some(i + 1)
  }

  /** `sep` does not occur anywhere in `s`. */
  predicate Free(s: string, sep: string) {
    forall k :: 0 <= k <= |s| ==> !OccursAt(s, sep, k)
  }

  /** `s.split(sep)`: the pieces between the non-overlapping occurrences of
      `sep`, found left to right; always at least one piece. */
  function Split(s: string, sep: string): (parts: seq<string>)
    requires |sep| > 0
    ensures |parts| >= 1
    ensures forall p :: p in parts ==> Free(p, sep)
    decreases |s|
  {
    match IndexOf(s, sep)
    case None => [s]
    case Some(i) =>
      assert Free(s[..i], sep) by {
        forall k | 0 <= k <= i ensures !OccursAt(s[..i], sep, k) {
          if OccursAt(s[..i], sep, k) {
            assert k < i;
            assert s[..i][k..k + |sep|] == s[k..k + |sep|];
            assert OccursAt(s, sep, k);
          }
        }
      }
      [s[..i]] + Split(s[i + |sep|..], sep)
  }

  /** `sep.join(parts)`. */
  function Join(parts: seq<string>, sep: string): string
    requires |parts| >= 1
  {
    if |parts| == 1 then parts[0] else parts[0] + sep + Join(parts[1..], sep)
  }

  /** Splitting and joining again gives back the original text: `split`
      loses nothing but the separators. */
  lemma {:induction false} JoinSplit(s: string, sep: string)
    requires |sep| > 0
    ensures Join(Split(s, sep), sep) == s
    decreases |s|
  {
    var found := IndexOf(s, sep);
    if found.Some? {
      var i := found.value;
      var rest := s[i + |sep|..];
      JoinSplit(rest, sep);
      SplitFound(s, sep, i);
      JoinCons(s[..i], Split(rest, sep), sep);
      assert s == s[..i] + s[i..i + |sep|] + rest;
    }
  }

  lemma SplitFound(s: string, sep: string, i: nat)
    requires |sep| > 0 && IndexOf(s, sep) == Some(i)
    ensures Split(s, sep) == [s[..i]] + Split(s[i + |sep|..], sep)
  {
  }

  lemma JoinCons(x: string, parts: seq<string>, sep: string)
    requires |parts| >= 1
    ensures Join([x] + parts, sep) == x + sep + Join(parts, sep)
  {
    assert ([x] + parts)[1..] == parts;
  }

  /** When the first piece is free of `sep`, splitting `a + sep + b` yields
      `a` followed by the pieces of `b`. */
  lemma SplitAt(a: string, sep: string, b: string)
    requires |sep| > 0 && Free(a, sep)
    requires forall k :: 0 <= k < |a| ==> !OccursAt(a + sep + b, sep, k)
    ensures Split(a + sep + b, sep) == [a] + Split(b, sep)
  {
    var s := a + sep + b;
    assert s[|a|..|a| + |sep|] == sep;
    assert OccursAt(s, sep, |a|);
    assert s[..|a|] == a;
    assert s[|a| + |sep|..] == b;
  }

  /** Splitting on a one-character separator: a piece that does not contain
      it is found intact before it. */
  lemma SplitAtChar(a: string, c: char, b: string)
    requires c !in a
    ensures Split(a + [c] + b, [c]) == [a] + Split(b, [c])
  {
    var s := a + [c] + b;
    forall k | 0 <= k < |a| ensures !OccursAt(s, [c], k) {
      assert s[k] == a[k] && a[k] != c;
      assert k + 1 <= |s| ==> s[k..k + 1][0] == s[k];
    }
    SplitNoChar(a, c);
    SplitAt(a, [c], b);
  }

  /** Splitting on one character gives a single piece exactly when the
      character does not occur. */
  lemma SplitSingle(s: string, c: char)
    ensures |Split(s, [c])| == 1 <==> c !in s
  {
    if c in s {
      var k :| 0 <= k < |s| && s[k] == c;
      assert s[k..k + 1] == [c];
      assert OccursAt(s, [c], k);
      assert IndexOf(s, [c]).Some?;
    } else {
      SplitNoChar(s, c);
    }
  }

  /** A text without the one-character separator is a single piece. */
  lemma SplitNoChar(a: string, c: char)
    requires c !in a
    ensures Split(a, [c]) == [a]
  {
    forall k | 0 <= k <= |a| ensures !OccursAt(a, [c], k) {
      if k < |a| { assert a[k] != c; }
    }
  }

  /** `s.replace(c, "")`. */
  function Remove(s: string, c: char): (r: string)
    ensures c !in r
    ensures forall d :: d != c ==> multiset(r)[d] == multiset(s)[d]
  {
    if s == [] then []
    else
      assert s == [s[0]] + s[1..];
      (if s[0] == c then [] else [s[0]]) + Remove(s[1..], c)
  }

  /** Removal works character by character and keeps the order of what is
      left: a one-character text loses itself exactly when it is `c`, and
      removing from a concatenation concatenates the removals. */
  lemma {:induction false} RemoveAppend(a: string, b: string, c: char)
    ensures Remove(a + b, c) == Remove(a, c) + Remove(b, c)
    ensures |a| == 1 ==> Remove(a, c) == if a[0] == c then [] else a
    decreases |a|
  {
    if a != [] {
      assert (a + b)[0] == a[0];
      assert (a + b)[1..] == a[1..] + b;
      RemoveAppend(a[1..], b, c);
      if |a| == 1 {
        assert a[1..] == [];
        assert a == [a[0]];
      }
    } else {
      assert a + b == b;
    }
  }

  /** The value of a run of decimal digits, as `int(s)`. */
  function DigitsValue(s: string): nat
    requires AllDigits(s)
  {
    if s == [] then 0 else 10 * DigitsValue(s[..|s| - 1]) + (s[|s| - 1] as int - '0' as int)
  }
}
