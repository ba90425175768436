/** Plain string operations the scraper relies on: ASCII case mapping,
    substring search, whitespace stripping, splitting on a separator,
    slicing, title-casing and decimal rendering of counters. Python's
    Unicode tables are not modelled; every operation works on ASCII. */
module Text {

  import opened Wrappers

  /** The sentinel the scraper writes for every field it could not determine. */
  const NotAvailable: string := "Not Available"

  // ---------------------------------------------------------------------
  //  Characters
  // ---------------------------------------------------------------------

  predicate IsUpper(c: char) { 'A' <= c <= 'Z' }
  predicate IsLower(c: char) { 'a' <= c <= 'z' }
  predicate IsLetter(c: char) { IsUpper(c) || IsLower(c) }
  predicate IsDigit(c: char) { '0' <= c <= '9' }

  /** Whitespace as `str.strip()` sees it, restricted to ASCII: space,
      tab, line feed, vertical tab, form feed, carriage return, and the
      four information separators 0x1C-0x1F. */
  predicate IsSpace(c: char) {
    c == ' ' || c == '\t' || c == '\n' || c == '\r' || c == '\U{000B}' || c == '\U{000C}'
    || ('\U{001C}' <= c <= '\U{001F}')
  }

  function ToLower(c: char): (r: char)
    ensures IsUpper(c) ==> IsLower(r) && r as int == c as int + 32
    ensures !IsUpper(c) ==> r == c
  {
    if IsUpper(c) then (c as int + 32) as char else c
  }

  function ToUpper(c: char): (r: char)
    ensures IsLower(c) ==> IsUpper(r) && r as int == c as int - 32
    ensures !IsLower(c) ==> r == c
  {
    if IsLower(c) then (c as int - 32) as char else c
  }

  /** `str.lower()` on ASCII text: every position is mapped on its own. */
  function Lower(s: string): (r: string)
    ensures |r| == |s|
    ensures forall i :: 0 <= i < |s| ==> r[i] == ToLower(s[i])
  {
    seq(|s|, i requires 0 <= i < |s| => ToLower(s[i]))
  }

  // ---------------------------------------------------------------------
  //  Substrings (Python's `needle in haystack`)
  // ---------------------------------------------------------------------

  predicate StartsWith(s: string, prefix: string) {
    |prefix| <= |s| && s[..|prefix|] == prefix
  }

  /** `needle` occurs in `hay` starting at offset `i`. */
  predicate OccursAt(hay: string, needle: string, i: int) {
    0 <= i && i + |needle| <= |hay| && hay[i..i + |needle|] == needle
  }

  /** `needle in hay`; the empty needle occurs in every string. */
  predicate Contains(hay: string, needle: string) {
    exists i | 0 <= i <= |hay| - |needle| :: OccursAt(hay, needle, i)
  }

  /** Some entry of `needles` is a substring of `hay` (Python's
      `any(k in hay for k in needles)`). */
  predicate ContainsAny(hay: string, needles: seq<string>) {
    exists i :: 0 <= i < |needles| && Contains(hay, needles[i])
  }

  // ---------------------------------------------------------------------
  //  Stripping whitespace (`str.strip()`)
  // ---------------------------------------------------------------------

  /** Number of whitespace characters `s` starts with. */
  function LeadingSpaces(s: string): (n: nat)
    ensures n <= |s|
    decreases |s|
  {
    if |s| > 0 && IsSpace(s[0]) then 1 + LeadingSpaces(s[1..]) else 0
  }

  /** Number of whitespace characters `s` ends with. */
  function TrailingSpaces(s: string): (n: nat)
    ensures n <= |s|
    decreases |s|
  {
    if |s| > 0 && IsSpace(s[|s| - 1]) then 1 + TrailingSpaces(s[..|s| - 1]) else 0
  }

  lemma {:induction false} LeadingSpacesAreSpace(s: string)
    ensures forall i :: 0 <= i < LeadingSpaces(s) ==> IsSpace(s[i])
    ensures LeadingSpaces(s) < |s| ==> !IsSpace(s[LeadingSpaces(s)])
    decreases |s|
  {
    if |s| > 0 && IsSpace(s[0]) {
      LeadingSpacesAreSpace(s[1..]);
      assert forall i :: 1 <= i < LeadingSpaces(s) ==> s[i] == s[1..][i - 1];
    }
  }

  lemma {:induction false} TrailingSpacesAreSpace(s: string)
    ensures forall i :: |s| - TrailingSpaces(s) <= i < |s| ==> IsSpace(s[i])
    ensures TrailingSpaces(s) < |s| ==> !IsSpace(s[|s| - TrailingSpaces(s) - 1])
    decreases |s|
  {
    if |s| > 0 && IsSpace(s[|s| - 1]) {
      TrailingSpacesAreSpace(s[..|s| - 1]);
    }
  }

  /** `r` is the slice of `s` starting at `lo`, and everything of `s`
      outside that slice is whitespace. */
  predicate TrimmedSliceAt(s: string, r: string, lo: int) {
    && 0 <= lo <= lo + |r| <= |s|
    && r == s[lo..lo + |r|]
    && (forall i :: 0 <= i < lo ==> IsSpace(s[i]))
    && (forall i :: lo + |r| <= i < |s| ==> IsSpace(s[i]))
  }

  /** `str.strip()`: whitespace removed from both ends. What it means is
      stated by `StripIsTrimmedSlice`. */
  function Strip(s: string): (r: string)
    ensures |r| <= |s|
  {
    var lead := LeadingSpaces(s);
    var t := s[lead..];
    t[..|t| - TrailingSpaces(t)]
  }

  /** The result of `Strip` is a slice of its input that neither starts nor
      ends with whitespace, and everything cut away is whitespace: the
      facts that determine `str.strip()` uniquely. */
  lemma StripIsTrimmedSlice(s: string)
    ensures exists lo :: TrimmedSliceAt(s, Strip(s), lo)
    ensures |Strip(s)| > 0 ==> !IsSpace(Strip(s)[0]) && !IsSpace(Strip(s)[|Strip(s)| - 1])
  {
    var lo := LeadingSpaces(s);
    var t := s[lo..];
    var r := Strip(s);
    LeadingSpacesAreSpace(s);
    TrailingSpacesAreSpace(t);
    assert r == t[..|t| - TrailingSpaces(t)];
    assert r == s[lo..lo + |r|];
    assert forall i :: lo + |r| <= i < |s| ==> s[i] == t[i - lo];
    assert TrimmedSliceAt(s, r, lo);
    if |r| > 0 {
      assert r[0] == t[0] == s[lo];
    }
  }

  /** Text with no whitespace at either end is left as it is. */
  lemma StripUnpadded(s: string)
    requires |s| > 0 ==> !IsSpace(s[0]) && !IsSpace(s[|s| - 1])
    ensures Strip(s) == s
  {
    assert LeadingSpaces(s) == 0;
    assert s[0..] == s;
  }

  /** A leading whitespace character is dropped. */
  lemma StripLeadingSpace(s: string)
    requires |s| > 0 && IsSpace(s[0])
    ensures Strip(s) == Strip(s[1..])
  {
    assert LeadingSpaces(s) == 1 + LeadingSpaces(s[1..]);
    assert s[LeadingSpaces(s)..] == s[1..][LeadingSpaces(s[1..])..];
  }

  /** Stripping never introduces a character. */
  lemma StripKeepsOut(s: string, c: char)
    requires c !in s
    ensures c !in Strip(s)
  {
    StripIsTrimmedSlice(s);
    var lo :| TrimmedSliceAt(s, Strip(s), lo);
    assert forall k :: 0 <= k < |Strip(s)| ==> Strip(s)[k] == s[lo + k];
  }

  // ---------------------------------------------------------------------
  //  Splitting on a separator (`str.split(sep)`) and joining back
  // ---------------------------------------------------------------------

  /** Position of the first occurrence of `c` in `s`, if any. */
  function IndexOf(s: string, c: char): (r: Option<nat>)
    ensures r.Some? ==> r.value < |s| && s[r.value] == c && c !in s[..r.value]
    ensures r.None? <==> c !in s
    decreases |s|
  {
    if |s| == 0 then None
    else if s[0] == c then Some(0)
    else match IndexOf(s[1..], c)
      case None => None
      case Some(k) => assert s[..k + 1] == [s[0]] + s[1..][..k]; Some(k + 1)
  }

  /** `sep.join(parts)`. */
  function Join(parts: seq<string>, sep: char): string
    decreases |parts|
  {
    if |parts| == 0 then ""
    else if |parts| == 1 then parts[0]
    else parts[0] + [sep] + Join(parts[1..], sep)
  }

  /** `s.split(sep)`: never empty, and no part contains the separator;
      a single part exactly when `s` has no separator. */
  function Split(s: string, sep: char): (parts: seq<string>)
    ensures |parts| >= 1
    decreases |s|
  {
    match IndexOf(s, sep)
    case None => [s]
    case Some(k) => [s[..k]] + Split(s[k + 1..], sep)
  }

  /** No part contains the separator, and there is a single part exactly
      when the separator does not occur. */
  lemma {:induction false} SplitParts(s: string, sep: char)
    ensures forall i :: 0 <= i < |Split(s, sep)| ==> sep !in Split(s, sep)[i]
    ensures |Split(s, sep)| == 1 <==> sep !in s
    decreases |s|
  {
    match IndexOf(s, sep)
    case None =>
    case Some(k) =>
      var rest := Split(s[k + 1..], sep);
      SplitParts(s[k + 1..], sep);
      SplitAt(s, sep, k);
      forall i | 0 <= i < |Split(s, sep)|
        ensures sep !in Split(s, sep)[i]
      {
        if i > 0 {
          assert Split(s, sep)[i] == rest[i - 1];
        }
      }
  }

  lemma JoinCons(first: string, rest: seq<string>, sep: char)
    requires |rest| >= 1
    ensures Join([first] + rest, sep) == first + [sep] + Join(rest, sep)
  {
    assert ([first] + rest)[1..] == rest;
  }

  /** Joining the parts back with the separator gives the input again; with
      the parts being separator-free, this determines the split uniquely. */
  lemma {:induction false} SplitJoin(s: string, sep: char)
    ensures Join(Split(s, sep), sep) == s
    decreases |s|
  {
    var idx := IndexOf(s, sep);
    if idx.Some? {
      var k := idx.value;
      var rest := Split(s[k + 1..], sep);
      assert Split(s, sep) == [s[..k]] + rest;
      SplitJoin(s[k + 1..], sep);
      JoinCons(s[..k], rest, sep);
      Around(s, k);
    }
  }

  /** The first part of a split is the text before the first separator. */
  lemma SplitFirst(s: string, sep: char, k: int)
    requires 0 <= k < |s| && s[k] == sep && sep !in s[..k]
    ensures Split(s, sep)[0] == s[..k]
  {
    assert IndexOf(s, sep) == Some(k);
  }

  /** One step of a split: the text before the first separator, then the
      split of the rest. */
  lemma SplitAt(s: string, sep: char, j: nat)
    requires IndexOf(s, sep) == Some(j)
    ensures Split(s, sep) == [s[..j]] + Split(s[j + 1..], sep)
  {
  }

  /** The first separator of a text is the one at `k` when nothing before
      it is a separator. */
  lemma IndexOfAt(s: string, c: char, k: int)
    requires 0 <= k < |s| && s[k] == c && c !in s[..k]
    ensures IndexOf(s, c) == Some(k)
  {
  }

  /** Text after a final separator becomes the last part of the split. */
  lemma {:induction false} SplitThrough(a: string, sep: char, b: string)
    requires sep !in b
    ensures Split(a + [sep] + b, sep) == Split(a, sep) + [b]
    decreases |a|
  {
    match IndexOf(a, sep)
    case None =>
      SplitAtEnd(a, sep, b);
    case Some(j) =>
      SplitBefore(a, sep, b, j);
      SplitAt(a, sep, j);
      SplitThrough(a[j + 1..], sep, b);
  }

  /** Splitting `a + [sep] + b` cuts first where `a` would be cut. */
  lemma SplitBefore(a: string, sep: char, b: string, j: int)
    requires IndexOf(a, sep) == Some(j)
    ensures Split(a + [sep] + b, sep) == [a[..j]] + Split(a[j + 1..] + [sep] + b, sep)
  {
    var pre, post := a[..j], a[j + 1..] + [sep] + b;
    assert a == pre + [sep] + a[j + 1..];
    var s := pre + [sep] + post;
    assert a + [sep] + b == s;
    assert s[..j] == pre && s[j + 1..] == post;
    IndexOfAt(s, sep, j);
    SplitAt(s, sep, j);
  }

  /** With no separator in `a` or `b`, the added one is the only cut. */
  lemma SplitAtEnd(a: string, sep: char, b: string)
    requires sep !in a && sep !in b
    ensures Split(a + [sep] + b, sep) == [a, b]
  {
    var s := a + [sep] + b;
    assert s[..|a|] == a && s[|a| + 1..] == b;
    IndexOfAt(s, sep, |a|);
    SplitAt(s, sep, |a|);
  }

  /** The last part of a split is the text after the last separator. */
  lemma SplitLast(s: string, sep: char, k: int)
    requires 0 <= k < |s| && s[k] == sep && sep !in s[k + 1..]
    ensures Split(s, sep)[|Split(s, sep)| - 1] == s[k + 1..]
  {
    assert s == s[..k] + [sep] + s[k + 1..];
    SplitThrough(s[..k], sep, s[k + 1..]);
  }

  lemma Around(s: string, k: int)
    requires 0 <= k < |s|
    ensures s == s[..k] + [s[k]] + s[k + 1..]
  {
  }

  // ---------------------------------------------------------------------
  //  Slicing and replacing
  // ---------------------------------------------------------------------

  /** `s[:n]` for a non-negative `n`. */
  function Truncate(s: string, n: nat): (r: string)
    ensures |r| <= n && |r| <= |s|
    ensures r == s[..|r|]
    ensures |s| <= n ==> r == s
    ensures |s| > n ==> |r| == n
  {
    if |s| <= n then s else s[..n]
  }

  /** `s.replace('\n', ' ')`. */
  function ReplaceNewlines(s: string): (r: string)
    ensures |r| == |s|
    ensures '\n' !in r
    ensures forall i :: 0 <= i < |s| && s[i] != '\n' ==> r[i] == s[i]
  {
    seq(|s|, i requires 0 <= i < |s| => if s[i] == '\n' then ' ' else s[i])
  }

  // ---------------------------------------------------------------------
  //  Title case (`str.title()`)
  // ---------------------------------------------------------------------

  /** `str.title()` on ASCII: a letter is upper-cased when the character
      before it is not a letter, and lower-cased otherwise. Any non-letter,
      the apostrophe included, starts a new word. */
  function Title(s: string): (r: string)
    ensures |r| == |s|
    ensures forall i :: 0 <= i < |s| && !IsLetter(s[i]) ==> r[i] == s[i]
    ensures forall i :: 0 <= i < |s| && IsLetter(s[i]) && (i == 0 || !IsLetter(s[i - 1])) ==> r[i] == ToUpper(s[i])
    ensures forall i :: 0 < i < |s| && IsLetter(s[i]) && IsLetter(s[i - 1]) ==> r[i] == ToLower(s[i])
  {
    seq(|s|, i requires 0 <= i < |s| =>
      if !IsLetter(s[i]) then s[i]
      else if i == 0 || !IsLetter(s[i - 1]) then ToUpper(s[i])
      else ToLower(s[i]))
  }

  // ---------------------------------------------------------------------
  //  Decimal rendering of counters (`str(n)` / f-string `{n}`)
  // ---------------------------------------------------------------------

  function DigitChar(d: nat): (c: char)
    requires d < 10
    ensures IsDigit(c) && c as int - '0' as int == d
  {
    ('0' as int + d) as char
  }

  /** Decimal notation of `n` without leading zeros. */
  function NatToString(n: nat): (r: string)
    ensures |r| >= 1
    ensures forall i :: 0 <= i < |r| ==> IsDigit(r[i])
    ensures |r| > 1 ==> r[0] != '0'
    decreases n
  {
    if n < 10 then [DigitChar(n)] else NatToString(n / 10) + [DigitChar(n % 10)]
  }

  function DigitValue(c: char): (d: nat)
    requires IsDigit(c)
    ensures d < 10
  {
    c as int - '0' as int
  }

  /** Reads back a string of decimal digits. */
  function ParseDigits(s: string): nat
    requires forall i :: 0 <= i < |s| ==> IsDigit(s[i])
    decreases |s|
  {
    if |s| == 0 then 0
    else 10 * ParseDigits(s[..|s| - 1]) + DigitValue(s[|s| - 1])
  }

  lemma {:induction false} NatToStringRoundTrip(n: nat)
    ensures ParseDigits(NatToString(n)) == n
    decreases n
  {
    if n >= 10 {
      NatToStringRoundTrip(n / 10);
      var s := NatToString(n);
      assert s[..|s| - 1] == NatToString(n / 10);
    }
  }

  lemma NatToStringInjective(m: nat, n: nat)
    ensures NatToString(m) == NatToString(n) ==> m == n
  {
    NatToStringRoundTrip(m);
    NatToStringRoundTrip(n);
  }
}
