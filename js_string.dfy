/** The JavaScript string operations the aggregation relies on:
    String.prototype.trim, toLowerCase, includes and split with a
    one-character separator. Strings are sequences of characters. */
module JsString {

  /** WhiteSpace and LineTerminator code points of ECMAScript: exactly the
      characters String.prototype.trim removes. */
  predicate IsWhitespace(c: char) {
    || c == '\t' || c == '\n' || c == '\U{000B}' || c == '\U{000C}' || c == '\r'
    || c == ' ' || c == '\U{00A0}' || c == '\U{1680}'
    || ('\U{2000}' <= c <= '\U{200A}')
    || c == '\U{2028}' || c == '\U{2029}' || c == '\U{202F}' || c == '\U{205F}'
    || c == '\U{3000}' || c == '\U{FEFF}'
  }

  /** No whitespace at either end. */
  predicate Trimmed(s: string) {
    s == [] || (!IsWhitespace(s[0]) && !IsWhitespace(s[|s| - 1]))
  }

  /** Drops the leading whitespace: a suffix of `s`, whose dropped part is all
      whitespace and whose first character is not. */
  function TrimStart(s: string): (r: string)
    ensures |r| <= |s| && r == s[|s| - |r|..]
    ensures forall i :: 0 <= i < |s| - |r| ==> IsWhitespace(s[i])
    ensures r == [] || !IsWhitespace(r[0])
  {
    if s != [] && IsWhitespace(s[0]) then TrimStart(s[1..]) else s
  }

  /** Drops the trailing whitespace: a prefix of `s`, whose dropped part is all
      whitespace and whose last character is not. */
  function TrimEnd(s: string): (r: string)
    ensures |r| <= |s| && r == s[..|r|]
    ensures forall i :: |r| <= i < |s| ==> IsWhitespace(s[i])
    ensures r == [] || !IsWhitespace(r[|r| - 1])
  {
    if s != [] && IsWhitespace(s[|s| - 1]) then TrimEnd(s[..|s| - 1]) else s
  }

  /** Every character of `t` is whitespace. */
  predicate AllWhitespace(t: string) {
    forall c | c in t :: IsWhitespace(c)
  }

  /** String.prototype.trim: no whitespace at either end of the result, and
      only an all-whitespace string trims to the empty one. */
  function Trim(s: string): (r: string)
    ensures Trimmed(r)
    ensures |r| <= |s|
    ensures r == [] <==> AllWhitespace(s)
  {
    TrimEndsTrimmed(s);
    TrimToEmpty(s);
    TrimEnd(TrimStart(s))
  }

  /** Neither end of the trimmed string is whitespace. */
  lemma TrimEndsTrimmed(s: string)
    ensures Trimmed(TrimEnd(TrimStart(s)))
  {
    var t := TrimStart(s);
    var r := TrimEnd(t);
    if r != [] {
      assert r[0] == t[0];
    }
  }

  /** Only an all-whitespace string trims to the empty string. */
  lemma TrimToEmpty(s: string)
    ensures TrimEnd(TrimStart(s)) == [] <==> AllWhitespace(s)
  {
    var t := TrimStart(s);
    if TrimEnd(t) == [] {
      assert t == [];
      forall c | c in s
        ensures IsWhitespace(c)
      {
        var k :| 0 <= k < |s| && s[k] == c;
      }
    } else {
      assert TrimEnd(t)[0] == t[0] == s[|s| - |t|];
    }
  }

  /** The bounds of the slice Trim keeps. */
  lemma TrimBounds(s: string) returns (lo: nat, hi: nat)
    ensures lo <= hi <= |s| && Trim(s) == s[lo..hi]
    ensures forall i :: 0 <= i < lo ==> IsWhitespace(s[i])
    ensures forall i :: hi <= i < |s| ==> IsWhitespace(s[i])
  {
    var t := TrimStart(s);
    lo := |s| - |t|;
    hi := lo + |TrimEnd(t)|;
    forall i | hi <= i < |s|
      ensures IsWhitespace(s[i])
    {
      assert s[i] == t[i - lo];
    }
  }

  /** A string with no whitespace at its ends is its own trim. */
  lemma TrimOfTrimmed(s: string)
    requires Trimmed(s)
    ensures Trim(s) == s
  {
  }

  /** Trimming twice is trimming once. */
  lemma TrimIdempotent(s: string)
    ensures Trim(Trim(s)) == Trim(s)
  {
    TrimOfTrimmed(Trim(s));
  }

  /** Trimming cannot introduce a character that was not in the string. */
  lemma TrimKeepsAbsence(s: string, c: char)
    requires c !in s
    ensures c !in Trim(s)
  {
    var lo, hi := TrimBounds(s);
    assert forall k :: 0 <= k < hi - lo ==> Trim(s)[k] == s[lo + k];
  }

  /** Lower-cases one ASCII letter; every other character is unchanged. */
  function LowerChar(c: char): char {
    if 'A' <= c <= 'Z' then (c as int + 32) as char else c
  }

  /** String.prototype.toLowerCase on the ASCII letters. */
  function Lower(s: string): (r: string)
    ensures |r| == |s|
  {
    seq(|s|, i requires 0 <= i < |s| => LowerChar(s[i]))
  }

  /** `needle` occurs in `hay` starting at index `i`. */
  predicate OccursAt(hay: string, needle: string, i: int) {
    0 <= i && i + |needle| <= |hay| && hay[i..i + |needle|] == needle
  }

  /** String.prototype.includes: never longer than the string searched, and
      the empty string is found in every string, as is the string itself. */
  predicate Contains(hay: string, needle: string): (b: bool)
    ensures b ==> |needle| <= |hay|
    ensures needle == [] ==> b
    ensures hay == needle ==> b
  {
    var b := exists i :: 0 <= i <= |hay| - |needle| && OccursAt(hay, needle, i);
    assert needle == [] ==> OccursAt(hay, needle, 0);
    assert hay == needle ==> OccursAt(hay, needle, 0);
    b
  }

  /** Lower-casing commutes with taking a slice. */
  lemma LowerSlice(s: string, lo: nat, hi: nat)
    requires lo <= hi <= |s|
    ensures Lower(s[lo..hi]) == Lower(s)[lo..hi]
  {
  }

  /** Whitespace is never an ASCII letter, so lower-casing fixes it. */
  lemma LowerKeepsWhitespace(c: char)
    requires IsWhitespace(c)
    ensures LowerChar(c) == c
  {
  }

  /** An occurrence of a word without whitespace lies inside the trimmed
      slice `lo..hi`, because everything outside that slice is whitespace. */
  lemma OccurrenceInside(s: string, needle: string, i: int, lo: nat, hi: nat)
    requires needle != []
    requires forall c | c in needle :: !IsWhitespace(c)
    requires OccursAt(Lower(s), needle, i)
    requires lo <= hi <= |s|
    requires forall k :: 0 <= k < lo ==> IsWhitespace(s[k])
    requires forall k :: hi <= k < |s| ==> IsWhitespace(s[k])
    ensures lo <= i && i + |needle| <= hi
  {
    var n := |needle|;
    assert Lower(s)[i] == needle[0] && Lower(s)[i + n - 1] == needle[n - 1] by {
      assert Lower(s)[i..i + n] == needle;
    }
    assert needle[0] in needle && needle[n - 1] in needle;
    if IsWhitespace(s[i]) { LowerKeepsWhitespace(s[i]); }
    if IsWhitespace(s[i + n - 1]) { LowerKeepsWhitespace(s[i + n - 1]); }
  }

  /** An occurrence inside a slice is an occurrence in the slice, shifted. */
  lemma OccursInSlice(hay: string, needle: string, i: int, lo: nat, hi: nat)
    requires OccursAt(hay, needle, i)
    requires lo <= i && i + |needle| <= hi <= |hay|
    ensures OccursAt(hay[lo..hi], needle, i - lo)
  {
    var n := |needle|;
    forall k | 0 <= k < n
      ensures hay[lo..hi][i - lo..i - lo + n][k] == needle[k]
    {
      assert hay[i..i + n][k] == needle[k];
    }
  }

  /** Trimming keeps an occurrence of a word that has no whitespace in it,
      also after lower-casing. */
  lemma TrimKeepsOccurrence(s: string, needle: string, i: int)
    requires forall c | c in needle :: !IsWhitespace(c)
    requires OccursAt(Lower(s), needle, i)
    ensures Contains(Lower(Trim(s)), needle)
  {
    var lo, hi := TrimBounds(s);
    var lt := Lower(Trim(s));
    if needle == [] {
      assert OccursAt(lt, needle, 0);
    } else {
      OccurrenceInside(s, needle, i, lo, hi);
      LowerSlice(s, lo, hi);
      OccursInSlice(Lower(s), needle, i, lo, hi);
      assert OccursAt(lt, needle, i - lo);
    }
  }

  /** Trimming keeps every word without whitespace that the lower-cased
      string contains. */
  lemma TrimKeepsMatch(s: string, needle: string)
    requires forall c | c in needle :: !IsWhitespace(c)
    requires Contains(Lower(s), needle)
    ensures Contains(Lower(Trim(s)), needle)
  {
    var i :| 0 <= i <= |s| - |needle| && OccursAt(Lower(s), needle, i);
    TrimKeepsOccurrence(s, needle, i);
  }

  /** Index of the first `c` in `s`, or |s| when there is none. */
  function FirstIndex(s: string, c: char): (r: nat)
    ensures r <= |s|
    ensures r < |s| ==> s[r] == c
    ensures forall k :: 0 <= k < r ==> s[k] != c
  {
    if s == [] || s[0] == c then 0 else 1 + FirstIndex(s[1..], c)
  }

  /** The pieces joined back with the separator between them. */
  function Join(parts: seq<string>, sep: char): string
  {
    if parts == [] then ""
    else if |parts| == 1 then parts[0]
    else parts[0] + [sep] + Join(parts[1..], sep)
  }

  /** String.prototype.split with a one-character separator: at least one
      piece, no piece holds the separator, and joining the pieces with the
      separator gives back the string. */
  function Split(s: string, sep: char): (parts: seq<string>)
    ensures |parts| >= 1
    ensures forall k :: 0 <= k < |parts| ==> sep !in parts[k]
    ensures Join(parts, sep) == s
    decreases |s|
  {
    var i := FirstIndex(s, sep);
    if i == |s| then [s]
    else
      var rest := Split(s[i + 1..], sep);
      assert s == s[..i] + [sep] + s[i + 1..];
      assert ([s[..i]] + rest)[1..] == rest;
      [s[..i]] + rest
  }

  /** The other half of the round trip: pieces free of the separator are
      recovered by splitting their join. */
  lemma {:induction false} SplitJoin(parts: seq<string>, sep: char)
    requires |parts| >= 1
    requires forall k :: 0 <= k < |parts| ==> sep !in parts[k]
    ensures Split(Join(parts, sep), sep) == parts
  {
    var s := Join(parts, sep);
    if |parts| == 1 {
      assert forall k :: 0 <= k < |s| ==> s[k] != sep;
    } else {
      var p := parts[0];
      var tail := Join(parts[1..], sep);
      assert s == p + [sep] + tail;
      assert FirstIndex(s, sep) == |p| by {
        assert s[|p|] == sep;
        assert forall k :: 0 <= k < |p| ==> s[k] == p[k];
      }
      assert s[..|p|] == p && s[|p| + 1..] == tail;
      SplitJoin(parts[1..], sep);
    }
  }

  /** The first piece of a split is the text before the first separator; there
      is a second piece exactly when the separator occurs, and it is the text
      between the first and the second separator. */
  lemma SplitPieces(s: string, sep: char)
    ensures var i := FirstIndex(s, sep);
      && Split(s, sep)[0] == s[..i]
      && (|Split(s, sep)| > 1 <==> i < |s|)
      && (i < |s| ==>
            var rest := s[i + 1..];
            Split(s, sep)[1] == rest[..FirstIndex(rest, sep)])
  {
    var i := FirstIndex(s, sep);
    if i < |s| {
      var rest := s[i + 1..];
      assert Split(rest, sep)[0] == rest[..FirstIndex(rest, sep)];
    }
  }
}
