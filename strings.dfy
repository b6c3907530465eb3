/** The string helpers the catalog relies on: Java's String.compareTo order,
    String.trim, the trailing-slash removal of a source url, and the group
    splitter `String.split("\\s*[,;，；]\\s*")`. */
module Strings {

  /* ---------- Dropping a run of elements at either end ---------- */

  /** `s` without its longest prefix whose elements all satisfy `p`. */
  function DropWhileStart<T>(s: seq<T>, p: T -> bool): (r: seq<T>)
    ensures |r| <= |s| && r == s[|s| - |r|..]
    ensures forall i :: 0 <= i < |s| - |r| ==> p(s[i])
    ensures r == [] || !p(r[0])
    decreases |s|
  {
    if |s| > 0 && p(s[0]) then DropWhileStart(s[1..], p) else s
  }

  /** `s` without its longest suffix whose elements all satisfy `p`. */
  function DropWhileEnd<T>(s: seq<T>, p: T -> bool): (r: seq<T>)
    ensures |r| <= |s| && r == s[..|r|]
    ensures forall i :: |r| <= i < |s| ==> p(s[i])
    ensures r == [] || !p(r[|r| - 1])
    decreases |s|
  {
    if |s| > 0 && p(s[|s| - 1]) then DropWhileEnd(s[..|s| - 1], p) else s
  }

  /** `r` is the slice `s[i..j]` of `s`: only elements satisfying `p` are
      cut off, and only at the start when `atStart`, at the end when `atEnd`. */
  ghost predicate StripsAt<T>(s: seq<T>, r: seq<T>, p: T -> bool, atStart: bool, atEnd: bool, i: int, j: int)
  {
    && 0 <= i <= j <= |s| && r == s[i..j]
    && (atStart || i == 0) && (atEnd || j == |s|)
    && (forall k :: 0 <= k < i ==> p(s[k]))
    && (forall k :: j <= k < |s| ==> p(s[k]))
  }

  /** `r` is `s` with only elements satisfying `p` cut off its permitted ends. */
  ghost predicate StripsTo<T>(s: seq<T>, r: seq<T>, p: T -> bool, atStart: bool, atEnd: bool)
  {
    exists i, j :: StripsAt(s, r, p, atStart, atEnd, i, j)
  }

  /** A prefix `r` of the suffix `a == s[i..]`, with the elements between
      cut by `p`, is a strip of `s`. */
  lemma PrefixOfSuffixStrips<T>(s: seq<T>, a: seq<T>, r: seq<T>, p: T -> bool, atStart: bool, atEnd: bool, i: nat)
    requires i <= |s| && a == s[i..] && |r| <= |a| && r == a[..|r|]
    requires atStart || i == 0
    requires atEnd || r == a
    requires forall k :: 0 <= k < i ==> p(s[k])
    requires forall k :: |r| <= k < |a| ==> p(a[k])
    ensures StripsAt(s, r, p, atStart, atEnd, i, i + |r|)
  {
    forall k | i + |r| <= k < |s|
      ensures p(s[k])
    {
      assert s[k] == a[k - i];
    }
  }

  /** Dropping a run at the start, then one at the end, cuts a slice. */
  lemma DropBothIsSlice<T>(s: seq<T>, p: T -> bool, atStart: bool, atEnd: bool)
    ensures var a := if atStart then DropWhileStart(s, p) else s;
      StripsTo(s, if atEnd then DropWhileEnd(a, p) else a, p, atStart, atEnd)
  {
    var a := s;
    if atStart {
      a := DropWhileStart(s, p);
    } else {
      assert s[0..] == s;
    }
    var r := a;
    if atEnd {
      r := DropWhileEnd(a, p);
    } else {
      assert a[..|a|] == a;
    }
    PrefixOfSuffixStrips(s, a, r, p, atStart, atEnd, |s| - |a|);
  }

  /* ---------- Java's String.compareTo and String.trim ---------- */

  /** `a.compareTo(b) <= 0`: lexicographic by character, a proper prefix first. */
  predicate StrLe(a: string, b: string)
  {
    |a| == 0 || (|b| != 0 && (a[0] < b[0] || (a[0] == b[0] && StrLe(a[1..], b[1..]))))
  }

  lemma {:induction false} StrLeTotal(a: string, b: string)
    ensures StrLe(a, b) || StrLe(b, a)
  {
    if |a| != 0 && |b| != 0 && a[0] == b[0] {
      StrLeTotal(a[1..], b[1..]);
    }
  }

  lemma {:induction false} StrLeTransitive(a: string, b: string, c: string)
    requires StrLe(a, b) && StrLe(b, c)
    ensures StrLe(a, c)
  {
    if |a| != 0 && |b| != 0 && |c| != 0 && a[0] == b[0] && b[0] == c[0] {
      StrLeTransitive(a[1..], b[1..], c[1..]);
    }
  }

  lemma {:induction false} StrLeAntisymmetric(a: string, b: string)
    requires StrLe(a, b) && StrLe(b, a)
    ensures a == b
  {
    if |a| != 0 && |b| != 0 {
      StrLeAntisymmetric(a[1..], b[1..]);
      assert a == [a[0]] + a[1..] && b == [b[0]] + b[1..];
    }
  }

  /** The characters String.trim removes: everything up to U+0020. */
  predicate IsTrimmable(c: char) { c <= ' ' }

  /** `TextUtils.isEmpty(s) || TextUtils.isEmpty(s.trim())`, with null read as "". */
  predicate IsBlank(s: string)
  {
    forall i :: 0 <= i < |s| ==> IsTrimmable(s[i])
  }

  /** String.trim. */
  function Trim(s: string): (r: string)
    ensures r == [] <==> IsBlank(s)
    ensures r != [] ==> !IsTrimmable(r[0]) && !IsTrimmable(r[|r| - 1])
    ensures |r| <= |s|
  {
    var a := DropWhileStart(s, IsTrimmable);
    var r := DropWhileEnd(a, IsTrimmable);
    assert r == [] ==> forall i :: 0 <= i < |s| ==> IsTrimmable(s[i]) by {
      if r == [] {
        forall i | 0 <= i < |s| ensures IsTrimmable(s[i]) {
          if i >= |s| - |a| {
            assert s[i] == a[i - (|s| - |a|)];
          }
        }
      }
    }
    r
  }

  /** `trim` cuts a run of characters up to U+0020 off each end, and nothing else. */
  lemma TrimIsSlice(s: string)
    ensures StripsTo(s, Trim(s), IsTrimmable, true, true)
  {
    DropBothIsSlice(s, IsTrimmable, true, true);
  }


  /* ---------- Canonical source url ---------- */

  /** `url.replaceAll("/+$", "")`, which the add applies when the url ends in "/". */
  function StripTrailingSlashes(url: string): (r: string)
    ensures |r| <= |url| && r == url[..|r|]
    ensures r == [] || r[|r| - 1] != '/'
    ensures forall i :: |r| <= i < |url| ==> url[i] == '/'
  {
    DropWhileEnd(url, c => c == '/')
  }

  /* ---------- The group splitter ---------- */

  /** The character class `[,;，；]`. */
  predicate IsDelimiter(c: char)
  {
    c == ',' || c == ';' || c == '\U{FF0C}' || c == '\U{FF1B}'
  }

  /** `\s` of java.util.regex: space, tab, newline, vertical tab, form feed, carriage return. */
  predicate IsRegexSpace(c: char)
  {
    c == ' ' || c == '\t' || c == '\n' || c == '\U{B}' || c == '\U{C}' || c == '\r'
  }

  predicate NoDelimiter(t: string)
  {
    forall j :: 0 <= j < |t| ==> !IsDelimiter(t[j])
  }

  /** The delimiter characters of `s`, in order. */
  function DelimitersOf(s: string): (d: string)
    ensures |d| <= |s|
    ensures forall j :: 0 <= j < |d| ==> IsDelimiter(d[j])
  {
    if |s| == 0 then []
    else if IsDelimiter(s[0]) then [s[0]] + DelimitersOf(s[1..])
    else DelimitersOf(s[1..])
  }

  /** Puts the pieces back together with the delimiters between them. */
  function Join(pieces: seq<string>, delimiters: string): string
    requires |pieces| == |delimiters| + 1
    decreases |delimiters|
  {
    if |delimiters| == 0 then pieces[0]
    else pieces[0] + [delimiters[0]] + Join(pieces[1..], delimiters[1..])
  }

  /** The text between consecutive delimiter characters (empty pieces included). */
  function Pieces(s: string): (r: seq<string>)
    ensures |r| == |DelimitersOf(s)| + 1
    ensures forall i :: 0 <= i < |r| ==> NoDelimiter(r[i])
    ensures Join(r, DelimitersOf(s)) == s
    decreases |s|
  {
    if |s| == 0 then [""]
    else if IsDelimiter(s[0]) then
      var p := Pieces(s[1..]);
      assert ([""] + p)[1..] == p;
      [""] + p
    else
      var p := Pieces(s[1..]);
      var r := [[s[0]] + p[0]] + p[1..];
      assert r[1..] == p[1..];
      assert s == [s[0]] + s[1..];
      r
  }

  /** A piece as the regex leaves it: the whitespace next to a delimiter
      belongs to the match, so it is stripped on each side that touches one. */
  function Token(piece: string, afterDelimiter: bool, beforeDelimiter: bool): (t: string)
    ensures |t| <= |piece|
    ensures NoDelimiter(piece) ==> NoDelimiter(t)
    ensures afterDelimiter && t != [] ==> !IsRegexSpace(t[0])
    ensures beforeDelimiter && t != [] ==> !IsRegexSpace(t[|t| - 1])
    ensures !afterDelimiter && !beforeDelimiter ==> t == piece
  {
    var a := if afterDelimiter then DropWhileStart(piece, IsRegexSpace) else piece;
    if beforeDelimiter then DropWhileEnd(a, IsRegexSpace) else a
  }

  /** A token is its piece with `\s` characters cut off the sides that touch
      a delimiter, and nothing else. */
  lemma TokenIsSlice(piece: string, afterDelimiter: bool, beforeDelimiter: bool)
    ensures StripsTo(piece, Token(piece, afterDelimiter, beforeDelimiter), IsRegexSpace, afterDelimiter, beforeDelimiter)
  {
    DropBothIsSlice(piece, IsRegexSpace, afterDelimiter, beforeDelimiter);
  }


  /** Every piece turned into its token: the first piece keeps its leading
      whitespace and the last its trailing whitespace. */
  function Tokens(s: string): (r: seq<string>)
    ensures |r| == |Pieces(s)|
    ensures forall i :: 0 <= i < |r| ==> NoDelimiter(r[i])
    ensures forall i :: 0 <= i < |r| ==> r[i] == Token(Pieces(s)[i], i > 0, i < |r| - 1)
  {
    var p := Pieces(s);
    seq(|p|, i requires 0 <= i < |p| => Token(p[i], i > 0, i < |p| - 1))
  }

  /** `s.split("\\s*[,;，；]\\s*")`: with no match, the whole string; otherwise
      the tokens without the trailing empty ones Java discards. */
  function Split(s: string): (r: seq<string>)
    ensures |r| <= |DelimitersOf(s)| + 1
    ensures forall t :: t in r ==> NoDelimiter(t)
    ensures |DelimitersOf(s)| == 0 ==> r == [s]
    ensures |DelimitersOf(s)| != 0 ==> r == Tokens(s)[..|r|] && (r == [] || r[|r| - 1] != "")
    ensures |DelimitersOf(s)| != 0 ==> forall i :: |r| <= i < |Tokens(s)| ==> Tokens(s)[i] == ""
  {
    var toks := Tokens(s);
    if |DelimitersOf(s)| == 0 then
      assert Join(Pieces(s), []) == Pieces(s)[0];
      [s]
    else
      DropWhileEnd(toks, t => t == "")
  }
}
