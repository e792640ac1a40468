/**
 * The Python string primitives the parsers rely on: `str.isspace`,
 * `str.strip()`, `str.lstrip(chars)`, `str.startswith`, `str.replace` of one
 * character by another, and `" ".join`.
 */
module Text {

  /** `c.isspace()`: the characters Python's `str.strip()` removes. */
  predicate IsSpace(c: char)
  {
    || ('\t' <= c <= '\r')
    || ('\U{1C}' <= c <= '\U{1F}')
    || c == ' ' || c == '\U{85}' || c == '\U{A0}' || c == '\U{1680}'
    || ('\U{2000}' <= c <= '\U{200A}')
    || c == '\U{2028}' || c == '\U{2029}' || c == '\U{202F}' || c == '\U{205F}' || c == '\U{3000}'
  }

  /** `s.startswith(p)`. */
  predicate StartsWith(s: string, p: string)
  {
    |p| <= |s| && s[..|p|] == p
  }

  /** `s.lstrip(chars)`: the longest prefix made of characters of `chars` is
      removed (see `LStripCharsDrops`). */
  function LStripChars(s: string, chars: set<char>): (r: string)
    ensures |r| <= |s|
  {
    if s != [] && s[0] in chars then LStripChars(s[1..], chars) else s
  }

  /** What `s.lstrip(chars)` keeps is a suffix of `s`, everything it drops is
      in `chars`, and what it keeps does not start with a character of
      `chars`. */
  lemma {:induction false} LStripCharsDrops(s: string, chars: set<char>)
    ensures var r := LStripChars(s, chars);
      && r == s[|s| - |r|..]
      && (forall i :: 0 <= i < |s| - |r| ==> s[i] in chars)
      && (r != [] ==> r[0] !in chars)
  {
    if s != [] && s[0] in chars {
      LStripCharsDrops(s[1..], chars);
    }
  }

  /** `s.lstrip()`: leading whitespace removed (see `StripSpaces`). */
  function LStripSpace(s: string): (r: string)
    ensures |r| <= |s|
  {
    if s != [] && IsSpace(s[0]) then LStripSpace(s[1..]) else s
  }

  /** `s.rstrip()`: trailing whitespace removed (see `StripSpaces`). */
  function RStripSpace(s: string): (r: string)
    ensures |r| <= |s|
  {
    if s != [] && IsSpace(s[|s| - 1]) then RStripSpace(s[..|s| - 1]) else s
  }

  /** `s.strip()` (see `StripSpaces`). */
  function Strip(s: string): (r: string)
    ensures |r| <= |s|
  {
    RStripSpace(LStripSpace(s))
  }

  /** `s.lstrip()` keeps a suffix of `s`, drops only whitespace and keeps
      nothing that starts with whitespace. */
  lemma {:induction false} LStripSpaceDrops(s: string)
    ensures var r := LStripSpace(s);
      && r == s[|s| - |r|..]
      && (forall i :: 0 <= i < |s| - |r| ==> IsSpace(s[i]))
      && (r != [] ==> !IsSpace(r[0]))
  {
    if s != [] && IsSpace(s[0]) {
      LStripSpaceDrops(s[1..]);
    }
  }

  /** `s.rstrip()` keeps a prefix of `s`, drops only whitespace and keeps
      nothing that ends with whitespace. */
  lemma {:induction false} RStripSpaceDrops(s: string)
    ensures var r := RStripSpace(s);
      && r == s[..|r|]
      && (forall i :: |r| <= i < |s| ==> IsSpace(s[i]))
      && (r != [] ==> !IsSpace(r[|r| - 1]))
  {
    if s != [] && IsSpace(s[|s| - 1]) {
      RStripSpaceDrops(s[..|s| - 1]);
    }
  }

  /** A `strip()` that drops nothing gives the string back. */
  lemma StripWhole(s: string)
    ensures |Strip(s)| == |s| ==> Strip(s) == s
  {
    LStripSpaceDrops(s);
    RStripSpaceDrops(LStripSpace(s));
  }

  /** What `s.strip()` keeps neither starts nor ends with whitespace, and it
      is empty exactly when `s` is all whitespace. */
  lemma StripSpaces(s: string)
    ensures var r := Strip(s);
      && (r != [] ==> !IsSpace(r[0]) && !IsSpace(r[|r| - 1]))
      && (r == [] <==> forall i :: 0 <= i < |s| ==> IsSpace(s[i]))
  {
    var l := LStripSpace(s);
    LStripSpaceDrops(s);
    RStripSpaceDrops(l);
    var r := RStripSpace(l);
    if r != [] {
      assert r[0] == l[0];
    } else {
      assert l == [];
    }
  }

  /** `s.replace(a, b)` for single characters `a` and `b` (see
      `ReplaceCharPointwise`). */
  function ReplaceChar(s: string, a: char, b: char): (r: string)
    ensures |r| == |s|
  {
    if s == [] then [] else [if s[0] == a then b else s[0]] + ReplaceChar(s[1..], a, b)
  }

  /** `s.replace(a, b)` changes every `a` into `b` and keeps every other
      character in its place. */
  lemma {:induction false} ReplaceCharPointwise(s: string, a: char, b: char)
    ensures forall i :: 0 <= i < |s| ==> ReplaceChar(s, a, b)[i] == if s[i] == a then b else s[i]
  {
    if s != [] {
      ReplaceCharPointwise(s[1..], a, b);
      assert forall i :: 1 <= i < |s| ==> ReplaceChar(s, a, b)[i] == ReplaceChar(s[1..], a, b)[i - 1];
    }
  }

  /** `" ".join(parts)`. */
  function JoinSpace(parts: seq<string>): (r: string)
    ensures r == "" <==> parts == [] || parts == [""]
    ensures parts != [] ==> StartsWith(r, parts[0])
  {
    if |parts| == 0 then ""
    else if |parts| == 1 then parts[0]
    else parts[0] + " " + JoinSpace(parts[1..])
  }

  /** Appending one more part to a join puts a single space and the part at
      its end: the join of a buffer built line by line is the join of its lines
      in the order they were read. */
  lemma {:induction false} JoinSpaceAppend(parts: seq<string>, p: string)
    ensures JoinSpace(parts + [p]) == if parts == [] then p else JoinSpace(parts) + " " + p
  {
    if |parts| >= 2 {
      assert (parts + [p])[1..] == parts[1..] + [p];
      JoinSpaceAppend(parts[1..], p);
    } else if |parts| == 1 {
      assert parts + [p] == [parts[0], p];
    }
  }

  /** `"".join(lines)`. */
  function Concat(lines: seq<string>): (r: string)
    ensures lines != [] ==> StartsWith(r, lines[0])
  {
    if lines == [] then "" else lines[0] + Concat(lines[1..])
  }
}
