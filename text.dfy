/** String helpers shared by the parser and the exporter: the whitespace
    set that String.prototype.trim removes, trimming, and joining with a
    separator (Array.prototype.join). */
module Text {

  /** White space and line terminators as ECMAScript's trim understands them:
      TAB, LF, VT, FF, CR, SPACE, NBSP, the other Zs code points,
      LINE SEPARATOR, PARAGRAPH SEPARATOR and the BOM. */
  predicate IsSpace(c: char) {
    c == '\t' || c == '\n' || c == '\U{B}' || c == '\U{C}' || c == '\r' ||
    c == ' ' || c == '\U{A0}' || c == '\U{1680}' ||
    ('\U{2000}' <= c <= '\U{200A}') ||
    c == '\U{2028}' || c == '\U{2029}' || c == '\U{202F}' || c == '\U{205F}' ||
    c == '\U{3000}' || c == '\U{FEFF}'
  }

  /** Neither end of s is white space. */
  predicate IsTrimmed(s: string) {
    s == [] || (!IsSpace(s[0]) && !IsSpace(s[|s| - 1]))
  }

  /** String.prototype.trim: white space is removed from both ends. */
  function Trim(s: string): (r: string)
    ensures IsTrimmed(r)
    ensures multiset(r) <= multiset(s)
    ensures IsTrimmed(s) ==> r == s
    decreases |s|
  {
    if s != [] && IsSpace(s[0]) then
      assert s == [s[0]] + s[1..];
      Trim(s[1..])
    else if s != [] && IsSpace(s[|s| - 1]) then
      assert s == s[..|s| - 1] + [s[|s| - 1]];
      Trim(s[..|s| - 1])
    else s
  }

  /** The number of white-space characters s starts with. */
  function LeadingSpaces(s: string): (n: nat)
    ensures n <= |s|
    ensures forall k :: 0 <= k < n ==> IsSpace(s[k])
    decreases |s|
  {
    if s != [] && IsSpace(s[0]) then 1 + LeadingSpaces(s[1..]) else 0
  }

  /** Trim removes white space at the ends and nothing else: its result is
      the infix of s that starts after the leading white space and is
      followed only by white space. */
  lemma {:induction false} TrimIsInfix(s: string)
    ensures LeadingSpaces(s) + |Trim(s)| <= |s|
    ensures Trim(s) == s[LeadingSpaces(s)..LeadingSpaces(s) + |Trim(s)|]
    ensures forall k :: LeadingSpaces(s) + |Trim(s)| <= k < |s| ==> IsSpace(s[k])
    decreases |s|, 1
  {
    if s != [] && IsSpace(s[0]) {
      TrimInfixLeading(s);
    } else if s != [] && IsSpace(s[|s| - 1]) {
      TrimInfixTrailing(s);
    }
  }

  /** TrimIsInfix when s starts with white space. */
  lemma {:induction false} TrimInfixLeading(s: string)
    requires s != [] && IsSpace(s[0])
    ensures LeadingSpaces(s) + |Trim(s)| <= |s|
    ensures Trim(s) == s[LeadingSpaces(s)..LeadingSpaces(s) + |Trim(s)|]
    ensures forall k :: LeadingSpaces(s) + |Trim(s)| <= k < |s| ==> IsSpace(s[k])
    decreases |s|, 0
  {
    var t := s[1..];
    TrimIsInfix(t);
    assert Trim(s) == Trim(t) && LeadingSpaces(s) == 1 + LeadingSpaces(t);
    assert t[LeadingSpaces(t)..LeadingSpaces(t) + |Trim(t)|] == s[LeadingSpaces(s)..LeadingSpaces(s) + |Trim(s)|];
    forall k | LeadingSpaces(s) + |Trim(s)| <= k < |s| ensures IsSpace(s[k]) {
      assert s[k] == t[k - 1];
    }
  }

  /** TrimIsInfix when s ends, but does not start, with white space. */
  lemma {:induction false} TrimInfixTrailing(s: string)
    requires s != [] && !IsSpace(s[0]) && IsSpace(s[|s| - 1])
    ensures LeadingSpaces(s) + |Trim(s)| <= |s|
    ensures Trim(s) == s[LeadingSpaces(s)..LeadingSpaces(s) + |Trim(s)|]
    ensures forall k :: LeadingSpaces(s) + |Trim(s)| <= k < |s| ==> IsSpace(s[k])
    decreases |s|, 0
  {
    var t := s[..|s| - 1];
    TrimIsInfix(t);
    assert Trim(s) == Trim(t);
    assert LeadingSpaces(s) == 0;
    assert |s| == 1 || LeadingSpaces(t) == 0;
    assert t[..|Trim(t)|] == s[..|Trim(s)|];
    forall k | |Trim(s)| <= k < |s| ensures IsSpace(s[k]) {
      if k < |s| - 1 { assert s[k] == t[k]; }
    }
  }

  /** Array.prototype.join(sep) over strings. */
  function Join(fs: seq<string>, sep: string): (r: string)
    ensures |fs| == 1 ==> r == fs[0]
  {
    if fs == [] then ""
    else if |fs| == 1 then fs[0]
    else fs[0] + sep + Join(fs[1..], sep)
  }

  /** A character of a joined string comes from a piece or from a separator. */
  lemma {:induction false} JoinChars(fs: seq<string>, sep: string, c: char)
    requires forall k :: 0 <= k < |fs| ==> c !in fs[k]
    requires c !in sep
    ensures c !in Join(fs, sep)
  {
    if |fs| >= 2 {
      JoinChars(fs[1..], sep, c);
    }
  }

  /** Trimmed pieces joined by a trimmed, non-empty separator give a
      trimmed string. */
  lemma {:induction false} JoinTrimmed(fs: seq<string>, sep: string)
    requires sep != [] && IsTrimmed(sep)
    requires forall k :: 0 <= k < |fs| ==> IsTrimmed(fs[k])
    ensures IsTrimmed(Join(fs, sep))
  {
    if |fs| >= 2 {
      var rest := Join(fs[1..], sep);
      JoinTrimmed(fs[1..], sep);
      var j := fs[0] + sep + rest;
      assert j[0] == if fs[0] != [] then fs[0][0] else sep[0];
      assert j[|j| - 1] == if rest != [] then rest[|rest| - 1] else sep[|sep| - 1];
    }
  }

  /** Non-empty trimmed pieces joined by any separator give a trimmed
      string. */
  lemma {:induction false} JoinTrimmedPieces(fs: seq<string>, sep: string)
    requires forall k :: 0 <= k < |fs| ==> fs[k] != [] && IsTrimmed(fs[k])
    ensures IsTrimmed(Join(fs, sep))
  {
    if |fs| >= 2 {
      var rest := Join(fs[1..], sep);
      JoinTrimmedPieces(fs[1..], sep);
      JoinNonEmpty(fs[1..], sep);
      var j := fs[0] + sep + rest;
      assert j[0] == fs[0][0];
      assert j[|j| - 1] == rest[|rest| - 1];
    }
  }

  /** Joining at least one non-empty piece gives a non-empty string. */
  lemma {:induction false} JoinNonEmpty(fs: seq<string>, sep: string)
    requires |fs| >= 1 && forall k :: 0 <= k < |fs| ==> fs[k] != []
    ensures Join(fs, sep) != []
  {
  }
}
