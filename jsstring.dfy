/**
 * The JavaScript string operations the theme-path grammar is built from:
 * `String.prototype.trim`, `String.prototype.split` on a one-character
 * separator, and the `split(sep).map(trim).filter(e => e !== '')` pipeline
 * every path reader uses.
 */
module JsString {

  /** ECMAScript LineTerminator code points; the regular-expression `.` does not match them. */
  predicate IsLineTerminator(c: char) {
    c == '\n' || c == '\r' || c == '\U{2028}' || c == '\U{2029}'
  }

  /** ECMAScript WhiteSpace and LineTerminator code points: what `trim` removes from both ends. */
  predicate IsWhiteSpace(c: char) {
    || IsLineTerminator(c)
    || c == '\t' || c == '\U{000B}' || c == '\U{000C}' || c == ' ' || c == '\U{00A0}' || c == '\U{FEFF}'
    // the remaining members of the Unicode category Zs
    || c == '\U{1680}' || ('\U{2000}' <= c <= '\U{200A}') || c == '\U{202F}' || c == '\U{205F}' || c == '\U{3000}'
  }

  /** Neither end of `s` is white space. */
  predicate Trimmed(s: string) {
    s == "" || (!IsWhiteSpace(s[0]) && !IsWhiteSpace(s[|s| - 1]))
  }

  function TrimStart(s: string): (r: string)
    ensures |r| <= |s| && r == s[|s| - |r|..]
    ensures forall i :: 0 <= i < |s| - |r| ==> IsWhiteSpace(s[i])
    ensures r == "" || !IsWhiteSpace(r[0])
  {
    if s != "" && IsWhiteSpace(s[0]) then TrimStart(s[1..]) else s
  }

  function TrimEnd(s: string): (r: string)
    ensures |r| <= |s| && r == s[..|r|]
    ensures forall i :: |r| <= i < |s| ==> IsWhiteSpace(s[i])
    ensures r == "" || !IsWhiteSpace(r[|r| - 1])
  {
    if s != "" && IsWhiteSpace(s[|s| - 1]) then TrimEnd(s[..|s| - 1]) else s
  }

  /** `s.trim()`: the longest infix of `s` with no white space at either end. */
  function Trim(s: string): (r: string)
    ensures Trimmed(r)
    ensures forall c :: c in r ==> c in s
    ensures Trimmed(s) ==> r == s
  {
    TrimEnd(TrimStart(s))
  }

  /** `s[i..j]` is `s` with only white space cut from its two ends. */
  predicate IsWhiteSpaceAround(s: string, i: int, j: int) {
    && 0 <= i <= j <= |s|
    && (forall k :: 0 <= k < i ==> IsWhiteSpace(s[k]))
    && (forall k :: j <= k < |s| ==> IsWhiteSpace(s[k]))
  }

  /** `trim` cuts white space, and only white space, from the two ends: with `Trimmed`, this
      pins its result down exactly. */
  lemma TrimCutsWhiteSpace(s: string)
    ensures exists i, j :: IsWhiteSpaceAround(s, i, j) && Trim(s) == s[i..j]
  {
    var t, r := TrimStart(s), Trim(s);
    var i := |s| - |t|;
    CutOfCut(s, t, r);
    assert IsWhiteSpaceAround(s, i, i + |r|) && r == s[i..i + |r|];
  }

  /** Cutting white space from the end of a string that was cut from the end of `s` cuts it
      from both ends of `s`. */
  lemma CutOfCut(s: string, t: string, r: string)
    requires |t| <= |s| && t == s[|s| - |t|..] && forall k :: 0 <= k < |s| - |t| ==> IsWhiteSpace(s[k])
    requires |r| <= |t| && r == t[..|r|] && forall k :: |r| <= k < |t| ==> IsWhiteSpace(t[k])
    ensures var i := |s| - |t|; IsWhiteSpaceAround(s, i, i + |r|) && r == s[i..i + |r|]
  {
    var i := |s| - |t|;
    forall k | i + |r| <= k < |s| ensures IsWhiteSpace(s[k]) {
      assert s[k] == t[k - i];
    }
  }

  /** `s.split(sep)`: the maximal runs between separators, always at least one (possibly empty) piece. */
  function Split(s: string, sep: char): (r: seq<string>)
    ensures |r| >= 1
    ensures forall p :: p in r ==> sep !in p
    ensures forall p, c :: p in r && c in p ==> c in s
  {
    if s == "" then [""]
    else
      var rest := Split(s[1..], sep);
      if s[0] == sep then [""] + rest else [[s[0]] + rest[0]] + rest[1..]
  }

  /** `parts.join(sep)`. */
  function Join(parts: seq<string>, sep: char): string {
    if |parts| == 0 then ""
    else if |parts| == 1 then parts[0]
    else parts[0] + [sep] + Join(parts[1..], sep)
  }

  /** `ps.map(e => e.trim())`. */
  function TrimEach(ps: seq<string>): (r: seq<string>)
    ensures |r| == |ps| && forall i :: 0 <= i < |ps| ==> r[i] == Trim(ps[i])
  {
    seq(|ps|, i requires 0 <= i < |ps| => Trim(ps[i]))
  }

  /** `ps.filter(e => e !== '')`: the non-empty elements, in order. */
  function NonEmpty(ps: seq<string>): (r: seq<string>)
    ensures |r| <= |ps|
    ensures forall p :: p in r ==> p != "" && p in ps
    ensures (forall i :: 0 <= i < |ps| ==> ps[i] != "") ==> r == ps
    ensures forall p :: p in ps && p != "" ==> p in r
    ensures |ps| == 1 ==> r == (if ps[0] == "" then [] else ps)
  {
    if ps == [] then []
    else if ps[0] == "" then NonEmpty(ps[1..])
    else [ps[0]] + NonEmpty(ps[1..])
  }

  /** The filter works element by element: filtering a concatenation concatenates the filtered
      halves, so every non-empty element is kept, in its place in the order. */
  lemma {:induction false} NonEmptyAppend(a: seq<string>, b: seq<string>)
    ensures NonEmpty(a + b) == NonEmpty(a) + NonEmpty(b)
  {
    if a == [] {
      assert a + b == b;
    } else {
      assert (a + b)[0] == a[0] && (a + b)[1..] == a[1..] + b;
      NonEmptyAppend(a[1..], b);
    }
  }

  /** A well-formed component of a `sep`-separated list: non-empty, trimmed, free of `sep`. */
  predicate IsPiece(p: string, sep: char) {
    p != "" && Trimmed(p) && sep !in p
  }

  /** Trimming each of some separator-free pieces of `s` keeps them separator-free and made of
      the characters of `s`, and makes them trimmed. */
  lemma TrimEachKeeps(ps: seq<string>, s: string, sep: char)
    requires forall p :: p in ps ==> sep !in p
    requires forall p, c :: p in ps && c in p ==> c in s
    ensures forall p :: p in TrimEach(ps) ==> Trimmed(p) && sep !in p
    ensures forall p, c :: p in TrimEach(ps) && c in p ==> c in s
  {
    var t := TrimEach(ps);
    forall p | p in t ensures Trimmed(p) && sep !in p && forall c :: c in p ==> c in s {
      var i :| 0 <= i < |t| && t[i] == p;
      assert ps[i] in ps;
    }
  }

  /** `s.split(sep).map(e => e.trim()).filter(e => e !== '')`. */
  function Pieces(s: string, sep: char): (r: seq<string>)
    ensures forall p :: p in r ==> IsPiece(p, sep)
    ensures forall p, c :: p in r && c in p ==> c in s
  {
    var split := Split(s, sep);
    var trimmed := TrimEach(split);
    TrimEachKeeps(split, s, sep);
    NonEmpty(trimmed)
  }

  /** Splitting a separator-free prefix glues it onto the first piece. */
  lemma {:induction false} SplitPrefix(a: string, s: string, sep: char)
    requires sep !in a
    ensures Split(a + s, sep) == [a + Split(s, sep)[0]] + Split(s, sep)[1..]
  {
    var r := Split(s, sep);
    if a != "" {
      assert (a + s)[0] == a[0] && (a + s)[1..] == a[1..] + s;
      SplitPrefix(a[1..], s, sep);
      assert [a[0]] + (a[1..] + r[0]) == a + r[0];
    } else {
      assert a + s == s && a + r[0] == r[0];
      assert [r[0]] + r[1..] == r;
    }
  }

  /** `split` undoes `join` for separator-free parts. */
  lemma {:induction false} SplitJoin(parts: seq<string>, sep: char)
    requires |parts| >= 1
    requires forall p :: p in parts ==> sep !in p
    ensures Split(Join(parts, sep), sep) == parts
  {
    if |parts| == 1 {
      SplitPrefix(parts[0], "", sep);
      assert parts[0] + "" == parts[0];
    } else {
      var tail := Join(parts[1..], sep);
      assert forall p :: p in parts[1..] ==> p in parts;
      SplitJoin(parts[1..], sep);
      assert parts[0] in parts;
      assert parts[0] + [sep] + tail == parts[0] + ([sep] + tail);
      SplitPrefix(parts[0], [sep] + tail, sep);
      assert ([sep] + tail)[1..] == tail;
      assert Split([sep] + tail, sep) == [""] + parts[1..];
      assert parts[0] + "" == parts[0];
      assert parts == [parts[0]] + parts[1..];
    }
  }

  /** The path reader gives back exactly the well-formed pieces a string was joined from. */
  lemma {:induction false} PiecesOfJoin(parts: seq<string>, sep: char)
    requires forall p :: p in parts ==> IsPiece(p, sep)
    ensures Pieces(Join(parts, sep), sep) == parts
  {
    if parts != [] {
      SplitJoin(parts, sep);
      var trimmed := TrimEach(parts);
      assert trimmed == parts by {
        forall i | 0 <= i < |parts| ensures trimmed[i] == parts[i] {
          assert parts[i] in parts;
        }
      }
      assert forall i :: 0 <= i < |parts| ==> parts[i] != "" by {
        forall i | 0 <= i < |parts| ensures parts[i] != "" {
          assert parts[i] in parts;
        }
      }
    }
  }

  /** For separator-free parts, padded or empty ones included, the path reader gives back the
      trimmed parts with the empty ones dropped. */
  lemma PiecesOfPaddedJoin(parts: seq<string>, sep: char)
    requires forall p :: p in parts ==> sep !in p
    ensures Pieces(Join(parts, sep), sep) == NonEmpty(TrimEach(parts))
  {
    if parts == [] {
      assert Split("", sep) == [""];
      assert Trim("") == "";
      assert TrimEach([""]) == [""];
    } else {
      SplitJoin(parts, sep);
    }
  }

  /** The joined list starts with the first part's first character and ends with the last part's last one. */
  lemma {:induction false} JoinEnds(parts: seq<string>, sep: char)
    requires |parts| >= 1 && forall i :: 0 <= i < |parts| ==> parts[i] != ""
    ensures var j := Join(parts, sep); j != "" && j[0] == parts[0][0] && j[|j| - 1] == parts[|parts| - 1][|parts[|parts| - 1]| - 1]
  {
    if |parts| > 1 {
      JoinEnds(parts[1..], sep);
    }
  }

  /** A character that is neither the separator nor in any part is not in the joined string. */
  lemma {:induction false} JoinAvoids(parts: seq<string>, sep: char, c: char)
    requires c != sep
    requires forall p :: p in parts ==> c !in p
    ensures c !in Join(parts, sep)
  {
    if |parts| > 1 {
      assert parts[0] in parts;
      assert forall p :: p in parts[1..] ==> p in parts;
      JoinAvoids(parts[1..], sep, c);
    } else if |parts| == 1 {
      assert parts[0] in parts;
    }
  }
}
