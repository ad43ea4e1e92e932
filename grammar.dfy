/**
 * The theme-path grammar of the final plugin (src/plugin.js): a `/`-separated
 * path `kinds/name/variant/const`, written in full or as the `name/variant`
 * shorthand, validated, expanded and parsed.
 *
 * JavaScript array destructuring past the end of a segment list yields
 * `undefined`, which a template literal prints as "undefined"; `Seg` keeps
 * that case visible instead of excluding it.
 */
module ThemePathGrammar {
  import opened Wrappers
  import opened JsString

  /** A destructured path segment: present, or `undefined` past the end of the list. */
  datatype Seg = Given(text: string) | Undefined

  /** How a template literal interpolates a segment. */
  function Render(g: Seg): string {
    match g
    case Given(t) => t
    case Undefined => "undefined"
  }

  /** `parts[k]`, which is `undefined` when `k` is past the end. */
  function SegAt(parts: seq<string>, k: nat): Seg {
    if k < |parts| then Given(parts[k]) else Undefined
  }

  /** The template `${a}/${b}/${c}/${d}`. */
  function Path4(a: string, b: string, c: string, d: string): string {
    a + "/" + b + "/" + c + "/" + d
  }

  /** The kind list a shorthand or a `*` kind segment expands to. */
  const AllKinds: string := "ColorTheme,EffectTheme,TextTheme"

  /** The trimmed, non-empty `/`-segments of a path. */
  function Segments(path: string): seq<string> {
    Pieces(path, '/')
  }

  /** `validateThemePath`: a path is valid when it has two or four segments. */
  predicate ValidateThemePath(path: string) {
    |Segments(path)| == 2 || |Segments(path)| == 4
  }

  lemma Path4Joined(a: string, b: string, c: string, d: string)
    ensures Path4(a, b, c, d) == Join([a, b, c, d], '/')
  {
    assert [a, b, c, d][1..] == [b, c, d];
    assert [b, c, d][1..] == [c, d];
    assert [c, d][1..] == [d];
    assert Join([c, d], '/') == c + "/" + d;
    assert Join([b, c, d], '/') == b + "/" + (c + "/" + d);
    assert Join([a, b, c, d], '/') == a + "/" + (b + "/" + (c + "/" + d));
  }

  /** A path joined from well-formed segments is valid exactly when it has two or four of them. */
  lemma ValidateJoined(parts: seq<string>)
    requires forall p :: p in parts ==> IsPiece(p, '/')
    ensures ValidateThemePath(Join(parts, '/')) <==> |parts| == 2 || |parts| == 4
  {
    var path := Join(parts, '/');
    assert Segments(path) == parts by {
      PiecesOfJoin(parts, '/');
    }
  }

  // ---------------------------------------------------------------------------
  // The first match of /\((.+?)\)/ (src/plugin.js:252-253)

  /** No line terminator in `s[a..b]`. */
  predicate ClearBetween(s: string, a: int, b: int)
    requires 0 <= a && b <= |s|
  {
    forall m :: a <= m < b ==> !IsLineTerminator(s[m])
  }

  /** `s[i..k+1]` is a match of /\((.+?)\)/: an opening parenthesis, at least one
      character that is not a line terminator, and a closing parenthesis. */
  predicate IsGroupMatch(s: string, i: int, k: int) {
    0 <= i && i + 2 <= k < |s| && s[i] == '(' && s[k] == ')' && ClearBetween(s, i + 1, k)
  }

  /** The lazy `.+?` followed by `\)`, scanning from position `j`. */
  function CloseFrom(s: string, j: nat): (r: Option<nat>)
    requires j <= |s|
    ensures r.Some? ==> j <= r.value < |s| && s[r.value] == ')' && ClearBetween(s, j, r.value)
    ensures r.Some? ==> forall k :: j <= k < r.value ==> s[k] != ')'
    ensures r.None? ==> forall k :: j <= k < |s| && s[k] == ')' ==> !ClearBetween(s, j, k)
    decreases |s| - j
  {
    if j == |s| then None
    else if s[j] == ')' then Some(j)
    else if IsLineTerminator(s[j]) then None
    else CloseFrom(s, j + 1)
  }

  /** The shortest match of the group starting at `i`, by the position of its closing parenthesis. */
  function MatchAt(s: string, i: nat): (r: Option<nat>)
    requires i < |s|
    ensures r.Some? ==> IsGroupMatch(s, i, r.value)
    ensures r.Some? ==> forall k :: k < r.value ==> !IsGroupMatch(s, i, k)
    ensures r.None? ==> forall k :: !IsGroupMatch(s, i, k)
  {
    if i + 1 < |s| && s[i] == '(' && !IsLineTerminator(s[i + 1]) then CloseFrom(s, i + 2) else None
  }

  /** The leftmost match at or after `i`, as the positions of its two parentheses. */
  function FirstGroupFrom(s: string, i: nat): (r: Option<(nat, nat)>)
    requires i <= |s|
    ensures r.Some? ==> i <= r.value.0 && IsGroupMatch(s, r.value.0, r.value.1)
    ensures r.Some? ==> forall a, k :: i <= a < r.value.0 ==> !IsGroupMatch(s, a, k)
    ensures r.Some? ==> forall k :: k < r.value.1 ==> !IsGroupMatch(s, r.value.0, k)
    ensures r.None? ==> forall a, k :: i <= a ==> !IsGroupMatch(s, a, k)
    decreases |s| - i
  {
    if i == |s| then None
    else match MatchAt(s, i)
      case Some(k) => Some((i, k))
      case None => FirstGroupFrom(s, i + 1)
  }

  /** `raw.match(/\((.+?)\)/)[1]`: the text inside the leftmost, shortest parenthesised group. */
  function GroupText(raw: string): (r: Option<string>)
    ensures r.Some? <==> exists a, k :: IsGroupMatch(raw, a, k)
  {
    match FirstGroupFrom(raw, 0)
    case Some((a, k)) => Some(raw[a + 1..k])
    case None => None
  }

  /** The path `expandThemePath` works on: the group's text if there is one, else the whole name. */
  function SelectorText(raw: string): string {
    match GroupText(raw)
    case Some(g) => g
    case None => raw
  }

  /** A name without an opening parenthesis is used as it is. */
  lemma NoParenthesisNoGroup(raw: string)
    requires '(' !in raw
    ensures SelectorText(raw) == raw
  {
  }

  // ---------------------------------------------------------------------------
  // Expansion (src/plugin.js:249-280; the same rule without the group is code.js:80-100)

  /** The expansion rule applied to a path whose group has already been taken. */
  function ExpandSegments(path: string): string {
    var parts := Segments(path);
    if |parts| == 2 then
      Path4(AllKinds, parts[0], parts[1], "*")
    else if SegAt(parts, 0) == Given("*") then
      Path4(AllKinds, Render(SegAt(parts, 1)), Render(SegAt(parts, 2)), Render(SegAt(parts, 3)))
    else
      path
  }

  /** `expandThemePath`. */
  function ExpandThemePath(raw: string): string {
    ExpandSegments(SelectorText(raw))
  }

  /** The kind list is a well-formed path segment other than the wildcard. */
  lemma AllKindsPieces()
    ensures IsPiece(AllKinds, '/') && AllKinds != "*"
  {
  }

  /** The kind list holds no parenthesis. */
  lemma AllKindsUnbracketed()
    ensures '(' !in AllKinds && ')' !in AllKinds
  {
  }

  /** The kind list `AllKinds` reads back as its three kinds. */
  lemma AllKindsListed(s: string)
    requires s == AllKinds
    ensures Pieces(s, ',') == ["ColorTheme", "EffectTheme", "TextTheme"]
  {
    var kinds := ["ColorTheme", "EffectTheme", "TextTheme"];
    assert kinds[1..] == ["EffectTheme", "TextTheme"];
    assert kinds[1..][1..] == ["TextTheme"];
    assert Join(kinds, ',') == AllKinds;
    PiecesOfJoin(kinds, ',');
  }

  /** A rendered segment of a path is itself a well-formed segment. */
  lemma RenderedIsPiece(parts: seq<string>, k: nat, c: char)
    requires forall p :: p in parts ==> IsPiece(p, '/') && c !in p
    requires c !in "undefined"
    ensures IsPiece(Render(SegAt(parts, k)), '/') && c !in Render(SegAt(parts, k))
  {
    if k < |parts| {
      assert parts[k] in parts;
    }
  }

  /** The segments of a four-part template whose parts are well-formed. */
  lemma SegmentsOfPath4(a: string, b: string, c: string, d: string)
    requires IsPiece(a, '/') && IsPiece(b, '/') && IsPiece(c, '/') && IsPiece(d, '/')
    ensures Segments(Path4(a, b, c, d)) == [a, b, c, d]
  {
    Path4Joined(a, b, c, d);
    PiecesOfJoin([a, b, c, d], '/');
  }

  /** The rewrite a two-segment path triggers. */
  lemma ShorthandRewrite(q: string)
    requires |Segments(q)| == 2
    ensures var parts := Segments(q); ExpandSegments(q) == Path4(AllKinds, parts[0], parts[1], "*")
  {
  }

  /** The two segments of a shorthand are well-formed and made of the path's characters. */
  lemma ShorthandParts(q: string)
    requires |Segments(q)| == 2
    ensures var parts := Segments(q); IsPiece(parts[0], '/') && IsPiece(parts[1], '/')
    ensures var parts := Segments(q); '(' !in q ==> '(' !in parts[0] && '(' !in parts[1]
  {
    var parts := Segments(q);
    assert parts[0] in parts && parts[1] in parts;
  }

  /** The two segments of a shorthand, named. */
  lemma ShorthandPieces(q: string) returns (a: string, b: string)
    requires |Segments(q)| == 2
    ensures Segments(q) == [a, b]
    ensures IsPiece(a, '/') && IsPiece(b, '/')
    ensures '(' !in q ==> '(' !in a && '(' !in b
    ensures ExpandSegments(q) == Path4(AllKinds, a, b, "*")
  {
    a, b := Segments(q)[0], Segments(q)[1];
    ShorthandParts(q);
    ShorthandRewrite(q);
  }

  /** A two-segment name `n/v` expands to all kinds, `n`, `v` and the wildcard constant. */
  lemma ExpandShorthand(raw: string)
    requires |Segments(SelectorText(raw))| == 2
    ensures var parts := Segments(SelectorText(raw));
      Segments(ExpandThemePath(raw)) == [AllKinds, parts[0], parts[1], "*"]
  {
    var a, b := ShorthandPieces(SelectorText(raw));
    var e := ExpandThemePath(raw);
    assert e == Path4(AllKinds, a, b, "*");
    ShorthandSegments(e, a, b);
  }

  /** The segments of an expanded shorthand. */
  lemma ShorthandSegments(e: string, a: string, b: string)
    requires IsPiece(a, '/') && IsPiece(b, '/') && e == Path4(AllKinds, a, b, "*")
    ensures Segments(e) == [AllKinds, a, b, "*"]
  {
    AllKindsPieces();
    SegmentsOfPath4(AllKinds, a, b, "*");
  }

  /** The rewrite a `*` kind segment triggers. */
  lemma WildcardRewrite(q: string)
    requires var parts := Segments(q); |parts| != 2 && |parts| >= 1 && parts[0] == "*"
    ensures var parts := Segments(q);
      ExpandSegments(q) == Path4(AllKinds, Render(SegAt(parts, 1)), Render(SegAt(parts, 2)), Render(SegAt(parts, 3)))
  {
  }

  /** Rendering the segments after the kinds of a path gives well-formed segments back. */
  lemma SegmentsOfWildcard(parts: seq<string>)
    requires forall p :: p in parts ==> IsPiece(p, '/')
    ensures var b, c, d := Render(SegAt(parts, 1)), Render(SegAt(parts, 2)), Render(SegAt(parts, 3));
      Segments(Path4(AllKinds, b, c, d)) == [AllKinds, b, c, d]
  {
    var b, c, d := Render(SegAt(parts, 1)), Render(SegAt(parts, 2)), Render(SegAt(parts, 3));
    AllKindsPieces();
    RenderedIsPiece(parts, 1, '/');
    RenderedIsPiece(parts, 2, '/');
    RenderedIsPiece(parts, 3, '/');
    SegmentsOfPath4(AllKinds, b, c, d);
  }

  /** A `*` kind segment is rewritten to all kinds and only the next three segments are kept
      (a missing one reads back as "undefined"). */
  lemma ExpandWildcardKinds(raw: string)
    requires var parts := Segments(SelectorText(raw)); |parts| != 2 && |parts| >= 1 && parts[0] == "*"
    ensures var parts := Segments(SelectorText(raw));
      Segments(ExpandThemePath(raw)) == [AllKinds, Render(SegAt(parts, 1)), Render(SegAt(parts, 2)), Render(SegAt(parts, 3))]
  {
    WildcardRewrite(SelectorText(raw));
    SegmentsOfWildcard(Segments(SelectorText(raw)));
  }

  /** Anything else is returned as it is: the group text, or the whole name when there is no group. */
  lemma ExpandOtherwiseUnchanged(raw: string)
    requires var parts := Segments(SelectorText(raw)); |parts| != 2 && (parts == [] || parts[0] != "*")
    ensures ExpandThemePath(raw) == SelectorText(raw)
  {
  }

  /** A full path `e` without parentheses whose kind segment is the kind list is left as it is. */
  lemma ExpandFixedPoint(e: string, b: string, c: string, d: string)
    requires IsPiece(b, '/') && IsPiece(c, '/') && IsPiece(d, '/')
    requires '(' !in b && '(' !in c && '(' !in d
    requires e == Path4(AllKinds, b, c, d)
    ensures ExpandThemePath(e) == e
  {
    AllKindsPieces();
    AllKindsUnbracketed();
    NoGroupInPath4(AllKinds, b, c, d);
    assert Segments(e) == [AllKinds, b, c, d] by {
      SegmentsOfPath4(AllKinds, b, c, d);
    }
  }

  /** A four-part template without `(` holds no group. */
  lemma NoGroupInPath4(a: string, b: string, c: string, d: string)
    requires '(' !in a && '(' !in b && '(' !in c && '(' !in d
    ensures SelectorText(Path4(a, b, c, d)) == Path4(a, b, c, d)
  {
    Path4Joined(a, b, c, d);
    JoinAvoids([a, b, c, d], '/', '(');
    NoParenthesisNoGroup(Path4(a, b, c, d));
  }

  /** The shorthand case of `ExpandSegmentsSettles`. */
  lemma ShorthandSettles(q: string, e: string)
    requires '(' !in q && |Segments(q)| == 2 && e == ExpandSegments(q)
    ensures ExpandThemePath(e) == e
  {
    var a, b := ShorthandPieces(q);
    assert e == Path4(AllKinds, a, b, "*");
    ShorthandFixedPoint(e, a, b);
  }

  lemma ShorthandFixedPoint(e: string, a: string, b: string)
    requires IsPiece(a, '/') && IsPiece(b, '/') && '(' !in a && '(' !in b
    requires e == Path4(AllKinds, a, b, "*")
    ensures ExpandThemePath(e) == e
  {
    ExpandFixedPoint(e, a, b, "*");
  }

  /** The wildcard case of `ExpandSegmentsSettles`. */
  lemma WildcardSettles(q: string, e: string)
    requires '(' !in q && e == ExpandSegments(q)
    requires var parts := Segments(q); |parts| != 2 && |parts| >= 1 && parts[0] == "*"
    ensures ExpandThemePath(e) == e
  {
    var b, c, d := WildcardPieces(q);
    assert e == Path4(AllKinds, b, c, d);
    ExpandFixedPoint(e, b, c, d);
  }

  /** The three segments a `*` kind segment keeps, named. */
  lemma WildcardPieces(q: string) returns (b: string, c: string, d: string)
    requires '(' !in q
    requires var parts := Segments(q); |parts| != 2 && |parts| >= 1 && parts[0] == "*"
    ensures IsPiece(b, '/') && IsPiece(c, '/') && IsPiece(d, '/')
    ensures '(' !in b && '(' !in c && '(' !in d
    ensures ExpandSegments(q) == Path4(AllKinds, b, c, d)
  {
    var parts := Segments(q);
    WildcardRewrite(q);
    UndefinedHasNoParenthesis();
    b, c, d := RenderedTail(parts, '(');
  }

  /** The text a missing segment renders as holds no parenthesis. */
  lemma UndefinedHasNoParenthesis()
    ensures '(' !in Render(Undefined) && ')' !in Render(Undefined)
  {
  }

  /** The three segments after the kinds, rendered, avoid every character that the segments and
      "undefined" avoid. */
  lemma RenderedTail(parts: seq<string>, ch: char) returns (b: string, c: string, d: string)
    requires forall p :: p in parts ==> IsPiece(p, '/') && ch !in p
    requires ch !in "undefined"
    ensures b == Render(SegAt(parts, 1)) && c == Render(SegAt(parts, 2)) && d == Render(SegAt(parts, 3))
    ensures IsPiece(b, '/') && IsPiece(c, '/') && IsPiece(d, '/')
    ensures ch !in b && ch !in c && ch !in d
  {
    RenderedIsPiece(parts, 1, ch);
    RenderedIsPiece(parts, 2, ch);
    RenderedIsPiece(parts, 3, ch);
    b, c, d := Render(SegAt(parts, 1)), Render(SegAt(parts, 2)), Render(SegAt(parts, 3));
  }

  /** Expanding a group text without an opening parenthesis yields a fixed point of expansion. */
  lemma ExpandSegmentsSettles(q: string)
    requires '(' !in q
    ensures ExpandThemePath(ExpandSegments(q)) == ExpandSegments(q)
  {
    var parts := Segments(q);
    if |parts| == 2 {
      ShorthandSettles(q, ExpandSegments(q));
    } else if |parts| >= 1 && parts[0] == "*" {
      WildcardSettles(q, ExpandSegments(q));
    } else {
      NoParenthesisNoGroup(q);
    }
  }

  /** In the text of a group only the first character can be a `)`: the lazy `.+?` stops at
      the first `)` after it. */
  lemma GroupTextCloses(raw: string)
    requires GroupText(raw).Some?
    ensures var q := SelectorText(raw); q != "" && ')' !in q[1..]
  {
    var a, k := FirstGroupFrom(raw, 0).value.0, FirstGroupFrom(raw, 0).value.1;
    var q := raw[a + 1..k];
    forall m | 0 <= m < |q[1..]| ensures q[1..][m] != ')' {
      assert !IsGroupMatch(raw, a, a + 2 + m);
    }
  }

  /** A string with no `(` before position `n` and no `)` after it holds no group. */
  lemma NoGroupAround(s: string, n: nat)
    requires n <= |s|
    requires forall i :: 0 <= i < n ==> s[i] != '('
    requires forall k :: n < k < |s| ==> s[k] != ')'
    ensures SelectorText(s) == s
  {
    assert forall i, k :: !IsGroupMatch(s, i, k);
  }

  /** A string whose only possible `)` is its first character holds no group. */
  lemma NoGroupAfterFirst(s: string)
    requires s != "" && ')' !in s[1..]
    ensures SelectorText(s) == s
  {
    forall k | 0 < k < |s| ensures s[k] != ')' {
      assert s[k] == s[1..][k - 1];
    }
    NoGroupAround(s, 0);
  }

  /** The segments of `)` followed by a `)`-free string: a first segment that starts with the `)`,
      then segments without one. */
  lemma CloseFirstSegments(r: string) returns (x: string, tail: seq<string>)
    requires ')' !in r
    ensures Segments(")" + r) == [x] + tail
    ensures x != "" && x[0] == ')' && ')' !in x[1..]
    ensures forall p :: p in tail ==> ')' !in p
  {
    var split := Split(r, '/');
    SplitPrefix(")", r, '/');
    var w, rest := split[0], split[1..];
    assert ')' !in w by {
      assert w in split;
    }
    assert forall p :: p in rest ==> ')' !in p by {
      assert forall p :: p in rest ==> p in split;
    }
    x := Trim(")" + w);
    TrimAfterClose(w);
    tail := NonEmpty(TrimEach(rest));
    TrimmedAvoid(rest, ')');
    TrimFirst(")" + w, rest);
  }

  /** Filtering the trimmed pieces when the first one trims to a non-empty string. */
  lemma TrimFirst(w: string, rest: seq<string>)
    requires Trim(w) != ""
    ensures NonEmpty(TrimEach([w] + rest)) == [Trim(w)] + NonEmpty(TrimEach(rest))
  {
    var ps, t := [w] + rest, [Trim(w)] + TrimEach(rest);
    assert TrimEach(ps) == t by {
      forall i | 0 <= i < |ps| ensures TrimEach(ps)[i] == t[i] {
        if i > 0 {
          assert ps[i] == rest[i - 1];
        }
      }
    }
    NonEmptyAppend([Trim(w)], TrimEach(rest));
    assert NonEmpty([Trim(w)]) == [Trim(w)];
  }

  /** Trimming and filtering never brings in a character the pieces did not hold. */
  lemma TrimmedAvoid(ps: seq<string>, c: char)
    requires forall p :: p in ps ==> c !in p
    ensures forall p :: p in NonEmpty(TrimEach(ps)) ==> c !in p
  {
    forall p | p in NonEmpty(TrimEach(ps)) ensures c !in p {
      var j :| 0 <= j < |ps| && TrimEach(ps)[j] == p;
      assert ps[j] in ps;
    }
  }

  /** Trimming `)` followed by a `)`-free string keeps the `)` in front and adds none. */
  lemma TrimAfterClose(w: string)
    requires ')' !in w
    ensures var x := Trim(")" + w); x != "" && x[0] == ')' && ')' !in x[1..]
  {
    var s := ")" + w;
    assert s[0] == ')';
    assert TrimStart(s) == s;
    var x := TrimEnd(s);
    assert x != "" && x[0] == ')';
    assert x[1..] == w[..|x| - 1];
  }

  /** A full path `e` whose kind segment is the kind list, whose only possible `)` is the first
      character of its name, is left as it is. */
  lemma ClosedFixedPoint(e: string, b: string, c: string, d: string)
    requires IsPiece(b, '/') && IsPiece(c, '/') && IsPiece(d, '/')
    requires ')' !in b[1..] && ')' !in c && ')' !in d
    requires e == Path4(AllKinds, b, c, d)
    ensures ExpandThemePath(e) == e
  {
    AllKindsPieces();
    AllKindsUnbracketed();
    var head, t := AllKinds + "/", b + "/" + c + "/" + d;
    assert e == head + t;
    assert ')' !in t[1..] by {
      assert t[1..] == b[1..] + "/" + c + "/" + d;
    }
    NoGroupAcrossJoin(head, t);
    assert Segments(e) == [AllKinds, b, c, d] by {
      SegmentsOfPath4(AllKinds, b, c, d);
    }
  }

  /** A `(`-free string followed by one whose only possible `)` is its first character holds no group. */
  lemma NoGroupAcrossJoin(head: string, t: string)
    requires '(' !in head && t != "" && ')' !in t[1..]
    ensures SelectorText(head + t) == head + t
  {
    var e := head + t;
    forall k | |head| < k < |e| ensures e[k] != ')' {
      assert e[k] == t[1..][k - |head| - 1];
    }
    forall i | 0 <= i < |head| ensures e[i] != '(' {
      assert e[i] == head[i];
    }
    NoGroupAround(e, |head|);
  }

  /** Expanding a group text yields a fixed point of expansion. */
  lemma ClosedSegmentsSettle(q: string)
    requires q != "" && ')' !in q[1..]
    ensures ExpandThemePath(ExpandSegments(q)) == ExpandSegments(q)
  {
    var parts := Segments(q);
    if |parts| == 2 {
      ShorthandClosedSettles(q, ExpandSegments(q));
    } else if |parts| >= 1 && parts[0] == "*" {
      WildcardClosedSettles(q, ExpandSegments(q));
    } else {
      NoGroupAfterFirst(q);
    }
  }

  /** The segments of a group text: only the first may hold a `)`, and only as its first character. */
  lemma ClosedSegments(q: string) returns (parts: seq<string>)
    requires q != "" && ')' !in q[1..]
    ensures parts == Segments(q)
    ensures forall i :: 1 <= i < |parts| ==> ')' !in parts[i]
    ensures |parts| >= 1 ==> parts[0] != "" && ')' !in parts[0][1..]
  {
    parts := Segments(q);
    if q[0] != ')' {
      OpenSegments(q);
    } else {
      ClosedFirstSegments(q);
    }
  }

  /** The segments of a string without `)` hold none. */
  lemma OpenSegments(q: string)
    requires q != "" && ')' !in q[1..] && q[0] != ')'
    ensures var parts := Segments(q);
      forall i :: 0 <= i < |parts| ==> ')' !in parts[i] && parts[i] != ""
  {
    var parts := Segments(q);
    assert ')' !in q by {
      assert q == [q[0]] + q[1..];
    }
    forall i | 0 <= i < |parts| ensures ')' !in parts[i] && parts[i] != "" {
      assert parts[i] in parts;
    }
  }

  /** The segments of a string that starts with `)` and holds no other: the `)` opens the first. */
  lemma ClosedFirstSegments(q: string)
    requires q != "" && ')' !in q[1..] && q[0] == ')'
    ensures var parts := Segments(q);
      && (forall i :: 1 <= i < |parts| ==> ')' !in parts[i])
      && |parts| >= 1 && parts[0] != "" && ')' !in parts[0][1..]
  {
    var x, tail := CloseFirstSegments(q[1..]);
    assert q == ")" + q[1..];
    TailAvoids(x, tail, ')');
  }

  /** A character no element of `tail` holds is in no element of `[x] + tail` but the first. */
  lemma TailAvoids(x: string, tail: seq<string>, c: char)
    requires forall p :: p in tail ==> c !in p
    ensures var ps := [x] + tail; forall i :: 1 <= i < |ps| ==> c !in ps[i]
  {
    var ps := [x] + tail;
    forall i | 1 <= i < |ps| ensures c !in ps[i] {
      assert ps[i] == tail[i - 1] && tail[i - 1] in tail;
    }
  }

  /** The shorthand case of `ClosedSegmentsSettle`. */
  lemma ShorthandClosedSettles(q: string, e: string)
    requires q != "" && ')' !in q[1..]
    requires |Segments(q)| == 2 && e == ExpandSegments(q)
    ensures ExpandThemePath(e) == e
  {
    var a, b := ShorthandPieces(q);
    ClosedPair(q, a, b);
    assert e == Path4(AllKinds, a, b, "*");
    ShorthandClosedFixedPoint(e, a, b);
  }

  /** The two segments of a shorthand group text: only the first may start with a `)`. */
  lemma ClosedPair(q: string, a: string, b: string)
    requires q != "" && ')' !in q[1..]
    requires Segments(q) == [a, b] && a != ""
    ensures ')' !in a[1..] && ')' !in b
  {
    var parts := ClosedSegments(q);
    assert parts[0] == a && parts[1] == b;
  }

  lemma ShorthandClosedFixedPoint(e: string, a: string, b: string)
    requires IsPiece(a, '/') && IsPiece(b, '/') && ')' !in a[1..] && ')' !in b
    requires e == Path4(AllKinds, a, b, "*")
    ensures ExpandThemePath(e) == e
  {
    assert ')' !in "*";
    ClosedFixedPoint(e, a, b, "*");
  }

  /** The wildcard case of `ClosedSegmentsSettle`. */
  lemma WildcardClosedSettles(q: string, e: string)
    requires q != "" && ')' !in q[1..]
    requires var parts := Segments(q); |parts| != 2 && |parts| >= 1 && parts[0] == "*"
    requires e == ExpandSegments(q)
    ensures ExpandThemePath(e) == e
  {
    ClosedParts(q);
    var b, c, d := WildcardClosedPieces(q);
    assert e == Path4(AllKinds, b, c, d);
    WildcardClosedFixedPoint(e, b, c, d);
  }

  /** A group text whose first segment is `*` holds no `)` in any segment. */
  lemma ClosedParts(q: string)
    requires q != "" && ')' !in q[1..]
    requires |Segments(q)| >= 1 && Segments(q)[0] == "*"
    ensures forall p :: p in Segments(q) ==> ')' !in p
  {
    var parts := ClosedSegments(q);
    assert ')' !in "*";
    forall p | p in parts ensures ')' !in p {
      var i :| 0 <= i < |parts| && parts[i] == p;
      if i == 0 {
        assert p == "*";
      } else {
        assert ')' !in parts[i];
      }
    }
  }

  lemma WildcardClosedFixedPoint(e: string, b: string, c: string, d: string)
    requires IsPiece(b, '/') && IsPiece(c, '/') && IsPiece(d, '/')
    requires ')' !in b && ')' !in c && ')' !in d
    requires e == Path4(AllKinds, b, c, d)
    ensures ExpandThemePath(e) == e
  {
    assert ')' !in b[1..] by {
      assert forall ch :: ch in b[1..] ==> ch in b;
    }
    ClosedFixedPoint(e, b, c, d);
  }

  /** The three segments a `*` kind segment keeps, named, when no segment holds a `)`. */
  lemma WildcardClosedPieces(q: string) returns (b: string, c: string, d: string)
    requires var parts := Segments(q); |parts| != 2 && |parts| >= 1 && parts[0] == "*"
    requires forall p :: p in Segments(q) ==> ')' !in p
    ensures IsPiece(b, '/') && IsPiece(c, '/') && IsPiece(d, '/')
    ensures ')' !in b && ')' !in c && ')' !in d
    ensures ExpandSegments(q) == Path4(AllKinds, b, c, d)
  {
    var parts := Segments(q);
    WildcardRewrite(q);
    UndefinedHasNoParenthesis();
    b, c, d := RenderedTail(parts, ')');
  }

  /** Expansion is idempotent on its own output for a name that has a group, and for one that
      lacks an opening or a closing parenthesis. */
  lemma ExpandIdempotent(raw: string)
    requires GroupText(raw).Some? || '(' !in raw || ')' !in raw
    ensures ExpandThemePath(ExpandThemePath(raw)) == ExpandThemePath(raw)
  {
    if GroupText(raw).Some? {
      GroupTextCloses(raw);
      ClosedSegmentsSettle(SelectorText(raw));
    } else if '(' !in raw {
      ExpandSegmentsSettles(SelectorText(raw));
    } else {
      assert raw != "" && ')' !in raw[1..] by {
        assert forall c :: c in raw[1..] ==> c in raw;
      }
      ClosedSegmentsSettle(SelectorText(raw));
    }
  }

  /** Idempotence needs a group, or no `(`, or no `)`: a name such as `(\n/)` has no group,
      since a line break follows its `(`, but trimming its two segments brings `(` and `)`
      together in its shorthand expansion (all kinds, `(`, `)`, wildcard), whose group `/`
      re-expands to `/`. */
  lemma ExpandNotIdempotent(lb: char)
    requires IsLineTerminator(lb)
    ensures var e := ExpandThemePath(['(', lb, '/', ')']);
      e == Path4(AllKinds, "(", ")", "*") && ExpandThemePath(e) == "/"
  {
    var raw := ['(', lb, '/', ')'];
    NoGroupAcrossBreak(raw, lb);
    SegmentsAcrossBreak(raw, lb);
    var e := Path4(AllKinds, "(", ")", "*");
    assert ExpandThemePath(raw) == e;
    GroupOfExpansion(e);
    SegmentsOfSlash("/");
  }

  /** `(` and a line break, `/`, `)` holds no group. */
  lemma NoGroupAcrossBreak(raw: string, lb: char)
    requires IsLineTerminator(lb) && raw == ['(', lb, '/', ')']
    ensures SelectorText(raw) == raw
  {
    forall a, k ensures !IsGroupMatch(raw, a, k) {
      if 0 <= a < |raw| && raw[a] == '(' {
        assert a == 0 && raw[1] == lb;
      }
    }
  }

  /** The segments of `(` and a line break, `/`, `)` are `(` and `)`. */
  lemma SegmentsAcrossBreak(raw: string, lb: char)
    requires IsLineTerminator(lb) && raw == ['(', lb, '/', ')']
    ensures Segments(raw) == ["(", ")"]
  {
    var first := BreakPiece(raw, lb);
    assert Trim(")") == ")" by {
      assert Trimmed(")");
    }
    SegmentsOfPair(raw, first, ")", "(", ")");
  }

  /** The first `/`-piece of `(` and a line break, `/`, `)`, which trims to `(`. */
  lemma BreakPiece(raw: string, lb: char) returns (first: string)
    requires IsLineTerminator(lb) && raw == ['(', lb, '/', ')']
    ensures '/' !in first && Trim(first) == "(" && raw == Join([first, ")"], '/')
  {
    first := ['(', lb];
    TrimOpenBreak(lb);
    JoinOpenBreak(raw, lb);
  }

  /** `(` and a line break trims to `(`. */
  lemma TrimOpenBreak(lb: char)
    requires IsLineTerminator(lb)
    ensures Trim(['(', lb]) == "("
  {
    assert ['(', lb] == "(" + [lb];
    TrimTrailingSpace("(", lb);
  }

  /** `(` and a line break, `/`, `)` is the join of `(` and a line break with `)`. */
  lemma JoinOpenBreak(raw: string, lb: char)
    requires raw == ['(', lb, '/', ')']
    ensures raw == Join([['(', lb], ")"], '/')
  {
    var first := ['(', lb];
    assert [first, ")"][1..] == [")"];
    var joined := first + ['/'] + ")";
    assert |joined| == 4 && joined[0] == '(' && joined[1] == lb && joined[2] == '/' && joined[3] == ')';
  }

  /** The segments of two `/`-free pieces that trim to non-empty `x` and `y`. */
  lemma SegmentsOfPair(s: string, a: string, b: string, x: string, y: string)
    requires '/' !in a && '/' !in b && Trim(a) == x && Trim(b) == y && x != "" && y != ""
    requires s == Join([a, b], '/')
    ensures Segments(s) == [x, y]
  {
    PiecesOfPaddedJoin([a, b], '/');
    assert TrimEach([a, b]) == [x, y] by {
      TrimPair(a, b);
    }
    assert NonEmpty([x, y]) == [x, y];
  }

  /** A lone `/` has no segments. */
  lemma SegmentsOfSlash(s: string)
    requires s == "/"
    ensures Segments(s) == []
  {
    assert s == Join(["", ""], '/');
    PiecesOfPaddedJoin(["", ""], '/');
    TrimPair("", "");
    assert Trimmed("");
  }

  /** Trimming two pieces. */
  lemma TrimPair(a: string, b: string)
    ensures TrimEach([a, b]) == [Trim(a), Trim(b)]
  {
  }

  /** Trimming a trimmed, non-empty string followed by one white-space character. */
  lemma TrimTrailingSpace(x: string, c: char)
    requires x != "" && Trimmed(x) && IsWhiteSpace(c)
    ensures Trim(x + [c]) == x
  {
    var s := x + [c];
    assert s[0] == x[0];
    assert TrimStart(s) == s;
    assert s[..|s| - 1] == x;
    assert TrimEnd(x) == x;
  }

  /** The group of the shorthand expansion of `(` and `)` is `/`. */
  lemma GroupOfExpansion(e: string)
    requires e == Path4(AllKinds, "(", ")", "*")
    ensures SelectorText(e) == "/"
  {
    AllKindsPieces();
    AllKindsUnbracketed();
    var n := |AllKinds| + 1;
    assert e == AllKinds + "/(/)/*";
    assert e[n] == '(' && e[n + 1] == '/' && e[n + 2] == ')';
    assert forall i :: 0 <= i < n ==> e[i] != '(' by {
      forall i | 0 <= i < n ensures e[i] != '(' {
        assert e[i] == (AllKinds + "/")[i];
      }
    }
    assert IsGroupMatch(e, n, n + 2);
    var g := FirstGroupFrom(e, 0).value;
    assert g == (n, n + 2);
    assert e[n + 1..n + 2] == "/";
  }

  // ---------------------------------------------------------------------------
  // The name suffix: themeName.replace(/_.+/, '') (src/plugin.js:286)

  /** Every string without line terminators. */
  predicate NoLineBreak(s: string) {
    forall m :: 0 <= m < |s| ==> !IsLineTerminator(s[m])
  }

  /** `s[i..]` starts a match of /_.+/: an underscore followed by a character `.` matches. */
  predicate SuffixStartsAt(s: string, i: int) {
    0 <= i && i + 1 < |s| && s[i] == '_' && !IsLineTerminator(s[i + 1])
  }

  /** The leftmost position at or after `i` where /_.+/ matches. */
  function SuffixFrom(s: string, i: nat): (r: Option<nat>)
    requires i <= |s|
    ensures r.Some? ==> i <= r.value && SuffixStartsAt(s, r.value)
    ensures r.Some? ==> forall a :: i <= a < r.value ==> !SuffixStartsAt(s, a)
    ensures r.None? ==> forall a :: i <= a ==> !SuffixStartsAt(s, a)
    decreases |s| - i
  {
    if i == |s| then None
    else if SuffixStartsAt(s, i) then Some(i)
    else SuffixFrom(s, i + 1)
  }

  /** Where the greedy `.+` stops: the first line terminator at or after `j`, or the end. */
  function RunEnd(s: string, j: nat): (k: nat)
    requires j <= |s|
    ensures j <= k <= |s| && ClearBetween(s, j, k) && (k == |s| || IsLineTerminator(s[k]))
    decreases |s| - j
  {
    if j == |s| || IsLineTerminator(s[j]) then j else RunEnd(s, j + 1)
  }

  /** `name.replace(/_.+/, '')`: the name cut at its first underscore that has something after it. */
  function StripNameSuffix(s: string): (r: string)
    ensures (forall a :: !SuffixStartsAt(s, a)) <==> r == s
    ensures '_' !in s ==> r == s
    ensures NoLineBreak(s) && r != s ==> |r| < |s| && r == s[..|r|] && s[|r|] == '_' && '_' !in r
    ensures NoLineBreak(s) && r == s ==> forall m :: 0 <= m < |s| - 1 ==> s[m] != '_'
  {
    match SuffixFrom(s, 0)
    case None =>
      assert NoLineBreak(s) ==> forall m :: 0 <= m < |s| - 1 ==> s[m] != '_' by {
        if NoLineBreak(s) {
          forall m | 0 <= m < |s| - 1 ensures s[m] != '_' {
            assert !SuffixStartsAt(s, m);
          }
        }
      }
      s
    case Some(i) =>
      var k := RunEnd(s, i + 1);
      assert |s[..i] + s[k..]| < |s|;
      assert NoLineBreak(s) ==> k == |s| && forall m :: 0 <= m < i ==> s[m] != '_' by {
        if NoLineBreak(s) {
          forall m | 0 <= m < i ensures s[m] != '_' {
            assert !SuffixStartsAt(s, m);
          }
        }
      }
      s[..i] + s[k..]
  }

  // ---------------------------------------------------------------------------
  // Parsing (src/plugin.js:282-288)

  /** The parsed components of a theme path. */
  datatype ThemePath = ThemePath(kinds: seq<string>, name: Seg, variant: Seg, constant: Seg)

  /** Calling a string method on a missing segment throws a TypeError. */
  datatype ParseError = SegmentUndefined

  /** `parseThemePath(path, isTextThemePath)`: the comma-separated kinds and the other three
      segments, the name cut at its suffix unless the text flag is set. */
  function ParseThemePath(path: string, isText: bool): (r: Result<ThemePath, ParseError>)
    ensures r.Failure? <==> |Segments(path)| == 0 || (!isText && |Segments(path)| == 1)
  {
    var parts := Segments(path);
    if |parts| == 0 then Failure(SegmentUndefined)
    else
      var kinds := Pieces(parts[0], ',');
      if isText then Success(ThemePath(kinds, SegAt(parts, 1), SegAt(parts, 2), SegAt(parts, 3)))
      else if |parts| < 2 then Failure(SegmentUndefined)
      else Success(ThemePath(kinds, Given(StripNameSuffix(parts[1])), SegAt(parts, 2), SegAt(parts, 3)))
  }

  /** A kind list that can be written as the first segment of a path. */
  predicate IsKindList(kinds: seq<string>) {
    |kinds| >= 1 && forall k :: k in kinds ==> IsPiece(k, ',') && '/' !in k
  }

  /** Writing `kinds/name/variant/const` from well-formed parts and parsing it gives the parts back,
      the name cut at its suffix unless the text flag is set. */
  lemma ParseRoundTrip(kinds: seq<string>, name: string, variant: string, constant: string, isText: bool)
    requires IsKindList(kinds)
    requires IsPiece(name, '/') && IsPiece(variant, '/') && IsPiece(constant, '/')
    ensures ParseThemePath(Path4(Join(kinds, ','), name, variant, constant), isText)
         == Success(ThemePath(kinds, Given(if isText then name else StripNameSuffix(name)), Given(variant), Given(constant)))
  {
    var first := Join(kinds, ',');
    KindListJoined(kinds);
    SegmentsOfPath4(first, name, variant, constant);
  }

  /** A kind list written out with commas is a well-formed path segment that reads back as the list. */
  lemma KindListJoined(kinds: seq<string>)
    requires IsKindList(kinds)
    ensures IsPiece(Join(kinds, ','), '/') && Pieces(Join(kinds, ','), ',') == kinds
  {
    assert forall i :: 0 <= i < |kinds| ==> kinds[i] != "" by {
      forall i | 0 <= i < |kinds| ensures kinds[i] != "" {
        assert kinds[i] in kinds;
      }
    }
    JoinEnds(kinds, ',');
    assert kinds[0] in kinds && kinds[|kinds| - 1] in kinds;
    JoinAvoids(kinds, ',', '/');
    PiecesOfJoin(kinds, ',');
  }

  /** Every valid path parses, with a present name; a four-segment one has every component present,
      a two-segment one has neither variant nor constant. */
  lemma ParseValid(path: string, isText: bool)
    requires ValidateThemePath(path)
    ensures ParseThemePath(path, isText).Success?
    ensures ParseThemePath(path, isText).value.name.Given?
    ensures var t := ParseThemePath(path, isText).value;
      if |Segments(path)| == 4 then t.variant.Given? && t.constant.Given? && t.variant.text == Segments(path)[2] && t.constant.text == Segments(path)[3]
      else t.variant == Undefined && t.constant == Undefined
  {
  }

  /** A selector whose group text is valid expands to four present components. */
  lemma ExpandedSelectorParses(raw: string, isText: bool)
    requires ValidateThemePath(SelectorText(raw))
    ensures |Segments(ExpandThemePath(raw))| == 4
    ensures ParseThemePath(ExpandThemePath(raw), isText).Success?
  {
    var parts := Segments(SelectorText(raw));
    if |parts| == 2 {
      ExpandShorthand(raw);
    } else if parts[0] == "*" {
      ExpandWildcardKinds(raw);
    }
  }

  // ---------------------------------------------------------------------------
  // Worked examples

  lemma TwoPiecesOf(a: string, b: string)
    requires IsPiece(a, '/') && IsPiece(b, '/')
    ensures Segments(a + "/" + b) == [a, b]
  {
    assert [a, b][1..] == [b];
    assert Join([a, b], '/') == a + "/" + b;
    PiecesOfJoin([a, b], '/');
  }

  /** A shorthand `name/variant` expands to all kinds, the two segments and the wildcard constant. */
  lemma ExpandShorthandPath(name: string, variant: string)
    requires IsPiece(name, '/') && IsPiece(variant, '/') && '(' !in name && '(' !in variant
    ensures ExpandThemePath(name + "/" + variant) == Path4(AllKinds, name, variant, "*")
  {
    NoParenthesisNoGroup(name + "/" + variant);
    TwoPiecesOf(name, variant);
  }

  /** A full path whose kind segment is the wildcard expands to all kinds and the same three segments. */
  lemma ExpandWildcardPath(name: string, variant: string, constant: string)
    requires IsPiece(name, '/') && IsPiece(variant, '/') && IsPiece(constant, '/')
    requires '(' !in name && '(' !in variant && '(' !in constant
    ensures ExpandThemePath(Path4("*", name, variant, constant)) == Path4(AllKinds, name, variant, constant)
  {
    var wild := Path4("*", name, variant, constant);
    NoGroupInPath4("*", name, variant, constant);
    assert Segments(wild) == ["*", name, variant, constant] by {
      SegmentsOfPath4("*", name, variant, constant);
    }
  }

  /** A full path whose kind segment is not the wildcard is left as it is. */
  lemma ExpandFullPath(kinds: string, name: string, variant: string, constant: string)
    requires IsPiece(kinds, '/') && IsPiece(name, '/') && IsPiece(variant, '/') && IsPiece(constant, '/')
    requires kinds != "*"
    requires '(' !in kinds && '(' !in name && '(' !in variant && '(' !in constant
    ensures ExpandThemePath(Path4(kinds, name, variant, constant)) == Path4(kinds, name, variant, constant)
  {
    var full := Path4(kinds, name, variant, constant);
    NoGroupInPath4(kinds, name, variant, constant);
    assert Segments(full) == [kinds, name, variant, constant] by {
      SegmentsOfPath4(kinds, name, variant, constant);
    }
  }

  /** The leftmost, shortest group of `screen(name)/variant` is `name` when `screen` has no
      opening parenthesis and `name` has no closing one and no line break. */
  lemma GroupOfScreenName(screen: string, name: string, variant: string)
    requires '(' !in screen && ')' !in name && name != "" && NoLineBreak(name)
    ensures GroupText(screen + "(" + name + ")/" + variant) == Some(name)
  {
    var s := screen + "(" + name + ")/" + variant;
    var i, j := |screen|, |screen| + |name| + 1;
    assert s[i] == '(' && s[j] == ')' && s[i + 1..j] == name;
    assert ClearBetween(s, i + 1, j) by {
      forall m | i + 1 <= m < j ensures !IsLineTerminator(s[m]) {
        assert s[m] == name[m - i - 1];
      }
    }
    assert IsGroupMatch(s, i, j);
    var a, k := FirstGroupFrom(s, 0).value.0, FirstGroupFrom(s, 0).value.1;
    assert a == i;
    assert k == j;
  }

  /** Validation reads the whole name while expansion reads its group: a name `screen(name)/variant`
      is valid, but when its group `name` is a single segment other than the wildcard, the group
      is returned unexpanded and parsing it with the suffix rule fails. */
  lemma ValidNameWithShortGroup(screen: string, name: string, variant: string)
    requires IsPiece(screen, '/') && '(' !in screen && IsPiece(variant, '/')
    requires IsPiece(name, '/') && name != "*" && ')' !in name && NoLineBreak(name)
    ensures var s := screen + "(" + name + ")/" + variant;
      && ValidateThemePath(s)
      && ExpandThemePath(s) == name
      && ParseThemePath(ExpandThemePath(s), false).Failure?
  {
    var first := screen + "(" + name + ")";
    var s := screen + "(" + name + ")/" + variant;
    assert s == first + "/" + variant;
    assert '/' !in first;
    assert IsPiece(first, '/');
    TwoPiecesOf(first, variant);
    GroupOfScreenName(screen, name, variant);
    assert Join([name], '/') == name;
    PiecesOfJoin([name], '/');
  }
}
