/**
 * The earlier snapshot of the engine (code.js): the same path grammar without the `(...)` group
 * and without the name suffix, nodes whose kind is judged by which style slots they have, and
 * the colour rule that writes the found style into the fill and stroke slots in place.
 */
module EarlySnapshot {
  import opened Wrappers
  import opened JsString
  import opened ThemePathGrammar
  import opened StyleRegistry

  // ---------------------------------------------------------------------------
  // The grammar (code.js:74-107)

  /** `isValidThemePath`: code.js:74-78 is the same code as the final `validateThemePath`. */
  predicate IsValidThemePath(path: string) {
    ValidateThemePath(path)
  }

  /** `expandThemePath`: code.js:80-100 is the final expansion rule without the group
      extraction, so it applies that rule to the whole name. */
  function EarlyExpand(path: string): string {
    ExpandSegments(path)
  }

  /** `parseThemePath`: the kinds and the other three segments, the name kept as written. */
  function EarlyParse(path: string): (r: Result<ThemePath, ParseError>)
    ensures r.Failure? <==> Pieces(path, '/') == []
  {
    var parts := Pieces(path, '/');
    if |parts| == 0 then Failure(SegmentUndefined)
    else Success(ThemePath(Pieces(parts[0], ','), SegAt(parts, 1), SegAt(parts, 2), SegAt(parts, 3)))
  }

  /** Validation did not change between the snapshots. */
  lemma SameValidation(path: string)
    ensures IsValidThemePath(path) <==> ValidateThemePath(path)
  {
  }

  /** The final expansion differs from the early one only through the group: on a name without
      an opening parenthesis they agree. */
  lemma ExpandWithoutGroup(path: string)
    requires '(' !in path
    ensures ExpandThemePath(path) == EarlyExpand(path)
  {
    NoParenthesisNoGroup(path);
  }

  /** The early parse is the final parse with the text flag set: the name is not cut. */
  lemma EarlyParseIsTextParse(path: string)
    ensures EarlyParse(path) == ParseThemePath(path, true)
  {
  }

  /** A two-segment path `n/v` expands to all kinds, `n`, `v` and the wildcard constant. */
  lemma EarlyExpandShorthand(name: string, variant: string)
    requires IsPiece(name, '/') && IsPiece(variant, '/')
    ensures EarlyExpand(name + "/" + variant) == Path4(AllKinds, name, variant, "*")
  {
    TwoPiecesOf(name, variant);
  }

  /** A `*` kind segment becomes the kind list followed by the next three segments, a missing one
      printed as "undefined"; no parenthesis is treated specially. */
  lemma EarlyExpandWildcard(path: string)
    requires var parts := Pieces(path, '/'); |parts| != 2 && |parts| >= 1 && parts[0] == "*"
    ensures var parts := Pieces(path, '/');
      Pieces(EarlyExpand(path), '/') == [AllKinds, Render(SegAt(parts, 1)), Render(SegAt(parts, 2)), Render(SegAt(parts, 3))]
  {
    SegmentsOfWildcard(Pieces(path, '/'));
  }

  /** Any other path is returned as written. */
  lemma EarlyExpandUnchanged(path: string)
    requires var parts := Pieces(path, '/'); |parts| != 2 && (parts == [] || parts[0] != "*")
    ensures EarlyExpand(path) == path
  {
  }

  /** Expanding the early expansion again changes nothing, for every path. */
  lemma EarlyExpandIdempotent(path: string)
    ensures EarlyExpand(EarlyExpand(path)) == EarlyExpand(path)
  {
    var parts := Pieces(path, '/');
    if |parts| == 2 {
      EarlyShorthandSettles(path, EarlyExpand(path));
    } else if |parts| >= 1 && parts[0] == "*" {
      EarlyWildcardSettles(path, EarlyExpand(path));
    }
  }

  /** The wildcard case of `EarlyExpandIdempotent`. */
  lemma EarlyWildcardSettles(path: string, e: string)
    requires var parts := Pieces(path, '/'); |parts| != 2 && |parts| >= 1 && parts[0] == "*"
    requires e == EarlyExpand(path)
    ensures EarlyExpand(e) == e
  {
    EarlyExpandWildcard(path);
    AllKindsPieces();
    FullPathSettles(e);
  }

  /** A path of four segments whose first is not `*` is its own early expansion. */
  lemma FullPathSettles(e: string)
    requires |Pieces(e, '/')| == 4 && Pieces(e, '/')[0] != "*"
    ensures EarlyExpand(e) == e
  {
  }

  /** The shorthand case of `EarlyExpandIdempotent`. */
  lemma EarlyShorthandSettles(path: string, e: string)
    requires |Pieces(path, '/')| == 2 && e == EarlyExpand(path)
    ensures EarlyExpand(e) == e
  {
    var a, b := ShorthandPieces(path);
    assert e == Path4(AllKinds, a, b, "*");
    ShorthandSegments(e, a, b);
    AllKindsPieces();
    FullPathSettles(e);
  }

  /** Writing `kinds/name/variant/const` from well-formed parts and parsing it gives the parts back,
      the name unchanged. */
  lemma EarlyParseRoundTrip(kinds: seq<string>, name: string, variant: string, constant: string)
    requires IsKindList(kinds)
    requires IsPiece(name, '/') && IsPiece(variant, '/') && IsPiece(constant, '/')
    ensures EarlyParse(Path4(Join(kinds, ','), name, variant, constant))
         == Success(ThemePath(kinds, Given(name), Given(variant), Given(constant)))
  {
    ParseRoundTrip(kinds, name, variant, constant, true);
    EarlyParseIsTextParse(Path4(Join(kinds, ','), name, variant, constant));
  }

  // ---------------------------------------------------------------------------
  // Nodes (code.js:111-120)

  /** The slots of an early node; a slot the node does not have is `None`. */
  datatype EarlySlots = EarlySlots(fill: Option<string>, stroke: Option<string>, effect: Option<string>, text: Option<string>)

  /** `isPaintableObject`: the node has fill, stroke and effect slots. */
  predicate IsPaintable(v: EarlySlots) {
    v.fill.Some? && v.stroke.Some? && v.effect.Some?
  }

  /** `isTextObject`: the node has a text slot besides. */
  predicate IsText(v: EarlySlots) {
    v.fill.Some? && v.stroke.Some? && v.effect.Some? && v.text.Some?
  }

  /** A text node is paintable, and a paintable node is a text node exactly when it has a text slot. */
  lemma TextIsPaintable(v: EarlySlots)
    ensures IsText(v) ==> IsPaintable(v)
    ensures IsPaintable(v) ==> (IsText(v) <==> v.text.Some?)
  {
  }

  class EarlyNode {
    const fills: nat
    const strokes: nat
    var fillStyleId: Option<string>
    var strokeStyleId: Option<string>
    var effectStyleId: Option<string>
    var textStyleId: Option<string>

    constructor (fills: nat, strokes: nat, slots: EarlySlots)
      ensures this.fills == fills && this.strokes == strokes && Slots() == slots
    {
      this.fills := fills;
      this.strokes := strokes;
      fillStyleId := slots.fill;
      strokeStyleId := slots.stroke;
      effectStyleId := slots.effect;
      textStyleId := slots.text;
    }

    function Slots(): EarlySlots
      reads this
    {
      EarlySlots(fillStyleId, strokeStyleId, effectStyleId, textStyleId)
    }
  }

  // ---------------------------------------------------------------------------
  // applyColorTheme (code.js:142-159)

  /** The array `applyColorTheme` returns: `[null, null]`, `[style, object]` or `[]`. */
  datatype Returned = NullPair | StyleAndObject(style: Style) | NoError

  /** What `applyColorTheme` returns and what it leaves in the slots, given the style it was
      passed (absent for `undefined`), whether the node was passed, the node's slots and its
      inline fill and stroke counts. */
  datatype ColorResult = ColorResult(slots: EarlySlots, returned: Returned)

  function ColorThemeSpec(style: Option<Style>, hasObject: bool, v: EarlySlots, fills: nat, strokes: nat): (r: ColorResult)
    ensures style.None? || !hasObject ==> r == ColorResult(v, NullPair)
    ensures style.Some? && hasObject && v.fill == Some("") ==>
      r == ColorResult(v, if fills > 0 then StyleAndObject(style.value) else NoError)
    ensures style.Some? && hasObject && v.fill != Some("") ==>
      && r.slots.fill == Some(style.value.id)
      && r.slots.stroke == (if v.stroke == Some("") then v.stroke else Some(style.value.id))
      && r.returned == (if v.stroke == Some("") && strokes > 0 then StyleAndObject(style.value) else NoError)
    ensures r.slots.effect == v.effect && r.slots.text == v.text
  {
    if style.None? || !hasObject then ColorResult(v, NullPair)
    else if fills > 0 && v.fill == Some("") then ColorResult(v, StyleAndObject(style.value))
    else if fills == 0 && v.fill == Some("") then ColorResult(v, NoError)
    else
      var v := v.(fill := Some(style.value.id));
      if strokes > 0 && v.stroke == Some("") then ColorResult(v, StyleAndObject(style.value))
      else if strokes == 0 && v.stroke == Some("") then ColorResult(v, NoError)
      else ColorResult(v.(stroke := Some(style.value.id)), NoError)
  }

  /** With an empty fill id nothing changes and the stroke is never looked at: the result is the
      same whatever the stroke slot holds. */
  lemma EmptyFillIgnoresStroke(style: Style, v: EarlySlots, stroke: Option<string>, fills: nat, strokes: nat)
    requires v.fill == Some("")
    ensures var r, r' := ColorThemeSpec(Some(style), true, v, fills, strokes),
                         ColorThemeSpec(Some(style), true, v.(stroke := stroke), fills, strokes);
      r.slots == v && r'.slots == v.(stroke := stroke) && r.returned == r'.returned
  {
  }

  /** `applyColorTheme` on a node: writes the style into the fill slot, and into the stroke slot
      as well unless that one is empty. */
  method ApplyColorTheme(style: Option<Style>, node: EarlyNode?) returns (returned: Returned)
    modifies node
    ensures node == null ==> returned == NullPair
    ensures node != null ==>
      var r := ColorThemeSpec(style, true, old(node.Slots()), node.fills, node.strokes);
      node.Slots() == r.slots && returned == r.returned
  {
    if style.None? || node == null {
      return NullPair;
    }
    if node.fills > 0 && node.fillStyleId == Some("") {
      return StyleAndObject(style.value);
    }
    if node.fills == 0 && node.fillStyleId == Some("") {
      return NoError;
    }
    node.fillStyleId := Some(style.value.id);
    if node.strokes > 0 && node.strokeStyleId == Some("") {
      return StyleAndObject(style.value);
    }
    if node.strokes == 0 && node.strokeStyleId == Some("") {
      return NoError;
    }
    node.strokeStyleId := Some(style.value.id);
    return NoError;
  }
}
