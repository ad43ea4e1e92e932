/**
 * The resolver of the final plugin (the body of the kind loop in src/plugin.js:67-229): for one
 * node and one kind token of the selector, each slot the kind covers either moves to the style
 * the candidate name picks out of the registry or gets a diagnostic in one of three buckets.
 *
 * This module states the per-node behaviour as functions over slot values; the walker drives
 * it over the nodes of the document.
 */
module ThemeResolver {
  import opened Wrappers
  import opened JsString
  import opened ThemePathGrammar
  import opened StyleRegistry
  import opened StyleSlots

  /** The `type` field `pushError` records: 'error' unless stated otherwise. */
  datatype Severity = Error | Warning

  /** What a diagnostic reports; the messages themselves are HTML text and are not modelled. */
  datatype DiagKind =
    | UnknownStyleId(slot: Slot)              // the slot's id is not in the registry
    | UnknownTheme(candidate: string)         // the candidate name is not in the registry
    | SkippingTheme(styleName: string)        // the current style's name is not a valid theme path
    | IgnoringConst(candidate: string)        // the selector's constant does not fit the style's
    | PlainValue(slot: Slot)                  // inline values without a style
    | UnknownThemeType(token: string, themePath: string)

  /** The record `pushError` appends: `{object, descr, type}`. */
  datatype Diag = Diag(object: Node, kind: DiagKind, severity: Severity)

  /** `unknownThemeErrors`, `ignoringThemeConstErrors` and `plainColorErrors`. */
  datatype Buckets = Buckets(unknownTheme: seq<Diag>, ignoringConst: seq<Diag>, plain: seq<Diag>)

  const NoDiags := Buckets([], [], [])

  /** The message posted at the end of a run: the three buckets one after the other. */
  function Report(b: Buckets): (r: seq<Diag>)
    ensures |r| == |b.unknownTheme| + |b.ignoringConst| + |b.plain|
    ensures r[..|b.unknownTheme|] == b.unknownTheme
    ensures r[|b.unknownTheme|..|b.unknownTheme| + |b.ignoringConst|] == b.ignoringConst
    ensures r[|b.unknownTheme| + |b.ignoringConst|..] == b.plain
  {
    var r := b.unknownTheme + b.ignoringConst + b.plain;
    assert r[..|b.unknownTheme|] == b.unknownTheme;
    r
  }

  /** Every bucket of `b` is a prefix of the same bucket of `b'`: diagnostics are only appended. */
  predicate Extends(b: Buckets, b': Buckets) {
    b.unknownTheme <= b'.unknownTheme && b.ignoringConst <= b'.ignoringConst && b.plain <= b'.plain
  }

  const ColorKind := "ColorTheme"
  const EffectKind := "EffectTheme"
  const TextKind := "TextTheme"

  // ---------------------------------------------------------------------------
  // The selector (src/plugin.js:56, 201)

  /** A root's parsed theme path, and the unstripped name the text kind uses. */
  datatype Selector = Selector(themePath: string, path: ThemePath, textName: Seg)

  /** Parsing the expanded root name, once with the suffix rule and once with the text flag. */
  function SelectorOf(themePath: string): (r: Result<Selector, ParseError>)
    ensures r.Failure? <==> |Segments(ExpandThemePath(themePath))| < 2
    ensures r.Success? ==>
      && r.value.themePath == themePath
      && ParseThemePath(ExpandThemePath(themePath), false) == Success(r.value.path)
      && r.value.textName == Given(Segments(ExpandThemePath(themePath))[1])
  {
    var e := ExpandThemePath(themePath);
    match ParseThemePath(e, false)
    case Failure(err) => Failure(err)
    case Success(p) =>
      var t := ParseThemePath(e, true);
      Success(Selector(themePath, p, if t.Success? then t.value.name else Undefined))
  }

  // ---------------------------------------------------------------------------
  // The candidate name and the constant policy (src/plugin.js:84-104, 198-218)

  /** The constant segment of a style's theme path. */
  function ObjConst(styleName: string): (c: Seg)
    requires ValidateThemePath(styleName)
    ensures c == SegAt(Segments(styleName), 3)
  {
    ParseThemePath(styleName, false).value.constant
  }

  /** The style name the node's current style maps to under the selector: for colours and effects
      the selector's name and variant with the style's constant, for text the selector's raw
      name when it holds an underscore (else the style's own name) with the style's variant
      and constant. */
  function CandidateName(sel: Selector, token: string, styleName: string): (r: string)
    requires ValidateThemePath(styleName)
    ensures token != TextKind ==> r == Path4(token, Render(sel.path.name), Render(sel.path.variant), Render(ObjConst(styleName)))
    ensures var parts := Segments(styleName); token == TextKind ==>
      r == Path4(token, if '_' in Render(sel.textName) then Render(sel.textName) else parts[1],
                 Render(SegAt(parts, 2)), Render(SegAt(parts, 3)))
  {
    if token == TextKind then
      var o := ParseThemePath(styleName, true).value;
      var name := Render(sel.textName);
      Path4(token, if '_' in name then name else Render(o.name), Render(o.variant), Render(o.constant))
    else
      var o := ParseThemePath(styleName, false).value;
      Path4(token, Render(sel.path.name), Render(sel.path.variant), Render(o.constant))
  }

  /** The constant policy: the selector's constant is the wildcard or equals the style's. */
  predicate ConstFits(sel: Selector, styleName: string)
    requires ValidateThemePath(styleName)
  {
    sel.path.constant == Given("*") || sel.path.constant == ObjConst(styleName)
  }

  /** A colour or effect style already named after the selector is its own candidate; so is a
      text style whose selector name has no underscore, whatever the selector's variant. */
  lemma OwnNameIsCandidate(sel: Selector, token: string, name: string, variant: string, constant: string)
    requires IsPiece(token, '/') && IsPiece(name, '/') && IsPiece(variant, '/') && IsPiece(constant, '/')
    requires token != TextKind ==> sel.path.name == Given(name) && sel.path.variant == Given(variant)
    requires token == TextKind ==> '_' !in Render(sel.textName)
    ensures ValidateThemePath(Path4(token, name, variant, constant))
    ensures CandidateName(sel, token, Path4(token, name, variant, constant)) == Path4(token, name, variant, constant)
  {
    SegmentsOfPath4(token, name, variant, constant);
  }

  /** What happens to one slot whose id is set. */
  datatype Resolution =
    | MissingStyle
    | Skipped(styleName: string)
    | NoAlternative(candidate: string)
    | ConstMismatch(candidate: string)
    | Reassign(id: string)

  /** Looking the slot's style up by id, deriving the candidate and looking that up by name. */
  function Resolve(reg: Registry, sel: Selector, token: string, id: string): (r: Resolution)
    ensures r.MissingStyle? <==> id !in reg.byId
    ensures r.Reassign? <==>
      && id in reg.byId && ValidateThemePath(reg.byId[id].name)
      && CandidateName(sel, token, reg.byId[id].name) in reg.byName && ConstFits(sel, reg.byId[id].name)
    ensures r.Reassign? ==> r.id == reg.byName[CandidateName(sel, token, reg.byId[id].name)].id
    ensures r.Skipped? <==> id in reg.byId && !ValidateThemePath(reg.byId[id].name)
    ensures r.Skipped? ==> r.styleName == reg.byId[id].name
    ensures r.NoAlternative? <==>
      && id in reg.byId && ValidateThemePath(reg.byId[id].name)
      && CandidateName(sel, token, reg.byId[id].name) !in reg.byName
    ensures r.ConstMismatch? <==>
      && id in reg.byId && ValidateThemePath(reg.byId[id].name)
      && CandidateName(sel, token, reg.byId[id].name) in reg.byName && !ConstFits(sel, reg.byId[id].name)
    ensures r.NoAlternative? || r.ConstMismatch? ==> r.candidate == CandidateName(sel, token, reg.byId[id].name)
  {
    if id !in reg.byId then MissingStyle
    else
      var style := reg.byId[id];
      if !ValidateThemePath(style.name) then Skipped(style.name)
      else
        var candidate := CandidateName(sel, token, style.name);
        if candidate !in reg.byName then NoAlternative(candidate)
        else if ConstFits(sel, style.name) then Reassign(reg.byName[candidate].id)
        else ConstMismatch(candidate)
  }

  /** A reassigned slot gets the id of a registered style whose name is the candidate. */
  lemma ReassignedFromRegistry(styles: seq<Style>, sel: Selector, token: string, id: string)
    requires Resolve(Indexed(styles), sel, token, id).Reassign?
    ensures var reg := Indexed(styles); var style := reg.byId[id];
      exists s :: s in styles && s.id == Resolve(reg, sel, token, id).id && s.name == CandidateName(sel, token, style.name)
  {
    var reg := Indexed(styles);
    var candidate := CandidateName(sel, token, reg.byId[id].name);
    assert reg.byName[candidate] in styles && reg.byName[candidate].name == candidate;
  }

  // ---------------------------------------------------------------------------
  // One slot, one kind, one node

  /** The state of one node while its kinds are processed: its slots, the buckets, and whether
      the rest of the current kind (JavaScript `continue`) or of the node (`break`) is skipped. */
  datatype Step = Step(v: SlotValues, log: Buckets, stop: bool)

  /** One slot: classification, then resolution (src/plugin.js:74-110 and its copies). */
  function SlotSpec(reg: Registry, sel: Selector, token: string, n: Node, slot: Slot, v: SlotValues, log: Buckets): (r: Step)
    ensures Extends(log, r.log)
    ensures forall other :: other != slot ==> SlotId(r.v, other) == SlotId(v, other)
    ensures slot != Text ==> r.v.text == v.text
    ensures v.text.Some? ==> r.v.text.Some?
    ensures r.v != v ==>
      && Resolve(reg, sel, token, SlotId(v, slot)).Reassign?
      && r.v == WithSlot(v, slot, Resolve(reg, sel, token, SlotId(v, slot)).id)
    ensures r.stop <==> SlotId(v, slot) != "" && SlotId(v, slot) !in reg.byId
    ensures var id := SlotId(v, slot); var res := Resolve(reg, sel, token, id); id != "" ==>
      && (res.MissingStyle? ==> r.v == v && r.log == log.(unknownTheme := log.unknownTheme + [Diag(n, UnknownStyleId(slot), Error)]))
      && (res.Skipped? ==> r.v == v && r.log == log.(unknownTheme := log.unknownTheme + [Diag(n, SkippingTheme(res.styleName), Warning)]))
      && (res.NoAlternative? ==> r.v == v && r.log == log.(unknownTheme := log.unknownTheme + [Diag(n, UnknownTheme(res.candidate), Error)]))
      && (res.ConstMismatch? ==> r.v == v && r.log == log.(ignoringConst := log.ignoringConst + [Diag(n, IgnoringConst(res.candidate), Error)]))
      && (res.Reassign? ==> r.v == WithSlot(v, slot, res.id) && r.log == log)
  {
    var id := SlotId(v, slot);
    var check := CheckSlot(slot, id, n.InlineCount(slot));
    if !check.shouldSkip then
      match Resolve(reg, sel, token, id)
      case MissingStyle =>
        Step(v, log.(unknownTheme := log.unknownTheme + [Diag(n, UnknownStyleId(slot), Error)]), true)
      case Skipped(name) =>
        Step(v, log.(unknownTheme := log.unknownTheme + [Diag(n, SkippingTheme(name), Warning)]), false)
      case NoAlternative(candidate) =>
        Step(v, log.(unknownTheme := log.unknownTheme + [Diag(n, UnknownTheme(candidate), Error)]), false)
      case ConstMismatch(candidate) =>
        Step(v, log.(ignoringConst := log.ignoringConst + [Diag(n, IgnoringConst(candidate), Error)]), false)
      case Reassign(alt) =>
        Step(WithSlot(v, slot, alt), log, false)
    else if check.isPlain then
      Step(v, log.(plain := log.plain + [Diag(n, PlainValue(slot), Error)]), false)
    else
      Step(v, log, false)
  }

  /** One kind token for one node (src/plugin.js:69-227); `stop` is the `break`. */
  function KindSpec(reg: Registry, sel: Selector, token: string, n: Node, v: SlotValues, log: Buckets): (r: Step)
    ensures Extends(log, r.log)
    ensures r.stop <==>
      || ((token == ColorKind || token == EffectKind) && !IsPaintableType(n.nodeType))
      || (token == TextKind && !IsTextObject(n.nodeType, v))
    ensures r.v.text.Some? <==> v.text.Some?
    ensures token == ColorKind ==> r.v.effect == v.effect && r.v.text == v.text
    ensures token == EffectKind ==> r.v.fill == v.fill && r.v.stroke == v.stroke && r.v.text == v.text
    ensures token == TextKind ==> r.v.fill == v.fill && r.v.stroke == v.stroke && r.v.effect == v.effect
    ensures token != ColorKind && token != EffectKind && token != TextKind ==> r.v == v
  {
    if token == ColorKind then
      if !IsPaintableType(n.nodeType) then Step(v, log, true)
      else
        var fill := SlotSpec(reg, sel, token, n, Fill, v, log);
        if fill.stop then Step(fill.v, fill.log, false)
        else
          var stroke := SlotSpec(reg, sel, token, n, Stroke, fill.v, fill.log);
          Step(stroke.v, stroke.log, false)
    else if token == EffectKind then
      if !IsPaintableType(n.nodeType) then Step(v, log, true)
      else
        var effect := SlotSpec(reg, sel, token, n, Effect, v, log);
        Step(effect.v, effect.log, false)
    else if token == TextKind then
      if !IsTextObject(n.nodeType, v) then Step(v, log, true)
      else
        var text := SlotSpec(reg, sel, token, n, Text, v, log);
        Step(text.v, text.log, false)
    else
      Step(v, log.(unknownTheme := log.unknownTheme + [Diag(n, UnknownThemeType(token, sel.themePath), Error)]), false)
  }

  /** A node after its slots and the buckets went through the kind tokens. */
  datatype NodeState = NodeState(v: SlotValues, log: Buckets)

  /** All kind tokens for one node, in order, until one of them breaks. */
  function TokensSpec(reg: Registry, sel: Selector, tokens: seq<string>, n: Node, v: SlotValues, log: Buckets): (r: NodeState)
    ensures Extends(log, r.log)
    decreases |tokens|
  {
    if tokens == [] then NodeState(v, log)
    else
      var k := KindSpec(reg, sel, tokens[0], n, v, log);
      if k.stop then NodeState(k.v, k.log)
      else TokensSpec(reg, sel, tokens[1..], n, k.v, k.log)
  }

  // ---------------------------------------------------------------------------
  // Properties

  /** A slot changes only when its style is registered, its name is a valid theme path, the
      candidate is registered and the constant fits; it then takes the candidate's id. */
  lemma SlotReassignedOnlyWhen(reg: Registry, sel: Selector, token: string, n: Node, slot: Slot, v: SlotValues, log: Buckets)
    ensures var r := SlotSpec(reg, sel, token, n, slot, v, log); var id := SlotId(v, slot);
      SlotId(r.v, slot) != id ==>
        && id != ""
        && id in reg.byId
        && ValidateThemePath(reg.byId[id].name)
        && CandidateName(sel, token, reg.byId[id].name) in reg.byName
        && ConstFits(sel, reg.byId[id].name)
        && SlotId(r.v, slot) == reg.byName[CandidateName(sel, token, reg.byId[id].name)].id
  {
  }

  /** Conversely, a set slot whose resolution succeeds takes the candidate's id and adds no diagnostic. */
  lemma SlotReassignedWhen(reg: Registry, sel: Selector, token: string, n: Node, slot: Slot, v: SlotValues, log: Buckets)
    requires SlotId(v, slot) != "" && Resolve(reg, sel, token, SlotId(v, slot)).Reassign?
    ensures var r := SlotSpec(reg, sel, token, n, slot, v, log);
      r.v == WithSlot(v, slot, Resolve(reg, sel, token, SlotId(v, slot)).id) && r.log == log && !r.stop
  {
  }

  /** The classification of a slot without a style: a plain-value diagnostic exactly when the node
      has inline values for a paint slot, nothing else, and never for the text slot. */
  lemma EmptySlotClassified(reg: Registry, sel: Selector, token: string, n: Node, slot: Slot, v: SlotValues, log: Buckets)
    requires SlotId(v, slot) == ""
    ensures var r := SlotSpec(reg, sel, token, n, slot, v, log);
      && r.v == v && !r.stop
      && r.log.unknownTheme == log.unknownTheme && r.log.ignoringConst == log.ignoringConst
      && (if slot != Text && n.InlineCount(slot) > 0
          then r.log.plain == log.plain + [Diag(n, PlainValue(slot), Error)]
          else r.log.plain == log.plain)
  {
  }

  /** A fill id the registry does not know reports one diagnostic and skips the stroke. */
  lemma MissingFillSkipsStroke(reg: Registry, sel: Selector, n: Node, v: SlotValues, log: Buckets)
    requires IsPaintableType(n.nodeType)
    requires v.fill != "" && v.fill !in reg.byId
    ensures var r := KindSpec(reg, sel, ColorKind, n, v, log);
      r.v == v && !r.stop
      && r.log == log.(unknownTheme := log.unknownTheme + [Diag(n, UnknownStyleId(Fill), Error)])
  {
  }

  /** An unrecognised kind token reports itself with the root's name and the walk goes on. */
  lemma UnknownKindReported(reg: Registry, sel: Selector, token: string, n: Node, v: SlotValues, log: Buckets)
    requires token != ColorKind && token != EffectKind && token != TextKind
    ensures var r := KindSpec(reg, sel, token, n, v, log);
      r.v == v && !r.stop
      && r.log == log.(unknownTheme := log.unknownTheme + [Diag(n, UnknownThemeType(token, sel.themePath), Error)])
  {
  }

  /** A node whose type is not paintable keeps all its slots, whatever the tokens. */
  lemma {:induction false} NonPaintableUntouched(reg: Registry, sel: Selector, tokens: seq<string>, n: Node, v: SlotValues, log: Buckets)
    requires !IsPaintableType(n.nodeType)
    ensures TokensSpec(reg, sel, tokens, n, v, log).v == v
    decreases |tokens|
  {
    if tokens != [] {
      var k := KindSpec(reg, sel, tokens[0], n, v, log);
      if !k.stop {
        NonPaintableUntouched(reg, sel, tokens[1..], n, k.v, k.log);
      }
    }
  }

  /** Every slot value a node ends with is the one it had or the id of a registered style. */
  predicate FromRegistry(styles: seq<Style>, v: SlotValues, v': SlotValues) {
    forall slot :: SlotId(v', slot) == SlotId(v, slot) || exists s :: s in styles && s.id == SlotId(v', slot)
  }

  lemma SlotFromRegistry(styles: seq<Style>, sel: Selector, token: string, n: Node, slot: Slot, v: SlotValues, log: Buckets)
    ensures FromRegistry(styles, v, SlotSpec(Indexed(styles), sel, token, n, slot, v, log).v)
  {
    var r := SlotSpec(Indexed(styles), sel, token, n, slot, v, log);
    if r.v != v {
      ReassignedFromRegistry(styles, sel, token, SlotId(v, slot));
    }
  }

  lemma KindFromRegistry(styles: seq<Style>, sel: Selector, token: string, n: Node, v: SlotValues, log: Buckets)
    ensures FromRegistry(styles, v, KindSpec(Indexed(styles), sel, token, n, v, log).v)
  {
    var reg := Indexed(styles);
    if token == ColorKind && IsPaintableType(n.nodeType) {
      var fill := SlotSpec(reg, sel, token, n, Fill, v, log);
      SlotFromRegistry(styles, sel, token, n, Fill, v, log);
      if !fill.stop {
        SlotFromRegistry(styles, sel, token, n, Stroke, fill.v, fill.log);
      }
    } else if token == EffectKind && IsPaintableType(n.nodeType) {
      SlotFromRegistry(styles, sel, token, n, Effect, v, log);
    } else if token == TextKind && IsTextObject(n.nodeType, v) {
      SlotFromRegistry(styles, sel, token, n, Text, v, log);
    }
  }

  /** Applying the kind tokens only ever moves a slot to the id of a registered style. */
  lemma {:induction false} TokensFromRegistry(styles: seq<Style>, sel: Selector, tokens: seq<string>, n: Node, v: SlotValues, log: Buckets)
    ensures FromRegistry(styles, v, TokensSpec(Indexed(styles), sel, tokens, n, v, log).v)
    decreases |tokens|
  {
    if tokens != [] {
      var k := KindSpec(Indexed(styles), sel, tokens[0], n, v, log);
      KindFromRegistry(styles, sel, tokens[0], n, v, log);
      if !k.stop {
        TokensFromRegistry(styles, sel, tokens[1..], n, k.v, k.log);
      }
    }
  }
}
