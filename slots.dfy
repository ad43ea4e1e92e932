/**
 * Nodes of the document and the per-slot classification that decides whether a slot goes on
 * to resolution (src/plugin.js:290-365).
 *
 * A node's type, name and inline fill, stroke and effect lists are never written by the engine;
 * its four style-id slots are. An empty id means the slot has no style; a node that has no text
 * style slot at all (JavaScript's `undefined`) has `textStyleId == None`.
 */
module StyleSlots {
  import opened Wrappers

  /** The four style slots a theme can re-style. */
  datatype Slot = Fill | Stroke | Effect | Text

  /** The values of a node's four slots at one moment. */
  datatype SlotValues = SlotValues(fill: string, stroke: string, effect: string, text: Option<string>)

  /** A document node. Only the slot ids change while a theme is applied. */
  class Node {
    const name: string
    const nodeType: string
    const fills: nat
    const strokes: nat
    const effects: nat
    var fillStyleId: string
    var strokeStyleId: string
    var effectStyleId: string
    var textStyleId: Option<string>

    constructor (name: string, nodeType: string, fills: nat, strokes: nat, effects: nat, slots: SlotValues)
      ensures this.name == name && this.nodeType == nodeType
      ensures this.fills == fills && this.strokes == strokes && this.effects == effects
      ensures Slots() == slots
    {
      this.name := name;
      this.nodeType := nodeType;
      this.fills := fills;
      this.strokes := strokes;
      this.effects := effects;
      fillStyleId := slots.fill;
      strokeStyleId := slots.stroke;
      effectStyleId := slots.effect;
      textStyleId := slots.text;
    }

    /** The current values of the four slots. */
    function Slots(): SlotValues
      reads this
    {
      SlotValues(fillStyleId, strokeStyleId, effectStyleId, textStyleId)
    }

    /** The number of inline (style-less) values the node has for a paint slot. */
    function InlineCount(slot: Slot): nat {
      match slot
      case Fill => fills
      case Stroke => strokes
      case Effect => effects
      case Text => 0
    }

    /** Writes `id` into one slot and leaves the other three as they were. */
    method SetSlot(slot: Slot, id: string)
      modifies this
      ensures Slots() == WithSlot(old(Slots()), slot, id)
    {
      match slot
      case Fill => fillStyleId := id;
      case Stroke => strokeStyleId := id;
      case Effect => effectStyleId := id;
      case Text => textStyleId := Some(id);
    }
  }

  /** The id held in one slot; a missing text slot reads as "" (it is never consulted then). */
  function SlotId(v: SlotValues, slot: Slot): string {
    match slot
    case Fill => v.fill
    case Stroke => v.stroke
    case Effect => v.effect
    case Text => if v.text.Some? then v.text.value else ""
  }

  /** The slot values with `id` written into `slot`. */
  function WithSlot(v: SlotValues, slot: Slot, id: string): (r: SlotValues)
    ensures SlotId(r, slot) == id
    ensures forall other :: other != slot ==> SlotId(r, other) == SlotId(v, other)
    ensures slot != Text ==> r.text == v.text
    ensures slot == Text ==> r.text == Some(id)
  {
    match slot
    case Fill => v.(fill := id)
    case Stroke => v.(stroke := id)
    case Effect => v.(effect := id)
    case Text => v.(text := Some(id))
  }

  /** `isPaintableObject`: the node types a theme re-styles. */
  predicate IsPaintableType(t: string) {
    t == "FRAME" || t == "COMPONENT_SET" || t == "COMPONENT" || t == "INSTANCE" || t == "TEXT"
    || t == "RECTANGLE" || t == "ELLIPSE" || t == "VECTOR" || t == "BOOLEAN_OPERATION"
  }

  /** `isTextObject`: a paintable node that has a text style slot. */
  predicate IsTextObject(nodeType: string, v: SlotValues) {
    IsPaintableType(nodeType) && v.text.Some?
  }

  /** A text object is paintable. */
  lemma TextObjectIsPaintable(nodeType: string, v: SlotValues)
    ensures IsTextObject(nodeType, v) ==> IsPaintableType(nodeType)
    ensures IsPaintableType(nodeType) ==> (IsTextObject(nodeType, v) <==> v.text.Some?)
  {
  }

  /** The record the `validate*ForColorTheme` functions return. */
  datatype SlotCheck = SlotCheck(isPlain: bool, shouldSkip: bool)

  /** `validateFill/Stroke/EffectForColorTheme`: a slot without a style is skipped, and reported
      as a plain value when the node has inline values for it. */
  function CheckPaint(id: string, count: nat): (r: SlotCheck)
    ensures r.shouldSkip <==> id == ""
    ensures r.isPlain <==> id == "" && count > 0
    ensures r.isPlain ==> r.shouldSkip
  {
    var r := SlotCheck(false, false);
    var r := if count > 0 && id == "" then SlotCheck(true, true) else r;
    if count == 0 && id == "" then r.(shouldSkip := true) else r
  }

  /** `validateTextForColorTheme`: a text slot without a style is skipped; the plain flag it
      sets is not the one it returns, so it never reports a plain value. */
  function CheckText(id: string): (r: SlotCheck)
    ensures r.shouldSkip <==> id == ""
    ensures !r.isPlain
  {
    var r := SlotCheck(false, false);
    if id == "" then r.(shouldSkip := true) else r
  }

  /** The check a slot goes through. */
  function CheckSlot(slot: Slot, id: string, count: nat): (r: SlotCheck)
    ensures r.shouldSkip <==> id == ""
    ensures r.isPlain <==> slot != Text && id == "" && count > 0
  {
    if slot == Text then CheckText(id) else CheckPaint(id, count)
  }
}
