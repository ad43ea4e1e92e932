/**
 * The style registry (src/plugin.js:32-41, code.js:15-25): two dictionaries built from one
 * ordered style sequence, one keyed by style id and one by style name. Each style is written
 * into both in turn, so for every key the last style carrying it wins.
 */
module StyleRegistry {

  /** A paint, effect or text style as the engine sees it. */
  datatype Style = Style(id: string, name: string)

  /** The two keys the registry indexes by. */
  datatype Key = ById | ByName

  function KeyOf(s: Style, key: Key): string {
    match key
    case ById => s.id
    case ByName => s.name
  }

  /** The dictionary the `forEach` leaves after writing every style of `styles`, in order. */
  function Index(styles: seq<Style>, key: Key): (m: map<string, Style>)
    ensures forall k :: k in m ==> KeyOf(m[k], key) == k && m[k] in styles
    decreases |styles|
  {
    if styles == [] then map[]
    else Index(styles[..|styles| - 1], key)[KeyOf(styles[|styles| - 1], key) := styles[|styles| - 1]]
  }

  /** The keys of the dictionary are exactly the keys of the styles written into it. */
  lemma {:induction false} IndexKeys(styles: seq<Style>, key: Key)
    ensures Index(styles, key).Keys == set s | s in styles :: KeyOf(s, key)
    decreases |styles|
  {
    if styles != [] {
      var init := styles[..|styles| - 1];
      IndexKeys(init, key);
      assert styles == init + [styles[|styles| - 1]];
    }
  }

  /** `stylesById` and `stylesByName`. */
  datatype Registry = Registry(byId: map<string, Style>, byName: map<string, Style>)

  function Indexed(styles: seq<Style>): Registry {
    Registry(Index(styles, ById), Index(styles, ByName))
  }

  /** The `forEach` over the style sequence that fills both dictionaries. */
  method BuildRegistry(styles: seq<Style>) returns (reg: Registry)
    ensures reg == Indexed(styles)
  {
    var byId: map<string, Style> := map[];
    var byName: map<string, Style> := map[];
    for i := 0 to |styles|
      invariant byId == Index(styles[..i], ById)
      invariant byName == Index(styles[..i], ByName)
    {
      assert styles[..i + 1][..i] == styles[..i];
      byId := byId[styles[i].id := styles[i]];
      byName := byName[styles[i].name := styles[i]];
    }
    assert styles[..|styles|] == styles;
    reg := Registry(byId, byName);
  }

  /** The style the registry holds for a key is the last one in the sequence with that key. */
  lemma {:induction false} LastWins(styles: seq<Style>, key: Key, i: nat)
    requires i < |styles|
    requires forall j :: i < j < |styles| ==> KeyOf(styles[j], key) != KeyOf(styles[i], key)
    ensures KeyOf(styles[i], key) in Index(styles, key)
    ensures Index(styles, key)[KeyOf(styles[i], key)] == styles[i]
    decreases |styles|
  {
    if i < |styles| - 1 {
      var init := styles[..|styles| - 1];
      assert KeyOf(styles[|styles| - 1], key) != KeyOf(styles[i], key);
      LastWins(init, key, i);
    }
  }

  /** A style placed after a sequence overrides every style of it under the same key, and leaves
      the other keys as the sequence had them. */
  lemma {:induction false} LaterOverrides(earlier: seq<Style>, later: seq<Style>, key: Key, k: string)
    ensures k in Index(earlier + later, key) <==> k in Index(earlier, key) || k in Index(later, key)
    ensures k in Index(later, key) ==> Index(earlier + later, key)[k] == Index(later, key)[k]
    ensures k !in Index(later, key) && k in Index(earlier, key) ==> Index(earlier + later, key)[k] == Index(earlier, key)[k]
    decreases |later|
  {
    if later == [] {
      assert earlier + later == earlier;
    } else {
      var init := later[..|later| - 1];
      assert (earlier + later)[..|earlier + later| - 1] == earlier + init;
      assert (earlier + later)[|earlier + later| - 1] == later[|later| - 1];
      LaterOverrides(earlier, init, key, k);
    }
  }

  /** `restoreStyles`' order: imported library styles, then the local paint, effect and text styles. */
  function PluginStyleOrder(imported: seq<Style>, paint: seq<Style>, effect: seq<Style>, text: seq<Style>): seq<Style> {
    imported + (paint + effect + text)
  }

  /** `getStyles`' order in the earlier snapshot: imported styles, then the local paint styles. */
  function EarlyStyleOrder(imported: seq<Style>, paint: seq<Style>): seq<Style> {
    imported + paint
  }

  /** A local style overrides an imported style of the same name; a name no local style carries
      keeps the imported style that held it. */
  lemma LocalOverridesLibrary(imported: seq<Style>, paint: seq<Style>, effect: seq<Style>, text: seq<Style>, n: string)
    ensures var local, reg := paint + effect + text, Indexed(PluginStyleOrder(imported, paint, effect, text));
      && (n in Index(local, ByName) ==> n in reg.byName && reg.byName[n] == Index(local, ByName)[n])
      && (n !in Index(local, ByName) ==> (n in reg.byName <==> n in Index(imported, ByName)))
      && (n !in Index(local, ByName) && n in Index(imported, ByName) ==> reg.byName[n] == Index(imported, ByName)[n])
  {
    LaterOverrides(imported, paint + effect + text, ByName, n);
  }

  /** The same precedence in the earlier snapshot: local paint styles override imported ones. */
  lemma EarlyLocalOverridesLibrary(imported: seq<Style>, paint: seq<Style>, n: string)
    ensures var reg := Indexed(EarlyStyleOrder(imported, paint));
      && (n in Index(paint, ByName) ==> n in reg.byName && reg.byName[n] == Index(paint, ByName)[n])
      && (n !in Index(paint, ByName) ==> (n in reg.byName <==> n in Index(imported, ByName)))
      && (n !in Index(paint, ByName) && n in Index(imported, ByName) ==> reg.byName[n] == Index(imported, ByName)[n])
  {
    LaterOverrides(imported, paint, ByName, n);
  }
}
