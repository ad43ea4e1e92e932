/**
 * The `applyTheme` command of the final plugin (src/plugin.js:14-233): build the registry, then
 * for every selected root validate and parse its name, and walk the root with its flattened
 * descendants, re-styling every node kind token by kind token.
 *
 * The walk is stated twice: as functions over a map from nodes to slot values (a node listed
 * twice is simply visited twice), and as methods that update the nodes in place and are proved
 * to leave every node as the functions say.
 */
module TreeWalker {
  import opened Wrappers
  import opened JsString
  import opened ThemePathGrammar
  import opened StyleRegistry
  import opened StyleSlots
  import opened ThemeResolver

  /** A selected root with the result of its `findAll()`, or `None` when it has no `findAll`. */
  datatype Root = Root(node: Node, descendants: Option<seq<Node>>)

  /** The nodes the walk visits for a root: the root itself first, then its descendants; a root
      without `findAll` is skipped. */
  function Visited(r: Root): (vs: seq<Node>)
    ensures vs == [] <==> r.descendants.None?
    ensures vs != [] ==> vs[0] == r.node && vs[1..] == r.descendants.value
  {
    if r.descendants.Some? then [r.node] + r.descendants.value else []
  }

  function Elements(s: seq<Node>): set<Node> {
    set n | n in s
  }

  /** Every node some root's walk may visit. */
  function Footprint(roots: seq<Root>): set<Node> {
    set r, n | r in roots && n in Visited(r) :: n
  }

  /** The slots of the given nodes at one moment. */
  function SlotsOf(ns: set<Node>): (m: map<Node, SlotValues>)
    reads ns
    ensures m.Keys == ns && forall n :: n in ns ==> m[n] == n.Slots()
  {
    map n | n in ns :: n.Slots()
  }

  /** The slots of every node and the three buckets. */
  datatype RunState = RunState(slots: map<Node, SlotValues>, log: Buckets)

  /** Walking a list of nodes with one selector. */
  function NodesSpec(reg: Registry, sel: Selector, nodes: seq<Node>, st: RunState): (r: RunState)
    requires forall n :: n in nodes ==> n in st.slots
    ensures r.slots.Keys == st.slots.Keys
    ensures Extends(st.log, r.log)
    ensures forall n :: n in st.slots && n !in nodes ==> r.slots[n] == st.slots[n]
    decreases |nodes|
  {
    if nodes == [] then st
    else
      var n := nodes[0];
      var ns := TokensSpec(reg, sel, sel.path.kinds, n, st.slots[n], st.log);
      NodesSpec(reg, sel, nodes[1..], RunState(st.slots[n := ns.v], ns.log))
  }

  /** How the loop over the roots ends. */
  datatype Status = Done | InvalidRoot(themePath: string) | CrashedRoot(themePath: string)

  datatype RootsResult = RootsResult(state: RunState, status: Status)

  /** The loop over the selected roots (src/plugin.js:46-230): an invalid name stops the run, a
      name whose expansion does not parse throws, a root without `findAll` is skipped. */
  function RootsSpec(reg: Registry, roots: seq<Root>, st: RunState): (r: RootsResult)
    requires Footprint(roots) <= st.slots.Keys
    ensures r.state.slots.Keys == st.slots.Keys
    ensures Extends(st.log, r.state.log)
    ensures forall n :: n in st.slots && n !in Footprint(roots) ==> r.state.slots[n] == st.slots[n]
    decreases |roots|
  {
    if roots == [] then RootsResult(st, Done)
    else
      var name := roots[0].node.name;
      if !ValidateThemePath(name) then RootsResult(st, InvalidRoot(name))
      else match SelectorOf(name)
        case Failure(_) => RootsResult(st, CrashedRoot(name))
        case Success(sel) =>
          FootprintFirst(roots);
          var st' := NodesSpec(reg, sel, Visited(roots[0]), st);
          RootsSpec(reg, roots[1..], st')
  }

  /** The footprint of a non-empty selection: the first root's walk and the footprint of the rest. */
  lemma FootprintFirst(roots: seq<Root>)
    requires roots != []
    ensures Footprint(roots) == Elements(Visited(roots[0])) + Footprint(roots[1..])
  {
    assert roots == [roots[0]] + roots[1..];
    FootprintAppend([roots[0]], roots[1..]);
  }

  /** What the user sees at the end of the command. */
  datatype Outcome =
    | EmptySelection                 // the plugin closes with "Selection is empty"
    | Reported(diags: seq<Diag>)     // the report posted to the UI
    | InvalidThemePath(themePath: string)   // the plugin closes naming the invalid root
    | Crashed(themePath: string)     // parsing the root's expanded name throws

  datatype RunResult = RunResult(slots: map<Node, SlotValues>, outcome: Outcome)

  /** The whole command, from the style sequence, the selection and the slots before the run. */
  function Run(styles: seq<Style>, roots: seq<Root>, slots: map<Node, SlotValues>): (r: RunResult)
    requires Footprint(roots) <= slots.Keys
    ensures r.slots.Keys == slots.Keys
    ensures forall n :: n in slots && n !in Footprint(roots) ==> r.slots[n] == slots[n]
  {
    if roots == [] then RunResult(slots, EmptySelection)
    else
      var rr := RootsSpec(Indexed(styles), roots, RunState(slots, NoDiags));
      var outcome := match rr.status
        case Done => Reported(Report(rr.state.log))
        case InvalidRoot(name) => InvalidThemePath(name)
        case CrashedRoot(name) => Crashed(name);
      RunResult(rr.state.slots, outcome)
  }

  // ---------------------------------------------------------------------------
  // The methods

  /** The three error lists `pushError` is given: `unknownThemeErrors`, `ignoringConstErrors`
      and `plainErrors`. */
  datatype ErrorList = UnknownThemeErrors | IgnoringConstErrors | PlainErrors

  /** `pushError` into one of the buckets. */
  function Push(log: Buckets, list: ErrorList, d: Diag): (r: Buckets)
    ensures Extends(log, r)
    ensures list == UnknownThemeErrors ==> r == log.(unknownTheme := log.unknownTheme + [d])
    ensures list == IgnoringConstErrors ==> r == log.(ignoringConst := log.ignoringConst + [d])
    ensures list == PlainErrors ==> r == log.(plain := log.plain + [d])
  {
    match list
    case UnknownThemeErrors => log.(unknownTheme := log.unknownTheme + [d])
    case IgnoringConstErrors => log.(ignoringConst := log.ignoringConst + [d])
    case PlainErrors => log.(plain := log.plain + [d])
  }

  /** One slot of one node. `skip` is the `continue` that ends the current kind. */
  method ApplySlot(reg: Registry, sel: Selector, token: string, n: Node, slot: Slot, log: Buckets)
    returns (log': Buckets, skip: bool)
    modifies n
    ensures var r := SlotSpec(reg, sel, token, n, slot, old(n.Slots()), log);
      n.Slots() == r.v && log' == r.log && skip == r.stop
  {
    ghost var v := n.Slots();
    ghost var spec := SlotSpec(reg, sel, token, n, slot, v, log);
    var id := SlotId(n.Slots(), slot);
    var check := CheckSlot(slot, id, n.InlineCount(slot));
    log', skip := log, false;
    if !check.shouldSkip {
      if id !in reg.byId {
        log', skip := Push(log, UnknownThemeErrors, Diag(n, UnknownStyleId(slot), Error)), true;
        assert spec == Step(v, log', true);
        return;
      }
      var style := reg.byId[id];
      if ValidateThemePath(style.name) {
        var candidate := CandidateName(sel, token, style.name);
        if candidate !in reg.byName {
          log' := Push(log, UnknownThemeErrors, Diag(n, UnknownTheme(candidate), Error));
          assert spec == Step(v, log', false);
        } else {
          var alt := reg.byName[candidate];
          if sel.path.constant == Given("*") || sel.path.constant == ObjConst(style.name) {
            assert spec == Step(WithSlot(v, slot, alt.id), log, false);
            n.SetSlot(slot, alt.id);
          } else {
            log' := Push(log, IgnoringConstErrors, Diag(n, IgnoringConst(candidate), Error));
            assert spec == Step(v, log', false);
          }
        }
      } else {
        log' := Push(log, UnknownThemeErrors, Diag(n, SkippingTheme(style.name), Warning));
        assert spec == Step(v, log', false);
      }
    } else if check.isPlain {
      log' := Push(log, PlainErrors, Diag(n, PlainValue(slot), Error));
    }
  }

  /** One kind token for one node. `stop` is the `break` that ends the node. */
  method ApplyKind(reg: Registry, sel: Selector, token: string, n: Node, log: Buckets)
    returns (log': Buckets, stop: bool)
    modifies n
    ensures var r := KindSpec(reg, sel, token, n, old(n.Slots()), log);
      n.Slots() == r.v && log' == r.log && stop == r.stop
  {
    log', stop := log, false;
    if token == ColorKind {
      if !IsPaintableType(n.nodeType) {
        stop := true;
        return;
      }
      var skip;
      log', skip := ApplySlot(reg, sel, token, n, Fill, log);
      if skip {
        return;
      }
      log', skip := ApplySlot(reg, sel, token, n, Stroke, log');
    } else if token == EffectKind {
      if !IsPaintableType(n.nodeType) {
        stop := true;
        return;
      }
      var skip;
      log', skip := ApplySlot(reg, sel, token, n, Effect, log);
    } else if token == TextKind {
      if !IsTextObject(n.nodeType, n.Slots()) {
        stop := true;
        return;
      }
      var skip;
      log', skip := ApplySlot(reg, sel, token, n, Text, log);
    } else {
      log' := Push(log, UnknownThemeErrors, Diag(n, UnknownThemeType(token, sel.themePath), Error));
    }
  }

  /** The loop over the selector's kind tokens for one node. */
  method ApplyKinds(reg: Registry, sel: Selector, n: Node, log: Buckets) returns (log': Buckets)
    modifies n
    ensures TokensSpec(reg, sel, sel.path.kinds, n, old(n.Slots()), log) == NodeState(n.Slots(), log')
  {
    var kinds := sel.path.kinds;
    log' := log;
    var i := 0;
    while i < |kinds|
      invariant 0 <= i <= |kinds|
      invariant TokensSpec(reg, sel, kinds[i..], n, n.Slots(), log') == TokensSpec(reg, sel, kinds, n, old(n.Slots()), log)
      decreases |kinds| - i
    {
      assert kinds[i..][1..] == kinds[i + 1..];
      var stop;
      log', stop := ApplyKind(reg, sel, kinds[i], n, log');
      if stop {
        return;
      }
      i := i + 1;
    }
  }

  /** The loop over `[root, ...root.findAll()]`. The ghost map mirrors every node's slots. */
  method ApplyNodes(reg: Registry, sel: Selector, nodes: seq<Node>, log: Buckets, ghost m: map<Node, SlotValues>)
    returns (log': Buckets, ghost m': map<Node, SlotValues>)
    requires forall n :: n in nodes ==> n in m
    requires forall n :: n in m ==> n.Slots() == m[n]
    modifies Elements(nodes)
    ensures NodesSpec(reg, sel, nodes, RunState(m, log)) == RunState(m', log')
    ensures forall n :: n in m ==> n.Slots() == m'[n]
  {
    log', m' := log, m;
    for i := 0 to |nodes|
      invariant m'.Keys == m.Keys
      invariant forall n :: n in m' ==> n.Slots() == m'[n]
      invariant NodesSpec(reg, sel, nodes[i..], RunState(m', log')) == NodesSpec(reg, sel, nodes, RunState(m, log))
    {
      var n := nodes[i];
      assert nodes[i] in nodes;
      ghost var before := m';
      ghost var ts := TokensSpec(reg, sel, sel.path.kinds, n, before[n], log');
      NodesStep(reg, sel, nodes, i, RunState(before, log'));
      log' := ApplyKinds(reg, sel, n, log');
      assert ts == NodeState(n.Slots(), log');
      m' := before[n := n.Slots()];
      forall o | o in m' ensures o.Slots() == m'[o] {
        if o != n {
          assert o.Slots() == before[o];
        }
      }
    }
    assert nodes[|nodes|..] == [];
  }

  /** One turn of the loop over the nodes: the walk from `i` is node `i`'s tokens, then the walk
      from `i + 1`. */
  lemma NodesStep(reg: Registry, sel: Selector, nodes: seq<Node>, i: nat, st: RunState)
    requires i < |nodes|
    requires forall n :: n in nodes ==> n in st.slots
    ensures var n := nodes[i];
      var ts := TokensSpec(reg, sel, sel.path.kinds, n, st.slots[n], st.log);
      NodesSpec(reg, sel, nodes[i..], st) == NodesSpec(reg, sel, nodes[i + 1..], RunState(st.slots[n := ts.v], ts.log))
  {
    assert nodes[i..][1..] == nodes[i + 1..];
    assert nodes[i..][0] == nodes[i];
  }

  /** The loop over the selected roots. The returned status stands for the `return` after an
      invalid name and for the exception a failed parse throws. */
  method ApplyRoots(reg: Registry, roots: seq<Root>, ghost m: map<Node, SlotValues>)
    returns (status: Status, log: Buckets, ghost m': map<Node, SlotValues>)
    requires Footprint(roots) <= m.Keys
    requires forall n :: n in m ==> n.Slots() == m[n]
    modifies Footprint(roots)
    ensures RootsSpec(reg, roots, RunState(m, NoDiags)) == RootsResult(RunState(m', log), status)
    ensures forall n :: n in m ==> n.Slots() == m'[n]
  {
    log, m' := NoDiags, m;
    ghost var goal := RootsSpec(reg, roots, RunState(m, NoDiags));
    var i := 0;
    while i < |roots|
      invariant 0 <= i <= |roots|
      invariant m'.Keys == m.Keys
      invariant forall n :: n in m' ==> n.Slots() == m'[n]
      invariant RootsSpec(reg, roots[i..], RunState(m', log)) == goal
      decreases |roots| - i
    {
      assert roots[i..][1..] == roots[i + 1..];
      var root := roots[i];
      var themePath := root.node.name;
      if !ValidateThemePath(themePath) {
        return InvalidRoot(themePath), log, m';
      }
      var parsed := SelectorOf(themePath);
      if parsed.Failure? {
        return CrashedRoot(themePath), log, m';
      }
      var sel := parsed.value;
      if root.descendants.None? {
        i := i + 1;
        continue;
      }
      var objects := [root.node] + root.descendants.value;
      assert objects == Visited(root);
      assert Elements(objects) <= Footprint(roots);
      log, m' := ApplyNodes(reg, sel, objects, log, m');
      i := i + 1;
    }
    assert roots[i..] == [];
    status := Done;
  }

  /** The command: the registry, the loop over the roots, and the report when the loop ends normally. */
  method ApplyTheme(styles: seq<Style>, roots: seq<Root>) returns (outcome: Outcome)
    modifies Footprint(roots)
    ensures var r := Run(styles, roots, old(SlotsOf(Footprint(roots))));
      outcome == r.outcome && forall n :: n in Footprint(roots) ==> n.Slots() == r.slots[n]
  {
    if |roots| == 0 {
      return EmptySelection;
    }
    var reg := BuildRegistry(styles);
    ghost var m := SlotsOf(Footprint(roots));
    assert m == old(SlotsOf(Footprint(roots)));
    var status, log;
    ghost var m';
    status, log, m' := ApplyRoots(reg, roots, m);
    match status
    case Done => outcome := Reported(Report(log));
    case InvalidRoot(themePath) => outcome := InvalidThemePath(themePath);
    case CrashedRoot(themePath) => outcome := Crashed(themePath);
    assert Run(styles, roots, m) == RunResult(m', outcome);
  }

  // ---------------------------------------------------------------------------
  // Properties of the run

  lemma {:induction false} FootprintAppend(a: seq<Root>, b: seq<Root>)
    ensures Footprint(a + b) == Footprint(a) + Footprint(b)
    decreases |a|
  {
    if a == [] {
      assert a + b == b;
    } else {
      assert (a + b)[1..] == a[1..] + b;
      FootprintAppend(a[1..], b);
    }
  }

  /** The loop over `a + b` is the loop over `a`, then, if it finished normally, the loop over `b`. */
  lemma {:induction false} RootsAppend(reg: Registry, a: seq<Root>, b: seq<Root>, st: RunState)
    requires Footprint(a + b) <= st.slots.Keys
    ensures var ra := RootsSpec(reg, a, st);
      RootsSpec(reg, a + b, st) == if ra.status.Done? then RootsSpec(reg, b, ra.state) else ra
    decreases |a|
  {
    FootprintAppend(a, b);
    if a == [] {
      assert a + b == b;
    } else {
      assert (a + b)[1..] == a[1..] + b;
      assert (a + b)[0] == a[0];
      FootprintAppend(a[1..], b);
      var name := a[0].node.name;
      if ValidateThemePath(name) && SelectorOf(name).Success? {
        var st' := NodesSpec(reg, SelectorOf(name).value, Visited(a[0]), st);
        RootsAppend(reg, a[1..], b, st');
      }
    }
  }

  /** The loop over `a + [r] + b` is the loop over `a`, then, if it finished normally, the loop
      from `r` on. */
  lemma AfterPrefix(reg: Registry, a: seq<Root>, r: Root, b: seq<Root>, st: RunState) returns (ra: RootsResult)
    requires Footprint(a + [r] + b) <= st.slots.Keys
    ensures ra == RootsSpec(reg, a, st) && Footprint([r] + b) <= ra.state.slots.Keys
    ensures RootsSpec(reg, a + [r] + b, st) == if ra.status.Done? then RootsSpec(reg, [r] + b, ra.state) else ra
  {
    assert a + [r] + b == a + ([r] + b);
    FootprintAppend(a, [r] + b);
    RootsAppend(reg, a, [r] + b, st);
    ra := RootsSpec(reg, a, st);
  }

  /** An invalid root name ends the run there: no later root is looked at. */
  lemma InvalidRootAborts(reg: Registry, a: seq<Root>, r: Root, b: seq<Root>, st: RunState)
    requires Footprint(a + [r] + b) <= st.slots.Keys
    requires !ValidateThemePath(r.node.name)
    ensures var ra := RootsSpec(reg, a, st);
      RootsSpec(reg, a + [r] + b, st) == if ra.status.Done? then RootsResult(ra.state, InvalidRoot(r.node.name)) else ra
  {
    var ra := AfterPrefix(reg, a, r, b, st);
    if ra.status.Done? {
      StopsAtFirst(reg, r, b, ra.state, InvalidRoot(r.node.name));
    }
  }

  /** A valid root whose expansion does not parse ends the run there as a crash. */
  lemma UnparsableRootCrashes(reg: Registry, a: seq<Root>, r: Root, b: seq<Root>, st: RunState)
    requires Footprint(a + [r] + b) <= st.slots.Keys
    requires ValidateThemePath(r.node.name) && |Segments(ExpandThemePath(r.node.name))| < 2
    ensures var ra := RootsSpec(reg, a, st);
      RootsSpec(reg, a + [r] + b, st) == if ra.status.Done? then RootsResult(ra.state, CrashedRoot(r.node.name)) else ra
  {
    var ra := AfterPrefix(reg, a, r, b, st);
    if ra.status.Done? {
      StopsAtFirst(reg, r, b, ra.state, CrashedRoot(r.node.name));
    }
  }

  /** A root without `findAll` (a leaf layer selected on its own) is skipped: neither it nor
      anything else is re-styled for it, nothing is reported, and the loop goes on with the rest. */
  lemma LeafRootSkipped(reg: Registry, r: Root, rest: seq<Root>, st: RunState)
    requires r.descendants.None?
    requires ValidateThemePath(r.node.name) && SelectorOf(r.node.name).Success?
    requires Footprint([r] + rest) <= st.slots.Keys
    ensures Footprint(rest) <= st.slots.Keys
    ensures RootsSpec(reg, [r] + rest, st) == RootsSpec(reg, rest, st)
  {
    FootprintAppend([r], rest);
    assert ([r] + rest)[1..] == rest;
  }

  /** A first root that is invalid, or valid but unparsable, stops the loop with the state untouched. */
  lemma StopsAtFirst(reg: Registry, r: Root, b: seq<Root>, st: RunState, status: Status)
    requires Footprint([r] + b) <= st.slots.Keys
    requires status == InvalidRoot(r.node.name) ==> !ValidateThemePath(r.node.name)
    requires status == CrashedRoot(r.node.name) ==> ValidateThemePath(r.node.name) && |Segments(ExpandThemePath(r.node.name))| < 2
    requires status == InvalidRoot(r.node.name) || status == CrashedRoot(r.node.name)
    ensures RootsSpec(reg, [r] + b, st) == RootsResult(st, status)
  {
    assert ([r] + b)[0] == r;
  }

  /** A root named `screen(name)/variant` whose group is a single segment passes validation and
      then crashes the run. */
  lemma ShortGroupRootCrashes(reg: Registry, r: Root, screen: string, name: string, variant: string, b: seq<Root>, st: RunState)
    requires Footprint([r] + b) <= st.slots.Keys
    requires r.node.name == screen + "(" + name + ")/" + variant
    requires IsPiece(screen, '/') && '(' !in screen && IsPiece(variant, '/')
    requires IsPiece(name, '/') && name != "*" && ')' !in name && NoLineBreak(name)
    ensures RootsSpec(reg, [r] + b, st) == RootsResult(st, CrashedRoot(r.node.name))
  {
    ValidNameWithShortGroup(screen, name, variant);
    assert ([r] + b)[0] == r;
  }

  /** Every slot a walk over nodes changes takes the id of a registered style. */
  lemma {:induction false} NodesFromRegistry(styles: seq<Style>, sel: Selector, nodes: seq<Node>, st: RunState, n: Node)
    requires forall o :: o in nodes ==> o in st.slots
    requires n in st.slots
    ensures FromRegistry(styles, st.slots[n], NodesSpec(Indexed(styles), sel, nodes, st).slots[n])
    decreases |nodes|
  {
    if nodes != [] {
      var o := nodes[0];
      var ns := TokensSpec(Indexed(styles), sel, sel.path.kinds, o, st.slots[o], st.log);
      var st' := RunState(st.slots[o := ns.v], ns.log);
      NodesFromRegistry(styles, sel, nodes[1..], st', n);
      if o == n {
        TokensFromRegistry(styles, sel, sel.path.kinds, o, st.slots[o], st.log);
      }
    }
  }

  /** Every slot the loop over the roots changes takes the id of a registered style. */
  lemma {:induction false} RootsFromRegistry(styles: seq<Style>, roots: seq<Root>, st: RunState, n: Node)
    requires Footprint(roots) <= st.slots.Keys
    requires n in st.slots
    ensures FromRegistry(styles, st.slots[n], RootsSpec(Indexed(styles), roots, st).state.slots[n])
    decreases |roots|
  {
    if roots != [] {
      var name := roots[0].node.name;
      if ValidateThemePath(name) && SelectorOf(name).Success? {
        var sel := SelectorOf(name).value;
        var st' := NodesSpec(Indexed(styles), sel, Visited(roots[0]), st);
        NodesFromRegistry(styles, sel, Visited(roots[0]), st, n);
        RootsFromRegistry(styles, roots[1..], st', n);
      }
    }
  }

  /** After the command every node keeps its slot values or holds ids of registered styles. */
  lemma RunFromRegistry(styles: seq<Style>, roots: seq<Root>, slots: map<Node, SlotValues>, n: Node)
    requires Footprint(roots) <= slots.Keys
    requires n in slots
    ensures FromRegistry(styles, slots[n], Run(styles, roots, slots).slots[n])
  {
    if roots != [] {
      RootsFromRegistry(styles, roots, RunState(slots, NoDiags), n);
    }
  }
}
