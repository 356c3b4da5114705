/**
 * What the extension does to one DOM node: `applyBlurToNode`, `removeBlurFromNode`
 * and the click handler the former installs, plus the look the injected style
 * sheet gives the resulting class combination.
 */
module Conceal {

  const BlurClass := "blurred-message-text"
  const RevealClass := "blurred-reveal"
  const BlurModeClass := "blurred-mode-blur"
  const OpaqueModeClass := "blurred-mode-opaque"

  /** The classes the extension adds and removes; every other class belongs to the page. */
  const Owned: set<string> := {BlurClass, RevealClass, BlurModeClass, OpaqueModeClass}

  datatype ConcealMode = Blur | Opaque

  /** The mode class matching a conceal mode. */
  function ModeClass(mode: ConcealMode): string {
    if mode == Opaque then OpaqueModeClass else BlurModeClass
  }

  /** A node's `onclick`: none, the reveal toggle this extension installs, or the page's own. */
  datatype Handler = NoHandler | RevealToggle | PageHandler

  /** The part of a node the extension reads and writes: its class list, `dataset.blurredApplied === "1"`, and `onclick`. */
  datatype NodeState = NodeState(classes: set<string>, applied: bool, onclick: Handler)

  /** How the style sheet renders a node. */
  datatype Look = Plain | Marked | Blurred | Hidden | Revealed

  /**
   * The style sheet's rules: nothing applies without the blur class; the reveal
   * rule comes last and wins; the opaque rule comes after the blur-mode rule.
   * With the blur class and no mode class only the cursor and selection rule applies.
   */
  function LookOf(n: NodeState): Look {
    if BlurClass !in n.classes then Plain
    else if RevealClass in n.classes then Revealed
    else if OpaqueModeClass in n.classes then Hidden
    else if BlurModeClass in n.classes then Blurred
    else Marked
  }

  /** The look of a freshly concealed node. */
  function ConcealedLook(mode: ConcealMode): Look {
    if mode == Opaque then Hidden else Blurred
  }

  lemma OwnedDistinct()
    ensures BlurClass != RevealClass && BlurClass != BlurModeClass && BlurClass != OpaqueModeClass
    ensures RevealClass != BlurModeClass && RevealClass != OpaqueModeClass
    ensures BlurModeClass != OpaqueModeClass
  {
    assert BlurClass[8] != RevealClass[8];
    assert BlurClass[9] != BlurModeClass[9];
    assert BlurClass[9] != OpaqueModeClass[9];
    assert RevealClass[8] != BlurModeClass[8];
    assert RevealClass[8] != OpaqueModeClass[8];
    assert BlurModeClass[13] != OpaqueModeClass[13];
  }

  /**
   * `applyBlurToNode`: add the blur class, switch the mode classes to `mode`,
   * mark the node applied and install the reveal toggle. The reveal class and
   * the page's classes are left as they are.
   */
  function Applied(n: NodeState, mode: ConcealMode): (r: NodeState)
    ensures BlurClass in r.classes && r.applied && r.onclick == RevealToggle
    ensures ModeClass(mode) in r.classes
    ensures r.classes * Owned == {BlurClass, ModeClass(mode)} + (n.classes * {RevealClass})
    ensures r.classes - Owned == n.classes - Owned
  {
    OwnedDistinct();
    NodeState(n.classes - {BlurModeClass, OpaqueModeClass} + {BlurClass, ModeClass(mode)}, true, RevealToggle)
  }

  /**
   * `removeBlurFromNode`: drop all four classes; only a node this extension
   * marked loses its `onclick`, so a page handler on an unmarked node survives.
   */
  function Removed(n: NodeState): (r: NodeState)
    ensures r.classes * Owned == {}
    ensures r.classes - Owned == n.classes - Owned
    ensures !r.applied
    ensures n.applied ==> r.onclick == NoHandler
    ensures !n.applied ==> r.onclick == n.onclick
    ensures LookOf(r) == Plain
  {
    NodeState(n.classes - Owned, false, if n.applied then NoHandler else n.onclick)
  }

  /** A click: the reveal toggle flips the reveal class; a page handler's effect is not modelled. */
  function Clicked(n: NodeState): (r: NodeState)
    ensures r.classes - {RevealClass} == n.classes - {RevealClass}
    ensures r.applied == n.applied && r.onclick == n.onclick
    ensures n.onclick == RevealToggle ==> (RevealClass in r.classes <==> RevealClass !in n.classes)
    ensures n.onclick != RevealToggle ==> r == n
  {
    if n.onclick != RevealToggle then n
    else if RevealClass in n.classes then n.(classes := n.classes - {RevealClass})
    else n.(classes := n.classes + {RevealClass})
  }

  /**
   * The states the extension's own operations keep a node in: the blur class
   * and the applied flag go together, an applied node has the reveal toggle and
   * exactly one mode class, and an unapplied node carries neither the toggle
   * nor any of the classes.
   */
  predicate Consistent(n: NodeState) {
    (BlurClass in n.classes <==> n.applied)
    && (n.applied ==>
          n.onclick == RevealToggle && (BlurModeClass in n.classes <==> OpaqueModeClass !in n.classes))
    && (!n.applied ==> n.onclick != RevealToggle && n.classes * Owned == {})
  }

  // ---------------------------------------------------------------------------
  // properties of one operation

  /** A node that has just been concealed shows the mode's look, unless the reader had revealed it. */
  lemma AppliedLook(n: NodeState, mode: ConcealMode)
    ensures LookOf(Applied(n, mode)) == if RevealClass in n.classes then Revealed else ConcealedLook(mode)
  {
    OwnedDistinct();
  }

  /** Concealing again, or clearing again, changes nothing. */
  lemma StepIdempotent(n: NodeState, mode: ConcealMode)
    ensures Applied(Applied(n, mode), mode) == Applied(n, mode)
    ensures Removed(Removed(n)) == Removed(n)
  {
    OwnedDistinct();
  }

  /** A node that was cleared and is concealed again is concealed, not revealed. */
  lemma ReconcealHides(n: NodeState, mode: ConcealMode)
    ensures LookOf(Applied(Removed(n), mode)) == ConcealedLook(mode)
  {
    OwnedDistinct();
    assert RevealClass !in Removed(n).classes;
    AppliedLook(Removed(n), mode);
  }

  /** On a concealed node a click toggles between revealed and concealed, and two clicks undo each other. */
  lemma ClickToggles(n: NodeState, mode: ConcealMode)
    ensures LookOf(Clicked(Applied(n, mode))) ==
      if RevealClass in n.classes then ConcealedLook(mode) else Revealed
    ensures Clicked(Clicked(Applied(n, mode))) == Applied(n, mode)
  {
    OwnedDistinct();
    var a := Applied(n, mode);
    if RevealClass in n.classes {
      assert a.classes - {RevealClass} + {RevealClass} == a.classes;
    } else {
      assert a.classes + {RevealClass} - {RevealClass} == a.classes;
    }
  }

  /** Every operation keeps a consistent node consistent. */
  lemma ConsistentPreserved(n: NodeState, mode: ConcealMode)
    requires Consistent(n)
    ensures Consistent(Applied(n, mode))
    ensures Consistent(Removed(n))
    ensures Consistent(Clicked(n))
  {
    OwnedDistinct();
  }

  // ---------------------------------------------------------------------------
  // a node visited several times in one pass

  /** One visit of a pass: conceal or clear. */
  function Step(n: NodeState, conceal: bool, mode: ConcealMode): NodeState {
    if conceal then Applied(n, mode) else Removed(n)
  }

  /** The state after visiting a node with each decision in turn. */
  function Fold(n: NodeState, decisions: seq<bool>, mode: ConcealMode): NodeState
    decreases |decisions|
  {
    if decisions == [] then n else Fold(Step(n, decisions[0], mode), decisions[1..], mode)
  }

  /**
   * The closed form of a fold: the last decision wins, and what lies before it
   * matters only through whether an opposite decision occurred.
   */
  function Settled(n: NodeState, decisions: seq<bool>, mode: ConcealMode): NodeState {
    if decisions == [] then n
    else if decisions[|decisions| - 1] then
      if false in decisions then Applied(Removed(n), mode) else Applied(n, mode)
    else
      if true in decisions then Removed(Applied(n, mode)) else Removed(n)
  }

  lemma ApplyRemoveApply(n: NodeState, mode: ConcealMode)
    ensures Applied(Removed(Applied(n, mode)), mode) == Applied(Removed(n), mode)
  {
    OwnedDistinct();
  }

  lemma RemoveApplyRemove(n: NodeState, mode: ConcealMode)
    ensures Removed(Applied(Removed(n), mode)) == Removed(Applied(n, mode))
  {
    OwnedDistinct();
  }

  lemma {:induction false} FoldSettles(n: NodeState, decisions: seq<bool>, mode: ConcealMode)
    ensures Fold(n, decisions, mode) == Settled(n, decisions, mode)
    decreases |decisions|
  {
    if decisions != [] {
      var d, rest := decisions[0], decisions[1..];
      assert decisions == [d] + rest;
      var s := Step(n, d, mode);
      FoldSettles(s, rest, mode);
      if rest == [] {
      } else {
        assert rest[|rest| - 1] == decisions[|decisions| - 1];
        assert false in decisions <==> !d || false in rest;
        assert true in decisions <==> d || true in rest;
        StepIdempotent(n, mode);
        ApplyRemoveApply(n, mode);
        RemoveApplyRemove(n, mode);
      }
    }
  }

  /** Repeating a pass with the same decisions leaves every node as the first pass left it. */
  lemma FoldIdempotent(n: NodeState, decisions: seq<bool>, mode: ConcealMode)
    ensures Fold(Fold(n, decisions, mode), decisions, mode) == Fold(n, decisions, mode)
  {
    FoldSettles(n, decisions, mode);
    FoldSettles(Fold(n, decisions, mode), decisions, mode);
    StepIdempotent(n, mode);
    ApplyRemoveApply(Removed(n), mode);
    RemoveApplyRemove(Applied(n, mode), mode);
  }

  lemma {:induction false} FoldAppend(n: NodeState, decisions: seq<bool>, d: bool, mode: ConcealMode)
    ensures Fold(n, decisions + [d], mode) == Step(Fold(n, decisions, mode), d, mode)
    decreases |decisions|
  {
    if decisions != [] {
      assert (decisions + [d])[1..] == decisions[1..] + [d];
      FoldAppend(Step(n, decisions[0], mode), decisions[1..], d, mode);
    }
  }

  /** A pass keeps a consistent node consistent. */
  lemma {:induction false} FoldConsistent(n: NodeState, decisions: seq<bool>, mode: ConcealMode)
    requires Consistent(n)
    ensures Consistent(Fold(n, decisions, mode))
    decreases |decisions|
  {
    if decisions != [] {
      ConsistentPreserved(n, mode);
      FoldConsistent(Step(n, decisions[0], mode), decisions[1..], mode);
    }
  }

  /** A node the reader revealed stays revealed through passes that keep concealing it. */
  lemma RevealPersists(n: NodeState, decisions: seq<bool>, mode: ConcealMode)
    requires RevealClass in n.classes
    requires forall i :: 0 <= i < |decisions| ==> decisions[i]
    ensures RevealClass in Fold(n, decisions, mode).classes
    ensures decisions != [] ==> LookOf(Fold(n, decisions, mode)) == Revealed
  {
    FoldSettles(n, decisions, mode);
    if decisions != [] {
      assert false !in decisions;
      AppliedLook(n, mode);
    }
  }

  /** The look after a pass is decided by the last decision alone, reveal aside. */
  lemma FoldLook(n: NodeState, decisions: seq<bool>, mode: ConcealMode)
    requires decisions != []
    ensures !decisions[|decisions| - 1] ==> LookOf(Fold(n, decisions, mode)) == Plain
    ensures decisions[|decisions| - 1] ==> LookOf(Fold(n, decisions, mode)) in {ConcealedLook(mode), Revealed}
  {
    FoldSettles(n, decisions, mode);
    AppliedLook(n, mode);
    AppliedLook(Removed(n), mode);
  }

  // ---------------------------------------------------------------------------
  // the DOM node itself

  /** A DOM node; the extension changes its class list, dataset flag and `onclick` in place. */
  class Node {
    var classes: set<string>
    var applied: bool
    var onclick: Handler

    constructor (classes: set<string>, applied: bool, onclick: Handler)
      ensures State() == NodeState(classes, applied, onclick)
    {
      this.classes := classes;
      this.applied := applied;
      this.onclick := onclick;
    }

    function State(): NodeState
      reads this
    {
      NodeState(classes, applied, onclick)
    }

    /** `applyBlurToNode(node)`. */
    method ApplyBlur(mode: ConcealMode)
      modifies this
      ensures State() == Applied(old(State()), mode)
    {
      classes := classes + {BlurClass};
      if mode != Opaque {
        classes := classes + {BlurModeClass};
      } else {
        classes := classes - {BlurModeClass};
      }
      if mode == Opaque {
        classes := classes + {OpaqueModeClass};
      } else {
        classes := classes - {OpaqueModeClass};
      }
      applied := true;
      onclick := RevealToggle;
      OwnedDistinct();
    }

    /** `removeBlurFromNode(node)`. */
    method RemoveBlur()
      modifies this
      ensures State() == Removed(old(State()))
    {
      classes := classes - {BlurClass};
      classes := classes - {RevealClass};
      classes := classes - {BlurModeClass};
      classes := classes - {OpaqueModeClass};
      if applied {
        applied := false;
        onclick := NoHandler;
      }
    }

    /** A click on the node, as the installed handler answers it. */
    method Click()
      modifies this
      ensures State() == Clicked(old(State()))
    {
      if onclick == RevealToggle {
        if RevealClass in classes {
          classes := classes - {RevealClass};
        } else {
          classes := classes + {RevealClass};
        }
      }
    }
  }
}
