/** The detail-panel accordion: every `.details-btn` names a panel through
    `aria-controls`; activating one collapses it, or collapses every managed
    pair and then opens it. */
module Accordion {
  import opened Dom

  /** A `.details-btn`: its `aria-expanded` attribute and the index of the
      element that `getElementById(aria-controls)` returns (None for null). */
  datatype DetailButton = DetailButton(ariaExpanded: Option<string>, controls: Option<nat>)

  /** An element a button may control: its `hidden` flag and its first link. */
  datatype DetailPanel = DetailPanel(hidden: bool, firstLink: Option<ElementId>)

  /** The accordion's part of the page, plus the focused element. */
  datatype Details = Details(buttons: seq<DetailButton>, panels: seq<DetailPanel>, focused: Option<ElementId>)

  /** The panel button i resolves to; an index outside the panels is a failed lookup. */
  function PanelOf(d: Details, i: nat): Option<nat>
    requires i < |d.buttons|
  {
    var c := d.buttons[i].controls;
    if c.Some? && c.value < |d.panels| then c else None
  }

  /** Some button below index n resolves to panel p. */
  predicate ControlledBelow(d: Details, p: nat, n: nat)
    requires n <= |d.buttons|
  {
    exists j :: 0 <= j < n && PanelOf(d, j) == Some(p)
  }

  /** Panel p is managed: some button resolves to it. */
  predicate Controlled(d: Details, p: nat) {
    ControlledBelow(d, p, |d.buttons|)
  }

  /** Activation never changes which button controls which panel, nor the
      panels' links. */
  predicate SameShape(d: Details, r: Details) {
    && |r.buttons| == |d.buttons|
    && |r.panels| == |d.panels|
    && (forall i :: 0 <= i < |d.buttons| ==> r.buttons[i].controls == d.buttons[i].controls)
    && (forall p :: 0 <= p < |d.panels| ==> r.panels[p].firstLink == d.panels[p].firstLink)
  }

  /** The loop of togglePanel's opening branch: every button gets
      aria-expanded "false" and every panel one of them resolves is hidden. */
  function CollapseAll(d: Details): Details {
    d.(buttons := seq(|d.buttons|, i requires 0 <= i < |d.buttons| => d.buttons[i].(ariaExpanded := Some("false"))),
       panels := seq(|d.panels|, p requires 0 <= p < |d.panels| =>
                     if Controlled(d, p) then d.panels[p].(hidden := true) else d.panels[p]))
  }

  /** togglePanel(btn) for the button at index b. */
  function Toggle(d: Details, b: nat): (r: Details)
    requires b < |d.buttons|
    ensures SameShape(d, r)
  {
    match PanelOf(d, b)
    case None => d
    case Some(p) =>
      if IsTrue(d.buttons[b].ariaExpanded) then
        d.(buttons := d.buttons[b := d.buttons[b].(ariaExpanded := Some("false"))],
           panels := d.panels[p := d.panels[p].(hidden := true)])
      else
        var c := CollapseAll(d);
        c.(buttons := c.buttons[b := c.buttons[b].(ariaExpanded := Some("true"))],
           panels := c.panels[p := c.panels[p].(hidden := false)],
           focused := if d.panels[p].firstLink.Some? then d.panels[p].firstLink else d.focused)
  }

  /** The two listeners every button gets: click, and keydown. */
  datatype Input = Click(button: nat) | KeyDown(button: nat, key: string)

  /** The keys that activate a focused button: Enter and Space. */
  predicate IsActivationKey(key: string) {
    key == "Enter" || key == " "
  }

  function Step(d: Details, e: Input): (r: Details)
    requires e.button < |d.buttons|
    ensures SameShape(d, r)
  {
    match e
    case Click(b) => Toggle(d, b)
    case KeyDown(b, key) => if IsActivationKey(key) then Toggle(d, b) else d
  }

  predicate InputsFor(d: Details, es: seq<Input>) {
    forall k :: 0 <= k < |es| ==> es[k].button < |d.buttons|
  }

  /** The state after a sequence of inputs, one event callback at a time. */
  function Run(d: Details, es: seq<Input>): (r: Details)
    requires InputsFor(d, es)
    ensures SameShape(d, r)
    decreases |es|
  {
    if es == [] then d else Run(Step(d, es[0]), es[1..])
  }

  /** At most one managed panel is visible. */
  predicate AtMostOneOpen(d: Details) {
    forall p, q ::
      (0 <= p < |d.panels| && 0 <= q < |d.panels| && Controlled(d, p) && Controlled(d, q) &&
       !d.panels[p].hidden && !d.panels[q].hidden) ==> p == q
  }

  /** At most one button reports aria-expanded "true". */
  predicate AtMostOneExpanded(d: Details) {
    forall i, j ::
      (0 <= i < |d.buttons| && 0 <= j < |d.buttons| &&
       IsTrue(d.buttons[i].ariaExpanded) && IsTrue(d.buttons[j].ariaExpanded)) ==> i == j
  }

  predicate Exclusive(d: Details) {
    AtMostOneOpen(d) && AtMostOneExpanded(d)
  }

  lemma SameShapeControlled(d: Details, r: Details)
    requires SameShape(d, r)
    ensures forall i :: 0 <= i < |d.buttons| ==> PanelOf(r, i) == PanelOf(d, i)
    ensures forall p :: Controlled(r, p) <==> Controlled(d, p)
  {
    assert forall i :: 0 <= i < |d.buttons| ==> PanelOf(r, i) == PanelOf(d, i);
    forall p: nat ensures Controlled(r, p) <==> Controlled(d, p) {
      if Controlled(d, p) {
        var j :| 0 <= j < |d.buttons| && PanelOf(d, j) == Some(p);
        assert PanelOf(r, j) == Some(p);
      }
      if Controlled(r, p) {
        var j :| 0 <= j < |r.buttons| && PanelOf(r, j) == Some(p);
        assert PanelOf(d, j) == Some(p);
      }
    }
  }

  /** An opening activation leaves the chosen button the only expanded one
      and its panel the only visible managed panel; unmanaged panels keep
      their state, and focus moves to the panel's first link if it has one. */
  lemma OpeningIsExclusive(d: Details, b: nat)
    requires b < |d.buttons| && PanelOf(d, b).Some? && !IsTrue(d.buttons[b].ariaExpanded)
    ensures var r := Toggle(d, b);
      && (forall i :: 0 <= i < |r.buttons| ==> (IsTrue(r.buttons[i].ariaExpanded) <==> i == b))
      && (forall p :: 0 <= p < |r.panels| && Controlled(r, p) ==> (!r.panels[p].hidden <==> PanelOf(d, b) == Some(p)))
      && (forall p :: 0 <= p < |r.panels| && !Controlled(d, p) ==> r.panels[p] == d.panels[p])
      && r.focused == (if d.panels[PanelOf(d, b).value].firstLink.Some? then d.panels[PanelOf(d, b).value].firstLink else d.focused)
      && Exclusive(r)
  {
    var r := Toggle(d, b);
    SameShapeControlled(d, r);
    var p := PanelOf(d, b).value;
    assert Controlled(d, p);
  }

  /** A collapsing activation sets that button to "false" and hides its
      panel; every other button and panel, and the focus, are unchanged. */
  lemma CollapsingTouchesOnlyItsPair(d: Details, b: nat)
    requires b < |d.buttons| && PanelOf(d, b).Some? && IsTrue(d.buttons[b].ariaExpanded)
    ensures var r := Toggle(d, b); var p := PanelOf(d, b).value;
      && r.buttons[b] == d.buttons[b].(ariaExpanded := Some("false"))
      && r.panels[p] == d.panels[p].(hidden := true)
      && (forall i :: 0 <= i < |d.buttons| && i != b ==> r.buttons[i] == d.buttons[i])
      && (forall q :: 0 <= q < |d.panels| && q != p ==> r.panels[q] == d.panels[q])
      && r.focused == d.focused
  {
  }

  /** A button whose aria-controls does not resolve does nothing, and Enter
      or Space on a button does what a click on it does. */
  lemma ActivationPaths(d: Details, b: nat, key: string)
    requires b < |d.buttons|
    ensures PanelOf(d, b).None? ==> Toggle(d, b) == d
    ensures IsActivationKey(key) ==> Step(d, KeyDown(b, key)) == Step(d, Click(b))
    ensures !IsActivationKey(key) ==> Step(d, KeyDown(b, key)) == d
  {
  }

  /** Every activation keeps at most one managed panel open and at most one
      button expanded. */
  lemma ToggleKeepsExclusive(d: Details, b: nat)
    requires b < |d.buttons| && Exclusive(d)
    ensures Exclusive(Toggle(d, b))
  {
    var r := Toggle(d, b);
    SameShapeControlled(d, r);
    if PanelOf(d, b).Some? && !IsTrue(d.buttons[b].ariaExpanded) {
      OpeningIsExclusive(d, b);
    }
  }

  /** Mutual exclusion holds after every sequence of clicks and key presses. */
  lemma {:induction false} RunKeepsExclusive(d: Details, es: seq<Input>)
    requires InputsFor(d, es) && Exclusive(d)
    ensures Exclusive(Run(d, es))
    decreases |es|
  {
    if es != [] {
      var d' := Step(d, es[0]);
      if es[0].Click? || IsActivationKey(es[0].key) {
        ToggleKeepsExclusive(d, es[0].button);
      }
      RunKeepsExclusive(d', es[1..]);
    }
  }

  /** Panel exclusion holds on its own: collapsing only hides a panel, and
      opening hides every managed panel before showing one. */
  lemma ToggleKeepsAtMostOneOpen(d: Details, b: nat)
    requires b < |d.buttons| && AtMostOneOpen(d)
    ensures AtMostOneOpen(Toggle(d, b))
  {
    var r := Toggle(d, b);
    SameShapeControlled(d, r);
    if PanelOf(d, b).Some? && !IsTrue(d.buttons[b].ariaExpanded) {
      OpeningIsExclusive(d, b);
    }
  }

  /** At most one managed panel is visible after every sequence of clicks
      and key presses from a page where at most one was, whatever the
      buttons' aria-expanded values. */
  lemma {:induction false} RunKeepsAtMostOneOpen(d: Details, es: seq<Input>)
    requires InputsFor(d, es) && AtMostOneOpen(d)
    ensures AtMostOneOpen(Run(d, es))
    decreases |es|
  {
    if es != [] {
      var d' := Step(d, es[0]);
      if es[0].Click? || IsActivationKey(es[0].key) {
        ToggleKeepsAtMostOneOpen(d, es[0].button);
      }
      RunKeepsAtMostOneOpen(d', es[1..]);
    }
  }

  /** Button exclusion holds on its own too: an unresolved lookup changes
      nothing, collapsing writes "false" to one button, and opening writes
      "false" to every button before writing "true" to one. */
  lemma ToggleKeepsAtMostOneExpanded(d: Details, b: nat)
    requires b < |d.buttons| && AtMostOneExpanded(d)
    ensures AtMostOneExpanded(Toggle(d, b))
  {
    if PanelOf(d, b).Some? && !IsTrue(d.buttons[b].ariaExpanded) {
      OpeningIsExclusive(d, b);
    }
  }

  /** At most one button is expanded after every sequence of clicks and key
      presses from a page where at most one was, whatever the panels show. */
  lemma {:induction false} RunKeepsAtMostOneExpanded(d: Details, es: seq<Input>)
    requires InputsFor(d, es) && AtMostOneExpanded(d)
    ensures AtMostOneExpanded(Run(d, es))
    decreases |es|
  {
    if es != [] {
      var d' := Step(d, es[0]);
      if es[0].Click? || IsActivationKey(es[0].key) {
        ToggleKeepsAtMostOneExpanded(d, es[0].button);
      }
      RunKeepsAtMostOneExpanded(d', es[1..]);
    }
  }

  /** Input e activates a collapsed button whose panel resolves. */
  predicate IsOpening(d: Details, e: Input)
    requires e.button < |d.buttons|
  {
    && (e.Click? || IsActivationKey(e.key))
    && PanelOf(d, e.button).Some?
    && !IsTrue(d.buttons[e.button].ariaExpanded)
  }

  /** Whatever the page started with, once an opening activation has run,
      mutual exclusion holds after every later input. */
  lemma ExclusiveAfterOpening(d: Details, before: seq<Input>, e: Input, after: seq<Input>)
    requires InputsFor(d, before) && e.button < |d.buttons| && InputsFor(d, after)
    requires IsOpening(Run(d, before), e)
    ensures Exclusive(Run(Step(Run(d, before), e), after))
  {
    var m := Run(d, before);
    OpeningIsExclusive(m, e.button);
    RunKeepsExclusive(Step(m, e), after);
  }

  /** Activating a collapsed button twice in a row leaves no button expanded
      and no managed panel open. */
  lemma ReactivationClosesAll(d: Details, b: nat)
    requires b < |d.buttons| && PanelOf(d, b).Some? && !IsTrue(d.buttons[b].ariaExpanded)
    ensures var r := Toggle(Toggle(d, b), b);
      && (forall i :: 0 <= i < |r.buttons| ==> !IsTrue(r.buttons[i].ariaExpanded))
      && (forall p :: 0 <= p < |r.panels| && Controlled(r, p) ==> r.panels[p].hidden)
  {
    var r1 := Toggle(d, b);
    OpeningIsExclusive(d, b);
    SameShapeControlled(d, r1);
    var r := Toggle(r1, b);
    SameShapeControlled(r1, r);
    CollapsingTouchesOnlyItsPair(r1, b);
  }

  /** No two buttons resolve to the same panel. */
  predicate DistinctControls(d: Details) {
    forall i, j :: 0 <= i < |d.buttons| && 0 <= j < |d.buttons| && PanelOf(d, i).Some? && PanelOf(d, i) == PanelOf(d, j) ==> i == j
  }

  /** Each resolvable button's aria-expanded says whether its panel shows. */
  predicate Synced(d: Details) {
    forall i :: 0 <= i < |d.buttons| && PanelOf(d, i).Some? ==>
      (IsTrue(d.buttons[i].ariaExpanded) <==> !d.panels[PanelOf(d, i).value].hidden)
  }

  /** When each panel has one button, activation keeps aria-expanded in step
      with the panels. */
  lemma ToggleKeepsSynced(d: Details, b: nat)
    requires b < |d.buttons| && DistinctControls(d) && Synced(d)
    ensures Synced(Toggle(d, b))
  {
    var r := Toggle(d, b);
    SameShapeControlled(d, r);
    if PanelOf(d, b).Some? && !IsTrue(d.buttons[b].ariaExpanded) {
      forall i | 0 <= i < |d.buttons| && PanelOf(d, i).Some?
        ensures Controlled(d, PanelOf(d, i).value)
      {
      }
    }
  }

  /** The accordion's live state; togglePanel rewrites it in place. */
  class DetailsController {
    var buttons: seq<DetailButton>
    var panels: seq<DetailPanel>
    var focused: Option<ElementId>

    function State(): Details
      reads this
    {
      Details(buttons, panels, focused)
    }

    constructor (d: Details)
      ensures State() == d
    {
      buttons, panels, focused := d.buttons, d.panels, d.focused;
    }

    method TogglePanel(b: nat)
      requires b < |buttons|
      modifies this
      ensures State() == Toggle(old(State()), b)
    {
      var panel := PanelOf(State(), b);
      if panel.None? {
        return;
      }
      var p := panel.value;
      if IsTrue(buttons[b].ariaExpanded) {
        buttons := buttons[b := buttons[b].(ariaExpanded := Some("false"))];
        panels := panels[p := panels[p].(hidden := true)];
      } else {
        ghost var d := State();
        var i := 0;
        while i < |buttons|
          invariant 0 <= i <= |buttons| == |d.buttons| && |panels| == |d.panels| && focused == d.focused
          invariant forall k :: 0 <= k < i ==> buttons[k] == d.buttons[k].(ariaExpanded := Some("false"))
          invariant forall k :: i <= k < |buttons| ==> buttons[k] == d.buttons[k]
          invariant forall q :: 0 <= q < |panels| ==>
            panels[q] == if ControlledBelow(d, q, i) then d.panels[q].(hidden := true) else d.panels[q]
        {
          buttons := buttons[i := buttons[i].(ariaExpanded := Some("false"))];
          var target := PanelOf(State(), i);
          assert target == PanelOf(d, i);
          if target.Some? {
            panels := panels[target.value := panels[target.value].(hidden := true)];
          }
          i := i + 1;
          forall q | 0 <= q < |panels|
            ensures ControlledBelow(d, q, i) <==> ControlledBelow(d, q, i - 1) || target == Some(q)
          {
            if ControlledBelow(d, q, i) && target != Some(q) {
              var j :| 0 <= j < i && PanelOf(d, j) == Some(q);
              assert j < i - 1;
            }
          }
        }
        assert buttons == CollapseAll(d).buttons;
        assert panels == CollapseAll(d).panels;
        buttons := buttons[b := buttons[b].(ariaExpanded := Some("true"))];
        panels := panels[p := panels[p].(hidden := false)];
        if panels[p].firstLink.Some? {
          focused := panels[p].firstLink;
        }
      }
    }

    /** The click and keydown listeners both go through TogglePanel. */
    method Handle(e: Input)
      requires e.button < |buttons|
      modifies this
      ensures State() == Step(old(State()), e)
    {
      match e
      case Click(b) =>
        TogglePanel(b);
      case KeyDown(b, key) =>
        if IsActivationKey(key) {
          TogglePanel(b);
        }
    }
  }
}
