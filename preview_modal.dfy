/** The iframe preview modal: openPreview, closePreview and the three ways
    of dismissing it. */
module PreviewModal {
  import opened Dom

  /** The inert frame source closePreview installs. */
  const Blank: string := "about:blank"

  /** The modal's part of the page. `present` is whether `#previewModal`
      exists; `panel` is its `.modal-panel`; `focused` is
      document.activeElement; `lastFocused` is the script's closure variable. */
  datatype Modal = Modal(
    present: bool,
    panel: Option<ElementId>,
    ariaHidden: Option<string>,
    frameSrc: string,
    openInNewHref: string,
    overflow: string,
    lastFocused: Option<ElementId>,
    focused: Option<ElementId>)

  /** openPreview(href, anchorEl). */
  function Open(m: Modal, href: string, anchor: Option<ElementId>): Modal {
    if !m.present then m
    else
      m.(lastFocused := if anchor.Some? then anchor else m.focused,
         frameSrc := href,
         openInNewHref := href,
         ariaHidden := Some("false"),
         overflow := "hidden",
         focused := if m.panel.Some? then m.panel else m.focused)
  }

  /** closePreview(). */
  function Close(m: Modal): Modal {
    if !m.present then m
    else
      m.(ariaHidden := Some("true"),
         frameSrc := Blank,
         overflow := "",
         focused := if m.lastFocused.Some? then m.lastFocused else m.focused)
  }

  /** The inputs the modal reacts to: a preview button's click (it passes the
      link's href and the link itself), a click inside the modal whose target
      does or does not match `[data-dismiss]`, a click on `#modalClose`, and a
      keydown anywhere in the document. */
  datatype Event =
    | PreviewClick(href: string, anchor: ElementId)
    | ModalClick(targetDismisses: bool)
    | CloseClick
    | KeyDown(key: string)

  function Step(m: Modal, e: Event): Modal {
    match e
    case PreviewClick(href, a) => Open(m, href, Some(a))
    case ModalClick(dismiss) => if dismiss then Close(m) else m
    case CloseClick => Close(m)
    case KeyDown(key) => if key == "Escape" then Close(m) else m
  }

  function Run(m: Modal, es: seq<Event>): Modal
    decreases |es|
  {
    if es == [] then m else Run(Step(m, es[0]), es[1..])
  }

  /** Whenever the modal is not shown, its frame holds the inert page. */
  predicate HiddenIsBlank(m: Modal) {
    m.present && m.ariaHidden != Some("false") ==> m.frameSrc == Blank
  }

  /** close leaves the modal hidden, the frame blank and the page scrollable,
      whatever state it starts from, and a second close changes nothing. */
  lemma CloseResets(m: Modal)
    requires m.present
    ensures var c := Close(m);
      && c.ariaHidden == Some("true") && c.frameSrc == Blank && c.overflow == ""
      && HiddenIsBlank(c)
      && Close(c) == c
  {
  }

  /** open points the frame and the open-in-new link at the same href, shows
      the modal, locks scrolling and records the anchor; the close that
      follows returns focus to that anchor. */
  lemma OpenThenCloseFocusesAnchor(m: Modal, href: string, a: ElementId)
    requires m.present
    ensures var o := Open(m, href, Some(a));
      && o.frameSrc == href && o.openInNewHref == href
      && o.ariaHidden == Some("false") && o.overflow == "hidden"
      && o.lastFocused == Some(a)
      && Close(o).focused == Some(a)
      && Close(o).openInNewHref == href
  {
  }

  /** Without a `#previewModal`, no input changes anything. */
  lemma {:induction false} AbsentModalIsInert(m: Modal, es: seq<Event>)
    requires !m.present
    ensures Run(m, es) == m
    decreases |es|
  {
    if es != [] {
      AbsentModalIsInert(Step(m, es[0]), es[1..]);
    }
  }

  /** The backdrop, the close button and Escape all run the same close. */
  lemma DismissalsConverge(m: Modal)
    ensures Step(m, ModalClick(true)) == Close(m)
    ensures Step(m, CloseClick) == Close(m)
    ensures Step(m, KeyDown("Escape")) == Close(m)
  {
  }

  /** Every single input keeps "hidden implies about:blank". */
  lemma StepKeepsHiddenIsBlank(m: Modal, e: Event)
    requires HiddenIsBlank(m)
    ensures HiddenIsBlank(Step(m, e))
  {
  }

  /** Every sequence of opens and closes, in any order and with redundant
      closes, keeps "hidden implies about:blank". */
  lemma {:induction false} RunKeepsHiddenIsBlank(m: Modal, es: seq<Event>)
    requires HiddenIsBlank(m)
    ensures HiddenIsBlank(Run(m, es))
    decreases |es|
  {
    if es != [] {
      StepKeepsHiddenIsBlank(m, es[0]);
      RunKeepsHiddenIsBlank(Step(m, es[0]), es[1..]);
    }
  }

  /** Running two input sequences one after the other is running their concatenation. */
  lemma {:induction false} RunSplit(m: Modal, es: seq<Event>, fs: seq<Event>)
    ensures Run(m, es + fs) == Run(Run(m, es), fs)
    decreases |es|
  {
    if es == [] {
      assert es + fs == fs;
    } else {
      assert (es + fs)[1..] == es[1..] + fs;
      RunSplit(Step(m, es[0]), es[1..], fs);
    }
  }

  /** The three inputs that run closePreview: a click on a `[data-dismiss]`
      target, a click on `#modalClose`, and Escape. */
  predicate IsDismissal(e: Event) {
    e == ModalClick(true) || e == CloseClick || e == KeyDown("Escape")
  }

  /** Whatever the page started with, once any dismissal has run the
      invariant holds from then on. */
  lemma {:induction false} InvariantAfterDismissal(m: Modal, before: seq<Event>, e: Event, after: seq<Event>)
    requires IsDismissal(e)
    ensures HiddenIsBlank(Run(m, before + [e] + after))
  {
    var es := before + [e];
    RunSplit(m, before, [e]);
    var c := Run(m, es);
    assert c == Close(Run(m, before));
    RunSplit(m, es, after);
    RunKeepsHiddenIsBlank(c, after);
  }

  /** closePreview never clears lastFocused, so an Escape pressed long after a
      close, with focus anywhere, pulls focus back to the last anchor. */
  lemma StrayEscapeRefocuses(m: Modal, a: ElementId, x: Option<ElementId>)
    requires m.present && m.lastFocused == Some(a)
    ensures Close(m).lastFocused == Some(a)
    ensures Step(Close(m).(focused := x), KeyDown("Escape")).focused == Some(a)
  {
  }

  /** The modal's live state: the DOM attributes and style it writes, and the
      `lastFocused` closure variable. */
  class PreviewController {
    const present: bool
    const panel: Option<ElementId>
    var ariaHidden: Option<string>
    var frameSrc: string
    var openInNewHref: string
    var overflow: string
    var lastFocused: Option<ElementId>
    var focused: Option<ElementId>

    function State(): Modal
      reads this
    {
      Modal(present, panel, ariaHidden, frameSrc, openInNewHref, overflow, lastFocused, focused)
    }

    /** The page as loaded: `lastFocused` starts as null. */
    constructor (m: Modal)
      requires m.lastFocused.None?
      ensures State() == m
    {
      present, panel := m.present, m.panel;
      ariaHidden, frameSrc, openInNewHref, overflow := m.ariaHidden, m.frameSrc, m.openInNewHref, m.overflow;
      lastFocused, focused := None, m.focused;
    }

    method OpenPreview(href: string, anchor: Option<ElementId>)
      modifies this
      ensures State() == Open(old(State()), href, anchor)
      ensures present ==> frameSrc == href && openInNewHref == href && ariaHidden == Some("false")
      ensures present ==> lastFocused == (if anchor.Some? then anchor else old(focused))
    {
      if !present {
        return;
      }
      lastFocused := if anchor.Some? then anchor else focused;
      frameSrc := href;
      openInNewHref := href;
      ariaHidden := Some("false");
      overflow := "hidden";
      if panel.Some? {
        focused := panel;
      }
    }

    method ClosePreview()
      modifies this
      ensures State() == Close(old(State()))
      ensures present ==> ariaHidden == Some("true") && frameSrc == Blank && overflow == ""
      ensures present && lastFocused.Some? ==> focused == lastFocused
    {
      if !present {
        return;
      }
      ariaHidden := Some("true");
      frameSrc := Blank;
      overflow := "";
      if lastFocused.Some? {
        focused := lastFocused;
      }
    }

    /** The listeners: preview buttons, the modal's click handler, the close
      button and the document's keydown handler. */
    method Handle(e: Event)
      modifies this
      ensures State() == Step(old(State()), e)
    {
      match e
      case PreviewClick(href, a) =>
        OpenPreview(href, Some(a));
      case ModalClick(dismiss) =>
        if dismiss {
          ClosePreview();
        }
      case CloseClick =>
        ClosePreview();
      case KeyDown(key) =>
        if key == "Escape" {
          ClosePreview();
        }
    }
  }
}
