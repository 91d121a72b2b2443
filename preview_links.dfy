/** Preview buttons: every `.card-body a` whose href names an HTML document
    gets a button inserted right after it, which opens the preview modal. */
module PreviewLinks {
  import opened Dom
  import opened Text
  import PreviewModal

  /** `a.getAttribute("href") || ""`. */
  function HrefText(href: Option<string>): string {
    match href
    case None => ""
    case Some(h) => h
  }

  /** The lower-cased href ends with ".html" or ".htm". */
  predicate IsPreviewable(href: string) {
    var h := ToLower(href);
    EndsWith(h, ".html") || EndsWith(h, ".htm")
  }

  /** IsPreviewable in other words: the lower-cased href is some path
      followed by ".html" or by ".htm". */
  lemma PreviewableIff(href: string)
    ensures IsPreviewable(href) <==> exists p :: p + ".html" == ToLower(href) || p + ".htm" == ToLower(href)
  {
    EndsWithIff(ToLower(href), ".html");
    EndsWithIff(ToLower(href), ".htm");
  }

  /** The suffix test ignores case: any path ending in ".HTML" qualifies. */
  lemma UpperCaseSuffixIsPreviewable(path: string)
    ensures IsPreviewable(path + ".HTML")
  {
    var s := path + ".HTML";
    var n := |path|;
    ToLowerChars(s);
    assert s[n] == '.' && s[n + 1] == 'H' && s[n + 2] == 'T' && s[n + 3] == 'M' && s[n + 4] == 'L';
    var h := ToLower(s);
    assert h[n] == '.' && h[n + 1] == 'h' && h[n + 2] == 't' && h[n + 3] == 'm' && h[n + 4] == 'l';
    assert h[|h| - 5..] == ".html";
  }

  /** Lower-casing an href first does not change the outcome. */
  lemma PreviewableIgnoresCase(href: string)
    ensures IsPreviewable(ToLower(href)) == IsPreviewable(href)
  {
    ToLowerIdempotent(href);
  }

  /** A missing href reads as "" and gets no button. */
  lemma MissingHrefIsNotPreviewable()
    ensures !IsPreviewable(HrefText(None))
  {
  }

  /** A child node of a card body: a link, a preview button (it remembers the
      href it opens and the link that is its focus anchor), or anything else. */
  datatype Node =
    | Link(id: ElementId, href: Option<string>)
    | PreviewButton(target: string, anchor: ElementId)
    | Other(id: ElementId)

  /** What one original sibling becomes. */
  function Expand(n: Node): seq<Node> {
    if n.Link? && IsPreviewable(HrefText(n.href)) then [n, PreviewButton(HrefText(n.href), n.id)] else [n]
  }

  /** The sibling list after the insertion loop has visited every link in it. */
  function WithPreviewButtons(s: seq<Node>): seq<Node>
    decreases |s|
  {
    if s == [] then [] else Expand(s[0]) + WithPreviewButtons(s[1..])
  }

  predicate NoPreviewButtons(s: seq<Node>) {
    forall k :: 0 <= k < |s| ==> !s[k].PreviewButton?
  }

  /** The list with its preview buttons taken out. */
  function WithoutPreviewButtons(s: seq<Node>): seq<Node>
    decreases |s|
  {
    if s == [] then [] else (if s[0].PreviewButton? then [] else [s[0]]) + WithoutPreviewButtons(s[1..])
  }

  lemma {:induction false} WithPreviewButtonsAppend(s: seq<Node>, t: seq<Node>)
    ensures WithPreviewButtons(s + t) == WithPreviewButtons(s) + WithPreviewButtons(t)
    decreases |s|
  {
    if s == [] {
      assert s + t == t;
    } else {
      assert (s + t)[1..] == s[1..] + t;
      WithPreviewButtonsAppend(s[1..], t);
    }
  }

  lemma {:induction false} WithoutPreviewButtonsAppend(s: seq<Node>, t: seq<Node>)
    ensures WithoutPreviewButtons(s + t) == WithoutPreviewButtons(s) + WithoutPreviewButtons(t)
    decreases |s|
  {
    if s == [] {
      assert s + t == t;
    } else {
      assert (s + t)[1..] == s[1..] + t;
      WithoutPreviewButtonsAppend(s[1..], t);
    }
  }

  /** The insertion only adds preview buttons: taking them out again gives
      back the original siblings in their original order. */
  lemma {:induction false} InsertionOnlyAddsButtons(s: seq<Node>)
    requires NoPreviewButtons(s)
    ensures WithoutPreviewButtons(WithPreviewButtons(s)) == s
    decreases |s|
  {
    if s != [] {
      InsertionOnlyAddsButtons(s[1..]);
      WithoutPreviewButtonsAppend(Expand(s[0]), WithPreviewButtons(s[1..]));
      assert WithoutPreviewButtons(Expand(s[0])) == [s[0]];
    }
  }

  /** Without buttons to start with, the result begins with the first original node. */
  lemma WithPreviewButtonsHead(s: seq<Node>)
    requires s != []
    ensures WithPreviewButtons(s) != [] && WithPreviewButtons(s)[0] == s[0]
  {
  }

  /** In the result, a link is directly followed by its preview button exactly
      when its href is previewable, and every preview button directly follows
      the link it belongs to and opens that link's href. */
  lemma {:induction false} ButtonFollowsLinkIff(s: seq<Node>, k: nat)
    requires NoPreviewButtons(s) && k < |WithPreviewButtons(s)|
    ensures var r := WithPreviewButtons(s);
      && (r[k].Link? ==>
            (IsPreviewable(HrefText(r[k].href)) <==>
             k + 1 < |r| && r[k + 1] == PreviewButton(HrefText(r[k].href), r[k].id)))
      && (r[k].PreviewButton? ==>
            0 < k && r[k - 1].Link? && IsPreviewable(HrefText(r[k - 1].href)) &&
            r[k] == PreviewButton(HrefText(r[k - 1].href), r[k - 1].id))
    decreases |s|
  {
    var r := WithPreviewButtons(s);
    var e := Expand(s[0]);
    var rest := WithPreviewButtons(s[1..]);
    assert r == e + rest;
    if k < |e| {
      if k + 1 == |e| && rest != [] {
        WithPreviewButtonsHead(s[1..]);
        assert r[k + 1] == s[1];
      }
    } else {
      if k == |e| {
        WithPreviewButtonsHead(s[1..]);
      }
      ButtonFollowsLinkIff(s[1..], k - |e|);
    }
  }

  /** Clicking a preview button: openPreview(href, a), with the LINK as anchor. */
  function ClickPreviewButton(m: PreviewModal.Modal, n: Node): PreviewModal.Modal
    requires n.PreviewButton?
  {
    PreviewModal.Step(m, PreviewModal.PreviewClick(n.target, n.anchor))
  }

  /** A preview button inserted after a link opens that link's href in the
      frame, and the close that follows puts focus back on the link. */
  lemma PreviewButtonRoundTrip(m: PreviewModal.Modal, s: seq<Node>, k: nat)
    requires m.present && NoPreviewButtons(s) && k < |WithPreviewButtons(s)|
    requires WithPreviewButtons(s)[k].PreviewButton?
    ensures var r := WithPreviewButtons(s); var o := ClickPreviewButton(m, r[k]);
      && 0 < k && r[k - 1].Link?
      && o.frameSrc == HrefText(r[k - 1].href) && o.openInNewHref == HrefText(r[k - 1].href)
      && PreviewModal.Close(o).focused == Some(r[k - 1].id)
  {
    ButtonFollowsLinkIff(s, k);
  }

  /** Inserting b right after the first element of tail, at index |done|.
      The insertion loop uses this and ConcatAssoc in place of the solver's
      own sequence reasoning, which is too costly inside the loop. */
  lemma SpliceAt<T>(done: seq<T>, tail: seq<T>, b: T)
    requires tail != []
    ensures done + tail == done + [tail[0]] + tail[1..]
    ensures var s := done + tail; s[..|done| + 1] + [b] + s[|done| + 1..] == done + [tail[0], b] + tail[1..]
  {
    var s := done + tail;
    assert tail == [tail[0]] + tail[1..];
    assert s[..|done| + 1] == done + [tail[0]];
    assert s[|done| + 1..] == tail[1..];
  }

  /** Regrouping a concatenation, as the insertion loop does at every step. */
  lemma ConcatAssoc<T>(a: seq<T>, b: seq<T>, c: seq<T>)
    ensures a + (b + c) == (a + b) + c
  {
  }

  /** A parent element's child list; the insertion loop adds preview buttons to it. */
  class SiblingList {
    var nodes: seq<Node>

    constructor (nodes0: seq<Node>)
      ensures nodes == nodes0
    {
      nodes := nodes0;
    }

    /** `parentNode.insertBefore(n, a.nextSibling)` for the node a at index i:
        n becomes a's next sibling, and every other node keeps its order
        (at the end of the list nextSibling is null and n is appended). */
    method InsertAfter(i: nat, n: Node)
      requires i < |nodes|
      modifies this
      ensures nodes == old(nodes[..i + 1]) + [n] + old(nodes[i + 1..])
    {
      nodes := nodes[..i + 1] + [n] + nodes[i + 1..];
    }

    /** Visits the links in document order, a snapshot taken before any
        insertion, and inserts a button right after each previewable one. */
    method InsertPreviewButtons()
      modifies this
      ensures nodes == WithPreviewButtons(old(nodes))
    {
      var links := nodes;
      var rest := links;
      ghost var done: seq<Node> := [];
      var j := 0;
      while rest != []
        invariant nodes == done + rest
        invariant WithPreviewButtons(links) == done + WithPreviewButtons(rest)
        invariant j == |done|
        decreases |rest|
      {
        var a := rest[0];
        var tail := rest[1..];
        assert WithPreviewButtons(rest) == Expand(a) + WithPreviewButtons(tail);
        if a.Link? && IsPreviewable(HrefText(a.href)) {
          var button := PreviewButton(HrefText(a.href), a.id);
          SpliceAt(done, rest, button);
          InsertAfter(j, button);
          j := j + 1;
        } else {
          SpliceAt(done, rest, a);
        }
        ConcatAssoc(done, Expand(a), WithPreviewButtons(tail));
        ConcatAssoc(done, Expand(a), tail);
        done := done + Expand(a);
        rest := tail;
        j := j + 1;
      }
      assert done + [] == done;
    }
  }
}
