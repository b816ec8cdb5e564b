/** The parsed HTML document as the server sees it (the output of
    node-html-parser), and the structural locator `getXPath` computes for an
    element, as a specification function with its properties.

    The document is an arena: node ids are positions in `nodes`, numbered in
    document order, and node 0 is the parser's root, which has no tag name.
    A node refers to its parent and to its child nodes by id, which is how
    `parentNode` and `childNodes` are followed in the source. */
module HtmlTree {
  import opened Js

  datatype Kind =
    | Root                                     // the node `parse` returns: an element without tagName
    | Element(tag: string, innerHTML: string)  // tagName as reported (upper case), innerHTML kept opaque
    | Text(content: string)                    // nodeType 3
    | Comment                                  // any other non-element node

  datatype Node = Node(kind: Kind, parent: Option<nat>, children: seq<nat>)

  datatype Doc = Doc(nodes: seq<Node>)

  /** Tag names as the parser reports them: non-empty, upper case for the
      ASCII letters, and free of the characters a locator uses as separators. */
  predicate ValidTag(t: string)
  {
    t != [] && HasNoLowercase(t) && (forall i :: 0 <= i < |t| ==> t[i] != '/' && t[i] != '[')
  }

  predicate NodeWf(doc: Doc, i: nat)
    requires 0 < i < |doc.nodes|
  {
    var n := doc.nodes[i];
    n.parent.Some? && n.parent.value < i && !n.kind.Root?
    && (doc.nodes[n.parent.value].kind.Root? || doc.nodes[n.parent.value].kind.Element?)
    && i in doc.nodes[n.parent.value].children
    && (n.kind.Element? ==> ValidTag(n.kind.tag))
  }

  predicate ChildrenWf(doc: Doc, i: nat)
    requires i < |doc.nodes|
  {
    var cs := doc.nodes[i].children;
    (forall k :: 0 <= k < |cs| ==> cs[k] < |doc.nodes| && doc.nodes[cs[k]].parent == Some(i))
    && (forall k, l :: 0 <= k < l < |cs| ==> cs[k] < cs[l])
  }

  /** `a` is node `i` or one of its ancestors. */
  predicate AncestorOrSelf(doc: Doc, a: nat, i: nat)
    requires i < |doc.nodes|
    decreases i
  {
    a == i || (doc.nodes[i].parent.Some? && doc.nodes[i].parent.value < i
               && AncestorOrSelf(doc, a, doc.nodes[i].parent.value))
  }

  /** Node `j` is the next node after `j - 1` in a depth-first, left-to-right
      walk: its parent is `j - 1` itself or one of the ancestors of `j - 1`.
      Together with child lists in increasing order, this makes the ids a
      preorder numbering. */
  predicate InDocumentOrder(doc: Doc, j: nat)
    requires 0 < j < |doc.nodes|
  {
    doc.nodes[j].parent.Some? && AncestorOrSelf(doc, doc.nodes[j].parent.value, j - 1)
  }

  /** A well-formed tree: a single root at id 0, every other node has an
      earlier element (or the root) as parent and is listed among its
      children, child lists are in increasing order, and ids follow
      document order. */
  predicate Wf(doc: Doc)
  {
    |doc.nodes| > 0 && doc.nodes[0].kind.Root? && doc.nodes[0].parent.None?
    && (forall i :: 0 < i < |doc.nodes| ==> NodeWf(doc, i))
    && (forall i :: 0 <= i < |doc.nodes| ==> ChildrenWf(doc, i))
    && (forall j :: 0 < j < |doc.nodes| ==> InDocumentOrder(doc, j))
  }

  /** A numbering that visits a sibling before the subtree of an earlier
      sibling is not document order: root with children DIV (1) and SPAN (2),
      and P (3) below DIV. */
  lemma LaterSubtreeRejected()
    ensures !InDocumentOrder(Doc([Node(Root, None, [1, 2]),
                                  Node(Element("DIV", ""), Some(0), [3]),
                                  Node(Element("SPAN", ""), Some(0), []),
                                  Node(Element("P", ""), Some(1), [])]), 3)
  {
    var d := Doc([Node(Root, None, [1, 2]),
                  Node(Element("DIV", ""), Some(0), [3]),
                  Node(Element("SPAN", ""), Some(0), []),
                  Node(Element("P", ""), Some(1), [])]);
    assert !AncestorOrSelf(d, 1, 0);
    assert !AncestorOrSelf(d, 1, 2);
  }

  /** The same shape numbered in document order is accepted, for any tag
      names: root with children `div` (1) and `span` (3), and `p` (2) below
      `div`. */
  lemma PreorderAccepted(div: string, p: string, span: string)
    requires ValidTag(div) && ValidTag(p) && ValidTag(span)
    ensures Wf(Doc([Node(Root, None, [1, 3]),
                    Node(Element(div, ""), Some(0), [2]),
                    Node(Element(p, ""), Some(1), []),
                    Node(Element(span, ""), Some(0), [])]))
  {
    var d := Doc([Node(Root, None, [1, 3]),
                  Node(Element(div, ""), Some(0), [2]),
                  Node(Element(p, ""), Some(1), []),
                  Node(Element(span, ""), Some(0), [])]);
    assert AncestorOrSelf(d, 0, 2);
    assert InDocumentOrder(d, 3);
  }

  /** `node.tagName` is truthy. */
  predicate Tagged(doc: Doc, i: nat)
    requires i < |doc.nodes|
  {
    doc.nodes[i].kind.Element? && doc.nodes[i].kind.tag != ""
  }

  /** `node.tagName`, absent for the root and for non-element nodes. */
  function TagName(doc: Doc, i: nat): Option<string>
    requires i < |doc.nodes|
  {
    if doc.nodes[i].kind.Element? then Some(doc.nodes[i].kind.tag) else None
  }

  /** `node.parentNode && node.parentNode.tagName`: the locator climbs to the
      parent only when the parent has a tag name. */
  predicate ParentTagged(doc: Doc, i: nat)
    requires Wf(doc) && i < |doc.nodes|
  {
    var p := doc.nodes[i].parent;
    p.Some? && p.value < |doc.nodes| && Tagged(doc, p.value)
  }

  function ParentOf(doc: Doc, i: nat): (p: nat)
    requires Wf(doc) && 0 < i < |doc.nodes|
    ensures p < i
  {
    assert NodeWf(doc, i);
    doc.nodes[i].parent.value
  }

  lemma HasParentIffNotRoot(doc: Doc, i: nat)
    requires Wf(doc) && i < |doc.nodes|
    ensures doc.nodes[i].parent.Some? <==> i > 0
  {
    if i > 0 { assert NodeWf(doc, i); }
  }

  predicate AllIds(doc: Doc, cs: seq<nat>)
  {
    forall k :: 0 <= k < |cs| ==> cs[k] < |doc.nodes|
  }

  /** The element children in `cs` whose tag name equals `tn`, in order:
      `childNodes.filter(child => child instanceof HTMLElement && child.tagName === tn)`. */
  function SameTagIn(doc: Doc, cs: seq<nat>, tn: Option<string>): (r: seq<nat>)
    requires AllIds(doc, cs)
    ensures |r| <= |cs|
    ensures forall x :: x in r <==> x in cs && x < |doc.nodes| && doc.nodes[x].kind.Element? && TagName(doc, x) == tn
  {
    if cs == [] then []
    else
      var rest := SameTagIn(doc, cs[1..], tn);
      if doc.nodes[cs[0]].kind.Element? && TagName(doc, cs[0]) == tn then [cs[0]] + rest else rest
  }

  lemma {:induction false} SameTagInAppend(doc: Doc, a: seq<nat>, b: seq<nat>, tn: Option<string>)
    requires AllIds(doc, a) && AllIds(doc, b)
    ensures AllIds(doc, a + b)
    ensures SameTagIn(doc, a + b, tn) == SameTagIn(doc, a, tn) + SameTagIn(doc, b, tn)
  {
    if a != [] {
      assert (a + b)[1..] == a[1..] + b;
      SameTagInAppend(doc, a[1..], b, tn);
    } else {
      assert a + b == b;
    }
  }

  /** The list of same-tag siblings the locator counts through. A node
      without a parent has none. */
  function SameTagSiblings(doc: Doc, i: nat): seq<nat>
    requires Wf(doc) && i < |doc.nodes|
  {
    if i == 0 then []
    else
      var p := ParentOf(doc, i);
      assert ChildrenWf(doc, p);
      SameTagIn(doc, doc.nodes[p].children, TagName(doc, i))
  }

  /** How many entries the `for` loop passes before it meets `x`
      (all of them when `x` is absent). */
  function IndexOrLength(list: seq<nat>, x: nat): (r: nat)
    ensures r <= |list|
    ensures x !in list[..r]
    ensures x in list ==> r < |list| && list[r] == x
    ensures x !in list ==> r == |list|
  {
    if list == [] then 0
    else if list[0] == x then 0
    else
      var r := 1 + IndexOrLength(list[1..], x);
      assert list[..r] == [list[0]] + list[1..][..r - 1];
      r
  }

  /** The bracketed number of a locator segment. */
  function Ordinal(doc: Doc, i: nat): (k: nat)
    requires Wf(doc) && i < |doc.nodes|
    ensures k >= 1
  {
    1 + IndexOrLength(SameTagSiblings(doc, i), i)
  }

  /** `${tagName.toLowerCase()}[${index}]`. */
  function Segment(doc: Doc, i: nat): string
    requires Wf(doc) && i < |doc.nodes| && Tagged(doc, i)
  {
    Lower(doc.nodes[i].kind.tag) + "[" + Decimal(Ordinal(doc, i)) + "]"
  }

  /** The segments of the locator, outermost first: one for every tagged
      node on the climb from `i` (the start node contributes nothing when it
      has no tag name). */
  function Segments(doc: Doc, i: nat): seq<string>
    requires Wf(doc) && i < |doc.nodes|
    decreases i, 1
  {
    SegmentsAbove(doc, i) + OwnSegment(doc, i)
  }

  /** The segments contributed by the ancestors the climb reaches from `i`. */
  function SegmentsAbove(doc: Doc, i: nat): seq<string>
    requires Wf(doc) && i < |doc.nodes|
    decreases i, 0
  {
    if ParentTagged(doc, i) then Segments(doc, ParentOf(doc, i)) else []
  }

  /** The segment `i` itself contributes: none when it has no tag name. */
  function OwnSegment(doc: Doc, i: nat): seq<string>
    requires Wf(doc) && i < |doc.nodes|
  {
    if Tagged(doc, i) then [Segment(doc, i)] else []
  }

  /** Segments joined with '/'. */
  function JoinSegs(ss: seq<string>): string
  {
    if ss == [] then ""
    else ss[0] + (if ss[1..] == [] then "" else "/" + JoinSegs(ss[1..]))
  }

  /** The locator `getXPath` returns for node `i`. */
  function XPath(doc: Doc, i: nat): string
    requires Wf(doc) && i < |doc.nodes|
  {
    "/" + JoinSegs(Segments(doc, i))
  }

  /** The nodes the locator climbs through, outermost first, ending in `i`. */
  function Chain(doc: Doc, i: nat): (c: seq<nat>)
    requires Wf(doc) && i < |doc.nodes|
    ensures |c| > 0 && c[|c| - 1] == i
    ensures forall k :: 0 <= k < |c| ==> c[k] < |doc.nodes|
    ensures forall k :: 0 < k < |c| ==> c[k] > 0 && Tagged(doc, ParentOf(doc, c[k])) && c[k - 1] == ParentOf(doc, c[k])
    ensures !ParentTagged(doc, c[0])
    decreases i
  {
    if ParentTagged(doc, i) then Chain(doc, ParentOf(doc, i)) + [i] else [i]
  }

  // ---------------------------------------------------------------------
  // Properties of the locator

  lemma SegmentShape(doc: Doc, i: nat)
    requires Wf(doc) && i < |doc.nodes| && Tagged(doc, i)
    ensures Segment(doc, i) != []
    ensures forall k :: 0 <= k < |Segment(doc, i)| ==> Segment(doc, i)[k] != '/'
  {
    assert 0 < i by { if i == 0 { assert doc.nodes[0].kind.Root?; } }
    assert NodeWf(doc, i);
    var t := doc.nodes[i].kind.tag;
    var s := Segment(doc, i);
    assert s == Lower(t) + "[" + Decimal(Ordinal(doc, i)) + "]";
    forall k | 0 <= k < |s| ensures s[k] != '/' {
      if k < |t| {
        assert s[k] == LowerChar(t[k]);
      } else if k > |t| && k < |s| - 1 {
        assert s[k] == Decimal(Ordinal(doc, i))[k - |t| - 1];
      }
    }
  }

  /** Every segment has the form `tag[i]` with the tag lower-cased and
      `i >= 1`, and the locator has one segment per node on the climb: the
      start node and each of its ancestors reached through tagged parents. */
  lemma {:induction false} SegmentsFollowChain(doc: Doc, i: nat)
    requires Wf(doc) && i < |doc.nodes| && Tagged(doc, i)
    ensures |Segments(doc, i)| == |Chain(doc, i)|
    ensures forall k :: 0 <= k < |Chain(doc, i)| ==>
      var a := Chain(doc, i)[k];
      Tagged(doc, a) && Ordinal(doc, a) >= 1
      && Segments(doc, i)[k] == Lower(doc.nodes[a].kind.tag) + "[" + Decimal(Ordinal(doc, a)) + "]"
    decreases i
  {
    if ParentTagged(doc, i) {
      SegmentsFollowChain(doc, ParentOf(doc, i));
    }
  }

  lemma {:induction false} IndexOrLengthAfter(pre: seq<nat>, x: nat, post: seq<nat>)
    requires x !in pre
    ensures IndexOrLength(pre + [x] + post, x) == |pre|
  {
    if pre != [] {
      assert (pre + [x] + post)[1..] == pre[1..] + [x] + post;
      IndexOrLengthAfter(pre[1..], x, post);
    }
  }

  /** The ordinal is 1 plus the number of earlier element siblings that carry
      the same tag. */
  lemma OrdinalCountsEarlierSiblings(doc: Doc, i: nat, pos: nat)
    requires Wf(doc) && 0 < i < |doc.nodes| && doc.nodes[i].kind.Element?
    requires pos < |doc.nodes[ParentOf(doc, i)].children| && doc.nodes[ParentOf(doc, i)].children[pos] == i
    ensures AllIds(doc, doc.nodes[ParentOf(doc, i)].children[..pos])
    ensures Ordinal(doc, i) == 1 + |SameTagIn(doc, doc.nodes[ParentOf(doc, i)].children[..pos], TagName(doc, i))|
  {
    var p := ParentOf(doc, i);
    assert ChildrenWf(doc, p);
    var cs := doc.nodes[p].children;
    assert AllIds(doc, cs);
    assert i !in cs[..pos] by {
      forall k | 0 <= k < pos ensures cs[k] != i { assert cs[k] < cs[pos]; }
    }
    SameTagInSplit(doc, cs, pos, TagName(doc, i));
  }

  lemma SameTagInSplit(doc: Doc, cs: seq<nat>, pos: nat, tn: Option<string>)
    requires AllIds(doc, cs) && pos < |cs|
    requires doc.nodes[cs[pos]].kind.Element? && TagName(doc, cs[pos]) == tn
    requires cs[pos] !in cs[..pos]
    ensures AllIds(doc, cs[..pos])
    ensures IndexOrLength(SameTagIn(doc, cs, tn), cs[pos]) == |SameTagIn(doc, cs[..pos], tn)|
  {
    var x, pre, post := cs[pos], cs[..pos], cs[pos + 1..];
    assert cs == pre + ([x] + post);
    SameTagInAppend(doc, pre, [x] + post, tn);
    SameTagInAppend(doc, [x], post, tn);
    assert SameTagIn(doc, [x], tn) == [x];
    var fpre := SameTagIn(doc, pre, tn);
    assert SameTagIn(doc, cs, tn) == fpre + [x] + SameTagIn(doc, post, tn);
    IndexOrLengthAfter(fpre, x, SameTagIn(doc, post, tn));
  }

  /** Two different elements with the same parent and the same tag get
      different ordinals. */
  lemma OrdinalDistinct(doc: Doc, a: nat, b: nat)
    requires Wf(doc) && 0 < a < |doc.nodes| && 0 < b < |doc.nodes|
    requires doc.nodes[a].kind.Element? && doc.nodes[b].kind.Element?
    requires ParentOf(doc, a) == ParentOf(doc, b) && TagName(doc, a) == TagName(doc, b)
    requires Ordinal(doc, a) == Ordinal(doc, b)
    ensures a == b
  {
    assert NodeWf(doc, a) && NodeWf(doc, b);
    var list := SameTagSiblings(doc, a);
    assert list == SameTagSiblings(doc, b);
    assert a in list && b in list;
  }

  /** The part of `z` before the first `c`. */
  function TakeUntil(z: string, c: char): (r: string)
    ensures r <= z
  {
    if z == [] || z[0] == c then [] else [z[0]] + TakeUntil(z[1..], c)
  }

  /** A prefix free of `c` followed by `c` (or by nothing) is recovered by
      cutting at the first `c`. */
  lemma {:induction false} TakeUntilPrefix(x: string, rest: string, c: char)
    requires forall k :: 0 <= k < |x| ==> x[k] != c
    requires rest == [] || rest[0] == c
    ensures TakeUntil(x + rest, c) == x
  {
    if x != [] {
      assert (x + rest)[1..] == x[1..] + rest;
      TakeUntilPrefix(x[1..], rest, c);
    } else {
      assert x + rest == rest;
    }
  }

  predicate SlashFree(ss: seq<string>)
  {
    forall k :: 0 <= k < |ss| ==> ss[k] != [] && (forall j :: 0 <= j < |ss[k]| ==> ss[k][j] != '/')
  }

  lemma JoinSegsEmpty(s: seq<string>)
    requires SlashFree(s)
    ensures JoinSegs(s) == [] <==> s == []
  {
    if s != [] { assert |JoinSegs(s)| >= |s[0]|; }
  }

  lemma SlashFreeTail(s: seq<string>)
    requires SlashFree(s) && s != []
    ensures SlashFree(s[1..])
    ensures forall j :: 0 <= j < |s[0]| ==> s[0][j] != '/'
  {
    assert s[0] == s[0];
  }

  /** A joined path starts with its first segment, up to the first slash,
      and continues with a slash and the rest joined. */
  lemma JoinSegsSplit(s: seq<string>)
    requires SlashFree(s) && s != []
    ensures TakeUntil(JoinSegs(s), '/') == s[0]
    ensures |s| == 1 ==> JoinSegs(s) == s[0]
    ensures |s| > 1 ==> JoinSegs(s) == s[0] + ("/" + JoinSegs(s[1..]))
  {
    SlashFreeTail(s);
    var rs := if s[1..] == [] then "" else "/" + JoinSegs(s[1..]);
    assert JoinSegs(s) == s[0] + rs;
    TakeUntilPrefix(s[0], rs, '/');
    if |s| == 1 { assert s[0] + rs == s[0]; }
  }

  /** Joining non-empty, slash-free segments is one-to-one. */
  lemma {:induction false} JoinSegsInjective(s: seq<string>, t: seq<string>)
    requires SlashFree(s) && SlashFree(t)
    requires JoinSegs(s) == JoinSegs(t)
    ensures s == t
  {
    JoinSegsEmpty(s);
    JoinSegsEmpty(t);
    if s != [] && t != [] {
      JoinSegsSplit(s);
      JoinSegsSplit(t);
      var h := s[0];
      assert h == t[0];
      var js := JoinSegs(s);
      if |s| > 1 && |t| > 1 {
        SlashFreeTail(s);
        SlashFreeTail(t);
        assert JoinSegs(s[1..]) == js[|h| + 1..];
        assert JoinSegs(t[1..]) == js[|h| + 1..];
        JoinSegsInjective(s[1..], t[1..]);
      }
      assert s == [h] + s[1..] && t == [h] + t[1..];
    }
  }

  lemma {:induction false} SegmentsSlashFree(doc: Doc, i: nat)
    requires Wf(doc) && i < |doc.nodes|
    ensures SlashFree(Segments(doc, i))
    decreases i
  {
    if ParentTagged(doc, i) { SegmentsSlashFree(doc, ParentOf(doc, i)); }
    if Tagged(doc, i) { SegmentShape(doc, i); }
  }

  lemma SegmentTextSplit(l: string, d: string)
    requires forall k :: 0 <= k < |l| ==> l[k] != '['
    ensures TakeUntil(l + "[" + d + "]", '[') == l
    ensures |l + "[" + d + "]"| == |l| + |d| + 2
    ensures (l + "[" + d + "]")[|l| + 1..|l| + 1 + |d|] == d
  {
    assert l + "[" + d + "]" == l + ("[" + d + "]");
    TakeUntilPrefix(l, "[" + d + "]", '[');
  }

  /** The text of a segment determines its tag and its ordinal. */
  lemma SegmentTextInjective(ta: string, tb: string, na: nat, nb: nat)
    requires ValidTag(ta) && ValidTag(tb)
    requires Lower(ta) + "[" + Decimal(na) + "]" == Lower(tb) + "[" + Decimal(nb) + "]"
    ensures ta == tb && na == nb
  {
    var la, lb := Lower(ta), Lower(tb);
    forall k | 0 <= k < |la| ensures la[k] != '[' { assert la[k] == LowerChar(ta[k]); }
    forall k | 0 <= k < |lb| ensures lb[k] != '[' { assert lb[k] == LowerChar(tb[k]); }
    SegmentTextSplit(la, Decimal(na));
    SegmentTextSplit(lb, Decimal(nb));
    LowerInjective(ta, tb);
    DecimalInjective(na, nb);
  }

  lemma SegmentInjective(doc: Doc, a: nat, b: nat)
    requires Wf(doc) && 0 < a < |doc.nodes| && 0 < b < |doc.nodes| && Tagged(doc, a) && Tagged(doc, b)
    requires Segment(doc, a) == Segment(doc, b)
    ensures TagName(doc, a) == TagName(doc, b) && Ordinal(doc, a) == Ordinal(doc, b)
  {
    assert NodeWf(doc, a) && NodeWf(doc, b);
    SegmentTextInjective(doc.nodes[a].kind.tag, doc.nodes[b].kind.tag, Ordinal(doc, a), Ordinal(doc, b));
  }

  /** The root is the only untagged node that can be a parent. */
  lemma UntaggedParentIsRoot(doc: Doc, i: nat)
    requires Wf(doc) && 0 < i < |doc.nodes| && !ParentTagged(doc, i)
    ensures ParentOf(doc, i) == 0
  {
    assert NodeWf(doc, i);
    var p := ParentOf(doc, i);
    assert p > 0 ==> NodeWf(doc, p);
  }

  lemma {:induction false} SegmentsInjective(doc: Doc, a: nat, b: nat)
    requires Wf(doc) && 0 < a < |doc.nodes| && 0 < b < |doc.nodes| && Tagged(doc, a) && Tagged(doc, b)
    requires Segments(doc, a) == Segments(doc, b)
    ensures a == b
    decreases a
  {
    var sa, sb := Segments(doc, a), Segments(doc, b);
    var pa := if ParentTagged(doc, a) then Segments(doc, ParentOf(doc, a)) else [];
    var pb := if ParentTagged(doc, b) then Segments(doc, ParentOf(doc, b)) else [];
    assert sa == pa + [Segment(doc, a)] && sb == pb + [Segment(doc, b)];
    assert Segment(doc, a) == Segment(doc, b) && pa == pb by {
      assert sa[|sa| - 1] == Segment(doc, a) && sb[|sb| - 1] == Segment(doc, b);
      assert pa == sa[..|sa| - 1] && pb == sb[..|sb| - 1];
    }
    SegmentInjective(doc, a, b);
    if ParentTagged(doc, a) && ParentTagged(doc, b) {
      var qa, qb := ParentOf(doc, a), ParentOf(doc, b);
      assert qa > 0 && qb > 0 by {
        assert !Tagged(doc, 0);
      }
      SegmentsInjective(doc, qa, qb);
    } else if ParentTagged(doc, a) {
      assert false;
    } else if ParentTagged(doc, b) {
      assert false;
    } else {
      UntaggedParentIsRoot(doc, a);
      UntaggedParentIsRoot(doc, b);
    }
    OrdinalDistinct(doc, a, b);
  }

  /** Two different elements of the same document never share a locator. */
  lemma XPathInjective(doc: Doc, a: nat, b: nat)
    requires Wf(doc) && a < |doc.nodes| && b < |doc.nodes|
    requires doc.nodes[a].kind.Element? && doc.nodes[b].kind.Element?
    requires XPath(doc, a) == XPath(doc, b)
    ensures a == b
  {
    assert a > 0 && b > 0;
    assert NodeWf(doc, a) && NodeWf(doc, b);
    assert JoinSegs(Segments(doc, a)) == XPath(doc, a)[1..];
    assert JoinSegs(Segments(doc, b)) == XPath(doc, b)[1..];
    SegmentsSlashFree(doc, a);
    SegmentsSlashFree(doc, b);
    JoinSegsInjective(Segments(doc, a), Segments(doc, b));
    SegmentsInjective(doc, a, b);
  }

  lemma {:induction false} IndexOrLengthAt(list: seq<nat>, x: nat, i: nat)
    requires i <= |list| && x !in list[..i]
    requires i == |list| || list[i] == x
    ensures IndexOrLength(list, x) == i
  {
    if i > 0 {
      assert list[0] == list[..i][0];
      assert list[1..][..i - 1] == list[..i][1..];
      IndexOrLengthAt(list[1..], x, i - 1);
    }
  }

  /** One turn of the climb: prepending the node's segment to the path built
      so far joins one more segment. */
  lemma ClimbStep(doc: Doc, n: nat, below: seq<string>, path: string)
    requires Wf(doc) && n < |doc.nodes|
    requires SlashFree(below) && path == JoinSegs(below)
    requires !Tagged(doc, n) ==> below == []
    ensures SlashFree(OwnSegment(doc, n) + below)
    ensures (if Tagged(doc, n) then Segment(doc, n) else "") + (if path != "" then "/" + path else "")
      == JoinSegs(OwnSegment(doc, n) + below)
  {
    JoinSegsEmpty(below);
    if Tagged(doc, n) {
      SegmentShape(doc, n);
      assert ([Segment(doc, n)] + below)[1..] == below;
    }
  }

  /** One step up the climb: the segments still to come are those of the
      tagged parent, or none when the parent has no tag name. */
  lemma ClimbNext(doc: Doc, n: nat, below: seq<string>, whole: seq<string>)
    requires Wf(doc) && n < |doc.nodes|
    requires Segments(doc, n) + below == whole
    ensures SegmentsAbove(doc, n) + (OwnSegment(doc, n) + below) == whole
    ensures ParentTagged(doc, n) ==>
      0 < n && doc.nodes[n].parent == Some(ParentOf(doc, n))
      && SegmentsAbove(doc, n) == Segments(doc, ParentOf(doc, n))
    ensures !ParentTagged(doc, n) ==> SegmentsAbove(doc, n) == []
  {
    ClimbParent(doc, n);
    SplitAssoc(Segments(doc, n), SegmentsAbove(doc, n), OwnSegment(doc, n), below);
  }

  lemma ClimbParent(doc: Doc, n: nat)
    requires Wf(doc) && n < |doc.nodes|
    ensures Segments(doc, n) == SegmentsAbove(doc, n) + OwnSegment(doc, n)
    ensures ParentTagged(doc, n) ==>
      0 < n && doc.nodes[n].parent == Some(ParentOf(doc, n))
      && SegmentsAbove(doc, n) == Segments(doc, ParentOf(doc, n))
    ensures !ParentTagged(doc, n) ==> SegmentsAbove(doc, n) == []
  {
    HasParentIffNotRoot(doc, n);
  }

  lemma SplitAssoc(whole: seq<string>, a: seq<string>, b: seq<string>, c: seq<string>)
    requires whole == a + b
    ensures whole + c == a + (b + c)
  {
  }
}
