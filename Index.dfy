/** The server side of the page transform (`updateHTMLFile` in index.ts):
    the scan of the page's script for `x = state(<literal>)` declarations,
    the binding indexer that records every element whose own text mentions
    `{x}`, and the structural locator `getXPath` it uses. Parsing, the
    serialisation of the result and the HTTP layer are outside the model:
    the scan receives the declarators in the order the tree walker visits
    them, and the indexer receives the parsed document. */
module Index {
  import opened Js
  import opened HtmlTree
  import opened AcornAst
  import opened Bindings

  // ---------------------------------------------------------------------
  // State scanner

  /** The scan stops with a TypeError when a `state()` call has no argument:
      `arguments[0].type` is read from `undefined`. */
  datatype ScanError = ArgumentMissing(declarator: nat)

  /** `init` is a call whose callee is the bare identifier `state`. */
  predicate IsStateCall(d: Declarator)
  {
    d.init.Some? && d.init.value.CallExpression? && d.init.value.callee == Identifier("state")
  }

  predicate ThrowsOn(d: Declarator)
  {
    IsStateCall(d) && |d.init.value.arguments| == 0
  }

  /** The declarator is recorded as a state: a `state(...)` call whose first
      argument is a literal, bound to a plain identifier. */
  predicate Recognised(d: Declarator)
  {
    IsStateCall(d) && |d.init.value.arguments| > 0
    && d.init.value.arguments[0].Literal? && d.id.IdentifierPattern?
  }

  /** The state recorded for a recognised declarator, numbered `id`. */
  function StateOf(d: Declarator, id: nat): State
    requires Recognised(d)
  {
    State(id, d.id.name, d.init.value.arguments[0].value)
  }

  /** The state table the scan builds from the declarators, in visit order. */
  function ScanSpec(ds: seq<Declarator>): seq<State>
  {
    if ds == [] then []
    else
      var prev := ScanSpec(ds[..|ds| - 1]);
      var d := ds[|ds| - 1];
      if Recognised(d) then prev + [StateOf(d, |prev|)] else prev
  }

  /** The first declarator on which the scan throws. */
  function FirstThrow(ds: seq<Declarator>): (r: Option<nat>)
    ensures r.Some? ==> r.value < |ds| && ThrowsOn(ds[r.value])
    ensures r.Some? ==> forall j :: 0 <= j < r.value ==> !ThrowsOn(ds[j])
    ensures r.None? <==> forall j :: 0 <= j < |ds| ==> !ThrowsOn(ds[j])
  {
    if ds == [] then None
    else if ThrowsOn(ds[0]) then Some(0)
    else match FirstThrow(ds[1..])
      case None => None
      case Some(k) => Some(k + 1)
  }

  lemma {:induction false} FirstThrowAt(ds: seq<Declarator>, i: nat)
    requires i < |ds| && ThrowsOn(ds[i])
    requires forall j :: 0 <= j < i ==> !ThrowsOn(ds[j])
    ensures FirstThrow(ds) == Some(i)
  {
    if i > 0 {
      assert !ThrowsOn(ds[0]);
      FirstThrowAt(ds[1..], i - 1);
    }
  }

  /** The positions of the recognised declarators, in visit order. */
  function RecognisedBelow(ds: seq<Declarator>, n: nat): (ix: seq<nat>)
    requires n <= |ds|
    ensures forall k :: 0 <= k < |ix| ==> ix[k] < n && Recognised(ds[ix[k]])
    ensures forall k, l :: 0 <= k < l < |ix| ==> ix[k] < ix[l]
    ensures forall j :: 0 <= j < n && Recognised(ds[j]) ==> j in ix
  {
    if n == 0 then []
    else RecognisedBelow(ds, n - 1) + (if Recognised(ds[n - 1]) then [n - 1] else [])
  }

  /** The walker callback, run over the declarators in visit order. Each
      recognised declarator is appended with the current count as its id and
      the counter is incremented; a `state()` call without argument throws. */
  method ScanStates(ds: seq<Declarator>) returns (r: Result<seq<State>, ScanError>, stateCount: nat)
    ensures FirstThrow(ds).Some? ==> r == Failure(ArgumentMissing(FirstThrow(ds).value))
    ensures FirstThrow(ds).None? ==> r == Success(ScanSpec(ds)) && stateCount == |ScanSpec(ds)|
  {
    var states: seq<State> := [];
    stateCount := 0;
    var i := 0;
    while i < |ds|
      invariant 0 <= i <= |ds|
      invariant states == ScanSpec(ds[..i]) && stateCount == |states|
      invariant forall j :: 0 <= j < i ==> !ThrowsOn(ds[j])
    {
      var d := ds[i];
      assert ds[..i + 1][..i] == ds[..i];
      if d.init.Some? && d.init.value.CallExpression? && d.init.value.callee.Identifier?
        && d.init.value.callee.name == "state"
      {
        if |d.init.value.arguments| == 0 {
          FirstThrowAt(ds, i);
          return Failure(ArgumentMissing(i)), stateCount;
        }
        if d.init.value.arguments[0].Literal? && d.id.IdentifierPattern? {
          var variableName := d.id.name;
          var variableValue := d.init.value.arguments[0].value;
          states := states + [State(stateCount, variableName, variableValue)];
          stateCount := stateCount + 1;
        }
      }
      i := i + 1;
    }
    assert ds[..i] == ds;
    r := Success(states);
  }

  /** Recognised declarators get ids 0, 1, 2, ... in visit order: the k-th
      state is built from the k-th recognised declarator, and declarators
      that are not recognised contribute nothing. */
  lemma {:induction false} ScanNumbersRecognised(ds: seq<Declarator>)
    ensures |ScanSpec(ds)| == |RecognisedBelow(ds, |ds|)|
    ensures forall k :: 0 <= k < |ScanSpec(ds)| ==>
      ScanSpec(ds)[k] == StateOf(ds[RecognisedBelow(ds, |ds|)[k]], k)
  {
    if ds != [] {
      var n := |ds| - 1;
      var pre := ds[..n];
      ScanNumbersRecognised(pre);
      RecognisedBelowAgree(pre, ds, n);
      assert RecognisedBelow(ds, |ds|) == RecognisedBelow(pre, n) + (if Recognised(ds[n]) then [n] else []);
      assert ScanSpec(ds) == ScanSpec(pre) + (if Recognised(ds[n]) then [StateOf(ds[n], |ScanSpec(pre)|)] else []);
      ScanExtend(ds, ScanSpec(pre), RecognisedBelow(pre, n));
    }
  }

  /** One more declarator keeps the k-th state built from the k-th
      recognised declarator. */
  lemma ScanExtend(ds: seq<Declarator>, prev: seq<State>, ixPre: seq<nat>)
    requires ds != [] && |prev| == |ixPre|
    requires forall k :: 0 <= k < |ixPre| ==> ixPre[k] < |ds| - 1 && Recognised(ds[..|ds| - 1][ixPre[k]])
    requires forall k :: 0 <= k < |prev| ==> prev[k] == StateOf(ds[..|ds| - 1][ixPre[k]], k)
    ensures var n := |ds| - 1;
      var ix := ixPre + (if Recognised(ds[n]) then [n] else []);
      var sp := prev + (if Recognised(ds[n]) then [StateOf(ds[n], |prev|)] else []);
      |sp| == |ix| && forall k :: 0 <= k < |sp| ==> ix[k] < |ds| && Recognised(ds[ix[k]]) && sp[k] == StateOf(ds[ix[k]], k)
  {
    var n := |ds| - 1;
    forall k | 0 <= k < |ixPre| ensures ds[ixPre[k]] == ds[..n][ixPre[k]] {
    }
  }

  lemma {:induction false} RecognisedBelowAgree(a: seq<Declarator>, b: seq<Declarator>, m: nat)
    requires m <= |a| && m <= |b| && a[..m] == b[..m]
    ensures RecognisedBelow(a, m) == RecognisedBelow(b, m)
  {
    if m > 0 {
      assert a[m - 1] == a[..m][m - 1] == b[..m][m - 1] == b[m - 1];
      assert a[..m - 1] == a[..m][..m - 1] && b[..m - 1] == b[..m][..m - 1];
      RecognisedBelowAgree(a, b, m - 1);
    }
  }

  /** State ids are exactly the positions in the table. */
  lemma ScanIds(ds: seq<Declarator>)
    ensures forall k :: 0 <= k < |ScanSpec(ds)| ==> ScanSpec(ds)[k].id == k
  {
    ScanNumbersRecognised(ds);
  }

  // ---------------------------------------------------------------------
  // Structural locator

  /** The `index` of the node: 1 plus the number of same-tag element
      siblings the loop passes before it meets the node. */
  method SiblingIndex(doc: Doc, n: nat) returns (index: nat)
    requires Wf(doc) && n < |doc.nodes|
    ensures index == Ordinal(doc, n)
  {
    index := 1;
    var parent := doc.nodes[n].parent;
    if parent.Some? {
      assert n > 0 && parent.value == ParentOf(doc, n) && ChildrenWf(doc, parent.value);
      var children := SameTagIn(doc, doc.nodes[parent.value].children, TagName(doc, n));
      var i := 0;
      while i < |children|
        invariant 0 <= i <= |children| && index == 1 + i
        invariant n !in children[..i]
      {
        if children[i] == n {
          break;
        }
        index := index + 1;
        i := i + 1;
        assert children[..i] == children[..i - 1] + [children[i - 1]];
      }
      IndexOrLengthAt(children, n, i);
    } else {
      HasParentIffNotRoot(doc, n);
    }
  }

  /** `getXPath`: climbs from the node through parents that have a tag name,
      prepending `tag[index]` for every tagged node, where `index` counts the
      same-tag element siblings before it; a missing node throws. */
  method GetXPath(doc: Doc, node: Option<nat>) returns (r: Result<string, string>)
    requires Wf(doc)
    requires node.Some? ==> node.value < |doc.nodes|
    ensures node.None? ==> r == Failure("Invalid node provided.")
    ensures node.Some? ==> r == Success(XPath(doc, node.value))
  {
    if node.None? {
      return Failure("Invalid node provided.");
    }
    var path := "";
    var cur: Option<nat> := node;
    ghost var below: seq<string> := [];
    while cur.Some?
      invariant cur.Some? ==> cur.value < |doc.nodes| && Segments(doc, cur.value) + below == Segments(doc, node.value)
      invariant cur.Some? && !Tagged(doc, cur.value) ==> below == []
      invariant cur.None? ==> below == Segments(doc, node.value)
      invariant SlashFree(below) && path == JoinSegs(below)
      decreases if cur.Some? then cur.value + 1 else 0
    {
      var n := cur.value;
      var parent := doc.nodes[n].parent;
      var index := SiblingIndex(doc, n);
      var nodeXPath := if Tagged(doc, n) then Lower(doc.nodes[n].kind.tag) + "[" + Decimal(index) + "]" else "";
      ClimbStep(doc, n, below, path);
      ClimbNext(doc, n, below, Segments(doc, node.value));
      path := nodeXPath + (if path != "" then "/" + path else "");
      below := OwnSegment(doc, n) + below;
      cur := if parent.Some? && parent.value < |doc.nodes| && Tagged(doc, parent.value) then parent else None;
    }
    r := Success("/" + path);
  }

  // ---------------------------------------------------------------------
  // Binding indexer

  predicate IsTextWith(doc: Doc, c: nat, ph: string)
  {
    c < |doc.nodes| && doc.nodes[c].kind.Text? && Contains(doc.nodes[c].kind.content, ph)
  }

  /** Some direct child of `e` is a text node whose content includes `ph`. */
  predicate HasTextChildWith(doc: Doc, e: nat, ph: string)
    requires e < |doc.nodes|
  {
    exists k :: 0 <= k < |doc.nodes[e].children| && IsTextWith(doc, doc.nodes[e].children[k], ph)
  }

  /** The indexer's filter: an element other than SCRIPT with a direct text
      child that includes the placeholder. */
  predicate IsBound(doc: Doc, e: nat, ph: string)
  {
    e < |doc.nodes| && doc.nodes[e].kind.Element? && doc.nodes[e].kind.tag != "SCRIPT"
    && HasTextChildWith(doc, e, ph)
  }

  /** The bound elements among the first `n` nodes, in document order. */
  function BoundBelow(doc: Doc, ph: string, n: nat): (els: seq<nat>)
    requires n <= |doc.nodes|
    ensures forall k :: 0 <= k < |els| ==> els[k] < n
    ensures forall k, l :: 0 <= k < l < |els| ==> els[k] < els[l]
    ensures forall k :: 0 <= k < |els| ==> IsBound(doc, els[k], ph)
    ensures forall e: nat :: e in els <==> e < n && IsBound(doc, e, ph)
  {
    if n == 0 then []
    else BoundBelow(doc, ph, n - 1) + (if IsBound(doc, n - 1, ph) then [n - 1] else [])
  }

  /** The elements the indexer records for a placeholder. */
  function Matching(doc: Doc, ph: string): seq<nat>
  {
    BoundBelow(doc, ph, |doc.nodes|)
  }

  /** The recorded path of an element: its locator and its innerHTML. */
  function PathOf(doc: Doc, e: nat): PathEntry
    requires Wf(doc) && e < |doc.nodes| && doc.nodes[e].kind.Element?
  {
    PathEntry(XPath(doc, e), doc.nodes[e].kind.innerHTML)
  }

  predicate AllElements(doc: Doc, els: seq<nat>)
  {
    forall k :: 0 <= k < |els| ==> els[k] < |doc.nodes| && doc.nodes[els[k]].kind.Element?
  }

  function PathsOf(doc: Doc, els: seq<nat>): (ps: seq<PathEntry>)
    requires Wf(doc) && AllElements(doc, els)
    ensures |ps| == |els|
    ensures forall k :: 0 <= k < |els| ==> ps[k] == PathOf(doc, els[k])
  {
    if els == [] then [] else PathsOf(doc, els[..|els| - 1]) + [PathOf(doc, els[|els| - 1])]
  }

  /** The paths recorded for a state named `name`. */
  function PathsFor(doc: Doc, name: string): seq<PathEntry>
    requires Wf(doc)
  {
    PathsOf(doc, Matching(doc, Placeholder(name)))
  }

  /** The binding index for a state table: one group per state that has a
      bound element, in table order. */
  function ExpectedGroups(doc: Doc, states: seq<State>): seq<Group>
    requires Wf(doc)
  {
    if states == [] then []
    else
      var s := states[|states| - 1];
      ExpectedGroups(doc, states[..|states| - 1])
      + (if PathsFor(doc, s.name) != [] then [Group(s.id, s.name, PathsFor(doc, s.name))] else [])
  }

  predicate DistinctIds(states: seq<State>)
  {
    forall i, j :: 0 <= i < j < |states| ==> states[i].id != states[j].id
  }

  /** The `containsState` loop over the element's child nodes. */
  method ContainsState(doc: Doc, e: nat, ph: string) returns (containsState: bool)
    requires e < |doc.nodes|
    ensures containsState == HasTextChildWith(doc, e, ph)
  {
    containsState := false;
    var cs := doc.nodes[e].children;
    var k := 0;
    while k < |cs|
      invariant 0 <= k <= |cs|
      invariant containsState <==> exists j :: 0 <= j < k && IsTextWith(doc, cs[j], ph)
    {
      var c := cs[k];
      if c < |doc.nodes| && doc.nodes[c].kind.Text? && Contains(doc.nodes[c].kind.content, ph) {
        containsState := true;
      }
      k := k + 1;
    }
  }

  /** `querySelectorAll('*')` filtered to non-SCRIPT elements with a matching
      text child. */
  method FindBoundElements(doc: Doc, ph: string) returns (elements: seq<nat>)
    ensures elements == Matching(doc, ph)
  {
    elements := [];
    var i := 0;
    while i < |doc.nodes|
      invariant 0 <= i <= |doc.nodes|
      invariant elements == BoundBelow(doc, ph, i)
    {
      if doc.nodes[i].kind.Element? && doc.nodes[i].kind.tag != "SCRIPT" {
        var containsState := ContainsState(doc, i, ph);
        if containsState {
          elements := elements + [i];
        }
      }
      i := i + 1;
    }
  }

  lemma {:induction false} ExpectedGroupNumbers(doc: Doc, states: seq<State>)
    requires Wf(doc)
    ensures forall g :: g in ExpectedGroups(doc, states) ==> exists j :: 0 <= j < |states| && states[j].id == g.stateNumber
  {
    if states != [] {
      var pre := states[..|states| - 1];
      ExpectedGroupNumbers(doc, pre);
      forall g | g in ExpectedGroups(doc, states)
        ensures exists j :: 0 <= j < |states| && states[j].id == g.stateNumber
      {
        if g in ExpectedGroups(doc, pre) {
          var j :| 0 <= j < |pre| && pre[j].id == g.stateNumber;
          assert states[j] == pre[j];
        } else {
          assert states[|states| - 1].id == g.stateNumber;
        }
      }
    }
  }

  lemma PathsOfSnoc(doc: Doc, els: seq<nat>, k: nat)
    requires Wf(doc) && AllElements(doc, els) && k < |els|
    ensures PathsOf(doc, els[..k + 1]) == PathsOf(doc, els[..k]) + [PathOf(doc, els[k])]
  {
    assert els[..k + 1][..k] == els[..k];
  }

  /** `statePaths.find(...)`, pushing a new empty group for the state when
      none carries its number; answers the position of the group. */
  method FindOrCreateGroup(groups: seq<Group>, state: State) returns (groups': seq<Group>, at: nat)
    ensures FindByNumber(groups, state.id).Some? ==> groups' == groups && at == FindByNumber(groups, state.id).value
    ensures FindByNumber(groups, state.id).None? ==>
      groups' == groups + [Group(state.id, state.name, [])] && at == |groups|
    ensures at < |groups'| && groups'[at].stateNumber == state.id
  {
    groups' := groups;
    var statePath := FindByNumber(groups, state.id);
    if statePath.None? {
      groups' := groups + [Group(state.id, state.name, [])];
      at := |groups|;
    } else {
      at := statePath.value;
    }
  }

  /** Before the first element the state has no group and one is created
      empty; after it the group is the last one. Either way the group found
      or created is `g` with the paths recorded so far, in last place. */
  lemma RecordFind(groups0: seq<Group>, g: Group, first: bool, groups: seq<Group>, groups': seq<Group>, at: nat)
    requires FindByNumber(groups0, g.stateNumber).None?
    requires groups == groups0 + (if first then [] else [g])
    requires first ==> g.paths == []
    requires var found := FindByNumber(groups, g.stateNumber);
      groups' == groups + (if found.None? then [g.(paths := [])] else [])
      && at == (if found.None? then |groups| else found.value)
    ensures groups' == groups0 + [g] && at == |groups0|
  {
    if !first {
      FindByNumberAppended(groups0, g, g.stateNumber);
    }
  }

  /** Appending the k-th element's path to the state's group extends the
      group to the first k + 1 elements. */
  lemma RecordAppend(doc: Doc, groups0: seq<Group>, state: State, elements: seq<nat>, k: nat,
                     groups: seq<Group>, at: nat, entry: PathEntry)
    requires Wf(doc) && AllElements(doc, elements) && k < |elements|
    requires groups == groups0 + [Group(state.id, state.name, PathsOf(doc, elements[..k]))] && at == |groups0|
    requires entry == PathOf(doc, elements[k])
    ensures groups[at := groups[at].(paths := groups[at].paths + [entry])]
      == groups0 + [Group(state.id, state.name, PathsOf(doc, elements[..k + 1]))]
  {
    PathsOfSnoc(doc, elements, k);
  }

  /** The loop over the bound elements of one state: find the state's group
      (creating it when first needed) and append each element's path. */
  method RecordPaths(doc: Doc, groups0: seq<Group>, state: State, elements: seq<nat>) returns (groups: seq<Group>)
    requires Wf(doc) && AllElements(doc, elements)
    requires FindByNumber(groups0, state.id).None?
    ensures groups == groups0 + (if elements == [] then [] else [Group(state.id, state.name, PathsOf(doc, elements))])
  {
    groups := groups0;
    var k := 0;
    while k < |elements|
      invariant 0 <= k <= |elements|
      invariant groups == groups0 + (if k == 0 then [] else [Group(state.id, state.name, PathsOf(doc, elements[..k]))])
    {
      var location := GetXPath(doc, Some(elements[k]));
      var value := doc.nodes[elements[k]].kind.innerHTML;
      ghost var before := groups;
      var at;
      groups, at := FindOrCreateGroup(groups, state);
      RecordFind(groups0, Group(state.id, state.name, PathsOf(doc, elements[..k])), k == 0, before, groups, at);
      RecordAppend(doc, groups0, state, elements, k, groups, at, PathEntry(location.value, value));
      groups := groups[at := groups[at].(paths := groups[at].paths + [PathEntry(location.value, value)])];
      k := k + 1;
    }
    assert elements[..k] == elements;
  }

  /** The group of a state is not yet in the index built from the states
      before it. */
  lemma NoGroupYet(doc: Doc, states: seq<State>, i: nat)
    requires Wf(doc) && DistinctIds(states) && i < |states|
    ensures FindByNumber(ExpectedGroups(doc, states[..i]), states[i].id).None?
  {
    var groups := ExpectedGroups(doc, states[..i]);
    ExpectedGroupNumbers(doc, states[..i]);
    forall j | 0 <= j < |groups| ensures groups[j].stateNumber != states[i].id {
      assert groups[j] in groups;
      var k :| 0 <= k < i && states[..i][k].id == groups[j].stateNumber;
      assert states[k].id != states[i].id;
    }
  }

  lemma ExpectedGroupsStep(doc: Doc, states: seq<State>, i: nat)
    requires Wf(doc) && i < |states|
    ensures ExpectedGroups(doc, states[..i + 1]) == ExpectedGroups(doc, states[..i])
      + (if PathsFor(doc, states[i].name) != [] then [Group(states[i].id, states[i].name, PathsFor(doc, states[i].name))] else [])
  {
    assert states[..i + 1][..i] == states[..i];
    assert states[..i + 1][i] == states[i];
  }

  /** The loop over the state table, recording the bound elements of each
      state in turn. */
  method IndexBindings(doc: Doc, states: seq<State>) returns (groups: seq<Group>)
    requires Wf(doc)
    requires DistinctIds(states)
    ensures groups == ExpectedGroups(doc, states)
  {
    groups := [];
    var i := 0;
    while i < |states|
      invariant 0 <= i <= |states|
      invariant groups == ExpectedGroups(doc, states[..i])
    {
      var state := states[i];
      var statePlaceholder := Placeholder(state.name);
      var elements := FindBoundElements(doc, statePlaceholder);
      NoGroupYet(doc, states, i);
      groups := RecordPaths(doc, groups, state, elements);
      ExpectedGroupsStep(doc, states, i);
      assert |PathsFor(doc, state.name)| == |elements|;
      i := i + 1;
    }
    assert states[..i] == states;
  }

  /** `updateHTMLFile` without parsing and serialisation: the scan followed
      by the indexer. */
  method UpdateHTMLFile(doc: Doc, ds: seq<Declarator>) returns (r: Result<seq<Group>, ScanError>)
    requires Wf(doc)
    ensures FirstThrow(ds).Some? ==> r == Failure(ArgumentMissing(FirstThrow(ds).value))
    ensures FirstThrow(ds).None? ==> r == Success(ExpectedGroups(doc, ScanSpec(ds)))
  {
    var scanned, stateCount := ScanStates(ds);
    if scanned.Failure? {
      return Failure(scanned.error);
    }
    ScanIds(ds);
    var statePaths := IndexBindings(doc, scanned.value);
    r := Success(statePaths);
  }

  // ---------------------------------------------------------------------
  // Properties of the binding index

  /** An element is recorded for a placeholder exactly when it is a
      non-SCRIPT element with a direct text child including it; the recorded
      elements are in document order, each once. */
  lemma MatchingIff(doc: Doc, ph: string, e: nat)
    ensures e in Matching(doc, ph) <==>
      (e < |doc.nodes| && doc.nodes[e].kind.Element? && doc.nodes[e].kind.tag != "SCRIPT"
       && exists k :: 0 <= k < |doc.nodes[e].children| && IsTextWith(doc, doc.nodes[e].children[k], ph))
    ensures forall k, l :: 0 <= k < l < |Matching(doc, ph)| ==> Matching(doc, ph)[k] < Matching(doc, ph)[l]
  {
  }

  /** Each group of the index belongs to a state of the table, has at least
      one path, and its paths are the locators and innerHTML of the bound
      elements. */
  lemma {:induction false} GroupsOfStates(doc: Doc, states: seq<State>)
    requires Wf(doc)
    ensures forall g :: g in ExpectedGroups(doc, states) ==>
      g.paths != [] && exists j :: 0 <= j < |states| && g == Group(states[j].id, states[j].name, PathsFor(doc, states[j].name))
  {
    if states != [] {
      var pre := states[..|states| - 1];
      var s := states[|states| - 1];
      GroupsOfStates(doc, pre);
      var gs := ExpectedGroups(doc, states);
      var last := if PathsFor(doc, s.name) != [] then [Group(s.id, s.name, PathsFor(doc, s.name))] else [];
      assert gs == ExpectedGroups(doc, pre) + last;
      forall g | g in gs
        ensures g.paths != [] && exists j :: 0 <= j < |states| && g == Group(states[j].id, states[j].name, PathsFor(doc, states[j].name))
      {
        if g in ExpectedGroups(doc, pre) {
          var j :| 0 <= j < |pre| && g == Group(pre[j].id, pre[j].name, PathsFor(doc, pre[j].name));
          assert states[j] == pre[j];
        } else {
          assert g in last;
          var j := |states| - 1;
          assert g == Group(states[j].id, states[j].name, PathsFor(doc, states[j].name));
        }
      }
    }
  }

  /** Every state with a bound element has a group holding its paths. */
  lemma {:induction false} StatesHaveGroups(doc: Doc, states: seq<State>)
    requires Wf(doc)
    ensures forall j :: 0 <= j < |states| && Matching(doc, Placeholder(states[j].name)) != [] ==>
      exists g :: g in ExpectedGroups(doc, states) && g.stateNumber == states[j].id && g.paths == PathsFor(doc, states[j].name)
  {
    if states != [] {
      var pre := states[..|states| - 1];
      StatesHaveGroups(doc, pre);
      forall j | 0 <= j < |states| && Matching(doc, Placeholder(states[j].name)) != []
        ensures exists g :: g in ExpectedGroups(doc, states) && g.stateNumber == states[j].id && g.paths == PathsFor(doc, states[j].name)
      {
        if j < |pre| {
          assert states[j] == pre[j];
          HasGroupAppend(doc, states, states[j].id, PathsFor(doc, states[j].name));
        } else {
          LastStateHasGroup(doc, states);
        }
      }
    }
  }

  lemma HasGroupAppend(doc: Doc, states: seq<State>, id: nat, paths: seq<PathEntry>)
    requires Wf(doc) && states != []
    requires exists g :: g in ExpectedGroups(doc, states[..|states| - 1]) && g.stateNumber == id && g.paths == paths
    ensures exists g :: g in ExpectedGroups(doc, states) && g.stateNumber == id && g.paths == paths
  {
    var g :| g in ExpectedGroups(doc, states[..|states| - 1]) && g.stateNumber == id && g.paths == paths;
    assert g in ExpectedGroups(doc, states);
  }

  lemma LastStateHasGroup(doc: Doc, states: seq<State>)
    requires Wf(doc) && states != []
    requires Matching(doc, Placeholder(states[|states| - 1].name)) != []
    ensures var s := states[|states| - 1];
      exists g :: g in ExpectedGroups(doc, states) && g.stateNumber == s.id && g.paths == PathsFor(doc, s.name)
  {
    var s := states[|states| - 1];
    assert |PathsFor(doc, s.name)| == |Matching(doc, Placeholder(s.name))|;
    var g := Group(s.id, s.name, PathsFor(doc, s.name));
    assert ExpectedGroups(doc, states) == ExpectedGroups(doc, states[..|states| - 1]) + [g];
    assert g in ExpectedGroups(doc, states);
  }

  /** With distinct state ids there is at most one group per state. */
  lemma {:induction false} GroupsUnique(doc: Doc, states: seq<State>)
    requires Wf(doc) && DistinctIds(states)
    ensures forall a, b :: 0 <= a < b < |ExpectedGroups(doc, states)| ==>
      ExpectedGroups(doc, states)[a].stateNumber != ExpectedGroups(doc, states)[b].stateNumber
  {
    if states != [] {
      var pre := states[..|states| - 1];
      var s := states[|states| - 1];
      GroupsUnique(doc, pre);
      ExpectedGroupNumbers(doc, pre);
      var old_ := ExpectedGroups(doc, pre);
      var gs := ExpectedGroups(doc, states);
      forall a, b | 0 <= a < b < |gs| ensures gs[a].stateNumber != gs[b].stateNumber {
        if b >= |old_| {
          assert gs[b].stateNumber == s.id && gs[a] == old_[a] && old_[a] in old_;
          var j :| 0 <= j < |pre| && pre[j].id == old_[a].stateNumber;
          assert states[j].id != states[|states| - 1].id;
        } else {
          assert gs[a] == old_[a] && gs[b] == old_[b];
        }
      }
    }
  }

  /** When the table's ids increase (as the scan numbers them), so do the
      groups' state numbers. */
  lemma {:induction false} GroupsOrdered(doc: Doc, states: seq<State>)
    requires Wf(doc)
    requires forall i, j :: 0 <= i < j < |states| ==> states[i].id < states[j].id
    ensures forall a, b :: 0 <= a < b < |ExpectedGroups(doc, states)| ==>
      ExpectedGroups(doc, states)[a].stateNumber < ExpectedGroups(doc, states)[b].stateNumber
  {
    if states != [] {
      var pre := states[..|states| - 1];
      var s := states[|states| - 1];
      GroupsOrdered(doc, pre);
      ExpectedGroupNumbers(doc, pre);
      var old_ := ExpectedGroups(doc, pre);
      var gs := ExpectedGroups(doc, states);
      forall a, b | 0 <= a < b < |gs| ensures gs[a].stateNumber < gs[b].stateNumber {
        if b >= |old_| {
          assert gs[b].stateNumber == s.id && gs[a] == old_[a] && old_[a] in old_;
          var j :| 0 <= j < |pre| && pre[j].id == old_[a].stateNumber;
          assert states[j].id < states[|states| - 1].id;
        } else {
          assert gs[a] == old_[a] && gs[b] == old_[b];
        }
      }
    }
  }

  /** Within a group, no two paths share a locator: the recorded elements
      are distinct and distinct elements have distinct locators. */
  lemma PathLocationsDistinct(doc: Doc, name: string)
    requires Wf(doc)
    ensures forall a, b :: 0 <= a < b < |PathsFor(doc, name)| ==>
      PathsFor(doc, name)[a].location != PathsFor(doc, name)[b].location
  {
    var els := Matching(doc, Placeholder(name));
    var ps := PathsFor(doc, name);
    forall a, b | 0 <= a < b < |ps| ensures ps[a].location != ps[b].location {
      assert els[a] < els[b];
      assert els[a] in els && els[b] in els;
      if ps[a].location == ps[b].location {
        XPathInjective(doc, els[a], els[b]);
      }
    }
  }

  /** The whole transform: the groups follow the scan's numbering, so there
      is at most one group per state, in increasing state number. */
  lemma UpdateGroupsOrdered(doc: Doc, ds: seq<Declarator>)
    requires Wf(doc)
    ensures forall a, b :: 0 <= a < b < |ExpectedGroups(doc, ScanSpec(ds))| ==>
      ExpectedGroups(doc, ScanSpec(ds))[a].stateNumber < ExpectedGroups(doc, ScanSpec(ds))[b].stateNumber
  {
    ScanIds(ds);
    GroupsOrdered(doc, ScanSpec(ds));
  }
}
