/** lib/client/stateManager.js: the page-side state store. Every `state(v)`
    call takes the next state number and keeps `v` under it; assigning
    `.value` on the returned handle stores the new value and re-renders every
    element bound to that state by substituting `{name}` placeholders in the
    element's recorded template. */
module StateManager {
  import opened Js
  import opened Bindings

  // ---------------------------------------------------------------------
  // Placeholders: the pattern /{(\d+|[a-zA-Z_]\w*)}/g

  predicate IsWordChar(c: char)
  {
    'a' <= c <= 'z' || 'A' <= c <= 'Z' || IsDigit(c) || c == '_'
  }

  predicate AllDigits(w: string)
  {
    forall i :: 0 <= i < |w| ==> IsDigit(w[i])
  }

  /** What the group `(\d+|[a-zA-Z_]\w*)` accepts: a non-empty word that is
      either all digits or does not start with a digit. */
  predicate ValidName(w: string)
  {
    |w| > 0 && (forall i :: 0 <= i < |w| ==> IsWordChar(w[i])) && (AllDigits(w) || !IsDigit(w[0]))
  }

  /** The longest run of word characters at the start of `s`. */
  function WordRun(s: string): (w: string)
    ensures w <= s
    ensures forall i :: 0 <= i < |w| ==> IsWordChar(w[i])
    ensures |w| == |s| || !IsWordChar(s[|w|])
  {
    if s != [] && IsWordChar(s[0]) then [s[0]] + WordRun(s[1..]) else []
  }

  /** The placeholder the pattern matches at the start of `s`, if any. Both
      alternatives are followed by `}`, and a word character is never `}`, so
      a match is `{`, the whole word run, `}`. */
  function MatchAt(s: string): (r: Option<string>)
    ensures r.Some? ==> ValidName(r.value) && |r.value| + 2 <= |s| && s[..|r.value| + 2] == "{" + r.value + "}"
  {
    if s != [] && s[0] == '{' then
      var w := WordRun(s[1..]);
      if ValidName(w) && |w| + 1 < |s| && s[|w| + 1] == '}' then
        assert s[..|w| + 2] == [s[0]] + s[1..][..|w|] + [s[|w| + 1]];
        Some(w)
      else None
    else None
  }

  datatype Piece = Lit(c: char) | Hole(name: string)

  /** The text as the global `replace` scans it: left to right, a match is
      consumed whole, otherwise one character is kept. */
  function Tokenize(s: string): (ps: seq<Piece>)
    ensures forall k :: 0 <= k < |ps| && ps[k].Hole? ==> ValidName(ps[k].name)
    decreases |s|
  {
    if s == [] then []
    else match MatchAt(s)
      case Some(w) => [Hole(w)] + Tokenize(s[|w| + 2..])
      case None => [Lit(s[0])] + Tokenize(s[1..])
  }

  function PieceText(p: Piece): string
  {
    match p
    case Lit(c) => [c]
    case Hole(name) => Placeholder(name)
  }

  function Unparse(ps: seq<Piece>): string
  {
    if ps == [] then "" else PieceText(ps[0]) + Unparse(ps[1..])
  }

  /** Tokenizing loses nothing: the pieces spell the original text. */
  lemma {:induction false} TokenizeRoundTrip(s: string)
    ensures Unparse(Tokenize(s)) == s
    decreases |s|
  {
    if s != [] {
      match MatchAt(s)
      case Some(w) =>
        TokenizeRoundTrip(s[|w| + 2..]);
        assert s == s[..|w| + 2] + s[|w| + 2..];
      case None =>
        TokenizeRoundTrip(s[1..]);
        assert s == [s[0]] + s[1..];
    }
  }

  // ---------------------------------------------------------------------
  // Lookups on the binding index

  datatype ClientError =
    | NoGroupForState(stateNumber: nat)   // TypeError: no group for the state
    | NoGroupNamed(name: string)          // TypeError: no group named so

  /** `getStateNumberByName`: the number of the first group named `name`;
      reading `.stateNumber` of `undefined` throws when there is none. */
  function GetStateNumberByName(groups: seq<Group>, name: string): (r: Result<nat, ClientError>)
    ensures r.Success? ==> exists i :: (0 <= i < |groups| && groups[i].stateName == name && groups[i].stateNumber == r.value
                                        && forall j :: 0 <= j < i ==> groups[j].stateName != name)
    ensures r.Failure? <==> forall i :: 0 <= i < |groups| ==> groups[i].stateName != name
    ensures r.Failure? ==> r.error == NoGroupNamed(name)
  {
    match FindByName(groups, name)
    case None => Failure(NoGroupNamed(name))
    case Some(i) => Success(groups[i].stateNumber)
  }

  /** `getStateNameByStateNumber` as written: it reads a `name` field, which
      the groups do not have, so an existing group yields `undefined`. */
  function GetStateNameByStateNumber(groups: seq<Group>, n: nat): (r: Result<JsValue, ClientError>)
    ensures r.Success? ==> r.value == Undefined
    ensures r.Failure? <==> forall i :: 0 <= i < |groups| ==> groups[i].stateNumber != n
  {
    match FindByNumber(groups, n)
    case None => Failure(NoGroupForState(n))
    case Some(_) => Success(Undefined)
  }

  /** The lookup as intended: the `stateName` of the first group with that
      number. */
  function StateNameOf(groups: seq<Group>, n: nat): (r: Result<string, ClientError>)
    ensures r.Success? ==> exists i :: (0 <= i < |groups| && groups[i].stateNumber == n && groups[i].stateName == r.value
                                        && forall j :: 0 <= j < i ==> groups[j].stateNumber != n)
    ensures r.Failure? <==> forall i :: 0 <= i < |groups| ==> groups[i].stateNumber != n
  {
    match FindByNumber(groups, n)
    case None => Failure(NoGroupForState(n))
    case Some(i) => Success(groups[i].stateName)
  }

  predicate UniqueNumbers(groups: seq<Group>)
  {
    forall i, j :: 0 <= i < j < |groups| ==> groups[i].stateNumber != groups[j].stateNumber
  }

  predicate UniqueNames(groups: seq<Group>)
  {
    forall i, j :: 0 <= i < j < |groups| ==> groups[i].stateName != groups[j].stateName
  }

  /** With one group per state number, the intended name lookup undoes
      `getStateNumberByName`. */
  lemma NameNumberRoundTrip(groups: seq<Group>, name: string)
    requires UniqueNumbers(groups)
    requires GetStateNumberByName(groups, name).Success?
    ensures StateNameOf(groups, GetStateNumberByName(groups, name).value) == Success(name)
  {
    var i := FindByName(groups, name).value;
    var j := FindByNumber(groups, groups[i].stateNumber).value;
    assert !(j < i) && !(i < j);
  }

  /** With distinct state names, `getStateNumberByName` undoes the intended
      name lookup. */
  lemma NumberNameRoundTrip(groups: seq<Group>, n: nat)
    requires UniqueNames(groups)
    requires StateNameOf(groups, n).Success?
    ensures GetStateNumberByName(groups, StateNameOf(groups, n).value) == Success(n)
  {
    var j := FindByNumber(groups, n).value;
    var i := FindByName(groups, groups[j].stateName).value;
    assert !(j < i) && !(i < j);
  }

  /** The name lookup as written loses the name: for a page with one state
      `count`, it answers `undefined` where the intended lookup answers
      "count". */
  lemma StateNameLost()
    ensures GetStateNameByStateNumber([Group(0, "count", [])], 0) == Success(Undefined)
    ensures StateNameOf([Group(0, "count", [])], 0) == Success("count")
  {
  }

  // ---------------------------------------------------------------------
  // Substitution

  /** `states.get(n)`: `undefined` for a number never stored. */
  function StoredValue(states: map<nat, JsValue>, n: nat): JsValue
  {
    if n in states then states[n] else Undefined
  }

  /** The text a piece becomes: a placeholder is replaced by the stored value
      of the state it names, turned into a string. */
  function PieceValue(groups: seq<Group>, states: map<nat, JsValue>, p: Piece): Result<string, ClientError>
  {
    match p
    case Lit(c) => Success([c])
    case Hole(name) =>
      match GetStateNumberByName(groups, name)
      case Failure(e) => Failure(e)
      case Success(n) => Success(ToJsString(StoredValue(states, n)))
  }

  /** The replacement callbacks run left to right; the first that throws
      ends the replacement. */
  function Fill(groups: seq<Group>, states: map<nat, JsValue>, ps: seq<Piece>): Result<string, ClientError>
  {
    if ps == [] then Success("")
    else
      match PieceValue(groups, states, ps[0])
      case Failure(e) => Failure(e)
      case Success(h) =>
        match Fill(groups, states, ps[1..])
        case Failure(e) => Failure(e)
        case Success(t) => Success(h + t)
  }

  /** `path.value.replace(/{(\d+|[a-zA-Z_]\w*)}/g, ...)`. */
  function Substitute(groups: seq<Group>, states: map<nat, JsValue>, text: string): Result<string, ClientError>
  {
    Fill(groups, states, Tokenize(text))
  }

  predicate NamesResolve(groups: seq<Group>, ps: seq<Piece>)
  {
    forall k :: 0 <= k < |ps| && ps[k].Hole? ==> GetStateNumberByName(groups, ps[k].name).Success?
  }

  /** Substitution fails exactly when some placeholder names no group, and
      then with the first such name. */
  lemma {:induction false} FillFailsIff(groups: seq<Group>, states: map<nat, JsValue>, ps: seq<Piece>)
    ensures Fill(groups, states, ps).Success? <==> NamesResolve(groups, ps)
    ensures Fill(groups, states, ps).Failure? ==>
      exists k :: (0 <= k < |ps| && ps[k].Hole? && Fill(groups, states, ps).error == NoGroupNamed(ps[k].name)
                   && GetStateNumberByName(groups, ps[k].name).Failure?)
  {
    if ps != [] {
      FillFailsIff(groups, states, ps[1..]);
      if PieceValue(groups, states, ps[0]).Success? && Fill(groups, states, ps[1..]).Failure? {
        var k :| 0 <= k < |ps[1..]| && ps[1..][k].Hole? && Fill(groups, states, ps[1..]).error == NoGroupNamed(ps[1..][k].name)
          && GetStateNumberByName(groups, ps[1..][k].name).Failure?;
        assert ps[k + 1] == ps[1..][k];
      }
      if NamesResolve(groups, ps[1..]) && PieceValue(groups, states, ps[0]).Success? {
        assert NamesResolve(groups, ps) by {
          forall k | 0 <= k < |ps| && ps[k].Hole?
            ensures GetStateNumberByName(groups, ps[k].name).Success?
          {
            if k > 0 { assert ps[k] == ps[1..][k - 1]; }
          }
        }
      }
      if NamesResolve(groups, ps) {
        assert NamesResolve(groups, ps[1..]) by {
          forall k | 0 <= k < |ps[1..]| && ps[1..][k].Hole?
            ensures GetStateNumberByName(groups, ps[1..][k].name).Success?
          {
            assert ps[1..][k] == ps[k + 1];
          }
        }
      }
    }
  }

  /** Substitution succeeds exactly when every placeholder in the text names
      a group. */
  lemma SubstituteSucceedsIff(groups: seq<Group>, states: map<nat, JsValue>, text: string)
    ensures Substitute(groups, states, text).Success? <==> NamesResolve(groups, Tokenize(text))
  {
    FillFailsIff(groups, states, Tokenize(text));
  }

  /** Plain text, one piece per character. */
  function Lits(a: string): (ps: seq<Piece>)
    ensures |ps| == |a|
  {
    if a == [] then [] else [Lit(a[0])] + Lits(a[1..])
  }

  /** Text with no `{` contains no placeholder. */
  lemma {:induction false} TokenizeNoBrace(a: string, b: string)
    requires '{' !in a
    ensures Tokenize(a + b) == Lits(a) + Tokenize(b)
    decreases |a|
  {
    if a != [] {
      assert a[0] != '{' by { assert a[0] in a; }
      assert (a + b)[0] == a[0];
      assert MatchAt(a + b).None?;
      assert (a + b)[1..] == a[1..] + b;
      assert '{' !in a[1..] by {
        forall c | c in a[1..] ensures c != '{' { assert c in a; }
      }
      TokenizeNoBrace(a[1..], b);
      assert Tokenize(a + b) == [Lit(a[0])] + (Lits(a[1..]) + Tokenize(b));
    } else {
      assert a + b == b;
    }
  }

  lemma {:induction false} FillLiterals(groups: seq<Group>, states: map<nat, JsValue>, a: string, ps: seq<Piece>)
    ensures Fill(groups, states, Lits(a) + ps) ==
      match Fill(groups, states, ps)
      case Failure(e) => Failure(e)
      case Success(t) => Success(a + t)
    decreases |a|
  {
    if a != [] {
      assert (Lits(a) + ps)[0] == Lit(a[0]);
      assert (Lits(a) + ps)[1..] == Lits(a[1..]) + ps;
      FillLiterals(groups, states, a[1..], ps);
      assert a == [a[0]] + a[1..];
      if Fill(groups, states, ps).Success? {
        assert [a[0]] + (a[1..] + Fill(groups, states, ps).value) == a + Fill(groups, states, ps).value;
      }
    } else {
      assert Lits(a) + ps == ps;
      if Fill(groups, states, ps).Success? {
        assert a + Fill(groups, states, ps).value == Fill(groups, states, ps).value;
      }
    }
  }

  /** Text without placeholders is written unchanged. */
  lemma NoBraceUnchanged(groups: seq<Group>, states: map<nat, JsValue>, text: string)
    requires '{' !in text
    ensures Substitute(groups, states, text) == Success(text)
  {
    TokenizeNoBrace(text, "");
    assert text + "" == text;
    FillLiterals(groups, states, text, []);
  }

  lemma {:induction false} WordRunOf(w: string, rest: string)
    requires forall i :: 0 <= i < |w| ==> IsWordChar(w[i])
    requires rest == [] || !IsWordChar(rest[0])
    ensures WordRun(w + rest) == w
    decreases |w|
  {
    if w != [] {
      assert (w + rest)[0] == w[0] && (w + rest)[1..] == w[1..] + rest;
      WordRunOf(w[1..], rest);
    } else {
      assert w + rest == rest;
    }
  }

  /** A well-formed placeholder is one piece. */
  lemma TokenizePlaceholder(name: string, b: string)
    requires ValidName(name)
    ensures Tokenize(Placeholder(name) + b) == [Hole(name)] + Tokenize(b)
  {
    var s := Placeholder(name) + b;
    assert s[1..] == name + ("}" + b);
    WordRunOf(name, "}" + b);
    assert MatchAt(s) == Some(name);
    assert s[|name| + 2..] == b;
  }

  lemma FillHole(groups: seq<Group>, states: map<nat, JsValue>, name: string, ps: seq<Piece>)
    requires GetStateNumberByName(groups, name).Success?
    ensures Fill(groups, states, [Hole(name)] + ps) ==
      match Fill(groups, states, ps)
      case Failure(e) => Failure(e)
      case Success(t) => Success(ToJsString(StoredValue(states, GetStateNumberByName(groups, name).value)) + t)
  {
    assert ([Hole(name)] + ps)[0] == Hole(name);
    assert ([Hole(name)] + ps)[1..] == ps;
  }

  /** The pieces of plain text followed by a placeholder. */
  lemma TokenizeText(a: string, name: string, b: string)
    requires '{' !in a && ValidName(name)
    ensures Tokenize(a + Placeholder(name) + b) == Lits(a) + ([Hole(name)] + Tokenize(b))
  {
    StringAssoc(a, Placeholder(name), b);
    TokenizePlaceholder(name, b);
    TokenizeNoBrace(a, Placeholder(name) + b);
  }

  /** A placeholder after plain text is replaced by the current value of
      the state it names, the text around it unchanged. */
  lemma SubstitutePlaceholder(groups: seq<Group>, states: map<nat, JsValue>, a: string, name: string, b: string)
    requires '{' !in a && ValidName(name)
    requires GetStateNumberByName(groups, name).Success?
    ensures Substitute(groups, states, a + Placeholder(name) + b) ==
      match Substitute(groups, states, b)
      case Failure(e) => Failure(e)
      case Success(t) => Success(a + ToJsString(StoredValue(states, GetStateNumberByName(groups, name).value)) + t)
  {
    var ts := Tokenize(b);
    TokenizeText(a, name, b);
    FillLiterals(groups, states, a, [Hole(name)] + ts);
    FillHole(groups, states, name, ts);
    var v := ToJsString(StoredValue(states, GetStateNumberByName(groups, name).value));
    match Fill(groups, states, ts)
    case Failure(e) =>
    case Success(t) => StringAssoc(a, v, t);
  }

  lemma StringAssoc(x: string, y: string, z: string)
    ensures x + y + z == x + (y + z)
  {
  }

  /** A counter bound as "Count: {count}" shows the stored number. */
  lemma CounterExample()
    ensures Substitute([Group(0, "count", [])], map[0 := Num(5)], "Count: {count}") == Success("Count: 5")
  {
    var groups, states := [Group(0, "count", [])], map[0 := Num(5)];
    var a := "Count: ";
    assert ValidName("count") by {
      assert !IsDigit("count"[0]);
    }
    assert GetStateNumberByName(groups, "count") == Success(0);
    assert ToJsString(StoredValue(states, 0)) == "5";
    NoBraceUnchanged(groups, states, "");
    assert '{' !in a by {
      forall i | 0 <= i < |a| ensures a[i] != '{' { }
    }
    SubstitutePlaceholder(groups, states, a, "count", "");
    assert a + Placeholder("count") + "" == "Count: {count}";
    assert a + "5" + "" == "Count: 5";
  }

  // ---------------------------------------------------------------------
  // Re-rendering the bound elements

  /** One `innerText` assignment on a page element. */
  datatype Write = Write(element: nat, text: string)

  /** What a run over some paths does: the writes made, the error that
      stopped it, if any, and the page as it is afterwards. */
  datatype Outcome = Outcome(writes: seq<Write>, error: Option<ClientError>, dom: map<string, nat>)

  /** The locator `document.evaluate` is given for a recorded location. */
  function PageKey(location: string): string
  {
    "/html/body" + location
  }

  /** `document.evaluate("/html/body" + location)`, as a partial map from
      locator to element. */
  function ElementAt(dom: map<string, nat>, location: string): Option<nat>
  {
    var key := PageKey(location);
    if key in dom then Some(dom[key]) else None
  }

  /** The page after `innerText` is assigned on the element at `key`: the
      element keeps its place, but its old children are replaced by text, so
      no locator below it finds anything any more. */
  function Detach(dom: map<string, nat>, key: string): (d: map<string, nat>)
    ensures forall k :: k in d <==> k in dom && !(key + "/" <= k)
    ensures forall k :: k in d ==> d[k] == dom[k]
  {
    map k | k in dom && !(key + "/" <= k) :: dom[k]
  }

  /** The `forEach` over the first paths: a path whose element is not found
      on the page as it is by then is skipped, a found one gets its
      substituted template (which detaches what was below it), and a
      throwing substitution ends the run with the writes made so far. */
  function RenderPaths(groups: seq<Group>, states: map<nat, JsValue>, dom: map<string, nat>, paths: seq<PathEntry>): Outcome
  {
    if paths == [] then Outcome([], None, dom)
    else
      var prev := RenderPaths(groups, states, dom, paths[..|paths| - 1]);
      var p := paths[|paths| - 1];
      if prev.error.Some? then prev
      else
        match ElementAt(prev.dom, p.location)
        case None => prev
        case Some(e) =>
          match Substitute(groups, states, p.value)
          case Failure(err) => Outcome(prev.writes, Some(err), prev.dom)
          case Success(t) => Outcome(prev.writes + [Write(e, t)], None, Detach(prev.dom, PageKey(p.location)))
  }

  /** `updateStateUI(n)`: the group of state `n` must exist. */
  function UpdateUI(groups: seq<Group>, states: map<nat, JsValue>, dom: map<string, nat>, n: nat): Outcome
  {
    match FindByNumber(groups, n)
    case None => Outcome([], Some(NoGroupForState(n)), dom)
    case Some(i) => RenderPaths(groups, states, dom, groups[i].paths)
  }

  /** The page after every path whose element is found in turn has been
      written, independently of what is written. */
  function PageAfter(dom: map<string, nat>, paths: seq<PathEntry>): map<string, nat>
  {
    if paths == [] then dom
    else
      var d := PageAfter(dom, paths[..|paths| - 1]);
      var key := PageKey(paths[|paths| - 1].location);
      if key in d then Detach(d, key) else d
  }

  /** Path `j` finds its element once the paths before it have been written. */
  predicate Reached(dom: map<string, nat>, paths: seq<PathEntry>, j: nat)
    requires j < |paths|
  {
    PageKey(paths[j].location) in PageAfter(dom, paths[..j])
  }

  lemma ReachedPrefix(dom: map<string, nat>, paths: seq<PathEntry>, m: nat)
    requires m <= |paths|
    ensures forall j :: 0 <= j < m ==> paths[..m][j] == paths[j] && (Reached(dom, paths[..m], j) <==> Reached(dom, paths, j))
  {
    forall j | 0 <= j < m
      ensures paths[..m][j] == paths[j] && (Reached(dom, paths[..m], j) <==> Reached(dom, paths, j))
    {
      assert paths[..m][..j] == paths[..j];
    }
  }

  /** Writing only ever removes locators: what is left is found as before. */
  lemma {:induction false} PageAfterSub(dom: map<string, nat>, paths: seq<PathEntry>)
    ensures forall k :: k in PageAfter(dom, paths) ==> k in dom && PageAfter(dom, paths)[k] == dom[k]
  {
    if paths != [] {
      PageAfterSub(dom, paths[..|paths| - 1]);
    }
  }

  /** No path that found its element lies above locator `k`. */
  predicate Visible(dom: map<string, nat>, paths: seq<PathEntry>, k: string)
  {
    forall j :: 0 <= j < |paths| && Reached(dom, paths, j) ==> !(PageKey(paths[j].location) + "/" <= k)
  }

  lemma VisibleStep(dom: map<string, nat>, paths: seq<PathEntry>, k: string)
    requires paths != []
    ensures Visible(dom, paths, k) <==>
      Visible(dom, paths[..|paths| - 1], k)
      && (Reached(dom, paths, |paths| - 1) ==> !(PageKey(paths[|paths| - 1].location) + "/" <= k))
  {
    ReachedPrefix(dom, paths, |paths| - 1);
  }

  /** A locator is still found after a run iff it was on the page and no
      written path's element lies above it. */
  lemma {:induction false} PageAfterKeys(dom: map<string, nat>, paths: seq<PathEntry>)
    ensures forall k :: k in PageAfter(dom, paths) <==> k in dom && Visible(dom, paths, k)
  {
    if paths != [] {
      var n := |paths| - 1;
      var init := paths[..n];
      PageAfterKeys(dom, init);
      assert paths[..n] == init;
      forall k
        ensures k in PageAfter(dom, paths) <==> k in dom && Visible(dom, paths, k)
      {
        VisibleStep(dom, paths, k);
      }
    }
  }

  lemma UnderKey(a: string, b: string)
    requires a + "/" <= b
    ensures PageKey(a) + "/" <= PageKey(b)
  {
    var rest := b[|a| + 1..];
    assert b == a + "/" + rest;
    assert PageKey(b) == PageKey(a) + "/" + rest;
  }

  /** Once a path's element has been written, no later path whose location
      lies below it finds its element: the write detached it. */
  lemma WrittenHidesBelow(dom: map<string, nat>, paths: seq<PathEntry>, i: nat, j: nat)
    requires i < j < |paths| && Reached(dom, paths, i)
    requires paths[i].location + "/" <= paths[j].location
    ensures !Reached(dom, paths, j)
  {
    PageAfterKeys(dom, paths[..j]);
    ReachedPrefix(dom, paths, j);
    UnderKey(paths[i].location, paths[j].location);
    assert !Visible(dom, paths[..j], PageKey(paths[j].location));
  }

  /** Two paths where the second lies below the first, as for
      `<p>{a}<b>{a}</b></p>`: writing the outer element replaces the inner
      one, so the second path finds nothing and only one write is made. */
  lemma NestedPathSkipped(groups: seq<Group>, states: map<nat, JsValue>, outer: string, below: string,
                          v1: string, v2: string, e1: nat, e2: nat)
    requires Substitute(groups, states, v1).Success?
    ensures var dom := map[PageKey(outer) := e1, PageKey(outer + "/" + below) := e2];
      RenderPaths(groups, states, dom, [PathEntry(outer, v1), PathEntry(outer + "/" + below, v2)]).writes
        == [Write(e1, Substitute(groups, states, v1).value)]
  {
    var dom := map[PageKey(outer) := e1, PageKey(outer + "/" + below) := e2];
    var paths := [PathEntry(outer, v1), PathEntry(outer + "/" + below, v2)];
    assert paths[..1] == [paths[0]] && paths[..1][..0] == [];
    assert RenderPaths(groups, states, dom, []) == Outcome([], None, dom);
    assert ElementAt(dom, outer) == Some(e1);
    var first := RenderPaths(groups, states, dom, paths[..1]);
    assert first.writes == [Write(e1, Substitute(groups, states, v1).value)];
    assert PageKey(outer + "/" + below) == PageKey(outer) + "/" + below;
    assert first.dom == Detach(dom, PageKey(outer));
    assert PageKey(outer + "/" + below) !in first.dom;
  }

  /** A run that has not failed leaves the page as PageAfter says. */
  lemma {:induction false} RenderPage(groups: seq<Group>, states: map<nat, JsValue>, dom: map<string, nat>, paths: seq<PathEntry>)
    ensures RenderPaths(groups, states, dom, paths).error.None? ==> RenderPaths(groups, states, dom, paths).dom == PageAfter(dom, paths)
  {
    if paths != [] {
      RenderPage(groups, states, dom, paths[..|paths| - 1]);
    }
  }

  /** Every run leaves a part of the original page. */
  lemma {:induction false} RenderDomSub(groups: seq<Group>, states: map<nat, JsValue>, dom: map<string, nat>, paths: seq<PathEntry>)
    ensures forall k :: k in RenderPaths(groups, states, dom, paths).dom ==>
      k in dom && RenderPaths(groups, states, dom, paths).dom[k] == dom[k]
  {
    if paths != [] {
      RenderDomSub(groups, states, dom, paths[..|paths| - 1]);
    }
  }

  /** The positions below `m` of the paths that find their element when
      reached, in increasing order. */
  function LocatedBelow(dom: map<string, nat>, paths: seq<PathEntry>, m: nat): (ix: seq<nat>)
    requires m <= |paths|
    ensures forall k :: 0 <= k < |ix| ==> ix[k] < m
    ensures forall k, l :: 0 <= k < l < |ix| ==> ix[k] < ix[l]
  {
    if m == 0 then []
    else LocatedBelow(dom, paths, m - 1) + (if Reached(dom, paths, m - 1) then [m - 1] else [])
  }

  /** The positions of the paths that find their element when reached. */
  function Located(dom: map<string, nat>, paths: seq<PathEntry>): seq<nat>
  {
    LocatedBelow(dom, paths, |paths|)
  }

  lemma {:induction false} LocatedBelowIff(dom: map<string, nat>, paths: seq<PathEntry>, m: nat)
    requires m <= |paths|
    ensures forall j :: 0 <= j < m ==> (j in LocatedBelow(dom, paths, m) <==> Reached(dom, paths, j))
  {
    if m > 0 {
      LocatedBelowIff(dom, paths, m - 1);
    }
  }

  /** A position is located exactly when its path finds its element on the
      page as it is by then. */
  lemma LocatedIff(dom: map<string, nat>, paths: seq<PathEntry>)
    ensures forall j :: 0 <= j < |paths| ==> (j in Located(dom, paths) <==> Reached(dom, paths, j))
  {
    LocatedBelowIff(dom, paths, |paths|);
  }

  lemma {:induction false} LocatedBelowPrefix(dom: map<string, nat>, paths: seq<PathEntry>, n: nat, m: nat)
    requires m <= n <= |paths|
    ensures LocatedBelow(dom, paths[..n], m) == LocatedBelow(dom, paths, m)
  {
    if m > 0 {
      LocatedBelowPrefix(dom, paths, n, m - 1);
      ReachedPrefix(dom, paths, n);
    }
  }

  /** Every write goes to the element of one of the paths, with that path's
      template substituted. */
  lemma {:induction false} RenderTargetsPaths(groups: seq<Group>, states: map<nat, JsValue>, dom: map<string, nat>, paths: seq<PathEntry>)
    ensures forall w :: w in RenderPaths(groups, states, dom, paths).writes ==>
      exists j :: (0 <= j < |paths| && ElementAt(dom, paths[j].location) == Some(w.element)
                   && Substitute(groups, states, paths[j].value) == Success(w.text))
  {
    if paths != [] {
      var init := paths[..|paths| - 1];
      RenderTargetsPaths(groups, states, dom, init);
      RenderDomSub(groups, states, dom, init);
      forall w | w in RenderPaths(groups, states, dom, paths).writes
        ensures exists j :: (0 <= j < |paths| && ElementAt(dom, paths[j].location) == Some(w.element)
                             && Substitute(groups, states, paths[j].value) == Success(w.text))
      {
        if w in RenderPaths(groups, states, dom, init).writes {
          var j :| 0 <= j < |init| && ElementAt(dom, init[j].location) == Some(w.element)
            && Substitute(groups, states, init[j].value) == Success(w.text);
          assert init[j] == paths[j];
        } else {
          assert ElementAt(dom, paths[|paths| - 1].location) == Some(w.element);
        }
      }
    }
  }

  /** Every path that finds its element has a template that substitutes. */
  predicate AllSubstitute(groups: seq<Group>, states: map<nat, JsValue>, dom: map<string, nat>, paths: seq<PathEntry>)
  {
    forall j :: 0 <= j < |paths| && Reached(dom, paths, j) ==> Substitute(groups, states, paths[j].value).Success?
  }

  /** A run fails exactly when the template of some found element does not
      substitute. */
  lemma {:induction false} RenderFailsIff(groups: seq<Group>, states: map<nat, JsValue>, dom: map<string, nat>, paths: seq<PathEntry>)
    ensures RenderPaths(groups, states, dom, paths).error.None? <==> AllSubstitute(groups, states, dom, paths)
  {
    if paths != [] {
      var n := |paths| - 1;
      var init := paths[..n];
      RenderFailsIff(groups, states, dom, init);
      RenderPage(groups, states, dom, init);
      AllSubstituteStep(groups, states, dom, paths);
      assert paths[..n] == init;
      var prev := RenderPaths(groups, states, dom, init);
      if prev.error.None? {
        assert ElementAt(prev.dom, paths[n].location).Some? <==> Reached(dom, paths, n);
      }
    }
  }

  lemma AllSubstituteStep(groups: seq<Group>, states: map<nat, JsValue>, dom: map<string, nat>, paths: seq<PathEntry>)
    requires paths != []
    ensures AllSubstitute(groups, states, dom, paths) <==>
      AllSubstitute(groups, states, dom, paths[..|paths| - 1])
      && (Reached(dom, paths, |paths| - 1) ==> Substitute(groups, states, paths[|paths| - 1].value).Success?)
  {
    ReachedPrefix(dom, paths, |paths| - 1);
  }

  /** The k-th write goes to the element of the path at position `ix[k]`,
      with that path's substituted template. */
  predicate WritesMatch(groups: seq<Group>, states: map<nat, JsValue>, dom: map<string, nat>,
                        paths: seq<PathEntry>, ix: seq<nat>, writes: seq<Write>)
  {
    |writes| == |ix|
    && forall k :: 0 <= k < |ix| ==>
         ix[k] < |paths| && PageKey(paths[ix[k]].location) in dom
         && Substitute(groups, states, paths[ix[k]].value).Success?
         && writes[k] == Write(dom[PageKey(paths[ix[k]].location)], Substitute(groups, states, paths[ix[k]].value).value)
  }

  lemma WritesMatchLift(groups: seq<Group>, states: map<nat, JsValue>, dom: map<string, nat>,
                        paths: seq<PathEntry>, n: nat, ix: seq<nat>, writes: seq<Write>)
    requires n <= |paths| && WritesMatch(groups, states, dom, paths[..n], ix, writes)
    ensures WritesMatch(groups, states, dom, paths, ix, writes)
  {
    assert forall k :: 0 <= k < |ix| ==> paths[..n][ix[k]] == paths[ix[k]];
  }

  lemma WritesMatchSnoc(groups: seq<Group>, states: map<nat, JsValue>, dom: map<string, nat>,
                        paths: seq<PathEntry>, ix: seq<nat>, writes: seq<Write>, j: nat, w: Write)
    requires WritesMatch(groups, states, dom, paths, ix, writes)
    requires j < |paths| && PageKey(paths[j].location) in dom && Substitute(groups, states, paths[j].value).Success?
    requires w == Write(dom[PageKey(paths[j].location)], Substitute(groups, states, paths[j].value).value)
    ensures WritesMatch(groups, states, dom, paths, ix + [j], writes + [w])
  {
  }

  /** A run that completes writes once per found element, in path order,
      each element receiving its own substituted template. */
  lemma {:induction false} RenderWritesLocated(groups: seq<Group>, states: map<nat, JsValue>, dom: map<string, nat>, paths: seq<PathEntry>)
    requires RenderPaths(groups, states, dom, paths).error.None?
    ensures AllSubstitute(groups, states, dom, paths)
    ensures WritesMatch(groups, states, dom, paths, Located(dom, paths), RenderPaths(groups, states, dom, paths).writes)
  {
    RenderFailsIff(groups, states, dom, paths);
    if paths != [] {
      var n := |paths| - 1;
      var init := paths[..n];
      var prev := RenderPaths(groups, states, dom, init);
      assert prev.error.None?;
      RenderWritesLocated(groups, states, dom, init);
      WritesMatchLift(groups, states, dom, paths, n, Located(dom, init), prev.writes);
      LocatedBelowPrefix(dom, paths, n, n);
      if Reached(dom, paths, n) {
        RenderPage(groups, states, dom, init);
        PageAfterSub(dom, init);
        var key := PageKey(paths[n].location);
        assert paths[..n] == init;
        assert key in prev.dom && prev.dom[key] == dom[key];
        WritesMatchSnoc(groups, states, dom, paths, Located(dom, init), prev.writes, n,
                        Write(dom[key], Substitute(groups, states, paths[n].value).value));
      } else {
        RenderPage(groups, states, dom, init);
        assert paths[..n] == init;
      }
    }
  }

  // ---------------------------------------------------------------------
  // The store

  /** The module-level globals of the page script: the state counter, the
      `states` Map and the `statePaths` the server embedded; `dom` stands for
      the page as `document.evaluate` sees it, and `writes` records the
      `innerText` assignments made. */
  class Store {
    var stateCount: nat
    var states: map<nat, JsValue>
    const statePaths: seq<Group>
    var dom: map<string, nat>
    var writes: seq<Write>

    /** Exactly the numbers handed out so far have a stored value. */
    ghost predicate Valid()
      reads this
    {
      forall n: nat :: n in states <==> n < stateCount
    }

    constructor(statePaths: seq<Group>, dom: map<string, nat>)
      ensures Valid()
      ensures stateCount == 0 && states == map[] && writes == []
      ensures this.statePaths == statePaths && this.dom == dom
    {
      stateCount := 0;
      states := map[];
      this.statePaths := statePaths;
      this.dom := dom;
      writes := [];
    }

    /** `state(initialValue)`: a new state number, which the returned handle
        carries. */
    method State(initialValue: JsValue) returns (stateNumber: nat)
      requires Valid()
      modifies this
      ensures Valid()
      ensures stateNumber == old(stateCount) && stateNumber !in old(states)
      ensures stateCount == old(stateCount) + 1
      ensures states == old(states)[stateNumber := initialValue]
      ensures writes == old(writes) && dom == old(dom)
    {
      stateNumber := stateCount;
      stateCount := stateCount + 1;
      states := states[stateNumber := initialValue];
    }

    /** The `get` trap: whatever property is read, the handle answers with
        the value stored for its state. */
    method Get(stateNumber: nat, prop: string) returns (v: JsValue)
      requires Valid() && stateNumber < stateCount
      ensures v == states[stateNumber]
    {
      v := StoredValue(states, stateNumber);
    }

    /** `updateStateUI(n)`: the writes made and the page left behind are
        those of UpdateUI, also when a substitution throws part-way. */
    method UpdateStateUI(n: nat) returns (r: Result<(), ClientError>)
      modifies this`writes, this`dom
      ensures writes == old(writes) + UpdateUI(statePaths, states, old(dom), n).writes
      ensures dom == UpdateUI(statePaths, states, old(dom), n).dom
      ensures r == (if UpdateUI(statePaths, states, old(dom), n).error.None? then Success(())
                    else Failure(UpdateUI(statePaths, states, old(dom), n).error.value))
    {
      var g := FindByNumber(statePaths, n);
      if g.None? {
        return Failure(NoGroupForState(n));
      }
      var paths := statePaths[g.value].paths;
      ghost var start := writes;
      ghost var page := dom;
      var i := 0;
      while i < |paths|
        invariant 0 <= i <= |paths|
        invariant RenderPaths(statePaths, states, page, paths[..i]).error.None?
        invariant writes == start + RenderPaths(statePaths, states, page, paths[..i]).writes
        invariant dom == RenderPaths(statePaths, states, page, paths[..i]).dom
      {
        var path := paths[i];
        RenderStep(statePaths, states, page, paths, i);
        var location := "/html/body" + path.location;
        assert location == PageKey(paths[i].location);
        if location in dom {
          var element := dom[location];
          var text := Substitute(statePaths, states, path.value);
          if text.Failure? {
            RenderStops(statePaths, states, page, paths, i + 1);
            return Failure(text.error);
          }
          writes := writes + [Write(element, text.value)];
          dom := Detach(dom, location);
        }
        i := i + 1;
      }
      assert paths[..i] == paths;
      r := Success(());
    }

    /** The `set` trap: assigning `value` stores it and re-renders the
        state's elements; any other key is ignored. The trap answers true
        unless the re-render throws. */
    method Set(stateNumber: nat, key: string, value: JsValue) returns (r: Result<bool, ClientError>)
      requires Valid() && stateNumber < stateCount
      modifies this
      ensures Valid() && stateCount == old(stateCount)
      ensures key != "value" ==> states == old(states) && writes == old(writes) && dom == old(dom) && r == Success(true)
      ensures key == "value" ==> states == old(states)[stateNumber := value]
      ensures key == "value" ==> writes == old(writes) + UpdateUI(statePaths, states, old(dom), stateNumber).writes
      ensures key == "value" ==> dom == UpdateUI(statePaths, states, old(dom), stateNumber).dom
      ensures key == "value" ==>
        (r == if UpdateUI(statePaths, states, old(dom), stateNumber).error.None? then Success(true)
              else Failure(UpdateUI(statePaths, states, old(dom), stateNumber).error.value))
    {
      if key == "value" {
        states := states[stateNumber := value];
        var u := UpdateStateUI(stateNumber);
        r := if u.Failure? then Failure(u.error) else Success(true);
      } else {
        r := Success(true);
      }
    }
  }

  /** One more path: skipped when its element is not found on the page as
      it is by then, otherwise its substituted template is written (detaching
      what lay below) or the run stops with the error. */
  lemma RenderStep(groups: seq<Group>, states: map<nat, JsValue>, dom: map<string, nat>, paths: seq<PathEntry>, i: nat)
    requires i < |paths| && RenderPaths(groups, states, dom, paths[..i]).error.None?
    ensures RenderPaths(groups, states, dom, paths[..i + 1]) ==
      var prev := RenderPaths(groups, states, dom, paths[..i]);
      match ElementAt(prev.dom, paths[i].location)
      case None => prev
      case Some(e) =>
        match Substitute(groups, states, paths[i].value)
        case Failure(err) => Outcome(prev.writes, Some(err), prev.dom)
        case Success(t) => Outcome(prev.writes + [Write(e, t)], None, Detach(prev.dom, PageKey(paths[i].location)))
  {
    assert paths[..i + 1][..i] == paths[..i];
  }

  /** Once a run has stopped, later paths change nothing. */
  lemma {:induction false} RenderStops(groups: seq<Group>, states: map<nat, JsValue>, dom: map<string, nat>, paths: seq<PathEntry>, i: nat)
    requires i <= |paths| && RenderPaths(groups, states, dom, paths[..i]).error.Some?
    ensures RenderPaths(groups, states, dom, paths) == RenderPaths(groups, states, dom, paths[..i])
    decreases |paths| - i
  {
    if i < |paths| {
      assert paths[..i + 1][..i] == paths[..i];
      RenderStops(groups, states, dom, paths, i + 1);
    } else {
      assert paths[..i] == paths;
    }
  }
}
