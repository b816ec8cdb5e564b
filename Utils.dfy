/** utils.ts: a second copy of the structural locator `getXPath`, and
    `parseObjectExpression`, which turns a `state({...})` declarator's object
    literal into a value tree. */
module Utils {
  import opened Js
  import opened HtmlTree
  import opened AcornAst

  // ---------------------------------------------------------------------
  // Structural locator (the same loop as in index.ts)

  /** The `index` of the node among its same-tag element siblings. */
  method SiblingIndex(doc: Doc, n: nat) returns (index: nat)
    requires Wf(doc) && n < |doc.nodes|
    ensures index == Ordinal(doc, n)
  {
    index := 1;
    var parent := doc.nodes[n].parent;
    if parent.Some? {
      assert n > 0 && parent.value == ParentOf(doc, n) && ChildrenWf(doc, parent.value);
      var children := SameTagIn(doc, doc.nodes[parent.value].children, TagName(doc, n));
      var i := 0;
      while i < |children|
        invariant 0 <= i <= |children| && index == 1 + i
        invariant n !in children[..i]
      {
        var sibling := children[i];
        if sibling == n {
          break;
        }
        index := index + 1;
        i := i + 1;
        assert children[..i] == children[..i - 1] + [children[i - 1]];
      }
      IndexOrLengthAt(children, n, i);
    } else {
      HasParentIffNotRoot(doc, n);
    }
  }

  /** `getXPath` of utils.ts: one `tag[index]` segment per tagged node on the
      climb, outermost first; a missing node throws "Invalid node provided.". */
  method GetXPath(doc: Doc, node: Option<nat>) returns (r: Result<string, string>)
    requires Wf(doc)
    requires node.Some? ==> node.value < |doc.nodes|
    ensures node.None? ==> r == Failure("Invalid node provided.")
    ensures node.Some? ==> r == Success(XPath(doc, node.value))
  {
    if node.None? {
      return Failure("Invalid node provided.");
    }
    var path := "";
    var cur: Option<nat> := node;
    ghost var below: seq<string> := [];
    while cur.Some?
      invariant cur.Some? ==> cur.value < |doc.nodes| && Segments(doc, cur.value) + below == Segments(doc, node.value)
      invariant cur.Some? && !Tagged(doc, cur.value) ==> below == []
      invariant cur.None? ==> below == Segments(doc, node.value)
      invariant SlashFree(below) && path == JoinSegs(below)
      decreases if cur.Some? then cur.value + 1 else 0
    {
      var n := cur.value;
      var parent := doc.nodes[n].parent;
      var index := SiblingIndex(doc, n);
      var nodeXPath := if Tagged(doc, n) then Lower(doc.nodes[n].kind.tag) + "[" + Decimal(index) + "]" else "";
      ClimbStep(doc, n, below, path);
      ClimbNext(doc, n, below, Segments(doc, node.value));
      path := nodeXPath + (if path != "" then "/" + path else "");
      below := OwnSegment(doc, n) + below;
      cur := if parent.Some? && parent.value < |doc.nodes| && Tagged(doc, parent.value) then parent else None;
    }
    r := Success("/" + path);
  }

  // ---------------------------------------------------------------------
  // Object-literal state parser

  datatype ParseError =
    | NotObjectExpression   // Error('Node is not an ObjectExpression')
    | ArgumentMissing       // TypeError: the call has no first argument

  /** `key` when the property's key is a plain identifier. */
  function IdentKey(e: PropEntry): Option<string>
  {
    if e.Property? && e.key.Identifier? then Some(e.key.name) else None
  }

  /** The value of a field, if the object has it. */
  function Lookup(fields: seq<Field>, k: string): Option<JsValue>
  {
    if fields == [] then None
    else if fields[0].key == k then Some(fields[0].val)
    else Lookup(fields[1..], k)
  }

  function Keys(fields: seq<Field>): set<string>
  {
    set i | 0 <= i < |fields| :: fields[i].key
  }

  lemma KeysCons(f: Field, fields: seq<Field>)
    ensures Keys([f] + fields) == {f.key} + Keys(fields)
  {
    var s := [f] + fields;
    forall x | x in Keys(s)
      ensures x in {f.key} + Keys(fields)
    {
      var i :| 0 <= i < |s| && s[i].key == x;
      if i > 0 { assert fields[i - 1].key == x; }
    }
    forall x | x in Keys(fields)
      ensures x in Keys(s)
    {
      var i :| 0 <= i < |fields| && fields[i].key == x;
      assert s[i + 1].key == x;
    }
    assert s[0].key == f.key;
  }

  predicate UniqueKeys(fields: seq<Field>)
  {
    forall i, j :: 0 <= i < j < |fields| ==> fields[i].key != fields[j].key
  }

  /** `obj[k] = v`: an existing key keeps its place and takes the new value,
      a new key is added at the end. */
  function Assign(fields: seq<Field>, k: string, v: JsValue): seq<Field>
  {
    if fields == [] then [Field(k, v)]
    else if fields[0].key == k then [Field(k, v)] + fields[1..]
    else [fields[0]] + Assign(fields[1..], k, v)
  }

  lemma {:induction false} AssignKeys(fields: seq<Field>, k: string, v: JsValue)
    ensures Keys(Assign(fields, k, v)) == Keys(fields) + {k}
  {
    if fields == [] {
      KeysCons(Field(k, v), []);
      assert [Field(k, v)] + [] == [Field(k, v)];
    } else {
      KeysCons(fields[0], fields[1..]);
      assert [fields[0]] + fields[1..] == fields;
      if fields[0].key == k {
        KeysCons(Field(k, v), fields[1..]);
      } else {
        AssignKeys(fields[1..], k, v);
        KeysCons(fields[0], Assign(fields[1..], k, v));
      }
    }
  }

  lemma HeadKeyFresh(fields: seq<Field>)
    requires UniqueKeys(fields) && fields != []
    ensures fields[0].key !in Keys(fields[1..]) && UniqueKeys(fields[1..])
  {
    var tail := fields[1..];
    forall i | 0 <= i < |tail| ensures tail[i].key != fields[0].key {
      assert tail[i] == fields[i + 1];
    }
    forall i, j | 0 <= i < j < |tail| ensures tail[i].key != tail[j].key {
      assert tail[i] == fields[i + 1] && tail[j] == fields[j + 1];
    }
  }

  lemma UniqueCons(f: Field, rest: seq<Field>)
    requires UniqueKeys(rest) && f.key !in Keys(rest)
    ensures UniqueKeys([f] + rest)
  {
    var r := [f] + rest;
    forall i, j | 0 <= i < j < |r| ensures r[i].key != r[j].key {
      assert r[j] == rest[j - 1];
      if i > 0 { assert r[i] == rest[i - 1]; }
    }
  }

  /** Assignment never creates a second field with the same key. */
  lemma {:induction false} AssignUnique(fields: seq<Field>, k: string, v: JsValue)
    requires UniqueKeys(fields)
    ensures UniqueKeys(Assign(fields, k, v))
  {
    if fields == [] {
    } else {
      HeadKeyFresh(fields);
      var tail := fields[1..];
      if fields[0].key == k {
        KeysCons(fields[0], tail);
        UniqueCons(Field(k, v), tail);
      } else {
        AssignUnique(tail, k, v);
        AssignKeys(tail, k, v);
        UniqueCons(fields[0], Assign(tail, k, v));
      }
    }
  }

  /** After `obj[k] = v`, key `k` reads `v` and every other key reads as
      before. */
  lemma {:induction false} AssignLookup(fields: seq<Field>, k: string, v: JsValue, k': string)
    ensures Lookup(Assign(fields, k, v), k') == if k' == k then Some(v) else Lookup(fields, k')
  {
    if fields != [] && fields[0].key != k {
      AssignLookup(fields[1..], k, v, k');
    }
  }

  /** The value stored for a property: a literal's value, a nested object
      literal converted recursively, anything else `undefined`. */
  function ValueOf(v: Expr): JsValue
    decreases v, 1
  {
    if v.Literal? then v.value
    else if v.ObjectExpression? then Obj(ParseEntries(v, |v.properties|))
    else Undefined
  }

  /** `parseObject`: the `forEach` over the first `n` entries. Spread
      entries and non-identifier keys are skipped. */
  function ParseEntries(obj: Expr, n: nat): seq<Field>
    requires obj.ObjectExpression? && n <= |obj.properties|
    decreases obj, 0, n
  {
    if n == 0 then []
    else
      var acc := ParseEntries(obj, n - 1);
      var e := obj.properties[n - 1];
      if e.SpreadElement? then acc
      else
        var value := ValueOf(e.value);
        if e.key.Identifier? then Assign(acc, e.key.name, value) else acc
  }

  function ParseObject(obj: Expr): seq<Field>
    requires obj.ObjectExpression?
  {
    ParseEntries(obj, |obj.properties|)
  }

  /** `parseObjectExpression`: `null` for a missing declarator or initialiser,
      an error unless the initialiser is a call whose first argument is an
      object literal. The callee is not checked. */
  function ParseObjectExpression(node: Option<Declarator>): (r: Result<JsValue, ParseError>)
    ensures node.None? || node.value.init.None? ==> r == Success(Null)
    ensures r.Success? && r.value != Null ==> r.value.Obj? && UniqueKeys(r.value.fields)
    ensures r.Success? && r.value != Null ==>
      node.Some? && node.value.init.Some? && node.value.init.value.CallExpression?
      && |node.value.init.value.arguments| > 0 && node.value.init.value.arguments[0].ObjectExpression?
      && r.value == Obj(ParseObject(node.value.init.value.arguments[0]))
    ensures r == Failure(ArgumentMissing) <==>
      node.Some? && node.value.init.Some? && node.value.init.value.CallExpression? && node.value.init.value.arguments == []
    ensures r == Failure(NotObjectExpression) <==>
      node.Some? && node.value.init.Some? &&
      (!node.value.init.value.CallExpression? ||
       (node.value.init.value.arguments != [] && !node.value.init.value.arguments[0].ObjectExpression?))
  {
    if node.None? || node.value.init.None? then Success(Null)
    else
      var init := node.value.init.value;
      if !init.CallExpression? then Failure(NotObjectExpression)
      else if |init.arguments| == 0 then Failure(ArgumentMissing)
      else if !init.arguments[0].ObjectExpression? then Failure(NotObjectExpression)
      else
        ParseEntriesUnique(init.arguments[0], |init.arguments[0].properties|);
        Success(Obj(ParseObject(init.arguments[0])))
  }

  // ---------------------------------------------------------------------
  // Properties of the object-literal parser

  /** The position of the last of the first `n` entries with identifier key
      `k`. */
  function LastWithKey(ps: seq<PropEntry>, n: nat, k: string): (r: Option<nat>)
    requires n <= |ps|
    ensures r.Some? ==> r.value < n && IdentKey(ps[r.value]) == Some(k)
    ensures r.Some? ==> forall j :: r.value < j < n ==> IdentKey(ps[j]) != Some(k)
    ensures r.None? ==> forall j :: 0 <= j < n ==> IdentKey(ps[j]) != Some(k)
  {
    if n == 0 then None
    else if IdentKey(ps[n - 1]) == Some(k) then Some(n - 1)
    else LastWithKey(ps, n - 1, k)
  }

  /** No key occurs twice in a parsed object. */
  lemma {:induction false} ParseEntriesUnique(obj: Expr, n: nat)
    requires obj.ObjectExpression? && n <= |obj.properties|
    ensures UniqueKeys(ParseEntries(obj, n))
  {
    if n > 0 {
      ParseEntriesUnique(obj, n - 1);
      var e := obj.properties[n - 1];
      if e.Property? && e.key.Identifier? {
        AssignUnique(ParseEntries(obj, n - 1), e.key.name, ValueOf(e.value));
      }
    }
  }

  /** The keys of a parsed object are exactly the identifier keys of its
      `Property` entries. */
  lemma {:induction false} ParseEntriesKeys(obj: Expr, n: nat)
    requires obj.ObjectExpression? && n <= |obj.properties|
    ensures Keys(ParseEntries(obj, n)) == set j | 0 <= j < n && IdentKey(obj.properties[j]).Some? :: IdentKey(obj.properties[j]).value
  {
    if n > 0 {
      ParseEntriesKeys(obj, n - 1);
      var ps := obj.properties;
      var before := set j | 0 <= j < n - 1 && IdentKey(ps[j]).Some? :: IdentKey(ps[j]).value;
      var now := set j | 0 <= j < n && IdentKey(ps[j]).Some? :: IdentKey(ps[j]).value;
      if IdentKey(ps[n - 1]).Some? {
        AssignKeys(ParseEntries(obj, n - 1), IdentKey(ps[n - 1]).value, ValueOf(ps[n - 1].value));
        assert now == before + {IdentKey(ps[n - 1]).value};
      } else {
        assert now == before;
      }
    }
  }

  /** Entries are applied in source order, so each key holds the value of the
      last entry that names it; a key no entry names is absent. */
  lemma {:induction false} ParseEntriesLastWins(obj: Expr, n: nat, k: string)
    requires obj.ObjectExpression? && n <= |obj.properties|
    ensures Lookup(ParseEntries(obj, n), k) ==
      match LastWithKey(obj.properties, n, k)
      case None => None
      case Some(j) => Some(ValueOf(obj.properties[j].value))
  {
    if n > 0 {
      ParseEntriesLastWins(obj, n - 1, k);
      var e := obj.properties[n - 1];
      if e.Property? && e.key.Identifier? {
        AssignLookup(ParseEntries(obj, n - 1), e.key.name, ValueOf(e.value), k);
      }
    }
  }

  /** Copying mirrors the input: a literal property is copied verbatim, a
      nested object literal becomes a nested object whose keys are looked up
      the same way, and any other value is `undefined`. */
  lemma PropertyValue(obj: Expr, k: string)
    requires obj.ObjectExpression?
    ensures match LastWithKey(obj.properties, |obj.properties|, k)
      case None => Lookup(ParseObject(obj), k) == None
      case Some(j) =>
        var v := obj.properties[j].value;
        (v.Literal? ==> Lookup(ParseObject(obj), k) == Some(v.value))
        && (v.ObjectExpression? ==> Lookup(ParseObject(obj), k) == Some(Obj(ParseObject(v))))
        && (!v.Literal? && !v.ObjectExpression? ==> Lookup(ParseObject(obj), k) == Some(Undefined))
  {
    ParseEntriesLastWins(obj, |obj.properties|, k);
  }
}
