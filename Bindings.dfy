/** The tables the server builds and ships to the page: the state table and
    the binding index (`statePaths`), with the lookups both sides perform on
    them. */
module Bindings {
  import opened Js

  /** One declared state: `{id, name, value}`. */
  datatype State = State(id: nat, name: string, value: JsValue)

  /** One bound element: its locator and its raw innerHTML template. */
  datatype PathEntry = PathEntry(location: string, value: string)

  /** The bindings of one state: `{stateNumber, stateName, paths}`. */
  datatype Group = Group(stateNumber: nat, stateName: string, paths: seq<PathEntry>)

  /** The placeholder `{name}` that binds a text to the state `name`. */
  function Placeholder(name: string): string
  {
    "{" + name + "}"
  }

  /** `statePaths.find(sp => sp.stateNumber === n)`, as the position of the
      group found. */
  function FindByNumber(groups: seq<Group>, n: nat): (r: Option<nat>)
    ensures r.Some? ==> r.value < |groups| && groups[r.value].stateNumber == n
    ensures r.Some? ==> forall j :: 0 <= j < r.value ==> groups[j].stateNumber != n
    ensures r.None? <==> forall j :: 0 <= j < |groups| ==> groups[j].stateNumber != n
  {
    if groups == [] then None
    else if groups[0].stateNumber == n then Some(0)
    else match FindByNumber(groups[1..], n)
      case None => None
      case Some(k) => Some(k + 1)
  }

  /** `statePaths.find(sp => sp.stateName === name)`, as the position of the
      group found. */
  function FindByName(groups: seq<Group>, name: string): (r: Option<nat>)
    ensures r.Some? ==> r.value < |groups| && groups[r.value].stateName == name
    ensures r.Some? ==> forall j :: 0 <= j < r.value ==> groups[j].stateName != name
    ensures r.None? <==> forall j :: 0 <= j < |groups| ==> groups[j].stateName != name
  {
    if groups == [] then None
    else if groups[0].stateName == name then Some(0)
    else match FindByName(groups[1..], name)
      case None => None
      case Some(k) => Some(k + 1)
  }

  /** A group appended after groups that do not carry its number is the one
      found for that number. */
  lemma {:induction false} FindByNumberAppended(groups: seq<Group>, g: Group, n: nat)
    requires FindByNumber(groups, n).None? && g.stateNumber == n
    ensures FindByNumber(groups + [g], n) == Some(|groups|)
  {
    if groups != [] {
      assert (groups + [g])[1..] == groups[1..] + [g];
      FindByNumberAppended(groups[1..], g, n);
    }
  }
}
