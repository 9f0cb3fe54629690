/** Import-time cycle detection of internal/op/backup.go: the reference map of the
    state after import, and a three-colour depth-first search over it. */
module GroupCycles {

  /** Group name to the names its reference members point at. */
  type Graph = map<string, set<string>>

  /** References to unknown groups are not followed. */
  predicate Edge(g: Graph, a: string, b: string) {
    a in g && b in g && b in g[a]
  }

  predicate Path(g: Graph, p: seq<string>) {
    forall i :: 0 <= i < |p| - 1 ==> Edge(g, p[i], p[i + 1])
  }

  predicate ClosedPath(g: Graph, p: seq<string>) {
    |p| >= 2 && p[0] == p[|p| - 1] && Path(g, p)
  }

  ghost predicate Acyclic(g: Graph) {
    forall p :: !ClosedPath(g, p)
  }

  ghost predicate Distinct(s: seq<string>) {
    forall i, j :: 0 <= i < j < |s| ==> s[i] != s[j]
  }

  /** Every edge out of a listed node leads to an earlier listed node. */
  ghost predicate Finished(g: Graph, order: seq<string>) {
    forall i, b :: 0 <= i < |order| && Edge(g, order[i], b) ==> b in order[..i]
  }

  /** Along a path through a finishing order the position strictly falls. */
  lemma {:induction false} PathDescends(g: Graph, order: seq<string>, p: seq<string>, i: nat)
    requires Finished(g, order) && |p| >= 2 && Path(g, p)
    requires i < |order| && order[i] == p[0]
    ensures p[|p| - 1] in order[..i]
    decreases |p|
  {
    assert Edge(g, p[0], p[1]);
    if |p| > 2 {
      var j :| 0 <= j < i && order[j] == p[1];
      forall k | 0 <= k < |p[1..]| - 1 ensures Edge(g, p[1..][k], p[1..][k + 1]) {
        assert Edge(g, p[k + 1], p[k + 2]);
      }
      PathDescends(g, order, p[1..], j);
      assert order[..j] <= order[..i];
    }
  }

  lemma FinishedIsAcyclic(g: Graph, order: seq<string>)
    requires Finished(g, order) && Distinct(order) && forall n :: n in g ==> n in order
    ensures Acyclic(g)
  {
    forall p ensures !ClosedPath(g, p) {
      if ClosedPath(g, p) {
        assert Edge(g, p[0], p[1]);
        var i :| 0 <= i < |order| && order[i] == p[0];
        PathDescends(g, order, p, i);
      }
    }
  }

  datatype Color = Gray | Black

  /** Gray names are the stack, black names are finished; the stack is a path; every
      report is a closed path; without a report the black names are in finishing order. */
  ghost predicate Inv(refs: Graph, color: map<string, Color>, stack: seq<string>, cycles: seq<seq<string>>, finished: seq<string>) {
    && Distinct(stack) && Distinct(finished)
    && (forall n :: n in color ==> n in refs)
    && (forall n :: n in stack <==> n in color && color[n] == Gray)
    && (forall n :: n in finished <==> n in color && color[n] == Black)
    && Path(refs, stack)
    && (forall c :: c in cycles ==> ClosedPath(refs, c))
    && (cycles == [] ==> Finished(refs, finished))
  }

  lemma PushKeepsInv(refs: Graph, color: map<string, Color>, stack: seq<string>, cycles: seq<seq<string>>, finished: seq<string>, name: string)
    requires Inv(refs, color, stack, cycles, finished) && name in refs && name !in color
    requires stack != [] ==> Edge(refs, stack[|stack| - 1], name)
    ensures Inv(refs, color[name := Gray], stack + [name], cycles, finished)
  {
    assert forall i :: 0 <= i < |stack| ==> stack[i] in stack;
  }

  lemma PopKeepsInv(refs: Graph, color: map<string, Color>, stack: seq<string>, cycles: seq<seq<string>>, finished: seq<string>, name: string)
    requires Inv(refs, color, stack + [name], cycles, finished)
    requires cycles == [] ==> forall b :: Edge(refs, name, b) ==> b in finished
    ensures Inv(refs, color[name := Black], stack, cycles, finished + [name])
  {
    assert (stack + [name])[|stack|] == name;
    assert forall i :: 0 <= i < |stack| ==> (stack + [name])[i] == stack[i];
    assert forall n :: n in stack + [name] <==> n in stack || n == name;
    forall i | 0 <= i < |stack| - 1 ensures Edge(refs, stack[i], stack[i + 1]) {
      assert Edge(refs, (stack + [name])[i], (stack + [name])[i + 1]);
    }
    FinishedSnoc(refs, finished, name);
    assert forall i :: 0 <= i < |finished| ==> finished[i] in finished;
  }

  lemma FinishedSnoc(g: Graph, order: seq<string>, name: string)
    ensures Finished(g, order) && (forall b :: Edge(g, name, b) ==> b in order) ==> Finished(g, order + [name])
  {
    assert forall i :: 0 <= i < |order| ==> (order + [name])[..i] == order[..i];
    assert (order + [name])[..|order|] == order;
  }

  /** All followed references of name are finished. */
  ghost predicate Explored(g: Graph, name: string, todo: set<string>, finished: seq<string>) {
    forall b :: Edge(g, name, b) && b !in todo ==> b in finished
  }

  lemma ExploredStep(g: Graph, name: string, todo: set<string>, ref: string, before: seq<string>, after: seq<string>)
    requires before <= after
    ensures Explored(g, name, todo, before) && (ref in g ==> ref in after) ==> Explored(g, name, todo - {ref}, after)
  {
    assert forall b :: b in before ==> b in after;
  }

  lemma AllExplored(g: Graph, name: string, finished: seq<string>)
    ensures Explored(g, name, {}, finished) ==> forall b :: Edge(g, name, b) ==> b in finished
  {
  }

  lemma FollowedIsEdge(g: Graph, a: string, b: string)
    requires a in g && b in g && b in g[a]
    ensures Edge(g, a, b)
  {
  }

  lemma NothingExplored(g: Graph, name: string, finished: seq<string>)
    requires name in g
    ensures Explored(g, name, g[name], finished)
  {
  }

  lemma InStackIffGray(refs: Graph, color: map<string, Color>, stack: seq<string>, cycles: seq<seq<string>>, finished: seq<string>, name: string)
    requires Inv(refs, color, stack, cycles, finished) && name in color
    ensures name in stack <==> color[name] == Gray
    ensures name in finished <==> color[name] == Black
  {
  }

  lemma WhiteIsOffStack(refs: Graph, color: map<string, Color>, stack: seq<string>, cycles: seq<seq<string>>, finished: seq<string>, name: string)
    requires Inv(refs, color, stack, cycles, finished) && name !in color
    ensures name !in stack && name !in finished
  {
  }

  /** The search state of detectGroupCycles. A name without a colour is white. */
  class CycleSearch {
    const refs: Graph
    var color: map<string, Color>
    var stack: seq<string>
    var cycles: seq<seq<string>>
    ghost var finished: seq<string>

    ghost predicate Valid()
      reads this
    {
      Inv(refs, color, stack, cycles, finished)
    }

    constructor (refs: Graph)
      ensures Valid() && this.refs == refs && color == map[] && stack == [] && cycles == []
    {
      this.refs := refs;
      color, stack, cycles, finished := map[], [], [], [];
    }

    /** The stack from the first occurrence of name on, closed by name. */
    method Report(name: string)
      requires Valid() && name in stack && Edge(refs, stack[|stack| - 1], name)
      modifies `cycles
      ensures Valid() && |cycles| == |old(cycles)| + 1 && old(cycles) <= cycles
    {
      var idx := 0;
      while idx < |stack| && stack[idx] != name
        invariant 0 <= idx <= |stack| && name !in stack[..idx]
      {
        idx := idx + 1;
      }
      assert idx < |stack| by { assert stack[..|stack|] == stack; }
      var cycle := stack[idx..] + [name];
      forall i | 0 <= i < |cycle| - 1 ensures Edge(refs, cycle[i], cycle[i + 1]) {
        if i < |stack| - idx - 1 {
          assert Edge(refs, stack[idx + i], stack[idx + i + 1]);
        }
      }
      cycles := cycles + [cycle];
    }

    /** Explores everything reachable from name. Unless a cycle has been reported, name is
        finished afterwards. The order in which references are followed is left open. */
    method Visit(name: string) returns (onStack: bool)
      requires Valid() && name in refs
      requires stack != [] ==> Edge(refs, stack[|stack| - 1], name)
      modifies this
      ensures Valid() && stack == old(stack)
      ensures onStack == (name in old(stack))
      ensures old(cycles) <= cycles && old(finished) <= finished && old(color.Keys) <= color.Keys
      ensures name in color && (cycles == [] ==> name in finished)
      decreases refs.Keys - color.Keys, 0
    {
      hide Inv, Edge;
      if name in color {
        InStackIffGray(refs, color, stack, cycles, finished, name);
        if color[name] == Gray {
          Report(name);
          return true;
        }
        return false;
      }
      PushKeepsInv(refs, color, stack, cycles, finished, name);
      color := color[name := Gray];
      stack := stack + [name];
      assert color.Keys == old(color.Keys) + {name} && name in refs.Keys - old(color.Keys);
      FollowAll(name);
      PopKeepsInv(refs, color, old(stack), cycles, finished, name);
      stack := stack[..|stack| - 1];
      color := color[name := Black];
      finished := finished + [name];
      assert stack == old(stack);
      WhiteIsOffStack(refs, old(color), old(stack), old(cycles), old(finished), name);
      return false;
    }

    /** The loop over the references of the name on top of the stack. */
    method FollowAll(name: string)
      requires Valid() && name in refs && stack != [] && stack[|stack| - 1] == name
      modifies this
      ensures Valid() && stack == old(stack)
      ensures old(cycles) <= cycles && old(finished) <= finished && old(color.Keys) <= color.Keys
      ensures cycles == [] ==> forall b :: Edge(refs, name, b) ==> b in finished
      decreases refs.Keys - color.Keys, 1
    {
      hide Inv, Edge;
      var todo := refs[name];
      NothingExplored(refs, name, finished);
      while todo != {}
        invariant Valid() && stack == old(stack) && todo <= refs[name]
        invariant old(cycles) <= cycles && old(finished) <= finished && old(color.Keys) <= color.Keys
        invariant cycles == [] ==> Explored(refs, name, todo, finished)
        decreases todo
      {
        var ref :| ref in todo;
        ghost var before, rest := finished, todo;
        todo := todo - {ref};
        if ref in refs {
          FollowedIsEdge(refs, name, ref);
          var seen := Visit(ref);
        }
        ExploredStep(refs, name, rest, ref, before, finished);
      }
      AllExplored(refs, name, finished);
    }

    /** Visits every name. The source sorts the names for a stable report only. */
    method Detect()
      requires Valid() && color == map[] && stack == [] && cycles == []
      modifies this
      ensures forall c :: c in cycles ==> ClosedPath(refs, c)
      ensures cycles == [] <==> Acyclic(refs)
    {
      var names := refs.Keys;
      while names != {}
        invariant Valid() && stack == [] && names <= refs.Keys
        invariant forall n :: n in refs && n !in names ==> n in color
        invariant cycles == [] ==> forall n :: n in refs && n !in names ==> n in finished
        decreases names
      {
        var name :| name in names;
        names := names - {name};
        ghost var before := finished;
        if name !in color {
          var seen := Visit(name);
        }
        assert forall b :: b in before ==> b in finished;
      }
      if cycles == [] {
        FinishedIsAcyclic(refs, finished);
      } else {
        assert ClosedPath(refs, cycles[0]);
      }
    }
  }

  // ---- Building the reference map ----

  datatype Item = Item(id: int, groupId: int, channelModelId: int, ref: string) {
    predicate IsGroupRef() {
      channelModelId == 0 && ref != ""
    }
  }

  datatype Group = Group(id: int, name: string, items: seq<Item>)

  datatype Import = Import(existing: seq<Group>, existingGroupIds: set<int>, existingItemIds: set<int>,
                           groups: seq<Group>, items: seq<Item>)

  /** A member of the import counts for g if g is new, or if the member is. */
  predicate Adds(im: Import, g: Group, item: Item, ref: string) {
    item.groupId == g.id && item.IsGroupRef() && item.ref == ref
    && (g.id !in im.existingGroupIds || item.id !in im.existingItemIds)
  }

  ghost predicate ExistingEdge(im: Import, name: string, ref: string) {
    exists g :: g in im.existing && g.name == name && exists item :: item in g.items && item.IsGroupRef() && item.ref == ref
  }

  ghost predicate AddedEdge(im: Import, n: nat, name: string, ref: string)
    requires n <= |im.groups|
  {
    exists g :: g in im.groups[..n] && g.name == name && exists item :: item in im.items && Adds(im, g, item, ref)
  }

  /** The references of the map on the fields of groups and members. */
  lemma EdgesAre(im: Import, name: string, ref: string)
    ensures ExistingEdge(im, name, ref)
       <==> exists g, item :: g in im.existing && g.name == name && item in g.items && item.IsGroupRef() && item.ref == ref
    ensures AddedEdge(im, |im.groups|, name, ref)
       <==> exists g, item :: g in im.groups && g.name == name && item in im.items && item.groupId == g.id && item.IsGroupRef()
                              && item.ref == ref && (g.id !in im.existingGroupIds || item.id !in im.existingItemIds)
  {
    assert im.groups[..|im.groups|] == im.groups;
    if AddedEdge(im, |im.groups|, name, ref) {
      var g :| g in im.groups && g.name == name && exists item :: item in im.items && Adds(im, g, item, ref);
      var item :| item in im.items && Adds(im, g, item, ref);
    }
    if g, item :| g in im.groups && g.name == name && item in im.items && item.groupId == g.id && item.IsGroupRef()
                  && item.ref == ref && (g.id !in im.existingGroupIds || item.id !in im.existingItemIds) {
      assert Adds(im, g, item, ref);
    }
  }

  method RefsOf(items: seq<Item>) returns (edges: set<string>)
    ensures forall ref :: ref in edges <==> exists item :: item in items && item.IsGroupRef() && item.ref == ref
  {
    edges := {};
    for i := 0 to |items|
      invariant forall ref :: ref in edges <==> exists item :: item in items[..i] && item.IsGroupRef() && item.ref == ref
    {
      assert items[..i + 1] == items[..i] + [items[i]];
      if items[i].IsGroupRef() {
        edges := edges + {items[i].ref};
      }
    }
    assert items[..|items|] == items;
  }

  method RefsAdded(im: Import, g: Group, edges0: set<string>) returns (edges: set<string>)
    ensures forall ref :: ref in edges <==> ref in edges0 || exists item :: item in im.items && Adds(im, g, item, ref)
  {
    edges := edges0;
    for i := 0 to |im.items|
      invariant forall ref :: ref in edges <==> ref in edges0 || exists item :: item in im.items[..i] && Adds(im, g, item, ref)
    {
      var item := im.items[i];
      assert im.items[..i + 1] == im.items[..i] + [item];
      if item.groupId == g.id && item.IsGroupRef() && (g.id !in im.existingGroupIds || item.id !in im.existingItemIds) {
        edges := edges + {item.ref};
        assert Adds(im, g, item, item.ref);
      }
    }
    assert im.items[..|im.items|] == im.items;
  }

  ghost predicate UniqueNames(groups: seq<Group>) {
    forall i, j :: 0 <= i < j < |groups| ==> groups[i].name != groups[j].name
  }

  /** Groups that are there already, each with all its references. */
  method RefsOfExisting(groups: seq<Group>) returns (refs: Graph)
    requires UniqueNames(groups)
    ensures forall n :: n in refs <==> exists g :: g in groups && g.name == n
    ensures forall g, ref :: g in groups ==>
              (ref in refs[g.name] <==> exists item :: item in g.items && item.IsGroupRef() && item.ref == ref)
  {
    refs := map[];
    for i := 0 to |groups|
      invariant forall n :: n in refs <==> exists g :: g in groups[..i] && g.name == n
      invariant forall g, ref :: g in groups[..i] ==>
                  (ref in refs[g.name] <==> exists item :: item in g.items && item.IsGroupRef() && item.ref == ref)
    {
      assert groups[..i + 1] == groups[..i] + [groups[i]];
      var edges := RefsOf(groups[i].items);
      refs := refs[groups[i].name := edges];
    }
    assert groups[..|groups|] == groups;
  }

  /** The map after the first n groups of the import. */
  ghost predicate BuiltUpTo(im: Import, n: nat, refs: Graph)
    requires n <= |im.groups|
  {
    && (forall name :: name in refs <==> (exists g :: g in im.existing && g.name == name) || (exists g :: g in im.groups[..n] && g.name == name))
    && (forall name, ref :: name in refs ==> (ref in refs[name] <==> ExistingEdge(im, name, ref) || AddedEdge(im, n, name, ref)))
  }

  /** The reference map holds exactly the references of existing groups and those the import adds. */
  method BuildRefs(im: Import) returns (refs: Graph)
    requires UniqueNames(im.existing)
    ensures forall n :: n in refs <==> (exists g :: g in im.existing && g.name == n) || (exists g :: g in im.groups && g.name == n)
    ensures forall n, ref :: n in refs ==> (ref in refs[n] <==> ExistingEdge(im, n, ref) || AddedEdge(im, |im.groups|, n, ref))
  {
    refs := RefsOfExisting(im.existing);
    ExistingEdges(im, refs);
    for i := 0 to |im.groups|
      invariant BuiltUpTo(im, i, refs)
    {
      hide BuiltUpTo;
      var g := im.groups[i];
      var edges := RefsAdded(im, g, if g.name in refs then refs[g.name] else {});
      GroupAdded(im, i, refs, edges);
      refs := refs[g.name := edges];
    }
    assert im.groups[..|im.groups|] == im.groups;
  }

  lemma ExistingEdges(im: Import, refs: Graph)
    requires UniqueNames(im.existing)
    requires forall n :: n in refs <==> exists g :: g in im.existing && g.name == n
    requires forall g, ref :: g in im.existing ==>
               (ref in refs[g.name] <==> exists item :: item in g.items && item.IsGroupRef() && item.ref == ref)
    ensures BuiltUpTo(im, 0, refs)
  {
  }

  lemma GroupAdded(im: Import, i: nat, refs: Graph, edges: set<string>)
    requires i < |im.groups| && BuiltUpTo(im, i, refs)
    requires var g := im.groups[i];
             forall ref :: ref in edges <==>
               (g.name in refs && ref in refs[g.name]) || exists item :: item in im.items && Adds(im, g, item, ref)
    ensures BuiltUpTo(im, i + 1, refs[im.groups[i].name := edges])
  {
    hide ExistingEdge, AddedEdge;
    var added := im.groups[i];
    var after := refs[added.name := edges];
    assert im.groups[..i + 1] == im.groups[..i] + [added];
    AddedEdgeStep(im, i, refs);
    forall name ensures name in after <==> (exists g :: g in im.existing && g.name == name) || (exists g :: g in im.groups[..i + 1] && g.name == name) {
      if name == added.name {
        assert added in im.groups[..i + 1];
      } else if g :| g in im.groups[..i + 1] && g.name == name {
        assert g in im.groups[..i];
      }
    }
    forall name, ref | name in after ensures ref in after[name] <==> ExistingEdge(im, name, ref) || AddedEdge(im, i + 1, name, ref) {
      EdgeAdded(im, i, refs, edges, name, ref);
    }
  }

  lemma EdgeAdded(im: Import, i: nat, refs: Graph, edges: set<string>, name: string, ref: string)
    requires i < |im.groups| && BuiltUpTo(im, i, refs) && (name in refs || name == im.groups[i].name)
    requires var g := im.groups[i];
             ref in edges <==> (g.name in refs && ref in refs[g.name]) || exists item :: item in im.items && Adds(im, g, item, ref)
    ensures ref in refs[im.groups[i].name := edges][name] <==> ExistingEdge(im, name, ref) || AddedEdge(im, i + 1, name, ref)
  {
    hide ExistingEdge, AddedEdge, Adds;
    AddedEdgeStep(im, i, refs);
    if name in refs {
      assert ref in refs[name] <==> ExistingEdge(im, name, ref) || AddedEdge(im, i, name, ref);
    }
    if name == im.groups[i].name {
      assert ref in refs[im.groups[i].name := edges][name] <==> ref in edges;
    } else {
      assert AddedEdge(im, i + 1, name, ref) <==> AddedEdge(im, i, name, ref);
    }
  }

  lemma AddedEdgeStep(im: Import, i: nat, refs: Graph)
    requires i < |im.groups|
    requires forall n :: n in refs <==> (exists g :: g in im.existing && g.name == n) || (exists g :: g in im.groups[..i] && g.name == n)
    ensures forall n, ref :: AddedEdge(im, i + 1, n, ref) <==>
              AddedEdge(im, i, n, ref)
              || (n == im.groups[i].name && exists item :: item in im.items && Adds(im, im.groups[i], item, ref))
    ensures im.groups[i].name !in refs ==> forall ref :: !ExistingEdge(im, im.groups[i].name, ref) && !AddedEdge(im, i, im.groups[i].name, ref)
  {
    assert im.groups[..i + 1] == im.groups[..i] + [im.groups[i]];
  }
}
