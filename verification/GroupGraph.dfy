/** Group edits of internal/op/group.go: references between groups by name, the walk
    that guards every edit, and the two caches it reads. */
module GroupGraph {
  import opened Wrappers

  const MAX_REF_DEPTH := 8

  /** A channel member, or a reference member when channelModelId is 0 and ref is set. */
  datatype Item = Item(id: int, channelModelId: int, ref: string) {
    predicate IsGroupRef() {
      channelModelId == 0 && ref != ""
    }
  }

  datatype Group = Group(id: int, name: string, items: seq<Item>)

  /** groupCache and groupNameIndex. */
  datatype Store = Store(groups: map<int, Group>, index: map<string, int>)

  datatype GroupError =
    | NameRequired | NotFound | RefTargetMissing | ReferencedBy | MissingTarget | DuplicateRef | DuplicateMember
    | SelfReference | RefDepthExceeded | RefCycle | Database

  predicate Refers(g: Group, name: string) {
    exists i :: 0 <= i < |g.items| && g.items[i].IsGroupRef() && g.items[i].ref == name
  }

  function GetByName(s: Store, name: string): Option<Group> {
    if name in s.index && s.index[name] in s.groups then Some(s.groups[s.index[name]]) else None
  }

  // ---- The reference graph over group ids ----

  ghost predicate Edge(s: Store, a: int, b: int) {
    a in s.groups && exists name :: Refers(s.groups[a], name) && name in s.index && s.index[name] == b
  }

  ghost predicate Path(s: Store, p: seq<int>) {
    forall i :: 0 <= i < |p| - 1 ==> Edge(s, p[i], p[i + 1])
  }

  ghost predicate Reaches(s: Store, a: int, b: int) {
    exists p :: |p| >= 1 && p[0] == a && p[|p| - 1] == b && Path(s, p)
  }

  ghost predicate Acyclic(s: Store) {
    forall p :: |p| >= 2 && p[0] == p[|p| - 1] ==> !Path(s, p)
  }

  /** Index and table are inverse to each other on names. */
  ghost predicate Indexed(s: Store) {
    && (forall id :: id in s.groups ==> id > 0 && s.groups[id].id == id && s.groups[id].name != "")
    && (forall id :: id in s.groups ==> s.groups[id].name in s.index && s.index[s.groups[id].name] == id)
    && (forall name :: name in s.index ==> s.index[name] in s.groups && s.groups[s.index[name]].name == name)
  }

  ghost predicate NoDangling(s: Store) {
    forall id, name :: id in s.groups && Refers(s.groups[id], name) ==> name in s.index
  }

  ghost predicate Inv(s: Store) {
    Indexed(s) && NoDangling(s) && Acyclic(s)
  }

  // ---- The guard: walkGroupRefChain ----

  datatype Walk = Done(visited: set<int>) | Rejected(error: GroupError)

  /** Names of the reference members in order of appearance, without repetition. */
  function RefNames(items: seq<Item>): (names: seq<string>)
    ensures forall name :: name in names <==> exists i :: 0 <= i < |items| && items[i].IsGroupRef() && items[i].ref == name
    ensures forall i, j :: 0 <= i < j < |names| ==> names[i] != names[j]
  {
    if items == [] then []
    else
      var k := |items| - 1;
      var names := RefNames(items[..k]);
      if items[k].IsGroupRef() && items[k].ref !in names then names + [items[k].ref] else names
  }

  predicate IsSelf(g: Group, selfId: int, selfName: string) {
    g.id == selfId || (selfId == 0 && selfName != "" && g.name == selfName)
  }

  function WalkChain(s: Store, current: Group, selfId: int, selfName: string, visited: set<int>, depth: nat): Walk
    requires depth <= MAX_REF_DEPTH + 1
    decreases 2 * (MAX_REF_DEPTH + 1 - depth), 0
  {
    if IsSelf(current, selfId, selfName) then Rejected(SelfReference)
    else if depth > MAX_REF_DEPTH then Rejected(RefDepthExceeded)
    else WalkNames(s, RefNames(current.items), selfId, selfName, visited, depth + 1)
  }

  /** Follows the names in order; each target must be new. */
  function WalkNames(s: Store, names: seq<string>, selfId: int, selfName: string, visited: set<int>, depth: nat): Walk
    requires depth <= MAX_REF_DEPTH + 1
    decreases 2 * (MAX_REF_DEPTH + 1 - depth) + 1, |names|
  {
    if names == [] then Done(visited)
    else
      match WalkNames(s, names[..|names| - 1], selfId, selfName, visited, depth)
      case Rejected(error) => Rejected(error)
      case Done(seen) =>
        match GetByName(s, names[|names| - 1])
        case None => Done(seen)
        case Some(next) =>
          if next.id in seen then Rejected(RefCycle)
          else WalkChain(s, next, selfId, selfName, seen + {next.id}, depth)
  }

  /** What an accepted walk has found: a set that no edge leaves and that avoids the edited group. */
  ghost predicate Region(s: Store, selfId: int, selfName: string, found: set<int>) {
    && (forall x, y :: x in found && Edge(s, x, y) ==> y in found)
    && (forall x :: x in found ==> x in s.groups && !IsSelf(s.groups[x], selfId, selfName))
  }

  lemma {:induction false} WalkNamesRegion(s: Store, names: seq<string>, selfId: int, selfName: string, visited: set<int>, depth: nat)
    requires Indexed(s) && depth <= MAX_REF_DEPTH + 1
    requires WalkNames(s, names, selfId, selfName, visited, depth).Done?
    ensures var seen := WalkNames(s, names, selfId, selfName, visited, depth).visited;
            && visited <= seen && Region(s, selfId, selfName, seen - visited)
            && forall name :: name in names && name in s.index ==> s.index[name] in seen - visited
    decreases 2 * (MAX_REF_DEPTH + 1 - depth) + 1, |names|
  {
    if names != [] {
      var name := names[|names| - 1];
      WalkNamesRegion(s, names[..|names| - 1], selfId, selfName, visited, depth);
      var seen := WalkNames(s, names[..|names| - 1], selfId, selfName, visited, depth).visited;
      if name in s.index {
        assert s.index[name] in s.groups && s.groups[s.index[name]].id == s.index[name];
        var next := s.groups[s.index[name]];
        WalkChainRegion(s, next, selfId, selfName, seen + {next.id}, depth);
        var after := WalkChain(s, next, selfId, selfName, seen + {next.id}, depth).visited;
        RegionUnion(s, selfId, selfName, seen - visited, after - (seen + {next.id}) + {next.id});
        assert (seen - visited) + (after - (seen + {next.id}) + {next.id}) == after - visited;
      }
    }
  }

  lemma RegionUnion(s: Store, selfId: int, selfName: string, a: set<int>, b: set<int>)
    requires Region(s, selfId, selfName, a) && Region(s, selfId, selfName, b)
    ensures Region(s, selfId, selfName, a + b)
  {
  }

  lemma {:induction false} WalkChainRegion(s: Store, current: Group, selfId: int, selfName: string, visited: set<int>, depth: nat)
    requires Indexed(s) && current.id in visited && current.id in s.groups && s.groups[current.id] == current && depth <= MAX_REF_DEPTH + 1
    requires WalkChain(s, current, selfId, selfName, visited, depth).Done?
    ensures var seen := WalkChain(s, current, selfId, selfName, visited, depth).visited;
            visited <= seen && Region(s, selfId, selfName, seen - visited + {current.id})
    decreases 2 * (MAX_REF_DEPTH + 1 - depth), 0
  {
    var names := RefNames(current.items);
    WalkNamesRegion(s, names, selfId, selfName, visited, depth + 1);
    var found := WalkNames(s, names, selfId, selfName, visited, depth + 1).visited - visited;
    forall y | Edge(s, current.id, y) ensures y in found {
      var name :| Refers(current, name) && name in s.index && s.index[name] == y;
      assert name in names;
    }
  }

  lemma {:induction false} RegionIsClosed(s: Store, selfId: int, selfName: string, found: set<int>, p: seq<int>)
    requires Region(s, selfId, selfName, found) && |p| >= 1 && p[0] in found && Path(s, p)
    ensures p[|p| - 1] in found
    decreases |p|
  {
    if |p| > 1 {
      assert Edge(s, p[0], p[1]);
      forall k | 0 <= k < |p[1..]| - 1 ensures Edge(s, p[1..][k], p[1..][k + 1]) {
        assert Edge(s, p[k + 1], p[k + 2]);
      }
      RegionIsClosed(s, selfId, selfName, found, p[1..]);
    }
  }

  /** The top-level call for one reference target. */
  function CheckTarget(s: Store, selfId: int, selfName: string, name: string): Option<GroupError> {
    match GetByName(s, name)
    case None => Some(RefTargetMissing)
    case Some(target) =>
      match WalkChain(s, target, selfId, selfName, {target.id}, 1)
      case Done(_) => None
      case Rejected(error) => Some(error)
  }

  /** No group may name itself: not a stored one, and not one that is being created. */
  lemma OwnNameIsRefused(s: Store, id: int, name: string)
    requires Indexed(s) && name != "" && (id == 0 || (name in s.index && s.index[name] == id))
    ensures CheckTarget(s, id, name, name) == Some(if name in s.index then SelfReference else RefTargetMissing)
  {
    assert name in s.index ==> s.index[name] in s.groups && s.groups[s.index[name]].id == s.index[name];
  }

  /** An accepted target exists, and the edited group cannot be reached from it. */
  lemma AcceptedTargetCannotReachSelf(s: Store, selfId: int, selfName: string, name: string)
    requires Indexed(s) && CheckTarget(s, selfId, selfName, name).None?
    ensures name in s.index
    ensures forall b :: b in s.groups && IsSelf(s.groups[b], selfId, selfName) ==> !Reaches(s, s.index[name], b)
  {
    assert s.index[name] in s.groups && s.groups[s.index[name]].id == s.index[name];
    var target := s.groups[s.index[name]];
    WalkChainRegion(s, target, selfId, selfName, {target.id}, 1);
    var found := WalkChain(s, target, selfId, selfName, {target.id}, 1).visited - {target.id} + {target.id};
    forall b | b in s.groups && IsSelf(s.groups[b], selfId, selfName) ensures !Reaches(s, target.id, b) {
      if Reaches(s, target.id, b) {
        var p :| |p| >= 1 && p[0] == target.id && p[|p| - 1] == b && Path(s, p);
        RegionIsClosed(s, selfId, selfName, found, p);
      }
    }
  }

  /** An accepted chain is short: no path from the target visits more than MAX_REF_DEPTH groups. */
  lemma {:induction false} AcceptedChainIsShort(s: Store, current: Group, selfId: int, selfName: string, visited: set<int>, depth: nat, p: seq<int>)
    requires Indexed(s) && current.id in s.groups && s.groups[current.id] == current && depth <= MAX_REF_DEPTH + 1
    requires WalkChain(s, current, selfId, selfName, visited, depth).Done?
    requires |p| >= 1 && p[0] == current.id && Path(s, p)
    ensures |p| <= MAX_REF_DEPTH + 1 - depth
    decreases |p|
  {
    if |p| > 1 {
      assert Edge(s, p[0], p[1]);
      var name :| Refers(current, name) && name in s.index && s.index[name] == p[1];
      var names := RefNames(current.items);
      assert name in names;
      assert p[1] in s.groups && s.groups[p[1]].id == p[1];
      var i :| 0 <= i < |names| && names[i] == name;
      var seen := VisitedBefore(s, names, selfId, selfName, visited, depth + 1, i);
      forall k | 0 <= k < |p[1..]| - 1 ensures Edge(s, p[1..][k], p[1..][k + 1]) {
        assert Edge(s, p[k + 1], p[k + 2]);
      }
      AcceptedChainIsShort(s, s.groups[p[1]], selfId, selfName, seen, depth + 1, p[1..]);
    }
  }

  lemma {:induction false} VisitedBefore(s: Store, names: seq<string>, selfId: int, selfName: string, visited: set<int>, depth: nat, i: nat)
    returns (seen: set<int>)
    requires i < |names| && names[i] in s.index && s.index[names[i]] in s.groups && depth <= MAX_REF_DEPTH + 1
    requires WalkNames(s, names, selfId, selfName, visited, depth).Done?
    ensures WalkChain(s, s.groups[s.index[names[i]]], selfId, selfName, seen, depth).Done?
    decreases |names|
  {
    var k := |names| - 1;
    if i == k {
      var next := s.groups[s.index[names[i]]];
      seen := WalkNames(s, names[..k], selfId, selfName, visited, depth).visited + {next.id};
    } else {
      seen := VisitedBefore(s, names[..k], selfId, selfName, visited, depth, i);
    }
  }

  // ---- Exactly which targets the guard accepts ----

  ghost predicate PathFrom(s: Store, p: seq<int>, a: int) {
    |p| >= 1 && p[0] == a && Path(s, p)
  }

  /** Self is out of reach, the chain is short, and no group is reached in two ways. */
  ghost predicate TreeBelow(s: Store, t: int, selfId: int, selfName: string) {
    && (forall b :: b in s.groups && IsSelf(s.groups[b], selfId, selfName) ==> !Reaches(s, t, b))
    && (forall p :: PathFrom(s, p, t) ==> |p| <= MAX_REF_DEPTH)
    && (forall p, q :: PathFrom(s, p, t) && PathFrom(s, q, t) && p[|p| - 1] == q[|q| - 1] ==> p == q)
  }

  /** Each error is backed by paths from the target. */
  ghost predicate Reason(s: Store, t: int, selfId: int, selfName: string, error: GroupError) {
    match error
    case SelfReference => exists b :: b in s.groups && IsSelf(s.groups[b], selfId, selfName) && Reaches(s, t, b)
    case RefDepthExceeded => exists p :: PathFrom(s, p, t) && |p| == MAX_REF_DEPTH + 1
    case RefCycle => exists p, q :: PathFrom(s, p, t) && PathFrom(s, q, t) && p != q && p[|p| - 1] == q[|q| - 1]
    case _ => false
  }

  /** Every visited group has a path from t; those that leave cp do so through a child in done. */
  ghost predicate Explained(s: Store, t: int, visited: set<int>, pathOf: map<int, seq<int>>, cp: seq<int>, done: set<int>) {
    && (forall v :: v in visited ==> v in pathOf && PathFrom(s, pathOf[v], t) && pathOf[v][|pathOf[v]| - 1] == v)
    && (forall v :: v in visited && |cp| < |pathOf[v]| && cp <= pathOf[v] ==> pathOf[v][|cp|] in done)
  }

  /** Visited groups whose path was recorded between two points all lie below cp. */
  ghost predicate Grown(before: map<int, seq<int>>, after: map<int, seq<int>>, visited: set<int>, seen: set<int>, cp: seq<int>) {
    && visited <= seen
    && (forall v :: v in visited && v in before ==> v in after && after[v] == before[v])
    && (forall v :: v in seen && v !in visited ==> v in after && cp <= after[v])
  }

  ghost function Children(s: Store, names: seq<string>): set<int> {
    set name | name in names && name in s.index :: s.index[name]
  }

  lemma PathSnoc(s: Store, p: seq<int>, t: int, b: int)
    requires PathFrom(s, p, t) && Edge(s, p[|p| - 1], b)
    ensures PathFrom(s, p + [b], t)
  {
    var q := p + [b];
    forall i | 0 <= i < |q| - 1 ensures Edge(s, q[i], q[i + 1]) {
      if i < |p| - 1 {
        assert Edge(s, p[i], p[i + 1]);
      }
    }
  }

  lemma {:induction false} WalkNamesExplained(s: Store, t: int, current: Group, k: nat, selfId: int, selfName: string,
                                              visited: set<int>, cp: seq<int>, pathOf: map<int, seq<int>>)
    returns (after: map<int, seq<int>>)
    requires Indexed(s) && PathFrom(s, cp, t) && cp[|cp| - 1] == current.id && |cp| <= MAX_REF_DEPTH
    requires current.id in s.groups && s.groups[current.id] == current && k <= |RefNames(current.items)|
    requires Explained(s, t, visited, pathOf, cp, {})
    ensures match WalkNames(s, RefNames(current.items)[..k], selfId, selfName, visited, |cp| + 1)
            case Done(seen) => Explained(s, t, seen, after, cp, Children(s, RefNames(current.items)[..k])) && Grown(pathOf, after, visited, seen, cp)
            case Rejected(error) => Reason(s, t, selfId, selfName, error)
    decreases 2 * (MAX_REF_DEPTH - |cp|) + 1, k, 1
  {
    var names := RefNames(current.items);
    after := pathOf;
    if k == 0 {
      assert names[..0] == [];
    } else {
      assert names[..k][..k - 1] == names[..k - 1] && names[..k] == names[..k - 1] + [names[k - 1]];
      after := WalkNamesExplained(s, t, current, k - 1, selfId, selfName, visited, cp, pathOf);
      var r := WalkNames(s, names[..k - 1], selfId, selfName, visited, |cp| + 1);
      if r.Done? {
        if names[k - 1] in s.index {
          after := ChildExplained(s, t, current, k, selfId, selfName, visited, r.visited, cp, pathOf, after);
        } else {
          assert Children(s, names[..k]) == Children(s, names[..k - 1]);
        }
      }
    }
  }

  /** One more reference that resolves. */
  lemma {:induction false} ChildExplained(s: Store, t: int, current: Group, k: nat, selfId: int, selfName: string,
                                          visited: set<int>, seen: set<int>, cp: seq<int>,
                                          pathOf: map<int, seq<int>>, middle: map<int, seq<int>>)
    returns (after: map<int, seq<int>>)
    requires Indexed(s) && PathFrom(s, cp, t) && cp[|cp| - 1] == current.id && |cp| <= MAX_REF_DEPTH
    requires current.id in s.groups && s.groups[current.id] == current && 0 < k <= |RefNames(current.items)|
    requires RefNames(current.items)[k - 1] in s.index
    requires WalkNames(s, RefNames(current.items)[..k - 1], selfId, selfName, visited, |cp| + 1) == Done(seen)
    requires Explained(s, t, seen, middle, cp, Children(s, RefNames(current.items)[..k - 1])) && Grown(pathOf, middle, visited, seen, cp)
    ensures match WalkNames(s, RefNames(current.items)[..k], selfId, selfName, visited, |cp| + 1)
            case Done(seen') => Explained(s, t, seen', after, cp, Children(s, RefNames(current.items)[..k])) && Grown(pathOf, after, visited, seen', cp)
            case Rejected(error) => Reason(s, t, selfId, selfName, error)
    decreases 2 * (MAX_REF_DEPTH - |cp|) + 1, k, 0
  {
    hide IsSelf, Grown, Edge, WalkNames, WalkChain, RefNames, Children;
    after := middle;
    var names := RefNames(current.items);
    var next := ChildEdge(s, current, names, k);
    WalkNamesUnfolds(s, names, k, selfId, selfName, visited, |cp| + 1, seen, next);
    PathSnoc(s, cp, t, next.id);
    var done := Children(s, names[..k - 1]);
    if next.id in seen {
      assert (cp + [next.id])[|cp|] == next.id;
      assert middle[next.id] != cp + [next.id];
    } else {
      EnterChild(s, t, seen, middle, cp, done, next.id);
      after := WalkChainExplained(s, t, next, selfId, selfName, seen + {next.id}, cp + [next.id], middle[next.id := cp + [next.id]]);
      var w := WalkChain(s, next, selfId, selfName, seen + {next.id}, |cp| + 1);
      if w.Done? {
        LeaveChild(s, t, visited, seen, w.visited, pathOf, middle, after, cp, done, next.id);
      }
    }
  }

  lemma WalkNamesUnfolds(s: Store, names: seq<string>, k: nat, selfId: int, selfName: string, visited: set<int>, depth: nat,
                         seen: set<int>, next: Group)
    requires 0 < k <= |names| && depth <= MAX_REF_DEPTH + 1 && GetByName(s, names[k - 1]) == Some(next)
    requires WalkNames(s, names[..k - 1], selfId, selfName, visited, depth) == Done(seen)
    ensures WalkNames(s, names[..k], selfId, selfName, visited, depth)
         == if next.id in seen then Rejected(RefCycle) else WalkChain(s, next, selfId, selfName, seen + {next.id}, depth)
  {
    assert names[..k][..k - 1] == names[..k - 1];
  }

  lemma ChildEdge(s: Store, current: Group, names: seq<string>, k: nat) returns (next: Group)
    requires Indexed(s) && current.id in s.groups && s.groups[current.id] == current
    requires names == RefNames(current.items) && 0 < k <= |names| && names[k - 1] in s.index
    ensures GetByName(s, names[k - 1]) == Some(next) && s.index[names[k - 1]] == next.id
    ensures next.id in s.groups && s.groups[next.id] == next && Edge(s, current.id, next.id)
    ensures next.id !in Children(s, names[..k - 1])
    ensures Children(s, names[..k]) == Children(s, names[..k - 1]) + {next.id}
  {
    var name := names[k - 1];
    assert s.index[name] in s.groups && s.groups[s.index[name]].id == s.index[name];
    next := s.groups[s.index[name]];
    assert names[..k] == names[..k - 1] + [name];
    FreshChild(s, names, k, next.id);
    assert name in names;
    assert Refers(current, name);
  }

  lemma FreshChild(s: Store, names: seq<string>, k: nat, id: int)
    requires Indexed(s) && 0 < k <= |names| && names[k - 1] in s.index && s.index[names[k - 1]] == id
    requires forall i, j :: 0 <= i < j < |names| ==> names[i] != names[j]
    ensures id !in Children(s, names[..k - 1])
  {
    forall name | name in names[..k - 1] && name in s.index ensures s.index[name] != id {
      assert s.groups[s.index[name]].name == name;
    }
  }

  lemma EnterChild(s: Store, t: int, seen: set<int>, pathOf: map<int, seq<int>>, cp: seq<int>, done: set<int>, id: int)
    requires Explained(s, t, seen, pathOf, cp, done) && id !in seen && id !in done && PathFrom(s, cp + [id], t)
    ensures Explained(s, t, seen + {id}, pathOf[id := cp + [id]], cp + [id], {})
  {
    var now := pathOf[id := cp + [id]];
    forall v | v in seen + {id} ensures !(|cp + [id]| < |now[v]| && cp + [id] <= now[v]) {
      if v != id && cp + [id] <= now[v] {
        GoesThrough(cp, id, now[v]);
      }
    }
  }

  lemma GoesThrough(cp: seq<int>, id: int, p: seq<int>)
    requires cp + [id] <= p
    ensures cp <= p && |cp| < |p| && p[|cp|] == id
  {
    assert (cp + [id])[|cp|] == id;
    assert cp <= cp + [id];
  }

  lemma LeaveChild(s: Store, t: int, visited: set<int>, seen: set<int>, after: set<int>,
                   pathOf: map<int, seq<int>>, middle: map<int, seq<int>>, final: map<int, seq<int>>,
                   cp: seq<int>, done: set<int>, id: int)
    requires Explained(s, t, seen, middle, cp, done) && Grown(pathOf, middle, visited, seen, cp) && id !in seen
    requires forall v :: v in after ==> v in final && PathFrom(s, final[v], t) && final[v][|final[v]| - 1] == v
    requires Grown(middle[id := cp + [id]], final, seen + {id}, after, cp + [id])
    ensures Explained(s, t, after, final, cp, done + {id}) && Grown(pathOf, final, visited, after, cp)
  {
    forall v | v in after && v !in seen ensures cp <= final[v] && |cp| < |final[v]| && final[v][|cp|] == id {
      GoesThrough(cp, id, final[v]);
    }
  }

  lemma {:induction false} WalkChainExplained(s: Store, t: int, current: Group, selfId: int, selfName: string,
                                              visited: set<int>, cp: seq<int>, pathOf: map<int, seq<int>>)
    returns (after: map<int, seq<int>>)
    requires Indexed(s) && PathFrom(s, cp, t) && cp[|cp| - 1] == current.id && |cp| <= MAX_REF_DEPTH + 1
    requires current.id in s.groups && s.groups[current.id] == current
    requires Explained(s, t, visited, pathOf, cp, {})
    ensures match WalkChain(s, current, selfId, selfName, visited, |cp|)
            case Done(seen) => (forall v :: v in seen ==> v in after && PathFrom(s, after[v], t) && after[v][|after[v]| - 1] == v)
                               && Grown(pathOf, after, visited, seen, cp)
            case Rejected(error) => Reason(s, t, selfId, selfName, error)
    decreases 2 * (MAX_REF_DEPTH + 1 - |cp|), 0, 0
  {
    after := pathOf;
    if IsSelf(current, selfId, selfName) {
      assert Reaches(s, t, current.id);
    } else if |cp| <= MAX_REF_DEPTH {
      var names := RefNames(current.items);
      assert names[..|names|] == names;
      after := WalkNamesExplained(s, t, current, |names|, selfId, selfName, visited, cp, pathOf);
    }
  }

  /** Groups found through different children are different. */
  lemma {:induction false} ChildRegion(s: Store, names: seq<string>, selfId: int, selfName: string, visited: set<int>, depth: nat, i: nat)
    returns (seen: set<int>)
    requires Indexed(s) && i < |names| && names[i] in s.index && depth <= MAX_REF_DEPTH + 1
    requires WalkNames(s, names, selfId, selfName, visited, depth).Done?
    ensures s.index[names[i]] in s.groups
    ensures WalkNames(s, names[..i], selfId, selfName, visited, depth).Done?
    ensures var next := s.groups[s.index[names[i]]];
            var w := WalkChain(s, next, selfId, selfName, seen + {next.id}, depth);
            && w.Done? && next.id !in seen && visited <= seen
            && w.visited <= WalkNames(s, names, selfId, selfName, visited, depth).visited
            && seen == WalkNames(s, names[..i], selfId, selfName, visited, depth).visited
    decreases |names|
  {
    var k := |names| - 1;
    assert s.index[names[i]] in s.groups && s.groups[s.index[names[i]]].id == s.index[names[i]];
    if i == k {
      seen := WalkNames(s, names[..k], selfId, selfName, visited, depth).visited;
      WalkNamesRegion(s, names[..k], selfId, selfName, visited, depth);
    } else {
      seen := ChildRegion(s, names[..k], selfId, selfName, visited, depth, i);
      assert names[..k][..i] == names[..i];
      WalkStepGrows(s, names, selfId, selfName, visited, depth);
    }
  }

  lemma WalkStepGrows(s: Store, names: seq<string>, selfId: int, selfName: string, visited: set<int>, depth: nat)
    requires Indexed(s) && names != [] && depth <= MAX_REF_DEPTH + 1
    requires WalkNames(s, names, selfId, selfName, visited, depth).Done?
    ensures WalkNames(s, names[..|names| - 1], selfId, selfName, visited, depth).Done?
    ensures WalkNames(s, names[..|names| - 1], selfId, selfName, visited, depth).visited
         <= WalkNames(s, names, selfId, selfName, visited, depth).visited
  {
    var name := names[|names| - 1];
    var seen := WalkNames(s, names[..|names| - 1], selfId, selfName, visited, depth).visited;
    if name in s.index {
      assert s.index[name] in s.groups && s.groups[s.index[name]].id == s.index[name];
      WalkChainRegion(s, s.groups[s.index[name]], selfId, selfName, seen + {s.index[name]}, depth);
    }
  }

  lemma AcceptedUnfolds(s: Store, current: Group, selfId: int, selfName: string, visited: set<int>, depth: nat)
    requires depth <= MAX_REF_DEPTH + 1 && WalkChain(s, current, selfId, selfName, visited, depth).Done?
    ensures depth <= MAX_REF_DEPTH
    ensures WalkNames(s, RefNames(current.items), selfId, selfName, visited, depth + 1).Done?
  {
  }

  /** Below an accepted group every group is reached along one path only. */
  lemma {:induction false} AcceptedPathsAreUnique(s: Store, current: Group, selfId: int, selfName: string, visited: set<int>, depth: nat,
                                                  p: seq<int>, q: seq<int>)
    requires Indexed(s) && current.id in s.groups && s.groups[current.id] == current && depth <= MAX_REF_DEPTH + 1
    requires current.id in visited && WalkChain(s, current, selfId, selfName, visited, depth).Done?
    requires PathFrom(s, p, current.id) && PathFrom(s, q, current.id) && p[|p| - 1] == q[|q| - 1]
    ensures p == q
    decreases |p|
  {
    hide WalkNames, WalkChain, Below, IsSelf;
    AcceptedUnfolds(s, current, selfId, selfName, visited, depth);
    if |p| == 1 && |q| == 1 {
    } else if |p| == 1 {
      var i, seen := SecondStep(s, current, selfId, selfName, visited, depth, q);
    } else {
      var i, seen := SecondStep(s, current, selfId, selfName, visited, depth, p);
      if |q| > 1 {
        var j, seen' := SecondStep(s, current, selfId, selfName, visited, depth, q);
        var names := RefNames(current.items);
        if i < j {
          RegionsApart(s, names, selfId, selfName, visited, depth + 1, i, j);
        } else if j < i {
          RegionsApart(s, names, selfId, selfName, visited, depth + 1, j, i);
        } else {
          var next := s.groups[p[1]];
          AcceptedPathsAreUnique(s, next, selfId, selfName, seen + {next.id}, depth + 1, p[1..], q[1..]);
          assert p == [p[0]] + p[1..] && q == [q[0]] + q[1..];
        }
      }
    }
  }

  /** The groups visited below the i-th reference, when it resolves. */
  ghost function Below(s: Store, names: seq<string>, selfId: int, selfName: string, visited: set<int>, depth: nat, i: nat): set<int>
    requires Indexed(s) && i < |names| && names[i] in s.index && depth <= MAX_REF_DEPTH + 1
    requires WalkNames(s, names[..i], selfId, selfName, visited, depth).Done?
  {
    var seen := WalkNames(s, names[..i], selfId, selfName, visited, depth).visited;
    var id := s.index[names[i]];
    match WalkChain(s, s.groups[id], selfId, selfName, seen + {id}, depth)
    case Done(after) => after - (seen + {id}) + {id}
    case Rejected(_) => {}
  }

  lemma RegionsApart(s: Store, names: seq<string>, selfId: int, selfName: string, visited: set<int>, depth: nat, i: nat, j: nat)
    requires Indexed(s) && i < j < |names| && names[i] in s.index && names[j] in s.index && depth <= MAX_REF_DEPTH + 1
    requires WalkNames(s, names, selfId, selfName, visited, depth).Done?
    ensures WalkNames(s, names[..i], selfId, selfName, visited, depth).Done?
    ensures WalkNames(s, names[..j], selfId, selfName, visited, depth).Done?
    ensures Below(s, names, selfId, selfName, visited, depth, i) !! Below(s, names, selfId, selfName, visited, depth, j)
  {
    var seenJ := ChildRegion(s, names, selfId, selfName, visited, depth, j);
    var seenI := ChildRegion(s, names[..j], selfId, selfName, visited, depth, i);
    assert names[..j][..i] == names[..i];
    var id := s.index[names[i]];
    assert s.groups[id].id == id;
    WalkChainRegion(s, s.groups[id], selfId, selfName, seenI + {id}, depth);
  }

  lemma TailIsPath(s: Store, p: seq<int>)
    requires |p| > 1 && PathFrom(s, p, p[0])
    ensures PathFrom(s, p[1..], p[1])
  {
    forall k | 0 <= k < |p[1..]| - 1 ensures Edge(s, p[1..][k], p[1..][k + 1]) {
      assert Edge(s, p[k + 1], p[k + 2]);
    }
  }

  /** The reference that a path follows first. */
  lemma FirstEdge(s: Store, current: Group, p: seq<int>) returns (i: nat)
    requires Indexed(s) && current.id in s.groups && s.groups[current.id] == current
    requires PathFrom(s, p, current.id) && |p| > 1
    ensures var names := RefNames(current.items);
            i < |names| && names[i] in s.index && s.index[names[i]] == p[1] && p[1] in s.groups && s.groups[p[1]].id == p[1]
  {
    assert Edge(s, p[0], p[1]);
    var name :| Refers(current, name) && name in s.index && s.index[name] == p[1];
    var names := RefNames(current.items);
    assert name in names;
    i :| 0 <= i < |names| && names[i] == name;
  }

  /** A path of two or more groups continues inside the region of one reference. */
  lemma SecondStep(s: Store, current: Group, selfId: int, selfName: string, visited: set<int>, depth: nat, p: seq<int>)
    returns (i: nat, seen: set<int>)
    requires Indexed(s) && current.id in s.groups && s.groups[current.id] == current && depth <= MAX_REF_DEPTH
    requires current.id in visited && WalkChain(s, current, selfId, selfName, visited, depth).Done?
    requires PathFrom(s, p, current.id) && |p| > 1
    ensures var names := RefNames(current.items);
            && i < |names| && names[i] in s.index && s.index[names[i]] == p[1] && p[1] in s.groups
            && WalkNames(s, names[..i], selfId, selfName, visited, depth + 1) == Done(seen)
            && WalkChain(s, s.groups[p[1]], selfId, selfName, seen + {p[1]}, depth + 1).Done?
            && p[|p| - 1] in Below(s, names, selfId, selfName, visited, depth + 1, i)
            && p[|p| - 1] !in visited && PathFrom(s, p[1..], p[1])
  {
    hide WalkChain, WalkNames, Path, Edge, Refers, RefNames, Region;
    AcceptedUnfolds(s, current, selfId, selfName, visited, depth);
    var names := RefNames(current.items);
    i := FirstEdge(s, current, p);
    seen := ChildRegion(s, names, selfId, selfName, visited, depth + 1, i);
    WalkChainRegion(s, s.groups[p[1]], selfId, selfName, seen + {p[1]}, depth + 1);
    TailIsPath(s, p);
    RegionIsClosed(s, selfId, selfName, Below(s, names, selfId, selfName, visited, depth + 1, i), p[1..]);
  }

  /** The guard accepts an existing target exactly when the references below it form a tree
      of bounded depth that avoids the edited group. */
  lemma AcceptedIffTree(s: Store, selfId: int, selfName: string, name: string)
    requires Indexed(s) && name in s.index
    ensures CheckTarget(s, selfId, selfName, name).None? <==> TreeBelow(s, s.index[name], selfId, selfName)
  {
    var t := s.index[name];
    assert t in s.groups && s.groups[t].id == t;
    var target := s.groups[t];
    if CheckTarget(s, selfId, selfName, name).None? {
      AcceptedTargetCannotReachSelf(s, selfId, selfName, name);
      forall p | PathFrom(s, p, t) ensures |p| <= MAX_REF_DEPTH {
        AcceptedChainIsShort(s, target, selfId, selfName, {t}, 1, p);
      }
      forall p, q | PathFrom(s, p, t) && PathFrom(s, q, t) && p[|p| - 1] == q[|q| - 1] ensures p == q {
        AcceptedPathsAreUnique(s, target, selfId, selfName, {t}, 1, p, q);
      }
    } else {
      var after := WalkChainExplained(s, t, target, selfId, selfName, {t}, [t], map[t := [t]]);
    }
  }

  /** Group a refers to b and c, and b to c: c is reached twice, and there is no cycle. */
  ghost function Diamond(): Store {
    Store(map[1 := Group(1, "a", [Item(1, 0, "b"), Item(2, 0, "c")]), 2 := Group(2, "b", [Item(3, 0, "c")]), 3 := Group(3, "c", [])],
          map["a" := 1, "b" := 2, "c" := 3])
  }

  lemma DiamondEdges(a: int, b: int)
    requires Edge(Diamond(), a, b)
    ensures a < b
  {
    var name :| Refers(Diamond().groups[a], name) && name in Diamond().index && Diamond().index[name] == b;
  }

  lemma {:induction false} DiamondPathsClimb(p: seq<int>)
    requires |p| >= 2 && Path(Diamond(), p)
    ensures p[0] < p[|p| - 1]
    decreases |p|
  {
    assert Edge(Diamond(), p[|p| - 2], p[|p| - 1]);
    DiamondEdges(p[|p| - 2], p[|p| - 1]);
    if |p| > 2 {
      var q := p[..|p| - 1];
      forall i | 0 <= i < |q| - 1 ensures Edge(Diamond(), q[i], q[i + 1]) {
        assert Edge(Diamond(), p[i], p[i + 1]);
      }
      DiamondPathsClimb(q);
    }
  }

  lemma DiamondIndexed()
    ensures Indexed(Diamond())
  {
  }

  lemma DiamondIsConsistent()
    ensures Inv(Diamond())
  {
    var s := Diamond();
    DiamondIndexed();
    assert NoDangling(s);
    forall p | |p| >= 2 && p[0] == p[|p| - 1] ensures !Path(s, p) {
      if Path(s, p) {
        DiamondPathsClimb(p);
      }
    }
  }

  lemma DiamondReference(a: int, k: nat)
    requires a in Diamond().groups && k < |Diamond().groups[a].items|
    ensures Edge(Diamond(), a, Diamond().index[Diamond().groups[a].items[k].ref])
  {
    var item := Diamond().groups[a].items[k];
    assert Refers(Diamond().groups[a], item.ref);
  }

  /** The guard calls an acyclic diamond a cycle: a reference to its top is refused
      although it would keep the graph acyclic. */
  lemma DiamondIsRejected()
    ensures Inv(Diamond()) && CheckTarget(Diamond(), 0, "e", "a").Some?
  {
    hide WalkChain, RefNames, Inv, CheckTarget;
    DiamondIsConsistent();
    var s := Diamond();
    assert Indexed(s) by { DiamondIndexed(); }
    var p, q := [1, 2, 3], [1, 3];
    assert PathFrom(s, p, 1) by { DiamondReference(1, 0); DiamondReference(2, 0); }
    assert PathFrom(s, q, 1) by { DiamondReference(1, 1); }
    assert |p| != |q| && p[|p| - 1] == q[|q| - 1];
    assert !TreeBelow(s, 1, 0, "e");
    AcceptedIffTree(s, 0, "e", "a");
  }

  // ---- Edits ----

  /** Store after a group has been written under its (possibly new) name. */
  function Put(s: Store, g: Group, oldName: string): Store {
    var index := s.index[g.name := g.id];
    Store(s.groups[g.id := g], if oldName == g.name then index else index - {oldName})
  }

  function Remove(s: Store, g: Group): Store {
    Store(s.groups - {g.id}, s.index - {g.name})
  }

  ghost predicate Unreferenced(s: Store, name: string, except: int) {
    forall id :: id in s.groups && id != except ==> !Refers(s.groups[id], name)
  }

  ghost predicate Targets(s: Store, items: seq<Item>, selfId: int, selfName: string) {
    forall name :: name in RefNames(items) ==> CheckTarget(s, selfId, selfName, name).None?
  }

  lemma {:induction false} PathPrefix(s: Store, s': Store, id: int, p: seq<int>)
    requires |p| >= 1 && p[|p| - 1] == id && Path(s', p)
    requires forall x, y :: x != id && Edge(s', x, y) ==> Edge(s, x, y)
    ensures Reaches(s, p[0], id)
    decreases |p|
  {
    var m := 0;
    while p[m] != id
      invariant 0 <= m < |p| && forall i :: 0 <= i < m ==> p[i] != id
      decreases |p| - m
    {
      m := m + 1;
    }
    var q := p[..m + 1];
    forall i | 0 <= i < |q| - 1 ensures Edge(s, q[i], q[i + 1]) {
      assert Edge(s', p[i], p[i + 1]);
    }
  }

  /** Rewriting the references of one group is safe when the group cannot be reached from its new targets. */
  lemma AcyclicAfterEdit(s: Store, s': Store, id: int)
    requires Acyclic(s)
    requires forall x, y :: x != id && Edge(s', x, y) ==> Edge(s, x, y)
    requires forall y :: Edge(s', id, y) ==> !Reaches(s, y, id)
    ensures Acyclic(s')
  {
    forall p | |p| >= 2 && p[0] == p[|p| - 1] ensures !Path(s', p) {
      if Path(s', p) {
        ClosedPathUsesEdit(s, s', id, p);
      }
    }
  }

  /** A closed path after the edit was one before it, or it leaves the edited group towards
      a target from which that group could be reached. */
  lemma ClosedPathUsesEdit(s: Store, s': Store, id: int, p: seq<int>)
    requires |p| >= 2 && p[0] == p[|p| - 1] && Path(s', p)
    requires forall x, y :: x != id && Edge(s', x, y) ==> Edge(s, x, y)
    ensures Path(s, p) || exists y :: Edge(s', id, y) && Reaches(s, y, id)
  {
    if k :| 0 <= k < |p| - 1 && p[k] == id {
      var q := p[k + 1..] + p[1..k + 1];
      forall i | 0 <= i < |q| - 1 ensures Edge(s', q[i], q[i + 1]) {
        if i < |p| - k - 2 {
          assert Edge(s', p[k + 1 + i], p[k + 2 + i]);
        } else {
          var j := i - (|p| - k - 2);
          assert Edge(s', p[j], p[j + 1]);
        }
      }
      assert Edge(s', p[k], p[k + 1]);
      PathPrefix(s, s', id, q);
    } else {
      forall i | 0 <= i < |p| - 1 ensures Edge(s, p[i], p[i + 1]) {
        assert Edge(s', p[i], p[i + 1]);
      }
    }
  }

  /** Creating a group whose targets were accepted keeps the store consistent. */
  lemma CreateKeepsInv(s: Store, g: Group)
    requires Inv(s) && g.id > 0 && g.id !in s.groups && g.name != "" && g.name !in s.index
    requires Targets(s, g.items, 0, g.name)
    ensures Inv(Put(s, g, g.name))
  {
    var s' := Put(s, g, g.name);
    RefsExist(s, g.items, 0, g.name);
    assert Indexed(s');
    forall x, y | x != g.id && Edge(s', x, y) ensures Edge(s, x, y) {
      var name :| Refers(s'.groups[x], name) && name in s'.index && s'.index[name] == y;
      assert name in s.index;
    }
    forall y | Edge(s', g.id, y) ensures !Reaches(s, y, g.id) {
      var name :| Refers(g, name) && name in s'.index && s'.index[name] == y;
      assert name in RefNames(g.items);
      AcceptedTargetCannotReachSelf(s, 0, g.name, name);
      NothingReachesStranger(s, y, g.id);
    }
    AcyclicAfterEdit(s, s', g.id);
  }

  lemma RefsExist(s: Store, items: seq<Item>, selfId: int, selfName: string)
    requires Indexed(s) && Targets(s, items, selfId, selfName)
    ensures forall id, name, n :: Refers(Group(id, n, items), name) ==> name in s.index
  {
    forall id, name, n | Refers(Group(id, n, items), name) ensures name in s.index {
      assert name in RefNames(items);
      AcceptedTargetCannotReachSelf(s, selfId, selfName, name);
    }
  }

  lemma PathStaysInside(s: Store, p: seq<int>)
    requires Indexed(s) && |p| >= 1 && p[0] in s.groups && Path(s, p)
    ensures p[|p| - 1] in s.groups
  {
    if |p| > 1 {
      assert Edge(s, p[|p| - 2], p[|p| - 1]);
    }
  }

  lemma NothingReachesStranger(s: Store, y: int, id: int)
    requires Indexed(s) && id !in s.groups && y in s.groups
    ensures !Reaches(s, y, id)
  {
    forall p | |p| >= 1 && p[0] == y && p[|p| - 1] == id ensures !Path(s, p) {
      if Path(s, p) {
        PathStaysInside(s, p);
      }
    }
  }

  /** Rewriting, and possibly renaming, a group keeps the store consistent: acyclicity after a
      rename needs that nothing dangles before it. */
  lemma UpdateKeepsInv(s: Store, g: Group)
    requires Inv(s) && g.id in s.groups && g.name != ""
    requires var oldName := s.groups[g.id].name;
             && Targets(s, g.items, g.id, oldName)
             && (g.name != oldName ==> g.name !in s.index && Unreferenced(s, oldName, g.id))
    ensures Inv(Put(s, g, s.groups[g.id].name))
  {
    var oldName := s.groups[g.id].name;
    var s' := Put(s, g, oldName);
    RefsExist(s, g.items, g.id, oldName);
    assert Indexed(s');
    assert Reaches(s, g.id, g.id) by {
      assert Path(s, [g.id]) && [g.id][0] == g.id;
    }
    forall name | Refers(g, name) ensures name != oldName && name in s.index {
      assert name in RefNames(g.items);
      AcceptedTargetCannotReachSelf(s, g.id, oldName, name);
    }
    forall x, y | x != g.id && Edge(s', x, y) ensures Edge(s, x, y) {
      var name :| Refers(s'.groups[x], name) && name in s'.index && s'.index[name] == y;
      assert name in s.index;
    }
    forall y | Edge(s', g.id, y) ensures !Reaches(s, y, g.id) {
      var name :| Refers(g, name) && name in s'.index && s'.index[name] == y;
      assert name in RefNames(g.items);
      AcceptedTargetCannotReachSelf(s, g.id, oldName, name);
    }
    AcyclicAfterEdit(s, s', g.id);
  }

  lemma DeleteKeepsInv(s: Store, id: int)
    requires Inv(s) && id in s.groups && Unreferenced(s, s.groups[id].name, id)
    ensures Inv(Remove(s, s.groups[id]))
  {
    var s' := Remove(s, s.groups[id]);
    assert Indexed(s');
    forall x, y | Edge(s', x, y) ensures Edge(s, x, y) {
      var name :| Refers(s'.groups[x], name) && name in s'.index && s'.index[name] == y;
      assert Refers(s.groups[x], name) && name in s.index;
    }
    assert forall y :: !Edge(s', id, y);
    AcyclicAfterEdit(s, s', id);
  }

  // ---- What the remaining validations accept ----

  predicate ValidMember(item: Item, channelModels: set<int>) {
    item.IsGroupRef() || (item.channelModelId != 0 && item.channelModelId in channelModels)
  }

  /** No channel model and no referenced name twice. */
  ghost predicate DistinctMembers(items: seq<Item>) {
    && (forall i :: 0 <= i < |items| ==> items[i].IsGroupRef() || items[i].channelModelId != 0)
    && (forall i, j :: 0 <= i < j < |items| && items[i].IsGroupRef() && items[j].IsGroupRef() ==> items[i].ref != items[j].ref)
    && (forall i, j :: 0 <= i < j < |items| && !items[i].IsGroupRef() && !items[j].IsGroupRef() ==>
          items[i].channelModelId != items[j].channelModelId)
  }

  /** Why a list has a member too many. */
  ghost predicate Repeats(items: seq<Item>, error: GroupError) {
    match error
    case DuplicateRef => exists i, j :: 0 <= i < j < |items| && items[i].IsGroupRef() && items[j].IsGroupRef() && items[i].ref == items[j].ref
    case DuplicateMember =>
      (exists i :: 0 <= i < |items| && !items[i].IsGroupRef() && items[i].channelModelId == 0)
      || exists i, j :: 0 <= i < j < |items| && !items[i].IsGroupRef() && !items[j].IsGroupRef()
                        && items[i].channelModelId == items[j].channelModelId
    case _ => false
  }

  /** Why members are refused: a new one without a target, one too many, or a reference the guard rejects. */
  ghost predicate MembersRefused(s: Store, selfId: int, selfName: string, added: seq<Item>, all: seq<Item>, channelModels: set<int>,
                                 error: GroupError) {
    || (error == MissingTarget && exists item :: item in added && !ValidMember(item, channelModels))
    || Repeats(all, error)
    || exists name :: name in RefNames(all) && CheckTarget(s, selfId, selfName, name) == Some(error)
  }

  /** The two kinds of members, on their fields. */
  lemma MemberMeans(item: Item, channelModels: set<int>)
    ensures ValidMember(item, channelModels)
       <==> if item.channelModelId == 0 then item.ref != "" else item.channelModelId in channelModels
  {
  }

  lemma DistinctMeans(items: seq<Item>)
    ensures DistinctMembers(items)
       <==> && (forall i :: 0 <= i < |items| && items[i].channelModelId == 0 ==> items[i].ref != "")
            && (forall i, j :: 0 <= i < j < |items| && items[i].channelModelId == items[j].channelModelId ==>
                  items[i].channelModelId == 0 && items[i].ref != items[j].ref)
  {
  }

  function Kept(items: seq<Item>, deleted: set<int>): seq<Item> {
    if items == [] then []
    else
      var k := |items| - 1;
      Kept(items[..k], deleted) + if items[k].id in deleted then [] else [items[k]]
  }

  /** kept is what is left of items without the deleted ids: at lists the places of its members, in their
      old order, and no other undeleted member exists. */
  ghost predicate LeftAt(items: seq<Item>, deleted: set<int>, kept: seq<Item>, at: seq<int>) {
    && |at| == |kept|
    && (forall k :: 0 <= k < |at| ==> 0 <= at[k] < |items| && kept[k] == items[at[k]] && kept[k].id !in deleted)
    && (forall j, k :: 0 <= j < k < |at| ==> at[j] < at[k])
    && (forall i :: 0 <= i < |items| && items[i].id !in deleted ==> i in at)
  }

  ghost predicate Left(items: seq<Item>, deleted: set<int>, kept: seq<Item>) {
    exists at: seq<int> :: LeftAt(items, deleted, kept, at)
  }

  lemma {:induction false} KeptIsLeft(items: seq<Item>, deleted: set<int>) returns (at: seq<int>)
    ensures LeftAt(items, deleted, Kept(items, deleted), at)
    decreases |items|
  {
    at := [];
    if items != [] {
      var k := |items| - 1;
      at := KeptIsLeft(items[..k], deleted);
      LeftSnoc(items, deleted, Kept(items[..k], deleted), at);
      if items[k].id !in deleted {
        at := at + [k];
      } else {
        assert Kept(items[..k], deleted) + [] == Kept(items[..k], deleted);
      }
    }
  }

  lemma LeftSnoc(items: seq<Item>, deleted: set<int>, kept: seq<Item>, at: seq<int>)
    requires items != [] && LeftAt(items[..|items| - 1], deleted, kept, at)
    ensures items[|items| - 1].id in deleted ==> LeftAt(items, deleted, kept, at)
    ensures items[|items| - 1].id !in deleted ==> LeftAt(items, deleted, kept + [items[|items| - 1]], at + [|items| - 1])
  {
    var n := |items| - 1;
    forall i | 0 <= i < n && items[i].id !in deleted ensures i in at {
      assert items[..n][i] == items[i];
    }
    if items[n].id !in deleted {
      var more := at + [n];
      assert more[|at|] == n;
      assert forall i :: i in at ==> i in more;
    }
  }

  /** The members after an update: what is left of the old ones, in their order, and behind them the new. */
  ghost predicate MembersAfter(items: seq<Item>, deleted: set<int>, add: seq<Item>, after: seq<Item>) {
    && |add| <= |after| && after[|after| - |add|..] == add
    && Left(items, deleted, after[..|after| - |add|])
    && (forall item :: item in after <==> item in add || (item in items && item.id !in deleted))
    && (forall item :: multiset(after)[item] == (if item.id in deleted then 0 else multiset(items)[item]) + multiset(add)[item])
  }

  lemma {:induction false} KeptCounts(items: seq<Item>, deleted: set<int>, item: Item)
    ensures multiset(Kept(items, deleted))[item] == if item.id in deleted then 0 else multiset(items)[item]
    decreases |items|
  {
    if items != [] {
      var k := |items| - 1;
      KeptCounts(items[..k], deleted, item);
      assert items == items[..k] + [items[k]];
    }
  }

  lemma UpdatedMembers(items: seq<Item>, deleted: set<int>, add: seq<Item>)
    ensures MembersAfter(items, deleted, add, Kept(items, deleted) + add)
  {
    hide Kept, LeftAt;
    var kept := Kept(items, deleted);
    var after := kept + add;
    var at := KeptIsLeft(items, deleted);
    assert after[..|after| - |add|] == kept && after[|after| - |add|..] == add;
    forall item
      ensures multiset(kept)[item] == if item.id in deleted then 0 else multiset(items)[item]
    {
      KeptCounts(items, deleted, item);
    }
    assert multiset(after) == multiset(kept) + multiset(add);
    forall item ensures item in after <==> item in add || (item in items && item.id !in deleted) {
      assert item in after <==> item in multiset(after);
      assert item in items <==> item in multiset(items);
      assert item in add <==> item in multiset(add);
    }
  }

  datatype Update = Update(id: int, name: Option<string>, delete: set<int>, add: seq<Item>)

  function NewName(u: Update, g: Group): string {
    if u.name.Some? then u.name.value else g.name
  }

  /** The group an accepted update leaves behind. */
  function Updated(u: Update, g: Group): Group {
    Group(g.id, NewName(u, g), Kept(g.items, u.delete) + u.add)
  }

  ghost predicate UpdateRefused(s: Store, u: Update, channelModels: set<int>, dbFails: bool, error: GroupError) {
    if u.id !in s.groups then error == NotFound
    else
      var g := s.groups[u.id];
      || (error == NameRequired && u.name == Some(""))
      || (error == ReferencedBy && u.name.Some? && u.name.value != g.name && !Unreferenced(s, g.name, u.id))
      || (error == Database && (dbFails || (u.name.Some? && u.name.value != g.name && u.name.value in s.index)))
      || MembersRefused(s, u.id, g.name, u.add, Kept(g.items, u.delete) + u.add, channelModels, error)
  }

  lemma RefusalsAre(s: Store, u: Update, channelModels: set<int>, dbFails: bool)
    ensures u.id !in s.groups ==> UpdateRefused(s, u, channelModels, dbFails, NotFound)
    ensures u.id in s.groups && u.name == Some("") ==> UpdateRefused(s, u, channelModels, dbFails, NameRequired)
    ensures u.id in s.groups && u.name.Some? && u.name.value != s.groups[u.id].name && !Unreferenced(s, s.groups[u.id].name, u.id)
            ==> UpdateRefused(s, u, channelModels, dbFails, ReferencedBy)
    ensures u.id in s.groups && (dbFails || (u.name.Some? && u.name.value != s.groups[u.id].name && u.name.value in s.index))
            ==> UpdateRefused(s, u, channelModels, dbFails, Database)
    ensures u.id in s.groups && (exists item :: item in u.add && !ValidMember(item, channelModels))
            ==> UpdateRefused(s, u, channelModels, dbFails, MissingTarget)
  {
    hide Unreferenced, Kept, Repeats, ValidMember, RefNames, CheckTarget;
  }

  lemma MemberRefusalsAre(s: Store, u: Update, channelModels: set<int>, dbFails: bool, error: GroupError)
    requires u.id in s.groups
    ensures var g := s.groups[u.id];
            var all := Kept(g.items, u.delete) + u.add;
            Repeats(all, error) || (exists name :: name in RefNames(all) && CheckTarget(s, u.id, g.name, name) == Some(error))
            ==> UpdateRefused(s, u, channelModels, dbFails, error)
  {
    hide Unreferenced, Kept, Repeats, ValidMember, RefNames, CheckTarget;
  }

  ghost predicate CreateAccepted(s: Store, g: Group, channelModels: set<int>) {
    && g.name != "" && g.name !in s.index && DistinctMembers(g.items) && Targets(s, g.items, 0, g.name)
    && forall item :: item in g.items ==> ValidMember(item, channelModels)
  }

  ghost predicate UpdateAccepted(s: Store, u: Update, channelModels: set<int>) {
    && u.id in s.groups
    && var g := s.groups[u.id];
    && NewName(u, g) != ""
    && (NewName(u, g) != g.name ==> NewName(u, g) !in s.index && Unreferenced(s, g.name, u.id))
    && (forall item :: item in u.add ==> ValidMember(item, channelModels))
    && DistinctMembers(Updated(u, g).items)
    && Targets(s, Updated(u, g).items, u.id, g.name)
  }

  lemma EmptyIsConsistent()
    ensures Inv(Store(map[], map[]))
  {
    var s := Store(map[], map[]);
    forall p | |p| >= 2 && p[0] == p[|p| - 1] ensures !Path(s, p) {
      assert !Edge(s, p[0], p[1]);
    }
  }

  /** The group caches with the operations that write them. The database holds the same rows:
      it refuses a second group of the same name, and it may fail for other reasons. */
  class GroupStore {
    var groupCache: map<int, Group>
    var groupNameIndex: map<string, int>

    ghost function State(): Store
      reads this
    {
      Store(groupCache, groupNameIndex)
    }

    constructor ()
      ensures Inv(State()) && groupCache == map[]
    {
      groupCache, groupNameIndex := map[], map[];
      new;
      EmptyIsConsistent();
    }

    method Lookup(name: string) returns (r: Option<Group>)
      ensures r == GetByName(State(), name)
    {
      if name in groupNameIndex && groupNameIndex[name] in groupCache {
        return Some(groupCache[groupNameIndex[name]]);
      }
      return None;
    }

    /** Depth-first search along the references; fails on the edited group, on a long chain,
        and on any group met twice. */
    method WalkRefChain(current: Group, selfId: int, selfName: string, visited: set<int>, depth: nat) returns (r: Walk)
      requires depth <= MAX_REF_DEPTH + 1
      ensures r == WalkChain(State(), current, selfId, selfName, visited, depth)
      decreases MAX_REF_DEPTH + 1 - depth
    {
      if IsSelf(current, selfId, selfName) {
        return Rejected(SelfReference);
      }
      if depth > MAX_REF_DEPTH {
        return Rejected(RefDepthExceeded);
      }
      var names := RefNames(current.items);
      var seen := visited;
      for i := 0 to |names|
        invariant WalkNames(State(), names[..i], selfId, selfName, visited, depth + 1) == Done(seen)
      {
        hide WalkChain;
        assert names[..i + 1][..i] == names[..i];
        WalkFails(State(), names, i + 1, selfId, selfName, visited, depth + 1);
        var next := Lookup(names[i]);
        if next.None? {
          continue;
        }
        if next.value.id in seen {
          assert WalkNames(State(), names[..i + 1], selfId, selfName, visited, depth + 1) == Rejected(RefCycle);
          return Rejected(RefCycle);
        }
        r := WalkRefChain(next.value, selfId, selfName, seen + {next.value.id}, depth + 1);
        if r.Rejected? {
          return;
        }
        seen := r.visited;
      }
      assert names[..|names|] == names;
      return Done(seen);
    }

    method ValidateReferences(selfId: int, selfName: string, items: seq<Item>) returns (r: Option<GroupError>)
      ensures r.None? <==> Targets(State(), items, selfId, selfName)
      ensures r.Some? ==> exists name :: name in RefNames(items) && CheckTarget(State(), selfId, selfName, name) == r
    {
      var names := RefNames(items);
      for i := 0 to |names|
        invariant forall j :: 0 <= j < i ==> CheckTarget(State(), selfId, selfName, names[j]).None?
      {
        var target := Lookup(names[i]);
        if target.None? {
          assert names[i] in names;
          return Some(RefTargetMissing);
        }
        var walk := WalkRefChain(target.value, selfId, selfName, {target.value.id}, 1);
        if walk.Rejected? {
          assert names[i] in names;
          return Some(walk.error);
        }
      }
      return None;
    }

    /** Name of some other group that refers to the given one. */
    method FirstReferrer(name: string, except: int) returns (r: Option<string>)
      ensures r.None? <==> Unreferenced(State(), name, except)
      ensures r.Some? ==> exists id :: id in groupCache && id != except && Refers(groupCache[id], name) && groupCache[id].name == r.value
    {
      var ids := groupCache.Keys;
      while exists id :: id in ids
        invariant ids <= groupCache.Keys
        invariant forall id :: id in groupCache && id !in ids && id != except ==> !Refers(groupCache[id], name)
        decreases ids
      {
        var id :| id in ids;
        ids := ids - {id};
        if id == except {
          continue;
        }
        var g := groupCache[id];
        for i := 0 to |g.items|
          invariant forall j :: 0 <= j < i ==> !(g.items[j].IsGroupRef() && g.items[j].ref == name)
        {
          if g.items[i].IsGroupRef() && g.items[i].ref == name {
            return Some(g.name);
          }
        }
      }
      return None;
    }

    method Create(id: int, name: string, items: seq<Item>, channelModels: set<int>, dbFails: bool) returns (r: Result<Group, GroupError>)
      requires Inv(State()) && id > 0 && id !in groupCache
      modifies this
      ensures Inv(State())
      ensures r.Success? <==> !dbFails && CreateAccepted(old(State()), Group(id, name, items), channelModels)
      ensures r.Success? ==> r.value == Group(id, name, items) && State() == Put(old(State()), r.value, name)
      ensures r.Success? ==> groupCache == old(groupCache)[id := r.value] && groupNameIndex == old(groupNameIndex)[name := id]
      ensures r.Failure? ==> (r.error == NameRequired && name == "")
                             || (r.error == Database && (dbFails || name in old(groupNameIndex)))
                             || MembersRefused(old(State()), 0, name, items, items, channelModels, r.error)
      ensures r.Failure? ==> State() == old(State())
    {
      if name == "" {
        return Failure(NameRequired);
      }
      var bad := ValidateMembers(items, channelModels);
      if bad.Some? {
        return Failure(bad.value);
      }
      bad := ValidateDuplicates(items);
      if bad.Some? {
        return Failure(bad.value);
      }
      bad := ValidateReferences(0, name, items);
      if bad.Some? {
        return Failure(bad.value);
      }
      if dbFails || name in groupNameIndex {
        return Failure(Database);
      }
      var g := Group(id, name, items);
      CreateKeepsInv(State(), g);
      groupCache := groupCache[id := g];
      groupNameIndex := groupNameIndex[name := id];
      return Success(g);
    }

    /** Everything an update checks before it writes; the database may still refuse the new name. */
    method CheckUpdate(u: Update, channelModels: set<int>, dbFails: bool) returns (r: Result<Group, GroupError>)
      requires Inv(State())
      ensures r.Success? <==> !dbFails && UpdateAccepted(State(), u, channelModels)
      ensures r.Success? ==> r.value == Updated(u, groupCache[u.id])
      ensures r.Failure? ==> UpdateRefused(State(), u, channelModels, dbFails, r.error)
    {
      RefusalsAre(State(), u, channelModels, dbFails);
      if u.id !in groupCache {
        return Failure(NotFound);
      }
      var oldGroup := groupCache[u.id];
      UpdateAcceptedMeans(State(), u, channelModels);
      hide *;
      if u.name.Some? {
        if u.name.value == "" {
          return Failure(NameRequired);
        }
        if u.name.value != oldGroup.name {
          var referrer := FirstReferrer(oldGroup.name, u.id);
          if referrer.Some? {
            return Failure(ReferencedBy);
          }
        }
      }
      var bad := ValidateMembers(u.add, channelModels);
      if bad.Some? {
        return Failure(bad.value);
      }
      var effective := Effective(oldGroup.items, u.delete);
      effective := effective + u.add;
      bad := ValidateDuplicates(effective);
      if bad.Some? {
        MemberRefusalsAre(State(), u, channelModels, dbFails, bad.value);
        return Failure(bad.value);
      }
      bad := ValidateReferences(u.id, oldGroup.name, effective);
      if bad.Some? {
        MemberRefusalsAre(State(), u, channelModels, dbFails, bad.value);
        return Failure(bad.value);
      }
      var name := if u.name.Some? then u.name.value else oldGroup.name;
      if dbFails || (name != oldGroup.name && name in groupNameIndex) {
        return Failure(Database);
      }
      return Success(Group(u.id, name, effective));
    }

    method UpdateGroup(u: Update, channelModels: set<int>, dbFails: bool) returns (r: Result<Group, GroupError>)
      requires Inv(State())
      modifies this
      ensures Inv(State())
      ensures r.Success? <==> !dbFails && UpdateAccepted(old(State()), u, channelModels)
      ensures r.Success? ==> r.value == Updated(u, old(groupCache)[u.id])
                             && State() == Put(old(State()), r.value, old(groupCache)[u.id].name)
      ensures r.Success? ==> MembersAfter(old(groupCache)[u.id].items, u.delete, u.add, r.value.items) && r.value.id == u.id
                             && r.value.name == if u.name.Some? then u.name.value else old(groupCache)[u.id].name
      ensures r.Success? ==> groupCache == old(groupCache)[u.id := r.value]
      ensures r.Failure? ==> State() == old(State()) && UpdateRefused(old(State()), u, channelModels, dbFails, r.error)
    {
      r := CheckUpdate(u, channelModels, dbFails);
      if r.Failure? {
        return;
      }
      hide Inv, UpdateAccepted, Put, Updated, MembersAfter, UpdateRefused;
      AcceptedIsPresent(State(), u, channelModels);
      var oldGroup := groupCache[u.id];
      var g := r.value;
      AcceptedIsWritten(State(), u, channelModels);
      groupCache := groupCache[u.id := g];
      groupNameIndex := groupNameIndex[g.name := u.id];
      if oldGroup.name != g.name {
        groupNameIndex := groupNameIndex - {oldGroup.name};
      }
    }

    method Delete(id: int, dbFails: bool) returns (r: Option<GroupError>)
      requires Inv(State())
      modifies this
      ensures Inv(State())
      ensures r.None? <==> !dbFails && id in old(groupCache) && Unreferenced(old(State()), old(groupCache)[id].name, id)
      ensures r.None? ==> State() == Remove(old(State()), old(groupCache)[id])
      ensures r.None? ==> groupCache == old(groupCache) - {id} && groupNameIndex == old(groupNameIndex) - {old(groupCache)[id].name}
      ensures r.Some? ==>
                match r.value
                case NotFound => id !in old(groupCache)
                case ReferencedBy => id in old(groupCache) && !Unreferenced(old(State()), old(groupCache)[id].name, id)
                case error => error == Database && dbFails
      ensures r.Some? ==> State() == old(State())
    {
      if id !in groupCache {
        return Some(NotFound);
      }
      var g := groupCache[id];
      var referrer := FirstReferrer(g.name, id);
      if referrer.Some? {
        return Some(ReferencedBy);
      }
      if dbFails {
        return Some(Database);
      }
      DeleteKeepsInv(State(), id);
      groupCache := groupCache - {id};
      groupNameIndex := groupNameIndex - {g.name};
      return None;
    }
  }

  lemma UpdateAcceptedMeans(s: Store, u: Update, channelModels: set<int>)
    requires Inv(s) && u.id in s.groups
    ensures var g := s.groups[u.id];
            var name := if u.name.Some? then u.name.value else g.name;
            var items := Kept(g.items, u.delete) + u.add;
            && g.id == u.id && g.name != "" && Updated(u, g) == Group(u.id, name, items)
            && (UpdateAccepted(s, u, channelModels) <==>
                 && name != "" && (name != g.name ==> name !in s.index && Unreferenced(s, g.name, u.id))
                 && (forall item :: item in u.add ==> ValidMember(item, channelModels))
                 && DistinctMembers(items) && Targets(s, items, u.id, g.name))
  {
  }

  lemma AcceptedIsPresent(s: Store, u: Update, channelModels: set<int>)
    requires UpdateAccepted(s, u, channelModels)
    ensures u.id in s.groups
  {
  }

  /** What writing an accepted update leaves. */
  lemma AcceptedIsWritten(s: Store, u: Update, channelModels: set<int>)
    requires Inv(s) && UpdateAccepted(s, u, channelModels) && u.id in s.groups
    ensures var was := s.groups[u.id];
            var g := Updated(u, was);
            && g.id == u.id && g.name == (if u.name.Some? then u.name.value else was.name)
            && MembersAfter(was.items, u.delete, u.add, g.items) && Inv(Put(s, g, was.name))
            && Put(s, g, was.name).groups == s.groups[u.id := g]
            && (was.name == g.name ==> Put(s, g, was.name).index == s.index[g.name := u.id])
            && (was.name != g.name ==> Put(s, g, was.name).index == s.index[g.name := u.id] - {was.name})
  {
    var was := s.groups[u.id];
    var g := Updated(u, was);
    UpdateAcceptedMeans(s, u, channelModels);
    hide *;
    UpdatedMembers(was.items, u.delete, u.add);
    PutMeans(s, g, was.name);
    UpdateKeepsInv(s, g);
  }

  lemma PutMeans(s: Store, g: Group, oldName: string)
    ensures Put(s, g, oldName).groups == s.groups[g.id := g]
    ensures oldName == g.name ==> Put(s, g, oldName).index == s.index[g.name := g.id]
    ensures oldName != g.name ==> Put(s, g, oldName).index == s.index[g.name := g.id] - {oldName}
  {
  }

  lemma WalkFails(s: Store, names: seq<string>, k: nat, selfId: int, selfName: string, visited: set<int>, depth: nat)
    requires k <= |names| && depth <= MAX_REF_DEPTH + 1
    ensures WalkNames(s, names[..k], selfId, selfName, visited, depth).Rejected? ==>
              WalkNames(s, names, selfId, selfName, visited, depth) == WalkNames(s, names[..k], selfId, selfName, visited, depth)
    decreases |names|
  {
    if k == |names| {
      assert names[..k] == names;
    } else {
      assert names[..|names| - 1][..k] == names[..k];
      WalkFails(s, names[..|names| - 1], k, selfId, selfName, visited, depth);
    }
  }

  method ValidateMembers(items: seq<Item>, channelModels: set<int>) returns (r: Option<GroupError>)
    ensures r.None? <==> forall item :: item in items ==> ValidMember(item, channelModels)
    ensures r.Some? ==> r.value == MissingTarget && exists item :: item in items && !ValidMember(item, channelModels)
  {
    for i := 0 to |items|
      invariant forall j :: 0 <= j < i ==> ValidMember(items[j], channelModels)
    {
      if items[i].IsGroupRef() {
        continue;
      }
      if items[i].channelModelId == 0 || items[i].channelModelId !in channelModels {
        assert items[i] in items && !ValidMember(items[i], channelModels);
        return Some(MissingTarget);
      }
    }
    return None;
  }

  method ValidateDuplicates(items: seq<Item>) returns (r: Option<GroupError>)
    ensures r.None? <==> DistinctMembers(items)
    ensures r.Some? ==> Repeats(items, r.value)
  {
    var channelModels: set<int> := {};
    var refs: set<string> := {};
    for i := 0 to |items|
      invariant DistinctMembers(items[..i])
      invariant forall name :: name in refs <==> exists j :: 0 <= j < i && items[j].IsGroupRef() && items[j].ref == name
      invariant forall id :: id in channelModels <==> exists j :: 0 <= j < i && !items[j].IsGroupRef() && items[j].channelModelId == id
    {
      var item := items[i];
      if item.IsGroupRef() {
        if item.ref in refs {
          return Some(DuplicateRef);
        }
        refs := refs + {item.ref};
        continue;
      }
      if item.channelModelId == 0 || item.channelModelId in channelModels {
        return Some(DuplicateMember);
      }
      channelModels := channelModels + {item.channelModelId};
    }
    assert items[..|items|] == items;
    return None;
  }

  method Effective(items: seq<Item>, deleted: set<int>) returns (kept: seq<Item>)
    ensures kept == Kept(items, deleted)
  {
    kept := [];
    if |deleted| > 0 {
      for i := 0 to |items|
        invariant kept == Kept(items[..i], deleted)
      {
        assert items[..i + 1][..i] == items[..i];
        if items[i].id !in deleted {
          kept := kept + [items[i]];
        }
      }
      assert items[..|items|] == items;
    } else {
      kept := items;
      NothingDeleted(items);
    }
  }

  lemma {:induction false} NothingDeleted(items: seq<Item>)
    ensures Kept(items, {}) == items
  {
    if items != [] {
      NothingDeleted(items[..|items| - 1]);
    }
  }
}
