/** How long chains of references become under the edits of internal/op/group.go. The guard looks
    at the groups below the edited one; the chains above it grow by what it accepts. */
module GroupDepth {
  import opened GroupGraph
  import opened Wrappers

  /** No chain of references has more than n groups. */
  ghost predicate Within(s: Store, n: nat) {
    forall p :: |p| >= 1 && Path(s, p) ==> |p| <= n
  }

  ghost predicate EndsAt(s: Store, p: seq<int>, id: int) {
    |p| >= 1 && p[|p| - 1] == id && Path(s, p)
  }

  ghost predicate StartsIn(s: Store, q: seq<int>, targets: set<int>) {
    |q| >= 1 && q[0] in targets && Path(s, q)
  }

  /** Every chain that ends at the group and every chain below its targets fit together. */
  ghost predicate Fits(s: Store, id: int, targets: set<int>, n: nat) {
    forall p, q :: EndsAt(s, p, id) && StartsIn(s, q, targets) ==> |p| + |q| <= n
  }

  /** The edges of all other groups stay, and those of the edited group lead to these targets. */
  ghost predicate Rewires(s: Store, s': Store, id: int, targets: set<int>) {
    && (forall x, y :: x != id ==> (Edge(s', x, y) <==> Edge(s, x, y)))
    && (forall y :: Edge(s', id, y) <==> y in targets)
    && (forall y :: y in targets ==> !Reaches(s, y, id))
  }

  lemma PartOfPath(s: Store, p: seq<int>, i: nat, j: nat)
    requires Path(s, p) && i <= j <= |p|
    ensures Path(s, p[i..j])
  {
    forall k | 0 <= k < j - i - 1 ensures Edge(s, p[i..j][k], p[i..j][k + 1]) {
      assert Edge(s, p[i + k], p[i + k + 1]);
    }
  }

  lemma Joined(s: Store, p: seq<int>, q: seq<int>)
    requires |p| >= 1 && |q| >= 1 && Path(s, p) && Path(s, q) && Edge(s, p[|p| - 1], q[0])
    ensures Path(s, p + q)
  {
    var r := p + q;
    forall k | 0 <= k < |r| - 1 ensures Edge(s, r[k], r[k + 1]) {
      if k < |p| - 1 {
        assert Edge(s, p[k], p[k + 1]);
      } else if k >= |p| {
        assert Edge(s, q[k - |p|], q[k - |p| + 1]);
      }
    }
  }

  /** A path that leaves the edited group nowhere is a path before and after the edit. */
  lemma PathCarriesOver(s: Store, s': Store, id: int, targets: set<int>, p: seq<int>)
    requires Rewires(s, s', id, targets) && forall i :: 0 <= i < |p| - 1 ==> p[i] != id
    ensures Path(s, p) <==> Path(s', p)
  {
    hide Edge, Reaches;
    if Path(s, p) {
      forall i | 0 <= i < |p| - 1 ensures Edge(s', p[i], p[i + 1]) {
        assert p[i] != id && Edge(s, p[i], p[i + 1]);
      }
    }
    if Path(s', p) {
      forall i | 0 <= i < |p| - 1 ensures Edge(s, p[i], p[i + 1]) {
        assert p[i] != id && Edge(s', p[i], p[i + 1]);
      }
    }
  }

  /** Without a cycle no group lies twice on a path. */
  lemma NotTwice(s: Store, p: seq<int>, i: nat, j: nat)
    requires Acyclic(s) && Path(s, p) && i < j < |p|
    ensures p[i] != p[j]
  {
    PartOfPath(s, p, i, j + 1);
    assert p[i..j + 1][0] == p[i] && p[i..j + 1][j - i] == p[j];
  }

  /** A chain up to the edited group and one below a new target become one chain. */
  lemma EditJoins(s: Store, s': Store, id: int, targets: set<int>, p: seq<int>, q: seq<int>)
    requires Acyclic(s) && Rewires(s, s', id, targets) && EndsAt(s, p, id) && StartsIn(s, q, targets)
    ensures Path(s', p + q)
  {
    hide Edge, Path, Acyclic;
    forall i | 0 <= i < |p| - 1 ensures p[i] != id {
      NotTwice(s, p, i, |p| - 1);
    }
    forall i | 0 <= i < |q| - 1 ensures q[i] != id {
      PartOfPath(s, q, 0, i + 1);
      assert q[0..i + 1][0] == q[0] && q[0..i + 1][i] == q[i];
    }
    PathCarriesOver(s, s', id, targets, p);
    PathCarriesOver(s, s', id, targets, q);
    Joined(s', p, q);
  }

  /** A chain after the edit is one before it, or two joined at the edited group. */
  lemma EditSplits(s: Store, s': Store, id: int, targets: set<int>, r: seq<int>)
    requires Acyclic(s') && Rewires(s, s', id, targets) && Path(s', r)
    ensures Path(s, r) || exists p, q :: EndsAt(s, p, id) && StartsIn(s, q, targets) && r == p + q
  {
    hide Edge, Acyclic, Reaches;
    if k :| 0 <= k < |r| - 1 && r[k] == id {
      var p, q := r[0..k + 1], r[k + 1..|r|];
      forall i | 0 <= i < |r| && i != k ensures r[i] != id {
        if i < k {
          NotTwice(s', r, i, k);
        } else {
          NotTwice(s', r, k, i);
        }
      }
      PartOfPath(s', r, 0, k + 1);
      PartOfPath(s', r, k + 1, |r|);
      PathCarriesOver(s, s', id, targets, p);
      PathCarriesOver(s, s', id, targets, q);
      assert Edge(s', r[k], r[k + 1]);
      assert EndsAt(s, p, id) && StartsIn(s, q, targets) && r == p + q;
    } else {
      PathCarriesOver(s, s', id, targets, r);
    }
  }

  lemma RewiringKeepsDepthIff(s: Store, s': Store, id: int, targets: set<int>, n: nat)
    requires Acyclic(s) && Acyclic(s') && Rewires(s, s', id, targets) && Within(s, n)
    ensures Within(s', n) <==> Fits(s, id, targets, n)
  {
    hide Acyclic, Rewires, Path;
    if Within(s', n) {
      forall p, q | EndsAt(s, p, id) && StartsIn(s, q, targets) ensures |p| + |q| <= n {
        EditJoins(s, s', id, targets, p, q);
        assert |p + q| == |p| + |q|;
      }
    }
    if Fits(s, id, targets, n) {
      forall r | |r| >= 1 && Path(s', r) ensures |r| <= n {
        EditSplits(s, s', id, targets, r);
      }
    }
  }

  ghost function TargetsOf(s: Store, items: seq<Item>): set<int> {
    Children(s, RefNames(items))
  }

  /** The edited group after an accepted update, and the table with it. */
  function After(s: Store, u: Update): Store
    requires u.id in s.groups
  {
    Put(s, Updated(u, s.groups[u.id]), s.groups[u.id].name)
  }

  /** A written group is not among its own targets, and if it has a new name nobody uses the old
      or the new one. */
  ghost predicate Writable(s: Store, g: Group, oldName: string) {
    && (if g.id in s.groups then s.groups[g.id].name == oldName else oldName == g.name && g.name !in s.index)
    && (oldName != g.name ==> g.name !in s.index && Unreferenced(s, oldName, g.id))
    && (forall name :: name in RefNames(g.items) ==>
          name in s.index && name != oldName && !Reaches(s, s.index[name], g.id))
  }

  lemma OtherEdgesStay(s: Store, g: Group, oldName: string, x: int, y: int)
    requires Indexed(s) && NoDangling(s) && Writable(s, g, oldName) && x != g.id
    ensures Edge(Put(s, g, oldName), x, y) <==> Edge(s, x, y)
  {
    hide Reaches;
    var s' := Put(s, g, oldName);
    if x in s.groups {
      forall name | Refers(s.groups[x], name) ensures name in s.index && name in s'.index && s'.index[name] == s.index[name] {
        assert name in s.index;
      }
    }
  }

  lemma NewEdges(s: Store, g: Group, oldName: string, y: int)
    requires Indexed(s) && Writable(s, g, oldName)
    ensures Edge(Put(s, g, oldName), g.id, y) <==> y in TargetsOf(s, g.items)
  {
    hide Reaches;
    var s' := Put(s, g, oldName);
    assert forall name :: Refers(g, name) <==> name in RefNames(g.items);
    forall name | name in RefNames(g.items) ensures name in s'.index && s'.index[name] == s.index[name] {
      assert name != g.name;
    }
    if y in TargetsOf(s, g.items) {
      var name :| name in RefNames(g.items) && name in s.index && s.index[name] == y;
      assert Refers(g, name);
    }
  }

  lemma PutRewires(s: Store, g: Group, oldName: string)
    requires Indexed(s) && NoDangling(s) && Writable(s, g, oldName)
    ensures Rewires(s, Put(s, g, oldName), g.id, TargetsOf(s, g.items))
  {
    hide Edge, Put, Indexed, NoDangling, Reaches;
    forall x, y | x != g.id ensures Edge(Put(s, g, oldName), x, y) <==> Edge(s, x, y) {
      OtherEdgesStay(s, g, oldName, x, y);
    }
    forall y ensures Edge(Put(s, g, oldName), g.id, y) <==> y in TargetsOf(s, g.items) {
      NewEdges(s, g, oldName, y);
    }
  }

  lemma ReachesItself(s: Store, id: int)
    ensures Reaches(s, id, id)
  {
    assert Path(s, [id]) && [id][0] == id;
  }

  lemma UpdateRewires(s: Store, u: Update, channelModels: set<int>)
    requires Inv(s) && UpdateAccepted(s, u, channelModels)
    ensures Inv(After(s, u)) && Rewires(s, After(s, u), u.id, TargetsOf(s, Updated(u, s.groups[u.id]).items))
  {
    hide Reaches, CheckTarget, RefNames, Acyclic, Put, Rewires, TargetsOf;
    var before := s.groups[u.id];
    var g := Updated(u, before);
    assert g.id == u.id;
    UpdateKeepsInv(s, g);
    forall name | name in RefNames(g.items) ensures name in s.index && name != before.name && !Reaches(s, s.index[name], g.id) {
      AcceptedTargetCannotReachSelf(s, u.id, before.name, name);
      assert !Reaches(s, s.index[name], u.id);
      ReachesItself(s, u.id);
    }
    PutRewires(s, g, before.name);
  }

  /** An accepted update keeps all chains of the table within n groups exactly when every chain that
      ends at the updated group and every chain below its new targets have at most n groups together. */
  lemma UpdateKeepsDepthIff(s: Store, u: Update, channelModels: set<int>, n: nat)
    requires Inv(s) && UpdateAccepted(s, u, channelModels) && Within(s, n)
    ensures Within(After(s, u), n) <==> Fits(s, u.id, TargetsOf(s, Updated(u, s.groups[u.id]).items), n)
  {
    hide Inv, Within, Fits, Updated, TargetsOf, Rewires, Put, Targets, DistinctMembers;
    UpdateRewires(s, u, channelModels);
    InvIsAcyclic(s);
    InvIsAcyclic(After(s, u));
    RewiringKeepsDepthIff(s, After(s, u), u.id, TargetsOf(s, Updated(u, s.groups[u.id]).items), n);
  }

  lemma InvIsAcyclic(s: Store)
    requires Inv(s)
    ensures Acyclic(s)
  {
  }

  lemma PathEndsInside(s: Store, p: seq<int>, id: int)
    requires Indexed(s) && EndsAt(s, p, id) && |p| > 1
    ensures id in s.groups
  {
    assert Edge(s, p[|p| - 2], p[|p| - 1]);
  }

  lemma AcceptedIsShort(s: Store, selfId: int, selfName: string, items: seq<Item>, q: seq<int>)
    requires Indexed(s) && Targets(s, items, selfId, selfName) && StartsIn(s, q, TargetsOf(s, items))
    ensures |q| <= MAX_REF_DEPTH
  {
    hide WalkChain, RefNames, Path, IsSelf;
    var name :| name in RefNames(items) && name in s.index && s.index[name] == q[0];
    var target := s.groups[q[0]];
    assert CheckTarget(s, selfId, selfName, name).None?;
    AcceptedChainIsShort(s, target, selfId, selfName, {target.id}, 1, q);
  }

  /** Creating a group never makes a chain longer than one group and the MAX_REF_DEPTH below it. */
  lemma CreateKeepsDepth(s: Store, g: Group, channelModels: set<int>)
    requires Inv(s) && CreateAccepted(s, g, channelModels) && g.id > 0 && g.id !in s.groups
    requires Within(s, MAX_REF_DEPTH + 1)
    ensures Within(Put(s, g, g.name), MAX_REF_DEPTH + 1)
  {
    hide Reaches, CheckTarget, RefNames, Acyclic, Put, Rewires, TargetsOf, Within, StartsIn, EndsAt;
    CreateKeepsInv(s, g);
    forall name | name in RefNames(g.items) ensures name in s.index && name != g.name && !Reaches(s, s.index[name], g.id) {
      AcceptedTargetCannotReachSelf(s, 0, g.name, name);
      assert s.index[name] in s.groups;
      NothingReachesStranger(s, s.index[name], g.id);
    }
    PutRewires(s, g, g.name);
    forall p, q | EndsAt(s, p, g.id) && StartsIn(s, q, TargetsOf(s, g.items)) ensures |p| + |q| <= MAX_REF_DEPTH + 1 {
      if |p| > 1 {
        PathEndsInside(s, p, g.id);
      }
      AcceptedIsShort(s, 0, g.name, g.items, q);
    }
    RewiringKeepsDepthIff(s, Put(s, g, g.name), g.id, TargetsOf(s, g.items), MAX_REF_DEPTH + 1);
  }

  /** Deleting makes no chain longer. */
  lemma DeleteKeepsDepth(s: Store, id: int, n: nat)
    requires Indexed(s) && id in s.groups && Within(s, n)
    ensures Within(Remove(s, s.groups[id]), n)
  {
    var s' := Remove(s, s.groups[id]);
    forall p | |p| >= 1 && Path(s', p) ensures |p| <= n {
      forall i | 0 <= i < |p| - 1 ensures Edge(s, p[i], p[i + 1]) {
        assert Edge(s', p[i], p[i + 1]);
        var name :| Refers(s'.groups[p[i]], name) && name in s'.index && s'.index[name] == p[i + 1];
        assert Refers(s.groups[p[i]], name) && name in s.index;
      }
      assert Path(s, p);
    }
  }

  // ---- What no edit sees ----

  function Name(id: nat): string {
    seq(id, _ => 'a')
  }

  ghost function Names(n: nat): set<string> {
    set id | 1 <= id <= n :: Name(id)
  }

  function Refs(id: nat, k: nat): seq<Item> {
    if id <= k then [Item(id, 0, Name(id + 1))] else []
  }

  /** n groups of which the first k refer to the next one. */
  ghost function Chained(n: nat, k: nat): Store {
    Store(map id | 1 <= id <= n :: Group(id, Name(id), Refs(id, k)), map name | name in Names(n) :: |name|)
  }

  lemma ChainedIsIndexed(n: nat, k: nat)
    ensures Indexed(Chained(n, k))
  {
    var s := Chained(n, k);
    forall id | id in s.groups ensures s.groups[id].name in s.index && s.index[s.groups[id].name] == id && s.groups[id].name != "" {
      assert |Name(id)| == id && Name(id) in Names(n);
    }
    forall name | name in s.index ensures s.index[name] in s.groups && s.groups[s.index[name]].name == name {
      var id :| 1 <= id <= n && name == Name(id);
    }
  }

  function NextLink(k: nat): Update {
    Update(k + 1, None, {}, [Item(k + 1, 0, Name(k + 2))])
  }

  lemma LinkIsAccepted(n: nat, k: nat)
    requires k + 1 < n
    ensures UpdateAccepted(Chained(n, k), NextLink(k), {})
  {
    hide Chained, Names, Indexed;
    var s, u := Chained(n, k), NextLink(k);
    LooksUp(n, k, k + 1);
    LooksUp(n, k, k + 2);
    var items := Updated(u, s.groups[k + 1]).items;
    assert items == u.add by {
      assert s.groups[k + 1].items == [];
    }
    assert RefNames(items) == [Name(k + 2)] by {
      assert items[..0] == [];
    }
    assert CheckTarget(s, k + 1, Name(k + 1), Name(k + 2)).None?;
  }

  lemma LooksUp(n: nat, k: nat, id: nat)
    requires 1 <= id <= n
    ensures var s := Chained(n, k);
            id in s.groups && s.groups[id] == Group(id, Name(id), Refs(id, k)) && GetByName(s, Name(id)) == Some(s.groups[id])
  {
    ChainedIsIndexed(n, k);
    assert |Name(id)| == id && Name(id) in Names(n);
  }

  lemma LinkExtends(n: nat, k: nat)
    requires k + 1 < n
    ensures k + 1 in Chained(n, k).groups && After(Chained(n, k), NextLink(k)) == Chained(n, k + 1)
  {
    var s, u := Chained(n, k), NextLink(k);
    LooksUp(n, k, k + 1);
    assert Name(k + 1) in s.index && s.index[Name(k + 1)] == k + 1;
    assert Updated(u, s.groups[k + 1]) == Group(k + 1, Name(k + 1), Refs(k + 1, k + 1));
  }

  lemma ChainedPath(n: nat)
    requires n >= 1
    ensures Path(Chained(n, n - 1), seq(n, i requires 0 <= i => i + 1))
  {
    var s, p := Chained(n, n - 1), seq(n, i requires 0 <= i => i + 1);
    forall i | 0 <= i < n - 1 ensures Edge(s, p[i], p[i + 1]) {
      LooksUp(n, n - 1, i + 1);
      LooksUp(n, n - 1, i + 2);
      assert s.groups[i + 1].items[0].IsGroupRef();
      assert Refers(s.groups[i + 1], Name(i + 2));
    }
  }

  lemma UnlinkedIsConsistent(n: nat)
    ensures Inv(Chained(n, 0)) && Within(Chained(n, 0), 1)
  {
    var s := Chained(n, 0);
    ChainedIsIndexed(n, 0);
    forall a, b ensures !Edge(s, a, b) {
    }
    forall p | |p| >= 2 ensures !Path(s, p) {
      assert !Edge(s, p[0], p[1]);
    }
  }

  ghost predicate IsHistory(tables: seq<Store>, updates: seq<Update>) {
    |tables| == |updates| + 1
    && forall i :: 0 <= i < |updates| ==> UpdateAccepted(tables[i], updates[i], {}) && tables[i + 1] == After(tables[i], updates[i])
  }

  /** No depth holds for the whole table: accepted updates of groups that refer to nothing yet, each
      adding one reference from the end of a chain, make that chain as long as there are groups. */
  lemma ChainsGrow(n: nat)
    requires n >= 1
    ensures exists tables: seq<Store>, updates: seq<Update> ::
              && IsHistory(tables, updates) && Inv(tables[0]) && Within(tables[0], 1)
              && |updates| == n - 1 && !Within(tables[n - 1], n - 1)
  {
    hide Chained, NextLink, Inv, Path, Updated, Targets, After;
    var tables, updates := seq(n, k requires 0 <= k => Chained(n, k)), seq(n - 1, k requires 0 <= k => NextLink(k));
    forall k | 0 <= k < n - 1 ensures UpdateAccepted(tables[k], updates[k], {}) && tables[k + 1] == After(tables[k], updates[k]) {
      LinkIsAccepted(n, k);
      LinkExtends(n, k);
    }
    UnlinkedIsConsistent(n);
    ChainedPath(n);
    assert IsHistory(tables, updates);
    assert tables[0] == Chained(n, 0) && tables[n - 1] == Chained(n, n - 1);
  }
}
