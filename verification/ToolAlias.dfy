/** Renaming of client tools before a request leaves and restoring the names in the response,
    internal/relay/opencode_tool_alias.go. The name digest is any function of the right shape. */
module ToolAlias {
  import opened Sets
  import opened Wrappers

  const PREFIX := "clint_"
  const DIGEST_LENGTH := 12

  /** A name slot of a JSON document: a string, or something else that reads as text. */
  datatype Name = Text(s: string) | Other(s: string)

  /** A tool entry: its type, its function name and the rest of its definition. */
  datatype Tool = Tool(kind: string, name: Name, rest: int)

  datatype Tools = Absent | Odd | Listed(list: seq<Tool>)

  /** references are the name slots of tool choices, messages and inputs, in document order. */
  datatype Body = Body(tools: Tools, references: seq<Name>)

  type Digest = string -> string

  predicate LowHex(c: char) {
    '0' <= c <= '9' || 'a' <= c <= 'f'
  }

  ghost predicate ProperDigest(digest: Digest) {
    forall s :: |digest(s)| == DIGEST_LENGTH && forall i :: 0 <= i < DIGEST_LENGTH ==> LowHex(digest(s)[i])
  }

  function WireName(digest: Digest, name: string): string {
    PREFIX + digest(name)
  }

  predicate IsWireName(name: string) {
    && |name| >= |PREFIX| + DIGEST_LENGTH && name[..|PREFIX|] == PREFIX
    && (forall i :: |PREFIX| <= i < |PREFIX| + DIGEST_LENGTH ==> LowHex(name[i]))
    && (forall i :: |PREFIX| + DIGEST_LENGTH <= i < |name| ==> name[i] == '_')
  }

  function Underscores(n: nat): string {
    seq(n, _ => '_')
  }

  /** The entries that keep their names. */
  predicate Inert(t: Tool) {
    t.kind != "function" || t.name.Other? || t.name.s == "" || IsWireName(t.name.s)
  }

  /** "clint_", twelve hex digits and any number of underscores. */
  ghost predicate Generated(name: string) {
    exists h: string, n: nat :: name == "clint_" + h + Underscores(n) && |h| == 12 && forall i :: 0 <= i < 12 ==> LowHex(h[i])
  }

  lemma WireNameIff(name: string)
    ensures IsWireName(name) <==> Generated(name)
  {
    if IsWireName(name) {
      var h, n := name[6..18], |name| - 18;
      assert name[18..] == Underscores(n);
      assert name == "clint_" + h + Underscores(n);
    }
    if Generated(name) {
      var h: string, n: nat :| name == "clint_" + h + Underscores(n) && |h| == 12 && forall i :: 0 <= i < 12 ==> LowHex(h[i]);
      forall i | 6 <= i < 18 ensures LowHex(name[i]) {
        assert name[i] == h[i - 6];
      }
    }
  }

  /** An entry keeps its name exactly when it is no function, has no name, or carries a generated one. */
  lemma InertIff(t: Tool)
    ensures !Inert(t) <==> t.kind == "function" && t.name.Text? && t.name.s != "" && !Generated(t.name.s)
  {
    hide IsWireName, Generated;
    WireNameIff(t.name.s);
  }

  ghost predicate Distinct(official: seq<Tool>) {
    forall i, j :: 0 <= i < j < |official| ==> official[i].name.s != official[j].name.s
  }

  function Names(tools: seq<Tool>): set<string> {
    set t | t in tools :: t.name.s
  }

  // ---- Fresh names ----

  lemma WireNameIsOne(digest: Digest, name: string, n: nat)
    requires ProperDigest(digest)
    ensures IsWireName(WireName(digest, name) + Underscores(n))
  {
    var d, w := digest(name), WireName(digest, name) + Underscores(n);
    assert |d| == DIGEST_LENGTH;
    forall i | |PREFIX| <= i < |PREFIX| + DIGEST_LENGTH ensures LowHex(w[i]) {
      assert w[i] == d[i - |PREFIX|];
    }
  }

  ghost function AtLeast(names: set<string>, length: nat): set<string> {
    set n | n in names && |n| >= length
  }

  /** The wire name of a tool: the first of its candidates that is free. The loop ends because each
      round leaves fewer taken names of at least the candidate's length. */
  method FreeName(digest: Digest, name: string, taken: set<string>) returns (renamed: string)
    requires ProperDigest(digest)
    ensures IsWireName(renamed) && renamed !in taken
    ensures exists n: nat :: renamed == WireName(digest, name) + Underscores(n)
                             && forall k: nat :: k < n ==> WireName(digest, name) + Underscores(k) in taken
  {
    renamed := WireName(digest, name);
    ghost var n: nat := 0;
    assert renamed == renamed + Underscores(0);
    while renamed in taken
      invariant renamed == WireName(digest, name) + Underscores(n)
      invariant forall k: nat :: k < n ==> WireName(digest, name) + Underscores(k) in taken
      decreases AtLeast(taken, |renamed|)
    {
      ghost var before := renamed;
      renamed := renamed + "_";
      assert Underscores(n) + "_" == Underscores(n + 1);
      assert before in AtLeast(taken, |before|) && before !in AtLeast(taken, |renamed|);
      assert AtLeast(taken, |renamed|) < AtLeast(taken, |before|);
      n := n + 1;
    }
    WireNameIsOne(digest, name, n);
  }

  // ---- The tool list ----

  /** The client tools of one kind in their order; official definitions are left out. */
  function Chosen(tools: seq<Tool>, official: seq<Tool>, preferred: set<string>, listed: bool): seq<Tool> {
    if tools == [] then []
    else
      var t := tools[|tools| - 1];
      Chosen(tools[..|tools| - 1], official, preferred, listed)
      + if t !in official && (t.name.s in preferred) == listed then [t] else []
  }

  lemma {:induction false} ChosenIsFilter(tools: seq<Tool>, official: seq<Tool>, preferred: set<string>, listed: bool)
    ensures forall t :: t in Chosen(tools, official, preferred, listed) <==> t in tools && t !in official && (t.name.s in preferred) == listed
  {
    if tools != [] {
      ChosenIsFilter(tools[..|tools| - 1], official, preferred, listed);
      assert tools == tools[..|tools| - 1] + [tools[|tools| - 1]];
    }
  }

  /** at lists the entries of tools that are no official copies and are preferred or not, in order. */
  ghost predicate ChosenAt(tools: seq<Tool>, official: seq<Tool>, preferred: set<string>, listed: bool, chosen: seq<Tool>, at: seq<int>) {
    && |at| == |chosen|
    && (forall k :: 0 <= k < |at| ==> 0 <= at[k] < |tools| && chosen[k] == tools[at[k]])
    && (forall j, k :: 0 <= j < k < |at| ==> at[j] < at[k])
    && (forall i :: 0 <= i < |tools| ==> (i in at <==> tools[i] !in official && (tools[i].name.s in preferred <==> listed)))
  }

  /** Clients keep their order and their number: first the preferred ones, then the others. */
  lemma {:induction false} ChosenInOrder(tools: seq<Tool>, official: seq<Tool>, preferred: set<string>, listed: bool) returns (at: seq<int>)
    ensures ChosenAt(tools, official, preferred, listed, Chosen(tools, official, preferred, listed), at)
    decreases |tools|
  {
    at := [];
    if tools != [] {
      var k := |tools| - 1;
      at := ChosenInOrder(tools[..k], official, preferred, listed);
      ChosenSnoc(tools, official, preferred, listed, Chosen(tools[..k], official, preferred, listed), at);
      if tools[k] !in official && (tools[k].name.s in preferred) == listed {
        at := at + [k];
      } else {
        assert Chosen(tools[..k], official, preferred, listed) + [] == Chosen(tools[..k], official, preferred, listed);
      }
    }
  }

  lemma ChosenSnoc(tools: seq<Tool>, official: seq<Tool>, preferred: set<string>, listed: bool, chosen: seq<Tool>, at: seq<int>)
    requires tools != [] && ChosenAt(tools[..|tools| - 1], official, preferred, listed, chosen, at)
    ensures var n := |tools| - 1;
            if tools[n] !in official && (tools[n].name.s in preferred) == listed
            then ChosenAt(tools, official, preferred, listed, chosen + [tools[n]], at + [n])
            else ChosenAt(tools, official, preferred, listed, chosen, at)
  {
    var n, more := |tools| - 1, at + [|tools| - 1];
    forall i | 0 <= i < n ensures i in at <==> tools[i] !in official && (tools[i].name.s in preferred <==> listed) {
      assert tools[..n][i] == tools[i];
    }
    assert n !in at && more[|at|] == n;
    assert forall i :: i in more <==> i in at || i == n;
  }

  function Clients(tools: seq<Tool>, official: seq<Tool>, preferred: set<string>): seq<Tool> {
    Chosen(tools, official, preferred, true) + Chosen(tools, official, preferred, false)
  }

  /** items are the clients with new names: one free wire name each, all different, and aliases
      leads from each new name back to the old one. */
  ghost predicate Renamed(clients: seq<Tool>, items: seq<Tool>, taken: set<string>, aliases: map<string, string>) {
    && |items| == |clients|
    && (forall i :: 0 <= i < |clients| ==> RenamedOne(clients[i], items[i], taken, aliases))
    && (forall i, j :: 0 <= i < j < |clients| && !Inert(clients[i]) && !Inert(clients[j]) ==> items[i].name != items[j].name)
    && (forall a :: a in aliases ==> exists i :: 0 <= i < |clients| && !Inert(clients[i]) && items[i].name == Text(a))
  }

  ghost predicate RenamedOne(client: Tool, item: Tool, taken: set<string>, aliases: map<string, string>) {
    if Inert(client) then item == client
    else
      && item == client.(name := item.name) && item.name.Text? && IsWireName(item.name.s)
      && item.name.s !in taken && item.name.s in aliases && aliases[item.name.s] == client.name.s
  }

  /** Aliases never collide with an official or a declared name, and stand for declared names. */
  lemma AliasesAreApart(clients: seq<Tool>, items: seq<Tool>, taken: set<string>, aliases: map<string, string>)
    requires Renamed(clients, items, taken, aliases)
    ensures aliases.Keys !! taken && (forall a :: a in aliases ==> IsWireName(a)) && aliases.Values <= Names(clients) - {""}
  {
    hide IsWireName;
    forall a | a in aliases ensures a !in taken && IsWireName(a) && aliases[a] in Names(clients) - {""} {
      var i :| 0 <= i < |clients| && !Inert(clients[i]) && items[i].name == Text(a);
      assert RenamedOne(clients[i], items[i], taken, aliases);
    }
  }

  /** A tool that is renamed is named after the digest of its own name, with underscores behind it if that
      is taken, so it has the same name in every request; nothing else of it changes. */
  ghost predicate NamedAfter(digest: Digest, client: Tool, item: Tool) {
    item == client
    || (!Inert(client) && exists n: nat :: item == client.(name := Text("clint_" + digest(client.name.s) + Underscores(n))))
  }

  method RenameAll(digest: Digest, clients: seq<Tool>, taken: set<string>) returns (items: seq<Tool>, aliases: map<string, string>)
    requires ProperDigest(digest)
    ensures Renamed(clients, items, taken, aliases) && |items| == |clients|
    ensures forall i :: 0 <= i < |clients| ==> NamedAfter(digest, clients[i], items[i])
  {
    hide IsWireName, Inert, Renamed, NamedAfter, WireName;
    items, aliases := [], map[];
    NothingRenamed(taken);
    var used := taken;
    for i := 0 to |clients|
      invariant used == taken + aliases.Keys && |items| == i
      invariant forall k :: 0 <= k < i ==> NamedAfter(digest, clients[k], items[k])
      invariant Renamed(clients[..i], items, taken, aliases)
    {
      assert clients[..i + 1] == clients[..i] + [clients[i]];
      if Inert(clients[i]) {
        KeepStep(clients[..i], items, taken, aliases, clients[i]);
        KeptName(digest, clients[i]);
        items := items + [clients[i]];
      } else {
        var renamed := FreeName(digest, clients[i].name.s, used);
        RenameStep(clients[..i], items, taken, aliases, clients[i], renamed);
        ghost var n: nat :| renamed == WireName(digest, clients[i].name.s) + Underscores(n);
        FreshlyNamed(digest, clients[i], renamed, n);
        used := used + {renamed};
        items := items + [clients[i].(name := Text(renamed))];
        aliases := aliases[renamed := clients[i].name.s];
      }
    }
    assert clients[..|clients|] == clients;
  }

  lemma NothingRenamed(taken: set<string>)
    ensures Renamed([], [], taken, map[])
  {
  }

  lemma KeptName(digest: Digest, client: Tool)
    ensures NamedAfter(digest, client, client)
  {
  }

  lemma FreshlyNamed(digest: Digest, client: Tool, renamed: string, n: nat)
    requires !Inert(client) && renamed == WireName(digest, client.name.s) + Underscores(n)
    ensures NamedAfter(digest, client, client.(name := Text(renamed)))
  {
    hide Inert;
  }

  lemma KeepStep(clients: seq<Tool>, items: seq<Tool>, taken: set<string>, aliases: map<string, string>, t: Tool)
    requires Renamed(clients, items, taken, aliases) && Inert(t)
    ensures Renamed(clients + [t], items + [t], taken, aliases)
  {
    hide IsWireName, Inert;
    forall i | 0 <= i < |clients| + 1 ensures RenamedOne((clients + [t])[i], (items + [t])[i], taken, aliases) {
      if i < |clients| {
        assert RenamedOne(clients[i], items[i], taken, aliases);
      }
    }
    forall a | a in aliases
      ensures exists i :: 0 <= i < |clients + [t]| && !Inert((clients + [t])[i]) && (items + [t])[i].name == Text(a)
    {
      var i :| 0 <= i < |clients| && !Inert(clients[i]) && items[i].name == Text(a);
      assert (clients + [t])[i] == clients[i] && (items + [t])[i] == items[i];
    }
  }

  lemma RenameStep(clients: seq<Tool>, items: seq<Tool>, taken: set<string>, aliases: map<string, string>, t: Tool, renamed: string)
    requires Renamed(clients, items, taken, aliases) && !Inert(t) && IsWireName(renamed) && renamed !in taken && renamed !in aliases
    ensures Renamed(clients + [t], items + [t.(name := Text(renamed))], taken, aliases[renamed := t.name.s])
  {
    hide IsWireName, Inert;
    var moreClients, moreItems, more := clients + [t], items + [t.(name := Text(renamed))], aliases[renamed := t.name.s];
    forall i | 0 <= i < |moreClients| ensures RenamedOne(moreClients[i], moreItems[i], taken, more) {
      if i < |clients| {
        assert RenamedOne(clients[i], items[i], taken, aliases);
      }
    }
    forall a | a in more ensures exists i :: 0 <= i < |moreClients| && !Inert(moreClients[i]) && moreItems[i].name == Text(a) {
      if a == renamed {
        assert moreClients[|clients|] == t && moreItems[|clients|].name == Text(a);
      } else {
        var i :| 0 <= i < |clients| && !Inert(clients[i]) && items[i].name == Text(a);
        assert moreClients[i] == clients[i] && moreItems[i] == items[i];
      }
    }
    forall i, j | 0 <= i < j < |moreClients| && !Inert(moreClients[i]) && !Inert(moreClients[j]) ensures moreItems[i].name != moreItems[j].name {
      if j == |clients| {
        assert RenamedOne(clients[i], items[i], taken, aliases);
      }
    }
  }

  // ---- References ----

  /** Go's order on strings. */
  predicate Less(a: string, b: string) {
    b != [] && (a == [] || a[0] < b[0] || (a[0] == b[0] && Less(a[1..], b[1..])))
  }

  lemma {:induction false} LessIsOrder(a: string, b: string, c: string)
    ensures !Less(a, a) && (Less(a, b) && Less(b, c) ==> Less(a, c)) && (a == b || Less(a, b) || Less(b, a))
  {
    if a != [] {
      LessIsOrder(a[1..], if b == [] then [] else b[1..], if c == [] then [] else c[1..]);
      if b != [] && a[0] == b[0] && a[1..] == b[1..] {
        assert a == [a[0]] + a[1..] && b == [b[0]] + b[1..];
      }
    }
  }

  /** The way from client names to wire names: of several aliases of one name the least. */
  ghost predicate IsReverse(aliases: map<string, string>, reverse: map<string, string>) {
    && reverse.Keys == aliases.Values
    && forall c :: c in reverse ==> LeastAlias(aliases, c, reverse[c])
  }

  ghost predicate LeastAlias(aliases: map<string, string>, client: string, wire: string) {
    && wire in aliases && aliases[wire] == client
    && forall o :: o in aliases && aliases[o] == client ==> !Less(o, wire)
  }

  /** So the rewriting does not depend on the order in which the aliases are visited. */
  lemma ReverseIsUnique(aliases: map<string, string>, r1: map<string, string>, r2: map<string, string>)
    requires IsReverse(aliases, r1) && IsReverse(aliases, r2)
    ensures r1 == r2
  {
    forall c | c in r1 ensures c in r2 && r1[c] == r2[c] {
      assert LeastAlias(aliases, c, r1[c]) && LeastAlias(aliases, c, r2[c]);
      LessIsOrder(r1[c], r2[c], r1[c]);
    }
  }

  method BuildReverse(aliases: map<string, string>) returns (reverse: map<string, string>)
    ensures IsReverse(aliases, reverse)
  {
    reverse := map[];
    var todo := aliases.Keys;
    ghost var seen := map[];
    while exists o :: o in todo
      invariant todo <= aliases.Keys && seen == map o | o in aliases && o !in todo :: aliases[o]
      invariant IsReverse(seen, reverse)
      decreases todo
    {
      var o :| o in todo;
      ghost var before, held := seen, reverse;
      todo := todo - {o};
      var client := aliases[o];
      if client !in reverse || Less(o, reverse[client]) {
        reverse := reverse[client := o];
      }
      seen := seen[o := client];
      ReverseStep(before, held, o, client, reverse);
      assert seen == map p | p in aliases && p !in todo :: aliases[p];
    }
    assert seen == aliases;
  }

  lemma ReverseStep(seen: map<string, string>, reverse: map<string, string>, o: string, client: string, next: map<string, string>)
    requires IsReverse(seen, reverse) && o !in seen
    requires next == if client !in reverse || Less(o, reverse[client]) then reverse[client := o] else reverse
    ensures IsReverse(seen[o := client], next)
  {
    hide Less;
    var more := seen[o := client];
    ValuesGrow(seen, o, client);
    forall c | c in next ensures LeastAlias(more, c, next[c]) {
      if c in reverse {
        assert LeastAlias(seen, c, reverse[c]);
      }
      forall p | p in more && more[p] == c ensures !Less(p, next[c]) {
        LessIsOrder(p, next[c], p);
        if p != o {
          assert p in seen && seen[p] == c && c in seen.Values;
          LessIsOrder(p, next[c], reverse[c]);
        }
      }
    }
  }

  lemma ValuesGrow(m: map<string, string>, k: string, v: string)
    requires k !in m
    ensures m[k := v].Values == m.Values + {v}
  {
    var n := m[k := v];
    forall x ensures x in n.Values <==> x in m.Values + {v} {
      if x in m.Values {
        var j :| j in m && m[j] == x;
        assert j in n && n[j] == x;
      }
      if x == v {
        assert k in n && n[k] == x;
      }
    }
  }

  function Rewrite(n: Name, names: map<string, string>): Name {
    if n.Text? && n.s in names then Text(names[n.s]) else n
  }

  function RewriteAll(slots: seq<Name>, names: map<string, string>): (r: seq<Name>)
    ensures |r| == |slots|
  {
    seq(|slots|, i requires 0 <= i < |slots| => Rewrite(slots[i], names))
  }

  method RewriteSlots(slots: seq<Name>, names: map<string, string>) returns (out: seq<Name>)
    ensures out == RewriteAll(slots, names)
  {
    out := slots;
    for i := 0 to |slots|
      invariant |out| == |slots|
      invariant forall k :: 0 <= k < |slots| ==> out[k] == if k < i then Rewrite(slots[k], names) else slots[k]
    {
      if out[i].Text? && out[i].s in names && names[out[i].s] != out[i].s {
        out := out[i := Text(names[out[i].s])];
      }
    }
  }

  /** Restoring what was rewritten gives the name back exactly when it was not one of the generated
      names to begin with; every declared name therefore comes back. */
  lemma RestoreUndoesRewrite(aliases: map<string, string>, reverse: map<string, string>, n: Name)
    requires aliases.Keys !! aliases.Values && IsReverse(aliases, reverse)
    ensures Rewrite(Rewrite(n, reverse), aliases) == n <==> !(n.Text? && n.s in aliases)
    ensures Rewrite(Rewrite(n, aliases), aliases) == Rewrite(n, aliases)
  {
    hide Less;
    if n.Text? && n.s in aliases {
      assert aliases[n.s] in aliases.Values;
    }
    if n.Text? && n.s in reverse {
      assert LeastAlias(aliases, n.s, reverse[n.s]);
    }
  }

  // ---- The whole request ----

  /** Nothing to do: every official tool once, and every other tool inert. */
  ghost predicate Settled(tools: seq<Tool>, official: seq<Tool>) {
    && (forall t :: t in official ==> t in tools)
    && (forall i, j :: 0 <= i < j < |tools| && tools[i] in official ==> tools[i].name.s != tools[j].name.s || tools[j] !in official)
    && (forall t :: t in tools && t !in official ==> Inert(t))
  }

  lemma {:induction false} CountsAre(tools: seq<Tool>, t: Tool, k: nat)
    requires k <= |tools|
    ensures multiset(tools[..k])[t] > 0 <==> exists i :: 0 <= i < k && tools[i] == t
    ensures multiset(tools[..k])[t] > 1 <==> exists i, j :: 0 <= i < j < k && tools[i] == t && tools[j] == t
    decreases k
  {
    if k > 0 {
      CountsAre(tools, t, k - 1);
      assert tools[..k] == tools[..k - 1] + [tools[k - 1]];
    }
  }

  /** A list is settled when each official tool is in it once and every other tool that is a function with
      a name carries a generated one. */
  lemma SettledIff(tools: seq<Tool>, official: seq<Tool>)
    requires Distinct(official)
    ensures Settled(tools, official)
       <==> && (forall t :: t in official ==> multiset(tools)[t] == 1)
            && (forall t :: t in tools && t !in official && t.kind == "function" && t.name.Text? && t.name.s != "" ==> Generated(t.name.s))
  {
    hide Inert, Generated;
    forall t ensures (t in tools <==> multiset(tools)[t] > 0)
                     && (multiset(tools)[t] > 1 <==> exists i, j :: 0 <= i < j < |tools| && tools[i] == t && tools[j] == t)
    {
      CountsAre(tools, t, |tools|);
      assert tools[..|tools|] == tools;
    }
    forall t ensures !Inert(t) <==> t.kind == "function" && t.name.Text? && t.name.s != "" && !Generated(t.name.s) {
      InertIff(t);
    }
    forall a, b | a in official && b in official && a.name.s == b.name.s ensures a == b {
      SameName(official, a, b);
    }
  }

  function Declared(tools: Tools): seq<Tool> {
    if tools.Listed? then tools.list else []
  }

  function Taken(official: seq<Tool>, tools: seq<Tool>): set<string> {
    Names(official) + (Names(tools) - {""})
  }

  /** What the renaming makes of a request. */
  ghost predicate Outcome(body: Body, official: seq<Tool>, preferred: set<string>, out: Body, aliases: map<string, string>) {
    exists items, reverse: map<string, string> :: Rebuilt(body, official, preferred, items, reverse, out, aliases)
  }

  ghost predicate Rebuilt(body: Body, official: seq<Tool>, preferred: set<string>, items: seq<Tool>, reverse: map<string, string>,
                          out: Body, aliases: map<string, string>)
  {
    && Renamed(Clients(Declared(body.tools), official, preferred), items, Taken(official, Declared(body.tools)), aliases)
    && IsReverse(aliases, reverse)
    && out == Body(Listed(official + items), RewriteAll(body.references, reverse))
  }

  /** The list that is sent: the official tools, and behind them the clients, each as it is or with its
      generated name. */
  ghost predicate SentTools(digest: Digest, tools: seq<Tool>, official: seq<Tool>, preferred: set<string>, sent: seq<Tool>) {
    var clients := Clients(tools, official, preferred);
    && official <= sent && |sent| == |official| + |clients|
    && forall i :: 0 <= i < |clients| ==> NamedAfter(digest, clients[i], sent[|official| + i])
  }

  ghost predicate NoDuplicate(tools: seq<Tool>, official: seq<Tool>) {
    forall i, j :: 0 <= i < j < |tools| && tools[i] in official && tools[j] in official ==> tools[i].name.s != tools[j].name.s
  }

  function Present(tools: seq<Tool>, official: seq<Tool>): set<string> {
    set t | t in tools && t in official :: t.name.s
  }

  lemma ClientsAreOthers(tools: seq<Tool>, official: seq<Tool>, preferred: set<string>)
    ensures forall t :: t in Clients(tools, official, preferred) <==> t in tools && t !in official
  {
    ChosenIsFilter(tools, official, preferred, true);
    ChosenIsFilter(tools, official, preferred, false);
  }

  /** The list that is sent is settled: renaming it again would find nothing to do. */
  lemma OutcomeIsSettled(tools: seq<Tool>, official: seq<Tool>, preferred: set<string>, items: seq<Tool>, aliases: map<string, string>)
    requires Distinct(official)
    requires Renamed(Clients(tools, official, preferred), items, Taken(official, tools), aliases)
    ensures Settled(official + items, official)
  {
    hide IsWireName, Chosen, Clients;
    ClientsAreOthers(tools, official, preferred);
    var clients := Clients(tools, official, preferred);
    forall i | 0 <= i < |items| ensures items[i] !in official && Inert(items[i]) {
      assert RenamedOne(clients[i], items[i], Taken(official, tools), aliases);
    }
    var all := official + items;
    forall i, j | 0 <= i < j < |all| && all[i] in official && all[j] in official ensures all[i].name.s != all[j].name.s {
      assert j < |official|;
    }
  }

  lemma SettledMeans(tools: seq<Tool>, official: seq<Tool>, preferred: set<string>, items: seq<Tool>,
                     aliases: map<string, string>, present: set<string>, duplicate: bool)
    requires Distinct(official)
    requires Renamed(Clients(tools, official, preferred), items, Taken(official, tools), aliases)
    requires present == Present(tools, official) && duplicate == !NoDuplicate(tools, official)
    ensures (aliases == map[] && |present| == |Names(official)| && !duplicate) <==> Settled(tools, official)
  {
    hide IsWireName, Chosen, Clients;
    ClientsAreOthers(tools, official, preferred);
    NoAliasIff(Clients(tools, official, preferred), items, Taken(official, tools), aliases);
    AllPresentIff(tools, official);
  }

  lemma NoAliasIff(clients: seq<Tool>, items: seq<Tool>, taken: set<string>, aliases: map<string, string>)
    requires Renamed(clients, items, taken, aliases)
    ensures aliases == map[] <==> forall t :: t in clients ==> Inert(t)
  {
    hide IsWireName, Inert;
    forall i | 0 <= i < |clients| && !Inert(clients[i]) ensures aliases != map[] {
      assert RenamedOne(clients[i], items[i], taken, aliases);
    }
    forall a | a in aliases ensures exists t :: t in clients && !Inert(t) {
      var i :| 0 <= i < |clients| && !Inert(clients[i]) && items[i].name == Text(a);
      assert clients[i] in clients;
    }
  }

  lemma AllPresentIff(tools: seq<Tool>, official: seq<Tool>)
    requires Distinct(official)
    ensures |Present(tools, official)| == |Names(official)| <==> forall t :: t in official ==> t in tools
  {
    var p, n := Present(tools, official), Names(official);
    assert p <= n;
    if |p| == |n| {
      SameSize(p, n);
      forall t | t in official ensures t in tools {
        assert t.name.s in p;
        var o :| o in tools && o in official && o.name.s == t.name.s;
        SameName(official, o, t);
      }
    }
    if forall t :: t in official ==> t in tools {
      AllArePresent(tools, official);
    }
  }

  lemma AllArePresent(tools: seq<Tool>, official: seq<Tool>)
    requires forall t :: t in official ==> t in tools
    ensures Present(tools, official) == Names(official)
  {
    forall t | t in official ensures t.name.s in Present(tools, official) {
      assert t in tools;
    }
  }

  lemma SameName(official: seq<Tool>, a: Tool, b: Tool)
    requires Distinct(official) && a in official && b in official && a.name.s == b.name.s
    ensures a == b
  {
    var i :| 0 <= i < |official| && official[i] == a;
    var j :| 0 <= j < |official| && official[j] == b;
    assert i == j;
  }

  /** The official definitions by name; with distinct names each is found under its own. */
  method IndexOfficial(official: seq<Tool>) returns (index: map<string, Tool>)
    requires Distinct(official)
    ensures index.Keys == Names(official)
    ensures forall t: Tool :: (t.name.s in index && index[t.name.s] == t) <==> t in official
  {
    index := map[];
    for i := 0 to |official|
      invariant index.Keys == Names(official[..i])
      invariant forall k :: 0 <= k < i ==> official[k].name.s in index && index[official[k].name.s] == official[k]
      invariant forall s :: s in index ==> index[s] in official && index[s].name.s == s
    {
      assert official[..i + 1] == official[..i] + [official[i]];
      index := index[official[i].name.s := official[i]];
    }
    assert official[..|official|] == official;
  }

  /** Sorts the declared tools into exact copies of official ones and clients. */
  method Classify(tools: seq<Tool>, official: seq<Tool>, preferred: set<string>)
      returns (present: set<string>, duplicate: bool, clients: seq<Tool>, count: nat)
    requires Distinct(official)
    ensures present == Present(tools, official) && duplicate == !NoDuplicate(tools, official)
    ensures clients == Clients(tools, official, preferred) && count == |Names(official)|
  {
    hide Distinct, Chosen, Present, NoDuplicate;
    NothingClassified(official, preferred);
    assert tools[..0] == [];
    var index := IndexOfficial(official);
    count := |index.Keys|;
    present, duplicate := {}, false;
    var whitelisted, rest: seq<Tool> := [], [];
    for i := 0 to |tools|
      invariant present == Present(tools[..i], official) && duplicate == !NoDuplicate(tools[..i], official)
      invariant whitelisted == Chosen(tools[..i], official, preferred, true) && rest == Chosen(tools[..i], official, preferred, false)
    {
      var t := tools[i];
      assert tools[..i + 1] == tools[..i] + [t];
      ClassifyStep(tools[..i], official, t);
      ChosenStep(tools[..i], official, preferred, true, t);
      ChosenStep(tools[..i], official, preferred, false, t);
      if t.name.s in index && index[t.name.s] == t {
        duplicate := duplicate || t.name.s in present;
        present := present + {t.name.s};
      } else if t.name.s in preferred {
        whitelisted := whitelisted + [t];
      } else {
        rest := rest + [t];
      }
    }
    assert tools[..|tools|] == tools;
    clients := whitelisted + rest;
  }

  lemma NothingClassified(official: seq<Tool>, preferred: set<string>)
    ensures Present([], official) == {} && NoDuplicate([], official)
    ensures Chosen([], official, preferred, true) == [] && Chosen([], official, preferred, false) == []
  {
  }

  lemma ChosenStep(tools: seq<Tool>, official: seq<Tool>, preferred: set<string>, listed: bool, t: Tool)
    ensures Chosen(tools + [t], official, preferred, listed)
         == Chosen(tools, official, preferred, listed) + if t !in official && (t.name.s in preferred) == listed then [t] else []
  {
    assert (tools + [t])[..|tools|] == tools;
  }

  lemma ClassifyStep(tools: seq<Tool>, official: seq<Tool>, t: Tool)
    ensures Present(tools + [t], official) == Present(tools, official) + if t in official then {t.name.s} else {}
    ensures NoDuplicate(tools + [t], official) == (NoDuplicate(tools, official) && !(t in official && t.name.s in Present(tools, official)))
  {
    var more := tools + [t];
    assert forall i :: 0 <= i < |tools| ==> more[i] == tools[i];
    if t in official && t.name.s in Present(tools, official) {
      var o :| o in tools && o in official && o.name.s == t.name.s;
      var i :| 0 <= i < |tools| && tools[i] == o;
      assert more[i].name.s == more[|tools|].name.s;
    } else if NoDuplicate(tools, official) {
      forall i, j | 0 <= i < j < |more| && more[i] in official && more[j] in official ensures more[i].name.s != more[j].name.s {
        if j == |tools| {
          assert more[i] in tools && more[i].name.s in Present(tools, official);
        }
      }
    } else {
      var i, j :| 0 <= i < j < |tools| && tools[i] in official && tools[j] in official && tools[i].name.s == tools[j].name.s;
      assert more[i] == tools[i] && more[j] == tools[j];
    }
  }

  /** Puts the official tools in front and renames the client's own. A settled list is left alone;
      any other becomes a settled one, so a second pass changes nothing. */
  method EnsureOfficial(digest: Digest, body: Body, templates: Option<seq<Tool>>, preferred: set<string>)
      returns (out: Body, aliases: map<string, string>)
    requires ProperDigest(digest) && (templates.Some? ==> Distinct(templates.value))
    ensures templates.None? || body.tools.Odd? ==> out == body && aliases == map[]
    ensures templates.Some? && !body.tools.Odd? ==>
              var official := templates.value;
              if Settled(Declared(body.tools), official) then out == body && aliases == map[]
              else Outcome(body, official, preferred, out, aliases) && Settled(Declared(out.tools), official) && out != body
                   && SentTools(digest, Declared(body.tools), official, preferred, Declared(out.tools))
  {
    hide IsWireName, Inert, Chosen, Clients, Settled, Renamed, IsReverse, NoDuplicate, Present, SentTools, Taken, Names;
    aliases := map[];
    if templates.None? || body.tools.Odd? {
      return body, map[];
    }
    var official, tools := templates.value, Declared(body.tools);
    var present, duplicate, clients, count := Classify(tools, official, preferred);
    var items: seq<Tool>;
    items, aliases := RenameAll(digest, clients, Taken(official, tools));
    SettledMeans(tools, official, preferred, items, aliases, present, duplicate);
    if |aliases| == 0 && |present| == count && !duplicate {
      return body, map[];
    }
    OutcomeIsSettled(tools, official, preferred, items, aliases);
    var reverse := BuildReverse(aliases);
    var references := RewriteSlots(body.references, reverse);
    out := Body(Listed(official + items), references);
    assert Rebuilt(body, official, preferred, items, reverse, out, aliases);
    SentInOrder(digest, tools, official, preferred, items);
  }

  lemma SentInOrder(digest: Digest, tools: seq<Tool>, official: seq<Tool>, preferred: set<string>, items: seq<Tool>)
    requires var clients := Clients(tools, official, preferred);
             |items| == |clients| && forall i :: 0 <= i < |clients| ==> NamedAfter(digest, clients[i], items[i])
    ensures SentTools(digest, tools, official, preferred, official + items)
  {
    hide NamedAfter, Clients;
  }

  /** Sending what was sent once already changes nothing and needs no restoring. */
  method EnsureTwice(digest: Digest, body: Body, official: seq<Tool>, preferred: set<string>) returns (once: Body, twice: Body)
    requires ProperDigest(digest) && Distinct(official)
    ensures twice == once
  {
    var aliases: map<string, string>;
    once, aliases := EnsureOfficial(digest, body, Some(official), preferred);
    twice, aliases := EnsureOfficial(digest, once, Some(official), preferred);
  }

  /** A reference to a renamed tool leaves under an alias of it, any other as it is. */
  ghost predicate SentUnder(n: Name, out: Name, aliases: map<string, string>) {
    if n.Text? && n.s in aliases.Values then out.Text? && out.s in aliases && aliases[out.s] == n.s else out == n
  }

  lemma ReferencesAreSent(slots: seq<Name>, reverse: map<string, string>, aliases: map<string, string>)
    requires IsReverse(aliases, reverse)
    ensures forall i :: 0 <= i < |slots| ==> SentUnder(slots[i], RewriteAll(slots, reverse)[i], aliases)
  {
    hide Less;
    forall i | 0 <= i < |slots| ensures SentUnder(slots[i], RewriteAll(slots, reverse)[i], aliases) {
      var n := slots[i];
      if n.Text? && n.s in reverse {
        assert LeastAlias(aliases, n.s, reverse[n.s]);
      }
    }
  }

  lemma TakenNames(official: seq<Tool>, tools: seq<Tool>, aliases: map<string, string>)
    requires aliases.Keys !! Taken(official, tools)
    ensures forall t :: t in official || (t in tools && t.name.s != "") ==> t.name.s !in aliases
  {
    forall t | t in official || (t in tools && t.name.s != "") ensures t.name.s in Taken(official, tools) {
      assert t.name.s in Names(if t in official then official else tools);
    }
  }

  lemma RewriteAllBack(slots: seq<Name>, reverse: map<string, string>, aliases: map<string, string>)
    requires aliases.Keys !! aliases.Values && IsReverse(aliases, reverse)
    ensures forall i :: 0 <= i < |slots| ==>
              (Rewrite(RewriteAll(slots, reverse)[i], aliases) == slots[i] <==> !(slots[i].Text? && slots[i].s in aliases))
  {
    forall i | 0 <= i < |slots|
      ensures Rewrite(RewriteAll(slots, reverse)[i], aliases) == slots[i] <==> !(slots[i].Text? && slots[i].s in aliases)
    {
      RestoreUndoesRewrite(aliases, reverse, slots[i]);
    }
  }

  lemma ClientsHaveAliases(clients: seq<Tool>, items: seq<Tool>, taken: set<string>, aliases: map<string, string>)
    requires Renamed(clients, items, taken, aliases)
    ensures forall t :: t in clients && !Inert(t) ==> t.name.s in aliases.Values
  {
    hide IsWireName, Inert;
    forall t | t in clients && !Inert(t) ensures t.name.s in aliases.Values {
      var i :| 0 <= i < |clients| && clients[i] == t;
      assert RenamedOne(clients[i], items[i], taken, aliases);
    }
  }

  lemma AliasesOfRequest(tools: seq<Tool>, official: seq<Tool>, preferred: set<string>, items: seq<Tool>, aliases: map<string, string>)
    requires Renamed(Clients(tools, official, preferred), items, Taken(official, tools), aliases)
    ensures aliases.Keys !! Taken(official, tools) && aliases.Values <= Names(tools) - {""}
    ensures aliases.Keys !! aliases.Values
    ensures forall t :: t in tools && t !in official && !Inert(t) ==> t.name.s in aliases.Values
  {
    hide IsWireName, Inert, Chosen, Clients, Renamed;
    var clients := Clients(tools, official, preferred);
    ClientsAreOthers(tools, official, preferred);
    AliasesAreApart(clients, items, Taken(official, tools), aliases);
    ClientsHaveAliases(clients, items, Taken(official, tools), aliases);
  }

  /** Every name a client declared survives the way out and back, whatever the request was. A
      reference survives exactly when it is not itself one of the generated names. */
  lemma DeclaredNamesComeBack(body: Body, official: seq<Tool>, preferred: set<string>, out: Body, aliases: map<string, string>)
    requires Outcome(body, official, preferred, out, aliases)
    ensures |out.references| == |body.references|
    ensures forall i :: 0 <= i < |body.references| ==>
              (Rewrite(out.references[i], aliases) == body.references[i] <==> !(body.references[i].Text? && body.references[i].s in aliases))
    ensures aliases.Keys !! Taken(official, Declared(body.tools)) && aliases.Values <= Names(Declared(body.tools))
    ensures forall t :: t in official || (t in Declared(body.tools) && t.name.s != "") ==> t.name.s !in aliases
    ensures forall i :: 0 <= i < |body.references| ==> SentUnder(body.references[i], out.references[i], aliases)
    ensures forall t :: t in Declared(body.tools) && t !in official && !Inert(t) ==> t.name.s in aliases.Values
  {
    hide IsWireName, Inert, Clients, IsReverse, RewriteAll, Rewrite, Renamed, Taken, Names;
    var items, reverse: map<string, string> :| Rebuilt(body, official, preferred, items, reverse, out, aliases);
    AliasesOfRequest(Declared(body.tools), official, preferred, items, aliases);
    RewriteAllBack(body.references, reverse, aliases);
    ReferencesAreSent(body.references, reverse, aliases);
    TakenNames(official, Declared(body.tools), aliases);
  }
}
