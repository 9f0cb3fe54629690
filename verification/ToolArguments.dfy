/** Arguments of an official tool call brought into the shape a client declared,
    internal/relay/opencode_tool_alias.go. */
module ToolArguments {
  import opened Wrappers

  datatype Json = Atom(raw: string) | Array(items: seq<Json>) | Object(fields: map<string, Json>)

  datatype Properties = Missing | Malformed | Declared(list: map<string, Schema>)

  /** The parts of a JSON schema that matter here. */
  datatype Schema = Schema(kind: string, properties: Properties, items: Option<Schema>)

  function Kind(s: Schema): string {
    if s.kind != "" then s.kind
    else if !s.properties.Missing? then "object"
    else if s.items.Some? then "array"
    else ""
  }

  // ---- Pruning ----

  predicate ObjectsMeet(v: Json, s: Schema) {
    Kind(s) == "object" && v.Object? && s.properties.Declared?
  }

  predicate ArraysMeet(v: Json, s: Schema) {
    Kind(s) == "array" && v.Array? && s.items.Some?
  }

  /** Drops, at every depth the schema describes, the keys it does not declare. */
  function Pruned(v: Json, s: Schema): Json
    decreases v
  {
    if ObjectsMeet(v, s) then Object(map k | k in v.fields && k in s.properties.list :: Pruned(v.fields[k], s.properties.list[k]))
    else if ArraysMeet(v, s) then Array(seq(|v.items|, i requires 0 <= i < |v.items| => Pruned(v.items[i], s.items.value)))
    else v
  }

  /** No object the schema describes has a key it does not declare. */
  predicate Conforms(v: Json, s: Schema)
    decreases v
  {
    if ObjectsMeet(v, s) then
      && (forall k :: k in v.fields ==> k in s.properties.list)
      && (forall k :: k in v.fields && k in s.properties.list ==> Conforms(v.fields[k], s.properties.list[k]))
    else if ArraysMeet(v, s) then forall i :: 0 <= i < |v.items| ==> Conforms(v.items[i], s.items.value)
    else true
  }

  /** Pruning makes every value conform and touches no value that does, so it acts once. */
  lemma {:induction false} PruningIsExact(v: Json, s: Schema)
    ensures Conforms(Pruned(v, s), s)
    ensures Pruned(v, s) == v <==> Conforms(v, s)
    decreases v
  {
    if ObjectsMeet(v, s) {
      var list, out := s.properties.list, Pruned(v, s).fields;
      forall k | k in v.fields && k in list
        ensures Conforms(Pruned(v.fields[k], list[k]), list[k]) && (Pruned(v.fields[k], list[k]) == v.fields[k] <==> Conforms(v.fields[k], list[k]))
      {
        PruningIsExact(v.fields[k], list[k]);
      }
      assert out == v.fields <==> forall k :: k in v.fields ==> k in list && out[k] == v.fields[k];
    } else if ArraysMeet(v, s) {
      var out := Pruned(v, s).items;
      forall i | 0 <= i < |v.items|
        ensures Conforms(out[i], s.items.value) && (out[i] == v.items[i] <==> Conforms(v.items[i], s.items.value))
      {
        PruningIsExact(v.items[i], s.items.value);
      }
      assert out == v.items <==> forall i :: 0 <= i < |v.items| ==> out[i] == v.items[i];
    }
  }

  /** What pruning makes of a value, by the parts of the schema: properties count for an object when the
      type is "object" or missing, items for a list when it is "array", or missing and no properties are given. */
  lemma PrunedIs(v: Json, s: Schema)
    ensures v.Object? && s.properties.Declared? && s.kind in {"object", ""} ==>
              var out := Pruned(v, s);
              && out.Object? && out.fields.Keys == v.fields.Keys * s.properties.list.Keys
              && forall k :: k in out.fields ==> out.fields[k] == Pruned(v.fields[k], s.properties.list[k])
    ensures v.Array? && s.items.Some? && (s.kind == "array" || (s.kind == "" && s.properties.Missing?)) ==>
              var out := Pruned(v, s);
              && out.Array? && |out.items| == |v.items|
              && forall i :: 0 <= i < |v.items| ==> out.items[i] == Pruned(v.items[i], s.items.value)
    ensures !(v.Object? && s.properties.Declared? && s.kind in {"object", ""})
            && !(v.Array? && s.items.Some? && (s.kind == "array" || (s.kind == "" && s.properties.Missing?))) ==>
              Pruned(v, s) == v
  {
  }

  // ---- Argument names ----

  type Aliases = map<string, seq<string>>

  function FirstDeclared(names: seq<string>, declared: set<string>): Option<string> {
    if names == [] then None
    else if names[0] in declared then Some(names[0])
    else FirstDeclared(names[1..], declared)
  }

  /** The client's name of an official argument: its own if declared, else its first declared alias. */
  function ClientName(aliases: Aliases, key: string, declared: set<string>): Option<string> {
    if key in declared then Some(key)
    else if key in aliases then FirstDeclared(aliases[key], declared)
    else None
  }

  lemma {:induction false} FirstDeclaredIs(names: seq<string>, declared: set<string>)
    ensures var r := FirstDeclared(names, declared);
            && (r.None? <==> forall n :: n in names ==> n !in declared)
            && (r.Some? ==> r.value in declared
                            && exists i :: 0 <= i < |names| && names[i] == r.value && forall j :: 0 <= j < i ==> names[j] !in declared)
  {
    if names != [] && names[0] !in declared {
      FirstDeclaredIs(names[1..], declared);
      var r := FirstDeclared(names[1..], declared);
      assert names == [names[0]] + names[1..];
      if r.Some? {
        var i :| 0 <= i < |names[1..]| && names[1..][i] == r.value && forall j :: 0 <= j < i ==> names[1..][j] !in declared;
        assert names[i + 1] == r.value;
      }
    }
  }

  /** An argument goes under its own name if the client declares that, else under the first of its aliases
      that is declared, and is dropped only if none is. */
  lemma ClientNameIs(aliases: Aliases, key: string, declared: set<string>)
    ensures var names := [key] + if key in aliases then aliases[key] else [];
            match ClientName(aliases, key, declared)
            case None => forall n :: n in names ==> n !in declared
            case Some(name) => name in declared && exists i :: 0 <= i < |names| && names[i] == name && forall j :: 0 <= j < i ==> names[j] !in declared
  {
    var rest := if key in aliases then aliases[key] else [];
    var names := [key] + rest;
    FirstDeclaredIs(rest, declared);
    if key in declared {
      assert names[0] == key;
    } else if FirstDeclared(rest, declared).Some? {
      var i :| 0 <= i < |rest| && rest[i] == FirstDeclared(rest, declared).value && forall j :: 0 <= j < i ==> rest[j] !in declared;
      assert names[i + 1] == rest[i];
      assert forall j :: 0 < j <= i ==> names[j] == rest[j - 1];
    }
  }

  /** A client name is declared and is its own client name. */
  lemma ClientNameIsStable(aliases: Aliases, key: string, declared: set<string>)
    requires ClientName(aliases, key, declared).Some?
    ensures var name := ClientName(aliases, key, declared).value;
            name in declared && ClientName(aliases, name, declared) == Some(name)
  {
    if key !in declared {
      FirstDeclaredIs(aliases[key], declared);
    }
  }

  // ---- The argument object ----

  /** An argument in the order in which the arguments are written. */
  datatype Argument = Argument(key: string, value: Json)

  /** The last argument that a client name stands for. */
  ghost predicate LastFor(aliases: Aliases, args: seq<Argument>, declared: set<string>, name: string, i: nat) {
    && i < |args| && ClientName(aliases, args[i].key, declared) == Some(name)
    && forall j :: i < j < |args| ==> ClientName(aliases, args[j].key, declared) != Some(name)
  }

  /** out holds, under each client name some argument has, the pruned value of the last such argument. */
  ghost predicate Adapted(aliases: Aliases, args: seq<Argument>, list: map<string, Schema>, out: map<string, Json>) {
    && (forall name :: name in out ==>
          name in list
          && exists i: nat :: LastFor(aliases, args, list.Keys, name, i) && out[name] == Pruned(args[i].value, list[name]))
    && (forall i :: 0 <= i < |args| && ClientName(aliases, args[i].key, list.Keys).Some? ==> ClientName(aliases, args[i].key, list.Keys).value in out)
  }

  method Adapt(aliases: Aliases, args: seq<Argument>, list: map<string, Schema>) returns (out: map<string, Json>)
    ensures Adapted(aliases, args, list, out)
  {
    out := map[];
    for n := 0 to |args|
      invariant Adapted(aliases, args[..n], list, out)
    {
      assert args[..n + 1] == args[..n] + [args[n]];
      var name := ClientName(aliases, args[n].key, list.Keys);
      if name.Some? {
        ClientNameIsStable(aliases, args[n].key, list.Keys);
      }
      AdaptStep(aliases, args[..n], list, out, args[n]);
      if name.Some? {
        out := out[name.value := Pruned(args[n].value, list[name.value])];
      }
    }
    assert args[..|args|] == args;
  }

  lemma AdaptStep(aliases: Aliases, args: seq<Argument>, list: map<string, Schema>, out: map<string, Json>, a: Argument)
    requires Adapted(aliases, args, list, out)
    requires ClientName(aliases, a.key, list.Keys).Some? ==> ClientName(aliases, a.key, list.Keys).value in list
    ensures var name := ClientName(aliases, a.key, list.Keys);
            Adapted(aliases, args + [a], list, if name.Some? then out[name.value := Pruned(a.value, list[name.value])] else out)
  {
    hide ClientName, Pruned;
    var own, more := ClientName(aliases, a.key, list.Keys), args + [a];
    var next := if own.Some? then out[own.value := Pruned(a.value, list[own.value])] else out;
    forall name | name in next
      ensures name in list && exists i: nat :: LastFor(aliases, more, list.Keys, name, i) && next[name] == Pruned(more[i].value, list[name])
    {
      if own == Some(name) {
        assert LastFor(aliases, more, list.Keys, name, |args|);
      } else {
        var i: nat :| LastFor(aliases, args, list.Keys, name, i) && out[name] == Pruned(args[i].value, list[name]);
        assert LastFor(aliases, more, list.Keys, name, i);
      }
    }
  }

  /** What reaches the client: declared names only, each with a value that conforms to its schema. */
  lemma AdaptedConforms(aliases: Aliases, args: seq<Argument>, list: map<string, Schema>, out: map<string, Json>)
    requires Adapted(aliases, args, list, out)
    ensures out.Keys <= list.Keys && forall name :: name in out ==> Conforms(out[name], list[name])
  {
    hide Pruned, Conforms, ClientName;
    forall name | name in out ensures name in list && Conforms(out[name], list[name]) {
      var i: nat :| LastFor(aliases, args, list.Keys, name, i) && out[name] == Pruned(args[i].value, list[name]);
      PruningIsExact(args[i].value, list[name]);
    }
  }

  /** Arguments that already are in the client's shape pass unchanged, whatever their order. */
  lemma AdaptingTwice(aliases: Aliases, args: seq<Argument>, list: map<string, Schema>, out: map<string, Json>)
    requires Adapted(aliases, args, list, out)
    requires forall i :: 0 <= i < |args| ==> args[i].key in list && Conforms(args[i].value, list[args[i].key])
    requires forall i, j :: 0 <= i < j < |args| ==> args[i].key != args[j].key
    ensures out.Keys == (set a | a in args :: a.key) && forall a :: a in args ==> out[a.key] == a.value
  {
    hide Pruned, Conforms;
    forall a | a in args ensures a.key in out && out[a.key] == a.value {
      var k :| 0 <= k < |args| && args[k] == a;
      assert ClientName(aliases, a.key, list.Keys) == Some(a.key);
      var i: nat :| LastFor(aliases, args, list.Keys, a.key, i) && out[a.key] == Pruned(args[i].value, list[a.key]);
      assert i == k;
      PruningIsExact(a.value, list[a.key]);
    }
    forall name | name in out ensures exists a :: a in args && a.key == name {
      var i: nat :| LastFor(aliases, args, list.Keys, name, i) && out[name] == Pruned(args[i].value, list[name]);
      assert args[i] in args;
    }
  }

  // ---- One call ----

  /** What a call carries: nothing, text that is no object, or an object as it is written. */
  datatype Arguments = Blank | NotAnObject | Written(args: seq<Argument>)

  /** list is None when the client declared no schema. */
  datatype Target = Target(list: Option<map<string, Schema>>, required: set<string>)

  const DEFAULT_PROMPT := Atom("Return the page content.")

  function WithPrompt(out: map<string, Json>, official: string, required: set<string>): map<string, Json> {
    if official == "webfetch" && "prompt" in required && "prompt" !in out then out["prompt" := DEFAULT_PROMPT] else out
  }

  /** A required prompt of a page fetch is there afterwards; nothing else is added, and nothing given is changed. */
  lemma PromptIs(out: map<string, Json>, official: string, required: set<string>)
    ensures var r := WithPrompt(out, official, required);
            && (forall k :: k in out ==> k in r && r[k] == out[k])
            && (forall k :: k in r && k !in out ==> k == "prompt" && r[k] == Atom("Return the page content."))
            && ("prompt" in r <==> "prompt" in out || (official == "webfetch" && "prompt" in required))
  {
  }

  /** The adapted object, or None when the arguments stay as they are: without declared properties,
      and for text that is no object. Blank arguments count as an empty object; a required prompt of
      a page fetch is filled in. */
  method AdaptOfficial(official: string, arguments: Arguments, target: Target, aliases: Aliases) returns (r: Option<map<string, Json>>)
    ensures r.None? <==> target.list.None? || target.list.value == map[] || arguments.NotAnObject?
    ensures r.Some? ==> exists out :: Adapted(aliases, if arguments.Blank? then [] else arguments.args, target.list.value, out)
                                      && r.value == WithPrompt(out, official, target.required)
  {
    if target.list.None? || |target.list.value| == 0 || arguments.NotAnObject? {
      return None;
    }
    var args := if arguments.Blank? then [] else arguments.args;
    var out := Adapt(aliases, args, target.list.value);
    assert Adapted(aliases, args, target.list.value, out);
    var fields := out;
    if official == "webfetch" && "prompt" in target.required && "prompt" !in out {
      fields := fields["prompt" := DEFAULT_PROMPT];
    }
    assert fields == WithPrompt(out, official, target.required);
    return Some(fields);
  }
}
