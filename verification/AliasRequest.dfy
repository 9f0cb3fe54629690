/** The request side of internal/relay/opencode_alias.go: every bounded name in a
    prompt field is replaced by an alias that occurs nowhere in the body. */
module AliasRequest {
  import opened Wrappers
  import opened AliasText

  const COLLISION_TRIES := 128

  /** JSON values as far as the collision test looks at them. */
  datatype Json =
    | JString(text: string)
    | JArray(items: seq<Json>)
    | JObject(members: seq<(string, Json)>)
    | JOther

  predicate Contains(s: string, w: string) {
    exists i :: 0 <= i <= |s| && w <= s[i..]
  }

  predicate JsonContains(v: Json, w: string) {
    match v
    case JString(text) => Contains(text, w)
    case JArray(items) => exists child :: child in items && JsonContains(child, w)
    case JObject(members) => exists m :: m in members && (Contains(m.0, w) || JsonContains(m.1, w))
    case JOther => false
  }

  /** text is a string value somewhere inside v. */
  predicate HasLeaf(v: Json, text: string) {
    match v
    case JString(s) => s == text
    case JArray(items) => exists child :: child in items && HasLeaf(child, text)
    case JObject(members) => exists m :: m in members && HasLeaf(m.1, text)
    case JOther => false
  }

  lemma {:induction false} LeafContained(v: Json, text: string, w: string)
    requires HasLeaf(v, text) && Contains(text, w)
    ensures JsonContains(v, w)
    decreases v
  {
    match v
    case JString(s) =>
    case JArray(items) =>
      var child :| child in items && HasLeaf(child, text);
      LeafContained(child, text, w);
    case JObject(members) =>
      var m :| m in members && HasLeaf(m.1, text);
      LeafContained(m.1, text, w);
  }

  /** text is a member name somewhere inside v. */
  predicate HasKey(v: Json, text: string) {
    match v
    case JString(_) => false
    case JArray(items) => exists child :: child in items && HasKey(child, text)
    case JObject(members) => exists m :: m in members && (m.0 == text || HasKey(m.1, text))
    case JOther => false
  }

  /** The collision test finds an alias exactly in string values and member names, at any depth. */
  lemma {:induction false} ContainedIff(v: Json, w: string)
    ensures JsonContains(v, w) <==> exists text :: (HasLeaf(v, text) || HasKey(v, text)) && Contains(text, w)
    decreases v
  {
    match v {
      case JString(s) =>
        assert HasLeaf(v, s);
      case JOther =>
      case JArray(items) =>
        forall child | child in items
          ensures JsonContains(child, w) <==> exists text :: (HasLeaf(child, text) || HasKey(child, text)) && Contains(text, w)
        {
          ContainedIff(child, w);
        }
        ChildrenContain(v, items, w);
      case JObject(members) =>
        forall m | m in members
          ensures JsonContains(m.1, w) <==> exists text :: (HasLeaf(m.1, text) || HasKey(m.1, text)) && Contains(text, w)
        {
          ContainedIff(m.1, w);
        }
        MembersContain(v, members, w);
    }
  }

  lemma ChildrenContain(v: Json, items: seq<Json>, w: string)
    requires v == JArray(items)
    requires forall child :: child in items ==>
               (JsonContains(child, w) <==> exists text :: (HasLeaf(child, text) || HasKey(child, text)) && Contains(text, w))
    ensures JsonContains(v, w) <==> exists text :: (HasLeaf(v, text) || HasKey(v, text)) && Contains(text, w)
  {
    hide Contains;
    if JsonContains(v, w) {
      var child :| child in items && JsonContains(child, w);
      var text :| (HasLeaf(child, text) || HasKey(child, text)) && Contains(text, w);
      assert HasLeaf(v, text) || HasKey(v, text);
    }
    if text :| (HasLeaf(v, text) || HasKey(v, text)) && Contains(text, w) {
      var child :| child in items && (HasLeaf(child, text) || HasKey(child, text));
      assert JsonContains(child, w);
    }
  }

  lemma MembersContain(v: Json, members: seq<(string, Json)>, w: string)
    requires v == JObject(members)
    requires forall m :: m in members ==>
               (JsonContains(m.1, w) <==> exists text :: (HasLeaf(m.1, text) || HasKey(m.1, text)) && Contains(text, w))
    ensures JsonContains(v, w) <==> exists text :: (HasLeaf(v, text) || HasKey(v, text)) && Contains(text, w)
  {
    hide Contains;
    if JsonContains(v, w) {
      var m :| m in members && (Contains(m.0, w) || JsonContains(m.1, w));
      if Contains(m.0, w) {
        assert HasKey(v, m.0);
      } else {
        var text :| (HasLeaf(m.1, text) || HasKey(m.1, text)) && Contains(text, w);
        assert HasLeaf(v, text) || HasKey(v, text);
      }
    }
    if text :| (HasLeaf(v, text) || HasKey(v, text)) && Contains(text, w) {
      var m :| m in members && (HasLeaf(m.1, text) || m.0 == text || HasKey(m.1, text));
      if m.0 != text {
        assert JsonContains(m.1, w);
      }
    }
  }

  /** A digest renders 16 bytes as 32 lower-case hex digits; nothing else is assumed of it. */
  ghost predicate IsDigest(digest: (string, nat) -> string) {
    forall name, probe :: |digest(name, probe)| == 32 && forall i :: 0 <= i < 32 ==> IsHexDigit(digest(name, probe)[i])
  }

  lemma DigestMakesAlias(digest: (string, nat) -> string, name: string, probe: nat)
    requires IsDigest(digest)
    ensures IsAlias(PREFIX + digest(name, probe))
  {
    var d := digest(name, probe);
    forall i | 9 <= i < ALIAS_LEN
      ensures IsHexDigit((PREFIX + d)[i])
    {
      assert (PREFIX + d)[i] == d[i - 9];
    }
  }

  datatype AliasError = CollisionLimitExceeded

  datatype Body = Body(raw: string, json: Json)

  predicate Blocked(body: Body, aliases: Table, w: string) {
    w in aliases || Contains(body.raw, w) || JsonContains(body.json, w)
  }

  /** A probe is free exactly when it is no alias yet, and stands neither in the raw body nor in any string
      value or member name. */
  lemma FreeIff(body: Body, aliases: Table, w: string)
    ensures !Blocked(body, aliases, w)
       <==> && w !in aliases.Keys
            && (forall front, back :: body.raw != front + w + back)
            && (forall text :: HasLeaf(body.json, text) || HasKey(body.json, text) ==> !Contains(text, w))
  {
    ContainedIff(body.json, w);
    ContainsIff(body.raw, w);
    hide Contains, JsonContains;
  }

  lemma ContainsIff(s: string, w: string)
    ensures Contains(s, w) <==> exists front, back :: s == front + w + back
  {
    if i :| 0 <= i <= |s| && w <= s[i..] {
      assert s == s[..i] + w + s[i + |w|..];
    }
    if front, back :| s == front + w + back {
      assert s[|front|..] == w + back;
    }
  }

  /** w is the first unblocked alias among the probes of a name. */
  ghost predicate FirstFree(body: Body, digest: (string, nat) -> string, aliases: Table, name: string, w: string) {
    exists n: nat :: n < COLLISION_TRIES && w == PREFIX + digest(name, n) && !Blocked(body, aliases, w)
                     && forall k: nat :: k < n ==> Blocked(body, aliases, PREFIX + digest(name, k))
  }

  /** First unblocked alias among the probes of one name. */
  method IdentityAlias(body: Body, digest: (string, nat) -> string, original: string, aliases: Table)
    returns (r: Result<string, AliasError>)
    requires IsDigest(digest)
    ensures r.Success? ==> IsAlias(r.value) && FirstFree(body, digest, aliases, original, r.value)
    ensures r.Failure? <==> forall k: nat :: k < COLLISION_TRIES ==> Blocked(body, aliases, PREFIX + digest(original, k))
  {
    for probe := 0 to COLLISION_TRIES
      invariant forall k: nat :: k < probe ==> Blocked(body, aliases, PREFIX + digest(original, k))
    {
      var w := PREFIX + digest(original, probe);
      if !Blocked(body, aliases, w) {
        DigestMakesAlias(digest, original, probe);
        return Success(w);
      }
    }
    return Failure(CollisionLimitExceeded);
  }

  // ---- Matches and pieces ----

  datatype Match = Match(start: nat, end: nat)

  predicate WordByte(c: char) {
    'a' <= c <= 'z' || 'A' <= c <= 'Z' || '0' <= c <= '9' || c == '_'
  }

  /** The match is not glued to a word character on either side. */
  predicate NameBoundary(text: string, m: Match)
    requires m.start <= m.end <= |text|
  {
    (m.start == 0 || !WordByte(text[m.start - 1])) && (m.end == |text| || !WordByte(text[m.end]))
  }

  /** What a regular-expression scan promises: non-empty matches, left to right, disjoint. */
  ghost predicate ScanFrom(text: string, ms: seq<Match>, start: nat) {
    ms == [] || (start <= ms[0].start < ms[0].end <= |text| && ScanFrom(text, ms[1..], ms[0].end))
  }

  /** The text from position start on, split at the bounded matches. */
  ghost function Pieces(text: string, ms: seq<Match>, start: nat): seq<Piece>
    requires start <= |text| && ScanFrom(text, ms, start)
    decreases |ms|
  {
    if ms == [] then []
    else if NameBoundary(text, ms[0]) then
      [Piece(text[start..ms[0].start], text[ms[0].start..ms[0].end])] + Pieces(text, ms[1..], ms[0].end)
    else (ScanWeaken(text, ms[1..], start, ms[0].end); Pieces(text, ms[1..], start))
  }

  lemma ScanWeaken(text: string, ms: seq<Match>, start: nat, later: nat)
    requires start <= later && ScanFrom(text, ms, later)
    ensures ScanFrom(text, ms, start)
  {
  }

  /** Position behind the last bounded match. */
  ghost function TailStart(text: string, ms: seq<Match>, start: nat): (end: nat)
    requires start <= |text| && ScanFrom(text, ms, start)
    ensures start <= end <= |text|
    decreases |ms|
  {
    if ms == [] then start
    else if NameBoundary(text, ms[0]) then TailStart(text, ms[1..], ms[0].end)
    else (ScanWeaken(text, ms[1..], start, ms[0].end); TailStart(text, ms[1..], start))
  }

  lemma PiecesStep(text: string, ms: seq<Match>, i: nat, start: nat)
    requires start <= |text| && i < |ms| && ScanFrom(text, ms[i..], start)
    ensures start <= ms[i].start < ms[i].end <= |text|
    ensures NameBoundary(text, ms[i]) ==>
              && ScanFrom(text, ms[i + 1..], ms[i].end)
              && Pieces(text, ms[i..], start)
                 == [Piece(text[start..ms[i].start], text[ms[i].start..ms[i].end])] + Pieces(text, ms[i + 1..], ms[i].end)
              && TailStart(text, ms[i..], start) == TailStart(text, ms[i + 1..], ms[i].end)
    ensures !NameBoundary(text, ms[i]) ==>
              && ScanFrom(text, ms[i + 1..], start)
              && Pieces(text, ms[i..], start) == Pieces(text, ms[i + 1..], start)
              && TailStart(text, ms[i..], start) == TailStart(text, ms[i + 1..], start)
  {
    assert ms[i..][0] == ms[i] && ms[i..][1..] == ms[i + 1..];
    ScanWeaken(text, ms[i + 1..], start, ms[i].end);
  }

  lemma {:induction false} PiecesCoverText(text: string, ms: seq<Match>, start: nat)
    requires start <= |text| && ScanFrom(text, ms, start)
    ensures Original(Pieces(text, ms, start), text[TailStart(text, ms, start)..]) == text[start..]
    decreases |ms|
  {
    if ms != [] {
      var m := ms[0];
      if NameBoundary(text, m) {
        PiecesCoverText(text, ms[1..], m.end);
        var ps, tail := Pieces(text, ms[1..], m.end), text[TailStart(text, ms[1..], m.end)..];
        var all := Pieces(text, ms, start);
        assert all[0] == Piece(text[start..m.start], text[m.start..m.end]) && all[1..] == ps;
        assert text[start..m.start] + text[m.start..m.end] + text[m.end..] == text[start..];
      } else {
        ScanWeaken(text, ms[1..], start, m.end);
        PiecesCoverText(text, ms[1..], start);
      }
    }
  }

  /** Anything but an ASCII letter, an ASCII digit and the underscore. */
  predicate Separates(c: char) {
    c < '0' || '9' < c < 'A' || 'Z' < c < '_' || c == '`' || 'z' < c
  }

  /** A name that stands by itself: at either end of the text or next to a separator. */
  ghost predicate StandsAlone(text: string, m: Match)
    requires m.start <= m.end <= |text|
  {
    && (m.start > 0 ==> Separates(text[m.start - 1]))
    && (m.end < |text| ==> Separates(text[m.end]))
  }

  lemma BoundaryIff(text: string, m: Match)
    requires m.start <= m.end <= |text|
    ensures NameBoundary(text, m) <==> StandsAlone(text, m)
  {
  }

  ghost predicate Within(text: string, ms: seq<Match>) {
    forall i :: 0 <= i < |ms| ==> ms[i].start < ms[i].end <= |text|
  }

  lemma {:induction false} ScanIsWithin(text: string, ms: seq<Match>, start: nat)
    requires ScanFrom(text, ms, start)
    ensures Within(text, ms)
    decreases |ms|
  {
    if ms != [] {
      ScanIsWithin(text, ms[1..], ms[0].end);
      assert forall i :: 0 < i < |ms| ==> ms[i] == ms[1..][i - 1];
    }
  }

  /** at lists the matches that stand alone, in order and no other. */
  ghost predicate AloneAt(text: string, ms: seq<Match>, at: seq<int>)
    requires Within(text, ms)
  {
    && (forall k :: 0 <= k < |at| ==> 0 <= at[k] < |ms|)
    && (forall j, k :: 0 <= j < k < |at| ==> at[j] < at[k])
    && (forall i :: 0 <= i < |ms| ==> (i in at <==> StandsAlone(text, ms[i])))
  }

  /** The k-th piece is the match at the k-th place with the text between it and the one before. */
  ghost predicate PieceIs(text: string, ms: seq<Match>, start: nat, ps: seq<Piece>, at: seq<int>, k: nat)
    requires start <= |text| && Within(text, ms)
  {
    && k < |at| == |ps| && 0 <= at[k] < |ms| && (k > 0 ==> 0 <= at[k - 1] < |ms|)
    && var from := if k == 0 then start else ms[at[k - 1]].end;
    && from <= ms[at[k]].start
    && ps[k] == Piece(text[from..ms[at[k]].start], text[ms[at[k]].start..ms[at[k]].end])
  }

  /** The pieces are the matches at these places: each match that stands alone, in order. */
  ghost predicate PiecesAt(text: string, ms: seq<Match>, start: nat, ps: seq<Piece>, at: seq<int>)
    requires start <= |text| && Within(text, ms)
  {
    |at| == |ps| && AloneAt(text, ms, at) && forall k: nat :: k < |at| ==> PieceIs(text, ms, start, ps, at, k)
  }

  function Shifted(at: seq<int>): seq<int> {
    seq(|at|, k requires 0 <= k < |at| => at[k] + 1)
  }

  lemma AloneShifted(text: string, ms: seq<Match>, at: seq<int>)
    requires ms != [] && Within(text, ms) && Within(text, ms[1..]) && AloneAt(text, ms[1..], at)
    ensures !StandsAlone(text, ms[0]) ==> AloneAt(text, ms, Shifted(at))
    ensures StandsAlone(text, ms[0]) ==> AloneAt(text, ms, [0] + Shifted(at))
  {
    hide StandsAlone;
    ShiftedPlaces(at);
    var shifted := Shifted(at);
    forall i | 0 < i < |ms| ensures i in shifted <==> StandsAlone(text, ms[i]) {
      assert ms[i] == ms[1..][i - 1];
    }
    assert 0 !in shifted;
    assert forall i :: i in [0] + shifted <==> i == 0 || i in shifted;
  }

  lemma SkippedPiece(text: string, ms: seq<Match>, start: nat, ps: seq<Piece>, at: seq<int>, k: nat)
    requires start <= |text| && ms != [] && Within(text, ms) && Within(text, ms[1..]) && PieceIs(text, ms[1..], start, ps, at, k)
    ensures PieceIs(text, ms, start, ps, Shifted(at), k)
  {
    hide Within;
    assert ms[Shifted(at)[k]] == ms[1..][at[k]];
    if k > 0 {
      assert ms[Shifted(at)[k - 1]] == ms[1..][at[k - 1]];
    }
  }

  lemma TakenPiece(text: string, ms: seq<Match>, start: nat, ps: seq<Piece>, at: seq<int>, k: nat)
    requires start <= |text| && ms != [] && Within(text, ms) && Within(text, ms[1..])
    requires ms[0].end <= |text| && PieceIs(text, ms[1..], ms[0].end, ps, at, k)
    ensures forall p :: PieceIs(text, ms, start, [p] + ps, [0] + Shifted(at), k + 1)
  {
    hide Within;
    var all := [0] + Shifted(at);
    assert all[k + 1] == at[k] + 1 && ms[all[k + 1]] == ms[1..][at[k]];
    if k > 0 {
      assert all[k] == at[k - 1] + 1 && ms[all[k]] == ms[1..][at[k - 1]];
    }
    forall p ensures ([p] + ps)[k + 1] == ps[k] {
    }
  }

  lemma SkipsFirst(text: string, ms: seq<Match>, start: nat, ps: seq<Piece>, at: seq<int>)
    requires start <= |text| && ms != [] && Within(text, ms) && Within(text, ms[1..])
    requires PiecesAt(text, ms[1..], start, ps, at) && !StandsAlone(text, ms[0])
    ensures PiecesAt(text, ms, start, ps, Shifted(at))
  {
    hide StandsAlone, PieceIs, AloneAt, Within;
    AloneShifted(text, ms, at);
    forall k: nat | k < |at| ensures PieceIs(text, ms, start, ps, Shifted(at), k) {
      SkippedPiece(text, ms, start, ps, at, k);
    }
  }

  lemma TakesFirst(text: string, ms: seq<Match>, start: nat, ps: seq<Piece>, at: seq<int>)
    requires start <= |text| && ms != [] && Within(text, ms) && Within(text, ms[1..])
    requires start <= ms[0].start <= ms[0].end <= |text|
    requires PiecesAt(text, ms[1..], ms[0].end, ps, at) && StandsAlone(text, ms[0])
    ensures PiecesAt(text, ms, start, [Piece(text[start..ms[0].start], text[ms[0].start..ms[0].end])] + ps, [0] + Shifted(at))
  {
    hide StandsAlone, AloneAt, Within, PieceIs;
    AloneShifted(text, ms, at);
    var p := Piece(text[start..ms[0].start], text[ms[0].start..ms[0].end]);
    forall k: nat | k < |at| + 1 ensures PieceIs(text, ms, start, [p] + ps, [0] + Shifted(at), k) {
      if k > 0 {
        TakenPiece(text, ms, start, ps, at, k - 1);
      } else {
        FirstPiece(text, ms, start, ps, Shifted(at));
      }
    }
  }

  lemma FirstPiece(text: string, ms: seq<Match>, start: nat, ps: seq<Piece>, rest: seq<int>)
    requires start <= |text| && ms != [] && Within(text, ms) && start <= ms[0].start <= ms[0].end <= |text| && |rest| == |ps|
    ensures PieceIs(text, ms, start, [Piece(text[start..ms[0].start], text[ms[0].start..ms[0].end])] + ps, [0] + rest, 0)
  {
  }

  lemma ShiftedPlaces(at: seq<int>)
    ensures forall i :: i in Shifted(at) <==> i - 1 in at
  {
    forall i ensures i in Shifted(at) <==> i - 1 in at {
      if i - 1 in at {
        var k :| 0 <= k < |at| && at[k] == i - 1;
        assert Shifted(at)[k] == i;
      }
    }
  }

  /** Exactly the matches that stand alone are replaced. */
  lemma {:induction false} PiecesStandAlone(text: string, ms: seq<Match>, start: nat) returns (at: seq<int>)
    requires start <= |text| && ScanFrom(text, ms, start)
    ensures Within(text, ms) && PiecesAt(text, ms, start, Pieces(text, ms, start), at)
    decreases |ms|
  {
    ScanIsWithin(text, ms, start);
    if ms == [] {
      at := [];
    } else {
      hide StandsAlone, NameBoundary, PiecesAt, Within;
      InText(text, ms, start);
      BoundaryIff(text, ms[0]);
      ScanIsWithin(text, ms[1..], ms[0].end);
      if NameBoundary(text, ms[0]) {
        var rest := PiecesStandAlone(text, ms[1..], ms[0].end);
        TakesFirst(text, ms, start, Pieces(text, ms[1..], ms[0].end), rest);
        at := [0] + Shifted(rest);
      } else {
        ScanWeaken(text, ms[1..], start, ms[0].end);
        var rest := PiecesStandAlone(text, ms[1..], start);
        SkipsFirst(text, ms, start, Pieces(text, ms[1..], start), rest);
        at := Shifted(rest);
      }
    }
  }

  lemma InText(text: string, ms: seq<Match>, start: nat)
    requires ms != [] && ScanFrom(text, ms, start)
    ensures start <= ms[0].start <= ms[0].end <= |text|
  {
  }

  // ---- One field ----

  /** The alias maps of a request: names and aliases in one-to-one correspondence,
      no alias occurring anywhere in the body. */
  ghost predicate AliasMaps(body: Body, originals: map<string, string>, aliases: Table) {
    && (forall n :: n in originals ==> originals[n] in aliases && aliases[originals[n]] == n)
    && (forall w :: w in aliases ==> aliases[w] in originals && originals[aliases[w]] == w)
    && (forall w :: w in aliases ==> !Contains(body.raw, w) && !JsonContains(body.json, w))
  }

  ghost predicate Extends(before: map<string, string>, after: map<string, string>) {
    forall n :: n in before ==> n in after && after[n] == before[n]
  }

  ghost predicate Named(names: map<string, string>, ps: seq<Piece>) {
    forall p :: p in ps ==> p.name in names
  }

  /** Aliased text of the pieces read so far, built left to right. */
  ghost function AliasedHead(names: map<string, string>, ps: seq<Piece>): string
    requires Named(names, ps)
  {
    if ps == [] then ""
    else
      var k := |ps| - 1;
      AliasedHead(names, ps[..k]) + ps[k].plain + names[ps[k].name]
  }

  lemma {:induction false} HeadStable(before: map<string, string>, after: map<string, string>, ps: seq<Piece>)
    requires Named(before, ps) && Extends(before, after)
    ensures Named(after, ps) && AliasedHead(before, ps) == AliasedHead(after, ps)
  {
    if ps != [] {
      HeadStable(before, after, ps[..|ps| - 1]);
    }
  }

  lemma HeadSnoc(names: map<string, string>, ps: seq<Piece>, p: Piece)
    requires Named(names, ps) && p.name in names
    ensures Named(names, ps + [p])
    ensures AliasedHead(names, ps + [p]) == AliasedHead(names, ps) + p.plain + names[p.name]
  {
    assert (ps + [p])[..|ps|] == ps;
  }

  /** The rewritten text is, piece by piece, the text in between and the alias of the name. */
  lemma AliasedCons(names: map<string, string>, p: Piece, qs: seq<Piece>, tail: string)
    requires Named(names, qs) && p.name in names
    ensures Named(names, [p] + qs)
    ensures Aliased(names, [p] + qs, tail) == p.plain + names[p.name] + Aliased(names, qs, tail)
  {
    assert ([p] + qs)[1..] == qs;
  }

  lemma Regroup(h: string, p: string, n: string, r: string)
    ensures h + p + n + r == h + (p + n + r)
  {
  }

  lemma {:induction false} HeadPlusTail(names: map<string, string>, ps: seq<Piece>, qs: seq<Piece>, tail: string)
    requires Named(names, ps) && Named(names, qs)
    ensures Named(names, ps + qs)
    ensures AliasedHead(names, ps) + Aliased(names, qs, tail) == Aliased(names, ps + qs, tail)
    decreases |ps|
  {
    if ps == [] {
      assert ps + qs == qs;
    } else {
      var k := |ps| - 1;
      var init, last := ps[..k], ps[k];
      assert ps == init + [last] && ps + qs == init + ([last] + qs);
      AliasedCons(names, last, qs, tail);
      HeadPlusTail(names, init, [last] + qs, tail);
      HeadSnoc(names, init, last);
      Regroup(AliasedHead(names, init), last.plain, names[last.name], Aliased(names, qs, tail));
    }
  }

  /** Every probe of the name is taken: the collision limit is reached. */
  ghost predicate Exhausted(body: Body, digest: (string, nat) -> string, aliases: Table, name: string) {
    forall k: nat :: k < COLLISION_TRIES ==> Blocked(body, aliases, PREFIX + digest(name, k))
  }

  /** One name registered: it keeps the alias it has or gets the first free one. */
  ghost predicate Registered(body: Body, digest: (string, nat) -> string, originals0: map<string, string>, aliases0: Table,
                             name: string, originals: map<string, string>, aliases: Table)
  {
    if name in originals0 then originals == originals0 && aliases == aliases0
    else exists w :: FirstFree(body, digest, aliases0, name, w)
                     && originals == originals0[name := w] && aliases == aliases0[w := name]
  }

  /** The maps after registering names in order, starting from empty maps. */
  ghost predicate Assigned(body: Body, digest: (string, nat) -> string, names: seq<string>, originals: map<string, string>, aliases: Table)
    decreases |names|, 1
  {
    if names == [] then originals == map[] && aliases == map[]
    else exists o: map<string, string>, a: Table :: AssignedLast(body, digest, names, o, a, originals, aliases)
  }

  ghost predicate AssignedLast(body: Body, digest: (string, nat) -> string, names: seq<string>, o: map<string, string>, a: Table,
                               originals: map<string, string>, aliases: Table)
    requires names != []
    decreases |names|, 0
  {
    && Assigned(body, digest, names[..|names| - 1], o, a)
    && Registered(body, digest, o, a, names[|names| - 1], originals, aliases)
  }

  /** Registering names in order gets as far as the j-th, which is new and has no free probe. */
  ghost predicate StuckAt(body: Body, digest: (string, nat) -> string, names: seq<string>, j: nat, originals: map<string, string>, aliases: Table) {
    && j < |names| && Assigned(body, digest, names[..j], originals, aliases)
    && names[j] !in originals && Exhausted(body, digest, aliases, names[j])
  }

  lemma {:induction false} AssignedOnce(body: Body, digest: (string, nat) -> string, names: seq<string>,
                                        o1: map<string, string>, a1: Table, o2: map<string, string>, a2: Table)
    requires Assigned(body, digest, names, o1, a1) && Assigned(body, digest, names, o2, a2)
    ensures o1 == o2 && a1 == a2
    decreases |names|
  {
    hide Registered;
    if names != [] {
      var init, name := names[..|names| - 1], names[|names| - 1];
      var p1: map<string, string>, b1: Table :| AssignedLast(body, digest, names, p1, b1, o1, a1);
      var p2: map<string, string>, b2: Table :| AssignedLast(body, digest, names, p2, b2, o2, a2);
      AssignedOnce(body, digest, init, p1, b1, p2, b2);
      RegisteredOnce(body, digest, p1, b1, name, o1, a1, o2, a2);
    }
  }

  lemma RegisteredOnce(body: Body, digest: (string, nat) -> string, o: map<string, string>, a: Table, name: string,
                       o1: map<string, string>, a1: Table, o2: map<string, string>, a2: Table)
    requires Registered(body, digest, o, a, name, o1, a1) && Registered(body, digest, o, a, name, o2, a2)
    ensures o1 == o2 && a1 == a2
    ensures name in o || !Exhausted(body, digest, a, name)
  {
    hide FirstFree, Exhausted;
    if name !in o {
      var w1 :| FirstFree(body, digest, a, name, w1) && o1 == o[name := w1] && a1 == a[w1 := name];
      var w2 :| FirstFree(body, digest, a, name, w2) && o2 == o[name := w2] && a2 == a[w2 := name];
      FirstFreeOnce(body, digest, a, name, w1, w2);
    }
  }

  lemma FirstFreeOnce(body: Body, digest: (string, nat) -> string, aliases: Table, name: string, w1: string, w2: string)
    requires FirstFree(body, digest, aliases, name, w1) && FirstFree(body, digest, aliases, name, w2)
    ensures w1 == w2 && !Exhausted(body, digest, aliases, name)
  {
    hide Blocked;
  }

  lemma {:induction false} AssignedPrefix(body: Body, digest: (string, nat) -> string, names: seq<string>, j: nat,
                                          originals: map<string, string>, aliases: Table)
      returns (o: map<string, string>, a: Table)
    requires j <= |names| && Assigned(body, digest, names, originals, aliases)
    ensures Assigned(body, digest, names[..j], o, a)
    ensures j < |names| ==> names[j] in o || !Exhausted(body, digest, a, names[j])
    decreases |names|
  {
    hide Registered, Exhausted;
    if j == |names| {
      assert names[..j] == names;
      o, a := originals, aliases;
    } else {
      var k := |names| - 1;
      var p: map<string, string>, b: Table :| AssignedLast(body, digest, names, p, b, originals, aliases);
      if j == k {
        o, a := p, b;
        RegisteredOnce(body, digest, p, b, names[k], originals, aliases, originals, aliases);
      } else {
        o, a := AssignedPrefix(body, digest, names[..k], j, p, b);
        assert names[..k][..j] == names[..j];
      }
    }
  }

  /** A request is either refused or served: names that can all be registered never get stuck. */
  lemma RefusedOrServed(body: Body, digest: (string, nat) -> string, names: seq<string>, originals: map<string, string>, aliases: Table,
                        j: nat, o: map<string, string>, a: Table)
    requires Assigned(body, digest, names, originals, aliases)
    ensures !StuckAt(body, digest, names, j, o, a)
  {
    hide Blocked, Exhausted, FirstFree, Assigned;
    if StuckAt(body, digest, names, j, o, a) {
      var p, b := AssignedPrefix(body, digest, names, j, originals, aliases);
      AssignedOnce(body, digest, names[..j], o, a, p, b);
    }
  }

  lemma AssignedSnoc(body: Body, digest: (string, nat) -> string, names: seq<string>, name: string,
                     originals0: map<string, string>, aliases0: Table, originals: map<string, string>, aliases: Table)
    requires Assigned(body, digest, names, originals0, aliases0)
    requires Registered(body, digest, originals0, aliases0, name, originals, aliases)
    ensures Assigned(body, digest, names + [name], originals, aliases)
  {
    hide Registered;
    assert (names + [name])[..|names|] == names;
    assert AssignedLast(body, digest, names + [name], originals0, aliases0, originals, aliases);
  }

  lemma StuckEarlier(body: Body, digest: (string, nat) -> string, seen: seq<string>, name: string, later: seq<string>,
                     originals: map<string, string>, aliases: Table)
    requires Assigned(body, digest, seen, originals, aliases) && name !in originals && Exhausted(body, digest, aliases, name)
    ensures StuckAt(body, digest, seen + ([name] + later), |seen|, originals, aliases)
  {
    hide Assigned, Exhausted;
    assert (seen + ([name] + later))[..|seen|] == seen;
  }

  lemma StuckLonger(body: Body, digest: (string, nat) -> string, names: seq<string>, more: seq<string>, j: nat,
                    originals: map<string, string>, aliases: Table)
    requires StuckAt(body, digest, names, j, originals, aliases)
    ensures StuckAt(body, digest, names + more, j, originals, aliases)
  {
    hide Assigned, Exhausted;
    assert (names + more)[..j] == names[..j];
  }

  lemma NothingAssigned(body: Body, digest: (string, nat) -> string)
    ensures Assigned(body, digest, [], map[], map[])
  {
  }

  /** Alias of a name, registered on first use. */
  method AliasOf(body: Body, digest: (string, nat) -> string, name: string,
                 originals0: map<string, string>, aliases0: Table)
    returns (ok: bool, originals: map<string, string>, aliases: Table)
    requires IsDigest(digest) && AliasMaps(body, originals0, aliases0)
    ensures AliasMaps(body, originals, aliases) && Extends(originals0, originals)
    ensures ok ==> originals.Keys == originals0.Keys + {name}
    ensures !ok <==> name !in originals0 && Exhausted(body, digest, aliases0, name)
    ensures !ok ==> originals == originals0 && aliases == aliases0
    ensures ok ==> Registered(body, digest, originals0, aliases0, name, originals, aliases)
  {
    originals, aliases := originals0, aliases0;
    ok := true;
    if name !in originals {
      var r := IdentityAlias(body, digest, name, aliases);
      if r.Failure? {
        ok := false;
      } else {
        originals, aliases := originals[name := r.value], aliases[r.value := name];
      }
    }
  }

  lemma ExtendsTransitive(a: map<string, string>, b: map<string, string>, c: map<string, string>)
    requires Extends(a, b) && Extends(b, c)
    ensures Extends(a, c)
  {
  }

  lemma NothingReadYet(names: map<string, string>)
    ensures Extends(names, names) && Named(names, []) && AliasedHead(names, []) == ""
  {
  }

  lemma EmptyPieces(text: string, start: nat, names: map<string, string>)
    requires start <= |text|
    ensures ScanFrom(text, [], start) && Pieces(text, [], start) == [] && TailStart(text, [], start) == start
    ensures Named(names, []) && Aliased(names, [], text[start..]) == text[start..]
  {
  }

  function NamesOf(ps: seq<Piece>): seq<string> {
    seq(|ps|, i requires 0 <= i < |ps| => ps[i].name)
  }

  lemma NamesOfNothing()
    ensures NamesOf([]) == []
  {
  }

  lemma PiecesSplit(ps: seq<Piece>, p: Piece, rest: seq<Piece>)
    ensures NamesOf(ps + ([p] + rest)) == NamesOf(ps) + ([p.name] + NamesOf(rest))
    ensures NamesOf(ps + [p]) == NamesOf(ps) + [p.name]
  {
  }

  /** Rewrites one prompt field. Every bounded match becomes its alias, everything else stays. seen are
      the names registered before; failure means that one of this field's names, after all names in
      front of it, ran out of probes. */
  method AliasField(body: Body, digest: (string, nat) -> string, text: string, ms: seq<Match>,
                    originals0: map<string, string>, aliases0: Table, ghost seen: seq<string>)
    returns (ok: bool, out: string, originals: map<string, string>, aliases: Table, ghost at: nat)
    requires IsDigest(digest) && ScanFrom(text, ms, 0) && AliasMaps(body, originals0, aliases0)
    requires Assigned(body, digest, seen, originals0, aliases0)
    ensures AliasMaps(body, originals, aliases) && Extends(originals0, originals)
    ensures ok ==> Named(originals, Pieces(text, ms, 0))
                   && out == Aliased(originals, Pieces(text, ms, 0), text[TailStart(text, ms, 0)..])
    ensures ok ==> Assigned(body, digest, seen + NamesOf(Pieces(text, ms, 0)), originals, aliases)
    ensures !ok ==> at >= |seen| && StuckAt(body, digest, seen + NamesOf(Pieces(text, ms, 0)), at, originals, aliases)
  {
    hide *;
    originals, aliases := originals0, aliases0;
    out, at := "", |seen|;
    NamesOfNothing();
    assert seen + [] == seen;
    var start: nat := 0;
    ghost var ps: seq<Piece> := [];
    assert ms[0..] == ms;
    NothingReadYet(originals);
    for i := 0 to |ms|
      invariant start <= |text| && ScanFrom(text, ms[i..], start)
      invariant AliasMaps(body, originals, aliases) && Extends(originals0, originals)
      invariant Pieces(text, ms, 0) == ps + Pieces(text, ms[i..], start)
      invariant TailStart(text, ms, 0) == TailStart(text, ms[i..], start)
      invariant Named(originals, ps) && out == AliasedHead(originals, ps)
      invariant Assigned(body, digest, seen + NamesOf(ps), originals, aliases)
      invariant start == 0 ==> ps == []
    {
      var m := ms[i];
      PiecesStep(text, ms, i, start);
      if !NameBoundary(text, m) {
        continue;
      }
      var original := text[m.start..m.end];
      ghost var before, held := originals, aliases;
      ghost var p := Piece(text[start..m.start], original);
      ghost var rest := Pieces(text, ms[i + 1..], m.end);
      PiecesSplit(ps, p, rest);
      ok, originals, aliases := AliasOf(body, digest, original, originals, aliases);
      if !ok {
        at := |seen + NamesOf(ps)|;
        StuckEarlier(body, digest, seen + NamesOf(ps), original, NamesOf(rest), originals, aliases);
        assert seen + NamesOf(ps) + ([original] + NamesOf(rest)) == seen + (NamesOf(ps) + ([original] + NamesOf(rest)));
        return;
      }
      AssignedSnoc(body, digest, seen + NamesOf(ps), original, before, held, originals, aliases);
      assert seen + NamesOf(ps) + [original] == seen + (NamesOf(ps) + [original]);
      ExtendsTransitive(originals0, before, originals);
      HeadStable(before, originals, ps);
      HeadSnoc(originals, ps, p);
      assert ps + ([p] + rest) == ps + [p] + rest;
      out := out + text[start..m.start] + originals[original];
      start := m.end;
      ps := ps + [p];
    }
    assert ms[|ms|..] == [] && ps + [] == ps;
    EmptyPieces(text, start, originals);
    HeadPlusTail(originals, ps, [], text[start..]);
    ok := true;
    if start != 0 {
      out := out + text[start..];
    } else {
      out := text;
    }
  }

  // ---- The whole request ----

  /** A prompt field together with the matches of the name pattern in it. */
  datatype Field = Field(text: string, matches: seq<Match>)

  ghost predicate Scanned(body: Body, f: Field) {
    HasLeaf(body.json, f.text) && ScanFrom(f.text, f.matches, 0)
  }

  /** out is f with every bounded match replaced by its alias. */
  ghost predicate Rewritten(f: Field, originals: map<string, string>, out: string) {
    && ScanFrom(f.text, f.matches, 0)
    && var ps := Pieces(f.text, f.matches, 0);
    Named(originals, ps) && out == Aliased(originals, ps, f.text[TailStart(f.text, f.matches, 0)..])
  }

  lemma {:induction false} AliasedStable(before: map<string, string>, after: map<string, string>, ps: seq<Piece>, tail: string)
    requires Named(before, ps) && Extends(before, after)
    ensures Named(after, ps) && Aliased(before, ps, tail) == Aliased(after, ps, tail)
  {
    if ps != [] {
      AliasedStable(before, after, ps[1..], tail);
    }
  }

  lemma RewrittenStable(before: map<string, string>, after: map<string, string>, f: Field, out: string)
    requires Rewritten(f, before, out) && Extends(before, after)
    ensures Rewritten(f, after, out)
  {
    AliasedStable(before, after, Pieces(f.text, f.matches, 0), f.text[TailStart(f.text, f.matches, 0)..]);
  }

  /** Aliases absent from the body are absent from every string inside it. */
  lemma LeafIsFresh(body: Body, aliases: Table, text: string)
    requires HasLeaf(body.json, text)
    requires forall w :: w in aliases ==> !JsonContains(body.json, w)
    ensures Fresh(aliases, text)
  {
    forall i ensures !OccursAt(aliases, text, i) {
      if OccursAt(aliases, text, i) {
        var w := text[i..i + ALIAS_LEN];
        assert w <= text[i..];
        LeafContained(body.json, text, w);
      }
    }
  }

  /** Restoring a rewritten field with the request's table gives the field back. */
  lemma RestoreGivesFieldBack(body: Body, f: Field, originals: map<string, string>, aliases: Table, out: string)
    requires Scanned(body, f) && AliasMaps(body, originals, aliases) && Rewritten(f, originals, out)
    ensures Restore(aliases, out) == f.text
  {
    PiecesCoverText(f.text, f.matches, 0);
    LeafIsFresh(body, aliases, f.text);
    assert f.text[0..] == f.text;
    RestoreUndoesAliasing(aliases, originals, Pieces(f.text, f.matches, 0), f.text[TailStart(f.text, f.matches, 0)..]);
  }

  /** The matched names of all fields in order. */
  ghost function AllNames(body: Body, fields: seq<Field>): seq<string>
    requires forall f :: f in fields ==> Scanned(body, f)
  {
    if fields == [] then []
    else
      var f := fields[|fields| - 1];
      assert Scanned(body, f);
      AllNames(body, fields[..|fields| - 1]) + NamesOf(Pieces(f.text, f.matches, 0))
  }

  lemma {:induction false} AllNamesPrefix(body: Body, fields: seq<Field>, i: nat) returns (more: seq<string>)
    requires i <= |fields| && forall f :: f in fields ==> Scanned(body, f)
    ensures AllNames(body, fields) == AllNames(body, fields[..i]) + more
  {
    if i == |fields| {
      assert fields[..i] == fields;
      more := [];
    } else {
      var init := fields[..|fields| - 1];
      var rest := AllNamesPrefix(body, init, i);
      assert init[..i] == fields[..i];
      var f := fields[|fields| - 1];
      assert Scanned(body, f);
      more := rest + NamesOf(Pieces(f.text, f.matches, 0));
    }
  }

  lemma AllNamesSnoc(body: Body, fields: seq<Field>, i: nat)
    requires i < |fields| && forall f :: f in fields ==> Scanned(body, f)
    ensures Scanned(body, fields[i])
    ensures AllNames(body, fields[..i + 1]) == AllNames(body, fields[..i]) + NamesOf(Pieces(fields[i].text, fields[i].matches, 0))
  {
    assert fields[..i + 1][..i] == fields[..i];
  }

  lemma NoNames(body: Body)
    ensures AllNames(body, []) == []
  {
  }

  /** applyOpencodeAlias: the rewritten prompt fields and the table that restores them, which is what
      registering all matched names in order gives. A request is refused exactly when that gets stuck:
      at is the first new name whose probes are all taken, and the maps are those reached before it. */
  method ApplyAlias(body: Body, digest: (string, nat) -> string, fields: seq<Field>)
    returns (r: Result<(seq<string>, Table), AliasError>, ghost originals: map<string, string>, ghost reached: Table, ghost at: nat)
    requires IsDigest(digest) && forall f :: f in fields ==> Scanned(body, f)
    ensures AliasMaps(body, originals, reached)
    ensures r.Success? ==> |r.value.0| == |fields| && r.value.1 == reached
    ensures r.Success? ==> Assigned(body, digest, AllNames(body, fields), originals, reached)
    ensures r.Success? ==> forall i :: 0 <= i < |fields| ==> Rewritten(fields[i], originals, r.value.0[i])
    ensures r.Success? ==> forall i :: 0 <= i < |fields| ==> Restore(r.value.1, r.value.0[i]) == fields[i].text
    ensures r.Failure? <==> StuckAt(body, digest, AllNames(body, fields), at, originals, reached)
  {
    hide Assigned, StuckAt, Pieces, AllNames, AliasMaps, Rewritten, Scanned, NamesOf;
    ScansAreScans(body, fields);
    var names: map<string, string>, aliases: Table := map[], map[];
    var outs: seq<string> := [];
    NothingAssigned(body, digest);
    NoNames(body);
    NoAliases(body);
    at := 0;
    assert fields[..0] == [];
    for i := 0 to |fields|
      invariant |outs| == i && AliasMaps(body, names, aliases)
      invariant Assigned(body, digest, AllNames(body, fields[..i]), names, aliases)
      invariant forall j :: 0 <= j < i ==> Rewritten(fields[j], names, outs[j])
    {
      AllNamesSnoc(body, fields, i);
      ghost var before := names;
      var ok, out, names', aliases';
      ok, out, names', aliases', at := AliasField(body, digest, fields[i].text, fields[i].matches, names, aliases, AllNames(body, fields[..i]));
      if !ok {
        ghost var more := AllNamesPrefix(body, fields, i + 1);
        StuckLonger(body, digest, AllNames(body, fields[..i + 1]), more, at, names', aliases');
        return Failure(CollisionLimitExceeded), names', aliases', at;
      }
      RewrittenNow(fields[i], names', out);
      forall j | 0 <= j < i ensures Rewritten(fields[j], names', outs[j]) {
        RewrittenStable(before, names', fields[j], outs[j]);
      }
      names, aliases := names', aliases';
      outs := outs + [out];
    }
    assert fields[..|fields|] == fields;
    forall i | 0 <= i < |fields| ensures Restore(aliases, outs[i]) == fields[i].text {
      RestoreGivesFieldBack(body, fields[i], names, aliases, outs[i]);
    }
    RefusedOrServed(body, digest, AllNames(body, fields), names, aliases, at, names, aliases);
    return Success((outs, aliases)), names, aliases, at;
  }

  lemma ScansAreScans(body: Body, fields: seq<Field>)
    requires forall f :: f in fields ==> Scanned(body, f)
    ensures forall f :: f in fields ==> ScanFrom(f.text, f.matches, 0)
  {
  }

  lemma NoAliases(body: Body)
    ensures AliasMaps(body, map[], map[])
  {
  }

  lemma RewrittenNow(f: Field, originals: map<string, string>, out: string)
    requires ScanFrom(f.text, f.matches, 0) && Named(originals, Pieces(f.text, f.matches, 0))
    requires out == Aliased(originals, Pieces(f.text, f.matches, 0), f.text[TailStart(f.text, f.matches, 0)..])
    ensures Rewritten(f, originals, out)
  {
  }
}
