/** Text-level theory of the identity aliases of internal/relay/opencode_alias.go:
    the fixed alias shape, leftmost replacement, and the suffix that a stream
    has to hold back. Go strings are byte strings; a char stands for one byte. */
module AliasText {

  const PREFIX: string := "opencode_"
  const ALIAS_LEN := 41

  predicate IsHexDigit(c: char) {
    '0' <= c <= '9' || 'a' <= c <= 'f'
  }

  /** The fixed prefix followed by the lower-case hex form of 16 digest bytes. */
  predicate IsAlias(w: string) {
    |w| == ALIAS_LEN && PREFIX <= w && forall i :: 9 <= i < |w| ==> IsHexDigit(w[i])
  }

  /** Alias-to-original table whose keys all have the alias shape. */
  type Table = t: map<string, string> | forall w :: w in t ==> IsAlias(w) witness map[]

  predicate OccursAt(t: Table, s: string, i: int) {
    0 <= i && i + ALIAS_LEN <= |s| && s[i..i + ALIAS_LEN] in t
  }

  /** Leftmost, non-overlapping replacement of every alias by its original. */
  function Restore(t: Table, s: string): string
    decreases |s|
  {
    if |s| < ALIAS_LEN then s
    else if s[..ALIAS_LEN] in t then t[s[..ALIAS_LEN]] + Restore(t, s[ALIAS_LEN..])
    else [s[0]] + Restore(t, s[1..])
  }

  /** No alias occurrence starts before position c and ends after it. */
  ghost predicate CleanCut(t: Table, s: string, c: nat) {
    forall i :: i < c < i + ALIAS_LEN ==> !OccursAt(t, s, i)
  }

  /** No proper suffix of one alias begins another alias. */
  lemma NoSelfOverlap(w: string, v: string, k: nat)
    requires IsAlias(w) && IsAlias(v) && 1 <= k < ALIAS_LEN
    ensures !(w[k..] <= v)
  {
    assert w[k..][0] == w[k];
    if k < 9 {
      assert w[k] == PREFIX[k];
      if k == 5 {
        assert w[k..][1] == w[6] == PREFIX[6];
        assert v[1] == PREFIX[1];
      }
    } else {
      assert IsHexDigit(w[k]);
    }
    assert v[0] == PREFIX[0];
  }

  lemma OccursAfter(t: Table, a: string, b: string, i: nat)
    ensures OccursAt(t, a + b, |a| + i) <==> OccursAt(t, b, i)
  {
    if i + ALIAS_LEN <= |b| {
      assert (a + b)[|a| + i..|a| + i + ALIAS_LEN] == b[i..i + ALIAS_LEN];
    }
  }

  lemma OccursWithin(t: Table, a: string, b: string, i: nat)
    requires i + ALIAS_LEN <= |a|
    ensures OccursAt(t, a + b, i) <==> OccursAt(t, a, i)
  {
    assert (a + b)[i..i + ALIAS_LEN] == a[i..i + ALIAS_LEN];
  }

  lemma RestoreHit(t: Table, w: string, rest: string)
    requires w in t
    ensures Restore(t, w + rest) == t[w] + Restore(t, rest)
  {
    assert (w + rest)[..ALIAS_LEN] == w && (w + rest)[ALIAS_LEN..] == rest;
  }

  lemma RestoreMiss(t: Table, c: char, rest: string)
    requires !OccursAt(t, [c] + rest, 0)
    ensures Restore(t, [c] + rest) == [c] + Restore(t, rest)
  {
    var s := [c] + rest;
    assert s[1..] == rest;
    if ALIAS_LEN <= |s| {
      assert s[0..ALIAS_LEN] == s[..ALIAS_LEN];
    }
  }

  lemma CleanCutDrop(t: Table, a: string, b: string, c: nat)
    requires |a| <= c && CleanCut(t, a + b, c)
    ensures CleanCut(t, b, c - |a|)
  {
    forall i | i < c - |a| < i + ALIAS_LEN
      ensures !OccursAt(t, b, i)
    {
      if 0 <= i {
        OccursAfter(t, a, b, i);
        assert !OccursAt(t, a + b, |a| + i);
      }
    }
  }

  /** Replacement distributes over a clean cut. */
  lemma {:induction false} RestoreSplit(t: Table, a: string, b: string)
    requires CleanCut(t, a + b, |a|)
    ensures Restore(t, a + b) == Restore(t, a) + Restore(t, b)
    decreases |a|
  {
    if a == [] {
      assert a + b == b;
    } else if OccursAt(t, a + b, 0) {
      assert ALIAS_LEN <= |a|;
      var w, a' := a[..ALIAS_LEN], a[ALIAS_LEN..];
      assert a == w + a' && a + b == w + (a' + b) && (a + b)[0..ALIAS_LEN] == w;
      hide Restore, CleanCut;
      RestoreSplitHit(t, w, a', b);
    } else {
      var c, a' := a[0], a[1..];
      assert a == [c] + a';
      hide Restore, CleanCut;
      RestoreSplitMiss(t, c, a', b);
    }
  }

  lemma MissIsLocal(t: Table, a: string, b: string)
    requires a != [] && CleanCut(t, a + b, |a|) && !OccursAt(t, a + b, 0)
    ensures !OccursAt(t, a, 0)
  {
    if ALIAS_LEN <= |a| {
      OccursWithin(t, a, b, 0);
    }
  }

  lemma RestoreSplitMiss(t: Table, c: char, a: string, b: string)
    requires CleanCut(t, [c] + a + b, 1 + |a|) && !OccursAt(t, [c] + a + b, 0)
    ensures Restore(t, [c] + a + b) == Restore(t, [c] + a) + Restore(t, b)
    decreases 1 + |a|, 0
  {
    hide Restore, OccursAt;
    MissIsLocal(t, [c] + a, b);
    RestoreMiss(t, c, a);
    assert Restore(t, [c] + a + b) == [c] + (Restore(t, a) + Restore(t, b)) by {
      assert [c] + a + b == [c] + (a + b);
      CleanCutDrop(t, [c], a + b, 1 + |a|);
      RestoreSplit(t, a, b);
      RestoreMiss(t, c, a + b);
    }
  }

  lemma RestoreSplitHit(t: Table, w: string, a: string, b: string)
    requires w in t && CleanCut(t, w + (a + b), |w| + |a|)
    ensures Restore(t, w + (a + b)) == Restore(t, w + a) + Restore(t, b)
    decreases |w| + |a|, 0
  {
    hide Restore, CleanCut;
    CleanCutDrop(t, w, a + b, |w| + |a|);
    RestoreSplit(t, a, b);
    RestoreHit(t, w, a + b);
    RestoreHit(t, w, a);
    assert t[w] + (Restore(t, a) + Restore(t, b)) == t[w] + Restore(t, a) + Restore(t, b);
  }

  ghost predicate Fresh(t: Table, text: string) {
    forall i :: !OccursAt(t, text, i)
  }

  lemma FreshInside(t: Table, a: string, b: string, c: string)
    requires Fresh(t, a + (b + c))
    ensures Fresh(t, b)
  {
    forall i: int
      ensures !OccursAt(t, b, i)
    {
      if 0 <= i && i + ALIAS_LEN <= |b| {
        OccursWithin(t, b, c, i);
        OccursAfter(t, a, b + c, i);
        assert !OccursAt(t, a + (b + c), |a| + i);
      }
    }
  }

  /** Text without any alias occurrence is left alone. */
  lemma {:induction false} RestoreIdentity(t: Table, s: string)
    requires Fresh(t, s)
    ensures Restore(t, s) == s
    decreases |s|
  {
    if s != [] {
      assert s == [s[0]] + s[1..] == [s[0]] + (s[1..] + []);
      FreshInside(t, [s[0]], s[1..], []);
      RestoreIdentity(t, s[1..]);
      RestoreMiss(t, s[0], s[1..]);
    }
  }

  // ---- The suffix held back between two chunks ----

  predicate IsProperPrefix(t: Table, p: string) {
    0 < |p| < ALIAS_LEN && exists w :: w in t && p <= w
  }

  /** The same, among the suffixes of length at most n. */
  function KeepUpTo(t: Table, s: string, n: nat): (keep: nat)
    requires n <= |s|
    ensures keep <= n
  {
    if n == 0 || IsProperPrefix(t, s[|s| - n..]) then n else KeepUpTo(t, s, n - 1)
  }

  lemma {:induction false} KeepUpToIsLongest(t: Table, s: string, n: nat)
    requires n <= |s|
    ensures var keep := KeepUpTo(t, s, n);
            && (keep == 0 || IsProperPrefix(t, s[|s| - keep..]))
            && forall i :: |s| - n <= i < |s| - keep ==> !IsProperPrefix(t, s[i..])
  {
    hide IsProperPrefix;
    if n > 0 && !IsProperPrefix(t, s[|s| - n..]) {
      KeepUpToIsLongest(t, s, n - 1);
    }
  }

  /** Length of the longest suffix of s that could still become an alias. */
  function Keep(t: Table, s: string): (keep: nat)
    ensures keep <= |s| && keep < ALIAS_LEN
    ensures keep == 0 || IsProperPrefix(t, s[|s| - keep..])
    ensures forall i :: 0 <= i && |s| - ALIAS_LEN < i < |s| - keep ==> !IsProperPrefix(t, s[i..])
  {
    var n := if |s| < ALIAS_LEN - 1 then |s| else ALIAS_LEN - 1;
    KeepUpToIsLongest(t, s, n);
    KeepUpTo(t, s, n)
  }

  /** Whatever arrives later, the cut in front of the kept suffix never halves an alias. */
  lemma KeepCutsClean(t: Table, s: string, future: string)
    ensures CleanCut(t, s + future, |s| - Keep(t, s))
  {
    hide Keep;
    var c := |s| - Keep(t, s);
    forall i | i < c < i + ALIAS_LEN
      ensures !OccursAt(t, s + future, i)
    {
      if 0 <= i && i + ALIAS_LEN <= |s| {
        OccursWithin(t, s, future, i);
        NoOccurrenceOverKept(t, s, i);
      } else if 0 <= i {
        NoOccurrencePastEnd(t, s, future, i);
      }
    }
  }

  lemma NoOccurrenceOverKept(t: Table, s: string, i: nat)
    requires i < |s| - Keep(t, s) < i + ALIAS_LEN <= |s|
    ensures !OccursAt(t, s, i)
  {
    hide Keep;
    if OccursAt(t, s, i) {
      var w, c := s[i..i + ALIAS_LEN], |s| - Keep(t, s);
      var v :| v in t && s[c..] <= v;
      SliceOfPrefix(s, c, i + ALIAS_LEN, v);
      assert w[c - i..] == s[c..i + ALIAS_LEN];
      NoSelfOverlap(w, v, c - i);
    }
  }

  lemma SliceOfPrefix(s: string, c: nat, d: nat, v: string)
    requires c <= d <= |s| && s[c..] <= v
    ensures s[c..d] <= v
  {
    assert s[c..d] == s[c..][..d - c];
  }

  lemma CutOccurrenceIsPrefix(t: Table, s: string, future: string, i: nat)
    requires i < |s| < i + ALIAS_LEN && OccursAt(t, s + future, i)
    ensures IsProperPrefix(t, s[i..])
  {
    var w := (s + future)[i..i + ALIAS_LEN];
    assert s[i..] == w[..|s| - i];
  }

  lemma NoOccurrencePastEnd(t: Table, s: string, future: string, i: nat)
    requires i < |s| - Keep(t, s) < i + ALIAS_LEN && |s| < i + ALIAS_LEN
    ensures !OccursAt(t, s + future, i)
  {
    hide Keep;
    if OccursAt(t, s + future, i) {
      CutOccurrenceIsPrefix(t, s, future, i);
    }
  }

  /** Holding back less would be wrong: some continuation completes an alias
      that starts exactly at the cut. */
  lemma KeepIsNeeded(t: Table, s: string) returns (future: string)
    requires Keep(t, s) > 0
    ensures OccursAt(t, s + future, |s| - Keep(t, s))
  {
    hide Keep;
    var c := |s| - Keep(t, s);
    var w :| w in t && s[c..] <= w;
    future := w[|s| - c..];
    CompletedAlias(t, s, c, w);
  }

  lemma CompletedAlias(t: Table, s: string, c: nat, w: string)
    requires c <= |s| && w in t && s[c..] <= w
    ensures OccursAt(t, s + w[|s| - c..], c)
  {
    assert (s + w[|s| - c..])[c..c + ALIAS_LEN] == w;
  }

  // ---- One channel as a transducer ----

  /** What one chunk emits and what it leaves pending. */
  datatype Channel = Channel(emitted: string, pending: string)

  function Feed(t: Table, c: Channel, chunk: string): Channel {
    var text := c.pending + chunk;
    var cut := |text| - Keep(t, text);
    Channel(c.emitted + Restore(t, text[..cut]), text[cut..])
  }

  function FeedAll(t: Table, c: Channel, chunks: seq<string>): Channel {
    if chunks == [] then c
    else Feed(t, FeedAll(t, c, chunks[..|chunks| - 1]), chunks[|chunks| - 1])
  }

  function Concat(chunks: seq<string>): string {
    if chunks == [] then "" else Concat(chunks[..|chunks| - 1]) + chunks[|chunks| - 1]
  }

  lemma Recut(text: string, cut: nat, future: string)
    requires cut <= |text|
    ensures text + future == text[..cut] + (text[cut..] + future)
  {
  }

  lemma RestoreAroundKeep(t: Table, text: string, future: string)
    ensures var cut := |text| - Keep(t, text);
            Restore(t, text + future) == Restore(t, text[..cut]) + Restore(t, text[cut..] + future)
  {
    hide Keep, Restore, CleanCut;
    var cut := |text| - Keep(t, text);
    KeepCutsClean(t, text, future);
    Recut(text, cut, future);
    RestoreSplit(t, text[..cut], text[cut..] + future);
  }

  lemma Glue(a: string, b: string, c: string, bc: string)
    requires b + c == bc
    ensures a + b + c == a + bc
  {
  }

  lemma FeedKeepsMeaning(t: Table, c: Channel, chunk: string, future: string)
    ensures Feed(t, c, chunk).emitted + Restore(t, Feed(t, c, chunk).pending + future)
         == c.emitted + Restore(t, c.pending + (chunk + future))
  {
    hide Restore, Keep;
    var text := c.pending + chunk;
    var cut := |text| - Keep(t, text);
    var head, later := Restore(t, text[..cut]), Restore(t, text[cut..] + future);
    var whole := Restore(t, text + future);
    assert head + later == whole by { RestoreAroundKeep(t, text, future); }
    Glue(c.emitted, head, later, whole);
    Glue(c.pending, chunk, future, chunk + future);
  }

  lemma {:induction false} FeedAllKeepsMeaning(t: Table, c: Channel, chunks: seq<string>, future: string)
    ensures FeedAll(t, c, chunks).emitted + Restore(t, FeedAll(t, c, chunks).pending + future)
         == c.emitted + Restore(t, c.pending + (Concat(chunks) + future))
    decreases |chunks|
  {
    if chunks == [] {
      assert Concat(chunks) + future == future;
    } else {
      hide Restore, Feed;
      var init, last := chunks[..|chunks| - 1], chunks[|chunks| - 1];
      FeedKeepsMeaning(t, FeedAll(t, c, init), last, future);
      FeedAllKeepsMeaning(t, c, init, last + future);
      Glue(Concat(init), last, future, last + future);
    }
  }

  lemma {:induction false} PendingIsShort(t: Table, c: Channel, chunks: seq<string>)
    requires |c.pending| < ALIAS_LEN
    ensures |FeedAll(t, c, chunks).pending| < ALIAS_LEN
  {
  }

  /** However a text is cut into chunks, the emitted text followed by the final
      flush of the raw pending suffix is the one-shot replacement of the whole. */
  lemma StreamingEqualsWhole(t: Table, chunks: seq<string>)
    ensures var d := FeedAll(t, Channel("", ""), chunks);
            d.emitted + d.pending == Restore(t, Concat(chunks))
  {
    var d := FeedAll(t, Channel("", ""), chunks);
    FeedAllKeepsMeaning(t, Channel("", ""), chunks, "");
    PendingIsShort(t, Channel("", ""), chunks);
    assert d.pending + "" == d.pending;
    assert "" + (Concat(chunks) + "") == Concat(chunks);
    assert "" + Restore(t, "" + (Concat(chunks) + "")) == Restore(t, Concat(chunks));
  }

  /** Two ways of cutting one text cannot be told apart by the reader. */
  lemma ChunkingIsInvisible(t: Table, left: seq<string>, right: seq<string>)
    requires Concat(left) == Concat(right)
    ensures var l := FeedAll(t, Channel("", ""), left);
            var r := FeedAll(t, Channel("", ""), right);
            l.emitted + l.pending == r.emitted + r.pending
  {
    StreamingEqualsWhole(t, left);
    StreamingEqualsWhole(t, right);
  }

  // ---- Substituting aliases and restoring them ----

  /** A literal stretch of text followed by one matched name. */
  datatype Piece = Piece(plain: string, name: string)

  function Original(ps: seq<Piece>, tail: string): string {
    if ps == [] then tail else ps[0].plain + ps[0].name + Original(ps[1..], tail)
  }

  function Aliased(names: map<string, string>, ps: seq<Piece>, tail: string): string
    requires forall p :: p in ps ==> p.name in names
  {
    if ps == [] then tail else ps[0].plain + names[ps[0].name] + Aliased(names, ps[1..], tail)
  }

  lemma SliceAcross(plain: string, w: string, rest: string, i: nat)
    requires |w| == ALIAS_LEN && i < |plain| < i + ALIAS_LEN
    ensures (plain + (w + rest))[i..i + ALIAS_LEN][|plain| - i..] <= w
  {
    var v, k := (plain + (w + rest))[i..i + ALIAS_LEN], |plain| - i;
    assert v[k..] == w[..ALIAS_LEN - k];
  }

  /** An occurrence cannot start in front of an alias and reach into it. */
  lemma CleanBeforeAlias(t: Table, plain: string, w: string, rest: string)
    requires w in t
    ensures CleanCut(t, plain + (w + rest), |plain|)
  {
    var s := plain + (w + rest);
    forall i | i < |plain| < i + ALIAS_LEN
      ensures !OccursAt(t, s, i)
    {
      if OccursAt(t, s, i) {
        SliceAcross(plain, w, rest, i);
        NoSelfOverlap(s[i..i + ALIAS_LEN], w, |plain| - i);
      }
    }
  }

  lemma RestoreOnePiece(t: Table, plain: string, w: string, coded: string)
    requires w in t && Fresh(t, plain)
    ensures Restore(t, plain + w + coded) == plain + t[w] + Restore(t, coded)
  {
    CleanBeforeAlias(t, plain, w, coded);
    RestoreSplit(t, plain, w + coded);
    RestoreIdentity(t, plain);
    RestoreHit(t, w, coded);
    assert plain + w + coded == plain + (w + coded);
    assert plain + (t[w] + Restore(t, coded)) == plain + t[w] + Restore(t, coded);
  }

  /** Replacing matched names by fresh aliases and restoring gives the text back,
      wherever the matches lie. */
  lemma {:induction false} RestoreUndoesAliasing(t: Table, names: map<string, string>, ps: seq<Piece>, tail: string)
    requires forall p :: p in ps ==> p.name in names
    requires forall p :: p in ps ==> names[p.name] in t && t[names[p.name]] == p.name
    requires Fresh(t, Original(ps, tail))
    ensures Restore(t, Aliased(names, ps, tail)) == Original(ps, tail)
    decreases |ps|
  {
    if ps == [] {
      RestoreIdentity(t, tail);
    } else {
      var p, rest := ps[0], Original(ps[1..], tail);
      assert Original(ps, tail) == [] + (p.plain + (p.name + rest)) == (p.plain + p.name) + (rest + []);
      FreshInside(t, [], p.plain, p.name + rest);
      FreshInside(t, p.plain + p.name, rest, []);
      RestoreUndoesAliasing(t, names, ps[1..], tail);
      RestoreOnePiece(t, p.plain, names[p.name], Aliased(names, ps[1..], tail));
    }
  }
}
