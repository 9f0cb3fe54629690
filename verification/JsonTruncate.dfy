/** Redaction and size limits of logged request bodies, internal/op/error_log.go. JSON is a tree;
    its decoder and encoder are parameters, and so is the test for sensitive field names. */
module JsonTruncate {
  import opened Wrappers
  import opened TextTruncate

  datatype Json = Text(bytes: Bytes) | Atom(bytes: Bytes) | Array(items: seq<Json>) | Object(fields: seq<Field>)

  datatype Field = Field(key: Bytes, value: Json)

  const MARKER: Bytes := ['.' as int, '.' as int, '.' as int] + Chars("[truncated]")
  const REDACTED: Bytes := Chars("[REDACTED]")

  function Chars(s: string): (b: Bytes)
    requires forall i :: 0 <= i < |s| ==> s[i] as int < 256
    ensures |b| == |s| && forall i :: 0 <= i < |s| ==> b[i] == s[i] as int
  {
    seq(|s|, i requires 0 <= i < |s| => s[i] as int)
  }

  // ---- Shrinking ----

  ghost function ShrunkText(text: Bytes, max: nat): Bytes {
    if |text| > max then Truncated(text, max) + MARKER else text
  }

  /** The tree with its long strings cut. A string that is the whole document is not touched. */
  ghost function Shrunk(v: Json, max: nat): Json
    decreases v, 0
  {
    match v
    case Array(items) => Array(seq(|items|, i requires 0 <= i < |items| => ShrunkChild(items[i], max)))
    case Object(fields) => Object(seq(|fields|, i requires 0 <= i < |fields| => Field(fields[i].key, ShrunkChild(fields[i].value, max))))
    case _ => v
  }

  ghost function ShrunkChild(v: Json, max: nat): Json
    decreases v, 1
  {
    if v.Text? then Text(ShrunkText(v.bytes, max)) else Shrunk(v, max)
  }

  /** The tree without the contents of its strings. */
  ghost function Shape(v: Json): Json {
    match v
    case Text(_) => Text([])
    case Atom(_) => v
    case Array(items) => Array(seq(|items|, i requires 0 <= i < |items| => Shape(items[i])))
    case Object(fields) => Object(seq(|fields|, i requires 0 <= i < |fields| => Field(fields[i].key, Shape(fields[i].value))))
  }

  /** Shrinking changes nothing but the contents of strings: keys, order, numbers and nesting stay. */
  lemma {:induction false} ShrinkKeepsShape(v: Json, max: nat)
    ensures Shape(Shrunk(v, max)) == Shape(v) && Shape(ShrunkChild(v, max)) == Shape(v)
    decreases v
  {
    match v
    case Array(items) =>
      forall i | 0 <= i < |items| ensures Shape(ShrunkChild(items[i], max)) == Shape(items[i]) {
        ShrinkKeepsShape(items[i], max);
      }
      assert Shape(Shrunk(v, max)).items == Shape(v).items;
    case Object(fields) =>
      forall i | 0 <= i < |fields| ensures Shape(ShrunkChild(fields[i].value, max)) == Shape(fields[i].value) {
        ShrinkKeepsShape(fields[i].value, max);
      }
      assert Shape(Shrunk(v, max)).fields == Shape(v).fields;
    case _ =>
  }

  /** A cut string is at most the marker longer than the limit, and valid if it was. It becomes
      longer than it was exactly when fewer bytes than the marker has were cut. */
  lemma ShrunkTextSize(text: Bytes, max: nat)
    ensures |ShrunkText(text, max)| <= (if |text| > max then max + |MARKER| else |text|)
    ensures |ShrunkText(text, max)| > |text| <==> |text| > max && |text| - |Truncated(text, max)| < |MARKER|
    ensures Valid(text) && |text| > max ==> Valid(Truncated(text, max))
  {
    LongestPrefix(text, max);
  }

  /** A cut string is its longest valid beginning within the limit, with the marker behind it. */
  lemma CutIs(text: Bytes, max: nat) returns (k: nat)
    requires Valid(text) && |text| > max
    ensures k <= max && ShrunkText(text, max) == text[..k] + MARKER
    ensures Valid(text[..k]) && forall j :: k < j <= max ==> !Valid(text[..j])
  {
    hide Valid;
    LongestPrefix(text, max);
    k := |Truncated(text, max)|;
    assert text[..k] == Truncated(text, max);
  }

  // ---- Places in a tree ----

  function Child(v: Json, i: nat): Option<Json> {
    match v
    case Array(items) => if i < |items| then Some(items[i]) else None
    case Object(fields) => if i < |fields| then Some(fields[i].value) else None
    case _ => None
  }

  /** The value reached by going to the i-th member again and again. */
  function At(v: Json, path: seq<nat>): Option<Json>
    decreases |path|
  {
    if path == [] then Some(v)
    else match Child(v, path[0])
         case None => None
         case Some(child) => At(child, path[1..])
  }

  lemma {:induction false} ShrunkChildAt(v: Json, max: nat, path: seq<nat>)
    ensures At(ShrunkChild(v, max), path) == match At(v, path) case None => None case Some(x) => Some(ShrunkChild(x, max))
    decreases |path|
  {
    hide ShrunkText;
    if path != [] {
      var child := Child(v, path[0]);
      assert Child(ShrunkChild(v, max), path[0]) == match child case None => None case Some(x) => Some(ShrunkChild(x, max));
      if child.Some? {
        ShrunkChildAt(child.value, max, path[1..]);
      }
    }
  }

  /** Everywhere below the top strings are cut, other leaves stay, and lists and objects have the members
      they had, under the same keys. */
  lemma ShrunkAt(v: Json, max: nat, path: seq<nat>)
    requires path != []
    ensures var was, now := At(v, path), At(Shrunk(v, max), path);
            && was.Some? == now.Some?
            && (was.Some? && was.value.Text? ==> now == Some(Text(ShrunkText(was.value.bytes, max))))
            && (was.Some? && was.value.Atom? ==> now == was)
            && (was.Some? && was.value.Array? ==> now.value.Array? && |now.value.items| == |was.value.items|)
            && (was.Some? && was.value.Object? ==>
                  now.value.Object? && |now.value.fields| == |was.value.fields|
                  && forall i :: 0 <= i < |was.value.fields| ==> now.value.fields[i].key == was.value.fields[i].key)
  {
    hide ShrunkText;
    var child := Child(v, path[0]);
    assert Child(Shrunk(v, max), path[0]) == match child case None => None case Some(x) => Some(ShrunkChild(x, max));
    if child.Some? {
      ShrunkChildAt(child.value, max, path[1..]);
    }
  }

  /** An instance: one byte over the limit of 16 becomes 30 bytes. */
  lemma CutGetsLonger()
    ensures var text: Bytes := seq(17, _ => 'a' as int);
            |ShrunkText(text, 16)| == 30 > |text|
  {
    var text: Bytes := seq(17, _ => 'a' as int);
    PlainIsValid(text, 16);
    PlainIsValid(text, 17);
    assert text[..17] == text;
    LongestPrefix(text, 16);
  }

  lemma {:induction false} PlainIsValid(text: Bytes, k: nat)
    requires k <= |text| && forall i :: 0 <= i < |text| ==> text[i] <= 0x7F
    ensures Valid(text[..k])
    decreases k
  {
    if k > 0 {
      PlainIsValid(text[1..], k - 1);
      assert text[..k][1..] == text[1..][..k - 1];
    }
  }

  method ShrinkText(text: Bytes, max: nat) returns (r: Bytes)
    ensures r == ShrunkText(text, max)
  {
    if |text| <= max {
      return text;
    }
    var cut := Truncate(text, max);
    return cut + MARKER;
  }

  method ShrinkStrings(v: Json, max: nat) returns (r: Json)
    ensures r == Shrunk(v, max)
    decreases v, 0
  {
    match v {
      case Array(items) =>
        var out := items;
        for i := 0 to |items|
          invariant |out| == |items|
          invariant forall k :: 0 <= k < |items| ==> out[k] == if k < i then ShrunkChild(items[k], max) else items[k]
        {
          var child := ShrinkChild(items[i], max);
          out := out[i := child];
        }
        assert out == Shrunk(v, max).items;
        return Array(out);
      case Object(fields) =>
        var out := fields;
        for i := 0 to |fields|
          invariant |out| == |fields|
          invariant forall k :: 0 <= k < |fields| ==> out[k] == if k < i then Field(fields[k].key, ShrunkChild(fields[k].value, max)) else fields[k]
        {
          var child := ShrinkChild(fields[i].value, max);
          out := out[i := Field(fields[i].key, child)];
        }
        assert out == Shrunk(v, max).fields;
        return Object(out);
      case _ => return v;
    }
  }

  method ShrinkChild(v: Json, max: nat) returns (r: Json)
    ensures r == ShrunkChild(v, max)
    decreases v, 1
  {
    if v.Text? {
      var text := ShrinkText(v.bytes, max);
      return Text(text);
    }
    r := ShrinkStrings(v, max);
  }

  // ---- Redaction ----

  type Sensitive = Bytes -> bool

  /** Every value under a sensitive name, at any depth, replaced by the mark. */
  function Redacted(v: Json, sensitive: Sensitive): Json {
    match v
    case Array(items) => Array(seq(|items|, i requires 0 <= i < |items| => Redacted(items[i], sensitive)))
    case Object(fields) =>
      Object(seq(|fields|, i requires 0 <= i < |fields| =>
        Field(fields[i].key, if sensitive(fields[i].key) then Text(REDACTED) else Redacted(fields[i].value, sensitive))))
    case _ => v
  }

  predicate Clean(v: Json, sensitive: Sensitive) {
    match v
    case Array(items) => forall i :: 0 <= i < |items| ==> Clean(items[i], sensitive)
    case Object(fields) =>
      && (forall i :: 0 <= i < |fields| && sensitive(fields[i].key) ==> fields[i].value == Text(REDACTED))
      && (forall i :: 0 <= i < |fields| ==> Clean(fields[i].value, sensitive))
    case _ => true
  }

  method Redact(v: Json, sensitive: Sensitive) returns (r: Json)
    ensures r == Redacted(v, sensitive)
    decreases v
  {
    match v {
      case Array(items) =>
        var out := items;
        for i := 0 to |items|
          invariant |out| == |items|
          invariant forall k :: 0 <= k < |items| ==> out[k] == if k < i then Redacted(items[k], sensitive) else items[k]
        {
          var child := Redact(items[i], sensitive);
          out := out[i := child];
        }
        assert out == Redacted(v, sensitive).items;
        return Array(out);
      case Object(fields) =>
        var out := fields;
        for i := 0 to |fields|
          invariant |out| == |fields|
          invariant forall k :: 0 <= k < |fields| ==> out[k] == if k < i then Redacted(v, sensitive).fields[k] else fields[k]
        {
          if sensitive(fields[i].key) {
            out := out[i := Field(fields[i].key, Text(REDACTED))];
            continue;
          }
          var child := Redact(fields[i].value, sensitive);
          out := out[i := Field(fields[i].key, child)];
        }
        assert out == Redacted(v, sensitive).fields;
        return Object(out);
      case _ => return v;
    }
  }

  /** Redaction leaves no secret and touches nothing else: a tree is unchanged exactly when it was
      clean, so redacting again changes nothing. */
  lemma {:induction false} RedactionCleans(v: Json, sensitive: Sensitive)
    ensures Clean(Redacted(v, sensitive), sensitive)
    ensures Redacted(v, sensitive) == v <==> Clean(v, sensitive)
    decreases v
  {
    match v
    case Array(items) =>
      forall i | 0 <= i < |items|
        ensures Clean(Redacted(items[i], sensitive), sensitive) && (Redacted(items[i], sensitive) == items[i] <==> Clean(items[i], sensitive))
      {
        RedactionCleans(items[i], sensitive);
      }
      var r := Redacted(v, sensitive).items;
      assert r == items <==> forall i :: 0 <= i < |items| ==> r[i] == items[i];
    case Object(fields) =>
      forall i | 0 <= i < |fields|
        ensures Clean(Redacted(fields[i].value, sensitive), sensitive)
        ensures Redacted(fields[i].value, sensitive) == fields[i].value <==> Clean(fields[i].value, sensitive)
      {
        RedactionCleans(fields[i].value, sensitive);
      }
      var r := Redacted(v, sensitive).fields;
      assert r == fields <==> forall i :: 0 <= i < |fields| ==> r[i] == fields[i];
    case _ =>
  }

  /** The i-th member stands under a sensitive name. */
  predicate Secret(v: Json, i: nat, sensitive: Sensitive) {
    v.Object? && i < |v.fields| && sensitive(v.fields[i].key)
  }

  /** The path leads into a value under a sensitive name at this step. */
  predicate SecretStep(v: Json, path: seq<nat>, k: nat, sensitive: Sensitive)
    requires k < |path|
    decreases k
  {
    if k == 0 then Secret(v, path[0], sensitive)
    else Child(v, path[0]).Some? && SecretStep(Child(v, path[0]).value, path[1..], k - 1, sensitive)
  }

  lemma RedactedChild(v: Json, i: nat, sensitive: Sensitive)
    ensures Child(Redacted(v, sensitive), i)
         == match Child(v, i)
            case None => None
            case Some(x) => Some(if Secret(v, i, sensitive) then Text(REDACTED) else Redacted(x, sensitive))
  {
  }

  /** Outside the values under sensitive names redaction leaves everything as it is: leaves, keys, and the
      number and order of members. */
  lemma {:induction false} RedactedAt(v: Json, path: seq<nat>, sensitive: Sensitive)
    requires forall k :: 0 <= k < |path| ==> !SecretStep(v, path, k, sensitive)
    ensures var was, now := At(v, path), At(Redacted(v, sensitive), path);
            && was.Some? == now.Some?
            && (was.Some? && (was.value.Text? || was.value.Atom?) ==> now == was)
            && (was.Some? && was.value.Array? ==> now.value.Array? && |now.value.items| == |was.value.items|)
            && (was.Some? && was.value.Object? ==>
                  now.value.Object? && |now.value.fields| == |was.value.fields|
                  && forall i :: 0 <= i < |was.value.fields| ==> now.value.fields[i].key == was.value.fields[i].key)
    decreases |path|
  {
    if path != [] {
      RedactedChild(v, path[0], sensitive);
      var child := Child(v, path[0]);
      assert !SecretStep(v, path, 0, sensitive);
      if child.Some? {
        hide Redacted, Child;
        var rest := path[1..];
        forall k | 0 <= k < |rest| ensures !SecretStep(child.value, rest, k, sensitive) {
          assert !SecretStep(v, path, k + 1, sensitive);
        }
        RedactedAt(child.value, rest, sensitive);
      }
    }
  }

  /** In the place of every outermost value under a sensitive name stands the mark. */
  lemma {:induction false} SecretIsMarked(v: Json, path: seq<nat>, sensitive: Sensitive)
    requires path != [] && SecretStep(v, path, |path| - 1, sensitive)
    requires forall k :: 0 <= k < |path| - 1 ==> !SecretStep(v, path, k, sensitive)
    ensures At(Redacted(v, sensitive), path) == Some(Text(REDACTED))
    decreases |path|
  {
    RedactedChild(v, path[0], sensitive);
    if |path| > 1 {
      assert !SecretStep(v, path, 0, sensitive);
      var child, rest := Child(v, path[0]).value, path[1..];
      hide Redacted, Child;
      forall k | 0 <= k < |rest| - 1 ensures !SecretStep(child, rest, k, sensitive) {
        assert !SecretStep(v, path, k + 1, sensitive);
      }
      SecretIsMarked(child, rest, sensitive);
    }
  }

  /** Shrinking afterwards brings no secret back, since the mark is shorter than every limit used. */
  lemma {:induction false} ShrinkKeepsClean(v: Json, sensitive: Sensitive, max: nat)
    requires Clean(v, sensitive) && max >= |REDACTED|
    ensures Clean(Shrunk(v, max), sensitive) && Clean(ShrunkChild(v, max), sensitive)
    decreases v
  {
    match v
    case Array(items) =>
      forall i | 0 <= i < |items| ensures Clean(ShrunkChild(items[i], max), sensitive) {
        ShrinkKeepsClean(items[i], sensitive, max);
      }
    case Object(fields) =>
      forall i | 0 <= i < |fields| ensures Clean(ShrunkChild(fields[i].value, max), sensitive) {
        ShrinkKeepsClean(fields[i].value, sensitive, max);
      }
    case _ =>
  }

  // ---- Documents that can be written and read back ----

  /** The order in which an encoder writes the keys of an object. */
  predicate Before(a: Bytes, b: Bytes) {
    b != [] && (a == [] || a[0] < b[0] || (a[0] == b[0] && Before(a[1..], b[1..])))
  }

  /** What a decoder yields: valid UTF-8 in strings and keys, legal tokens, each key once and in order,
      and no deeper nesting than it accepts. */
  predicate WellFormed(v: Json, token: Bytes -> bool, depth: int) {
    match v
    case Text(bytes) => Valid(bytes)
    case Atom(bytes) => token(bytes)
    case Array(items) => depth > 0 && forall i :: 0 <= i < |items| ==> WellFormed(items[i], token, depth - 1)
    case Object(fields) =>
      && depth > 0 && (forall i :: 0 <= i < |fields| ==> Valid(fields[i].key))
      && (forall i, j :: 0 <= i < j < |fields| ==> Before(fields[i].key, fields[j].key))
      && (forall i :: 0 <= i < |fields| ==> WellFormed(fields[i].value, token, depth - 1))
  }

  lemma {:induction false} ValidConcat(a: Bytes, b: Bytes)
    requires Valid(a) && Valid(b)
    ensures Valid(a + b)
    decreases |a|
  {
    if a == [] {
      assert a + b == b;
    } else {
      var n := RuneLength(a);
      FirstRuneConcat(a, b);
      hide RuneLength;
      ValidConcat(a[n..], b);
    }
  }

  lemma FirstRuneConcat(a: Bytes, b: Bytes)
    requires RuneLength(a) > 0
    ensures RuneLength(a + b) == RuneLength(a) && (a + b)[RuneLength(a)..] == a[RuneLength(a)..] + b
  {
    hide RuneLength;
    assert (a + b)[..|a|] == a;
    PrefixRune(a + b, |a|);
  }

  lemma MarksAreValid()
    ensures Valid(MARKER) && Valid(REDACTED)
  {
    PlainIsValid(MARKER, |MARKER|);
    PlainIsValid(REDACTED, |REDACTED|);
    assert MARKER[..|MARKER|] == MARKER && REDACTED[..|REDACTED|] == REDACTED;
  }

  /** A cut string is valid because it is cut between characters. */
  lemma ShrunkTextIsValid(text: Bytes, max: nat)
    requires Valid(text)
    ensures Valid(ShrunkText(text, max))
  {
    hide Valid, Truncated;
    if |text| > max {
      ShrunkTextSize(text, max);
      MarksAreValid();
      ValidConcat(Truncated(text, max), MARKER);
    }
  }

  lemma {:induction false} ShrinkKeepsWellFormed(v: Json, token: Bytes -> bool, depth: int, max: nat)
    requires WellFormed(v, token, depth)
    ensures WellFormed(Shrunk(v, max), token, depth) && WellFormed(ShrunkChild(v, max), token, depth)
    decreases v
  {
    hide Valid, Before, ShrunkText;
    match v
    case Text(bytes) => ShrunkTextIsValid(bytes, max);
    case Atom(bytes) =>
    case Array(items) =>
      forall i | 0 <= i < |items| ensures WellFormed(ShrunkChild(items[i], max), token, depth - 1) {
        ShrinkKeepsWellFormed(items[i], token, depth - 1, max);
      }
    case Object(fields) =>
      forall i | 0 <= i < |fields| ensures WellFormed(ShrunkChild(fields[i].value, max), token, depth - 1) {
        ShrinkKeepsWellFormed(fields[i].value, token, depth - 1, max);
      }
  }

  lemma {:induction false} RedactionKeepsWellFormed(v: Json, token: Bytes -> bool, depth: int, sensitive: Sensitive)
    requires WellFormed(v, token, depth)
    ensures WellFormed(Redacted(v, sensitive), token, depth)
    decreases v
  {
    hide Valid, Before;
    MarksAreValid();
    match v
    case Array(items) =>
      forall i | 0 <= i < |items| ensures WellFormed(Redacted(items[i], sensitive), token, depth - 1) {
        RedactionKeepsWellFormed(items[i], token, depth - 1, sensitive);
      }
    case Object(fields) =>
      forall i | 0 <= i < |fields| ensures WellFormed(Redacted(fields[i].value, sensitive), token, depth - 1) {
        RedactionKeepsWellFormed(fields[i].value, token, depth - 1, sensitive);
      }
    case _ =>
  }

  // ---- The byte limit of a request body ----

  datatype Codec = Codec(decode: Bytes -> Option<Json>, encode: Json -> Bytes, token: Bytes -> bool, depth: nat)

  /** Well-formed documents, and only those, are read back as they were written: an encoder replaces
      what is not valid UTF-8. */
  ghost predicate Faithful(codec: Codec) {
    && (forall t :: WellFormed(t, codec.token, codec.depth) ==> codec.decode(codec.encode(t)) == Some(t))
    && (forall b :: codec.decode(b).Some? ==> WellFormed(codec.decode(b).value, codec.token, codec.depth))
  }

  ghost function Encoded(codec: Codec, v: Json, max: nat): Bytes {
    codec.encode(if max > 0 then Shrunk(v, max) else v)
  }

  ghost predicate Fits(codec: Codec, v: Json, max: nat, limit: nat) {
    |Encoded(codec, v, max)| <= limit
  }

  method ShrinkAndEncode(codec: Codec, body: Bytes, max: nat) returns (r: Option<Bytes>)
    ensures r.None? <==> codec.decode(body).None?
    ensures r.Some? ==> r.value == Encoded(codec, codec.decode(body).value, max)
  {
    var v := codec.decode(body);
    if v.None? {
      return None;
    }
    var tree := v.value;
    if max > 0 {
      tree := ShrinkStrings(tree, max);
    }
    return Some(codec.encode(tree));
  }

  /** The widest of the limits 512, 256, ... 16 under which the document fits, or 0. */
  ghost function Widest(codec: Codec, v: Json, max: nat, limit: nat): nat {
    if max < 16 then 0 else if Fits(codec, v, max, limit) then max else Widest(codec, v, max / 2, limit)
  }

  /** Never more than the limit; a body within it is kept; a document is cut inside its strings as
      little as the limits allow, and as plain bytes only when no limit is enough. */
  method TruncateBody(codec: Codec, body: Bytes, limit: nat) returns (r: Bytes)
    ensures |r| <= limit
    ensures |body| <= limit ==> r == body
    ensures |body| > limit && codec.decode(body).None? ==> r == Truncated(body, limit)
    ensures |body| > limit && codec.decode(body).Some? ==>
              var v := codec.decode(body).value;
              var widest := Widest(codec, v, 512, limit);
              r == if widest > 0 then Encoded(codec, v, widest) else Truncated(Encoded(codec, v, 0), limit)
  {
    if |body| <= limit {
      return body;
    }
    var max: nat := 512;
    while max >= 16
      invariant codec.decode(body).Some? ==>
                  var v := codec.decode(body).value;
                  Widest(codec, v, 512, limit) == Widest(codec, v, max, limit)
    {
      var encoded := ShrinkAndEncode(codec, body, max);
      if encoded.None? {
        r := Truncate(body, limit);
        return;
      }
      if |encoded.value| <= limit {
        return encoded.value;
      }
      max := max / 2;
    }
    var encoded := ShrinkAndEncode(codec, body, 0);
    if encoded.None? {
      r := Truncate(body, limit);
      return;
    }
    r := Truncate(encoded.value, limit);
  }

  lemma {:induction false} WidestIsBest(codec: Codec, v: Json, max: nat, limit: nat)
    ensures var w := Widest(codec, v, max, limit);
            && (w > 0 ==> 16 <= w <= max && Fits(codec, v, w, limit))
            && (w == 0 && max in {16, 32, 64, 128, 256, 512} ==> !Fits(codec, v, 16, limit))
            && (max in {16, 32, 64, 128, 256, 512} ==>
                  (w > 0 ==> w in {16, 32, 64, 128, 256, 512})
                  && forall m :: m in {16, 32, 64, 128, 256, 512} && w < m <= max ==> !Fits(codec, v, m, limit))
  {
    if max >= 16 && !Fits(codec, v, max, limit) {
      WidestIsBest(codec, v, max / 2, limit);
    }
  }

  /** Unless even the tightest limit is too wide, what is logged for a body is still a JSON document:
      the one the body holds up to the contents of its strings, and clean if that was clean. */
  lemma LoggedDocument(codec: Codec, body: Bytes, sensitive: Sensitive, limit: nat)
    requires Faithful(codec) && codec.decode(body).Some?
    ensures var v := codec.decode(body).value;
            var w := Widest(codec, v, 512, limit);
            w > 0 ==> codec.decode(Encoded(codec, v, w)) == Some(Shrunk(v, w)) && Shape(Shrunk(v, w)) == Shape(v)
                      && (Clean(v, sensitive) ==> Clean(Shrunk(v, w), sensitive))
    ensures forall m :: m in {16, 32, 64, 128, 256, 512} && m > Widest(codec, codec.decode(body).value, 512, limit) ==>
              !Fits(codec, codec.decode(body).value, m, limit)
  {
    var v := codec.decode(body).value;
    var w := Widest(codec, v, 512, limit);
    WidestIsBest(codec, v, 512, limit);
    if w > 0 {
      ShrinkKeepsWellFormed(v, codec.token, codec.depth, w);
      assert codec.decode(codec.encode(Shrunk(v, w))) == Some(Shrunk(v, w));
      ShrinkKeepsShape(v, w);
      if Clean(v, sensitive) {
        ShrinkKeepsClean(v, sensitive, w);
      }
    }
  }
}
