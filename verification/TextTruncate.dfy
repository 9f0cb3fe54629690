/** Byte limits for logged text and JSON, internal/op/error_log.go. Text is bytes; JSON is a tree
    whose decoder and encoder are parameters. */
module TextTruncate {
  import opened Wrappers

  type Byte = b: int | 0 <= b < 256
  type Bytes = seq<Byte>

  // ---- UTF-8, section 4 of RFC 3629 ----

  predicate Tail(b: Byte) {
    0x80 <= b <= 0xBF
  }

  /** The length of the well-formed character at the front, or 0 if there is none. */
  function RuneLength(s: Bytes): (n: nat)
    ensures n <= 4 && n <= |s|
  {
    if s == [] then 0
    else if s[0] <= 0x7F then 1
    else if 0xC2 <= s[0] <= 0xDF && |s| >= 2 && Tail(s[1]) then 2
    else if 0xE0 <= s[0] <= 0xEF && |s| >= 3 && Second(s[0], s[1]) && Tail(s[2]) then 3
    else if 0xF0 <= s[0] <= 0xF4 && |s| >= 4 && Second(s[0], s[1]) && Tail(s[2]) && Tail(s[3]) then 4
    else 0
  }

  predicate Second(first: Byte, b: Byte) {
    (if first == 0xE0 then 0xA0 else if first == 0xF0 then 0x90 else 0x80) <= b
    && b <= (if first == 0xED then 0x9F else if first == 0xF4 then 0x8F else 0xBF)
  }

  predicate Valid(s: Bytes)
    decreases |s|
  {
    s == [] || (RuneLength(s) > 0 && Valid(s[RuneLength(s)..]))
  }

  /** Whether decoding the last character succeeds: the nearest byte that is no tail, at most four
      bytes back, starts a character that ends at the end. */
  ghost predicate EndsWithRune(s: Bytes) {
    exists start :: RuneAt(s, start, |s|)
  }

  ghost predicate RuneAt(s: Bytes, start: int, end: int) {
    && 0 <= start < end <= |s| && end - start <= 4 && !Tail(s[start])
    && (forall i :: start < i < end ==> Tail(s[i])) && RuneLength(s[start..end]) == end - start
  }

  method DecodeLast(s: Bytes) returns (whole: bool)
    requires s != []
    ensures whole <==> EndsWithRune(s)
  {
    var end := |s|;
    var start := end - 1;
    if s[start] < 0x80 {
      assert RuneAt(s, start, end);
      return true;
    }
    var limit := if end - 4 < 0 then 0 else end - 4;
    if Tail(s[start]) {
      start := start - 1;
      while start >= limit && Tail(s[start])
        invariant limit - 1 <= start < end - 1
        invariant forall i :: start < i < end ==> Tail(s[i])
      {
        start := start - 1;
      }
    }
    if start < limit {
      return false;
    }
    whole := RuneLength(s[start..]) == end - start;
    OnlyStart(s, start);
  }

  lemma OnlyStart(s: Bytes, start: nat)
    requires start < |s| <= start + 4 && !Tail(s[start]) && forall i :: start < i < |s| ==> Tail(s[i])
    ensures EndsWithRune(s) <==> RuneLength(s[start..]) == |s| - start
  {
    hide RuneLength, Tail;
    assert s[start..] == s[start..|s|];
    if EndsWithRune(s) {
      var other :| RuneAt(s, other, |s|);
      assert !(other < start) && !(other > start);
    } else {
      assert !RuneAt(s, start, |s|);
    }
  }

  /** What the loop leaves of a cut text: bytes go until a whole character ends it. */
  ghost function Cut(s: Bytes): Bytes {
    if s == [] || EndsWithRune(s) then s else Cut(s[..|s| - 1])
  }

  ghost function Truncated(text: Bytes, limit: nat): Bytes {
    if |text| <= limit then text else Cut(text[..limit])
  }

  method Truncate(text: Bytes, limit: nat) returns (r: Bytes)
    ensures r == Truncated(text, limit) && r <= text && |r| <= limit
    ensures Valid(text) ==> Valid(r) && forall k :: |r| < k <= limit && k <= |text| ==> !Valid(text[..k])
  {
    LongestPrefix(text, limit);
    if |text| <= limit {
      return text;
    }
    var cut := text[..limit];
    while |cut| > 0
      invariant cut <= text && |cut| <= limit && Cut(cut) == Cut(text[..limit])
    {
      var whole := DecodeLast(cut);
      if whole {
        break;
      }
      cut := cut[..|cut| - 1];
    }
    return cut;
  }

  // ---- Boundaries ----

  lemma FirstRune(s: Bytes, k: nat)
    requires RuneLength(s) <= k <= |s| && RuneLength(s) > 0
    ensures RuneLength(s[..k]) == RuneLength(s) && !Tail(s[0])
    ensures forall i :: 0 < i < RuneLength(s) ==> Tail(s[i])
  {
  }

  lemma PrefixRune(s: Bytes, k: nat)
    requires k <= |s| && RuneLength(s[..k]) > 0
    ensures RuneLength(s) == RuneLength(s[..k]) <= k
  {
  }

  /** In valid text every byte that is no tail starts a character. */
  lemma {:induction false} StartIsBoundary(s: Bytes, j: nat)
    requires Valid(s) && j < |s| && !Tail(s[j])
    ensures Valid(s[..j]) && Valid(s[j..])
    decreases |s|
  {
    var n := RuneLength(s);
    FirstRune(s, |s|);
    if j == 0 {
      assert s[0..] == s;
    } else {
      assert j >= n;
      StartIsBoundary(s[n..], j - n);
      assert s[n..][j - n..] == s[j..];
      PrependRune(s, n, j);
    }
  }

  lemma PrependRune(s: Bytes, n: nat, k: nat)
    requires n == RuneLength(s) > 0 && n <= k <= |s|
    ensures Valid(s[..k]) <==> Valid(s[n..][..k - n])
  {
    FirstRune(s, k);
    assert s[..k][n..] == s[n..][..k - n];
  }

  lemma ShiftRune(s: Bytes, n: nat, start: int)
    requires n <= |s| && RuneAt(s[n..], start, |s| - n)
    ensures RuneAt(s, n + start, |s|)
  {
    hide RuneLength, Tail;
    var rest := s[n..];
    assert rest[start..|rest|] == s[n + start..|s|];
    forall i | n + start < i < |s| ensures Tail(s[i]) {
      assert s[i] == rest[i - n];
    }
  }

  /** A valid prefix of any text ends with a whole character. */
  lemma {:induction false} ValidEndsWithRune(s: Bytes)
    requires Valid(s) && s != []
    ensures EndsWithRune(s)
    decreases |s|
  {
    hide RuneLength;
    var n := RuneLength(s);
    FirstRune(s, n);
    if n == |s| {
      assert s[0..n] == s;
      assert RuneAt(s, 0, |s|);
    } else {
      ValidEndsWithRune(s[n..]);
      var start :| RuneAt(s[n..], start, |s[n..]|);
      ShiftRune(s, n, start);
    }
  }

  /** In valid text a prefix is valid exactly when a whole character ends it. */
  lemma BoundaryIff(text: Bytes, k: nat)
    requires Valid(text) && 0 < k <= |text|
    ensures Valid(text[..k]) <==> EndsWithRune(text[..k])
  {
    hide RuneLength, Valid, Tail;
    var p := text[..k];
    if Valid(p) {
      ValidEndsWithRune(p);
    }
    if EndsWithRune(p) {
      var start :| RuneAt(p, start, k);
      StartIsBoundary(text, start);
      assert p[start..k] == text[start..][..k - start];
      PrefixRune(text[start..], k - start);
      AppendRune(text, start, k);
    }
  }

  lemma {:induction false} AppendRune(text: Bytes, start: nat, k: nat)
    requires start < k <= |text| && Valid(text[..start]) && RuneLength(text[start..]) == k - start
    ensures Valid(text[..k])
    decreases start
  {
    if start == 0 {
      assert text[0..] == text;
      FirstRune(text, k);
      assert text[..k][k..] == [];
    } else {
      var n := RuneLength(text[..start]);
      PrefixRune(text, start);
      assert text[..start][n..] == text[n..][..start - n];
      assert text[n..][start - n..] == text[start..];
      AppendRune(text[n..], start - n, k - n);
      PrependRune(text, n, k);
    }
  }

  lemma {:induction false} CutIsLongest(text: Bytes, k: nat)
    requires k <= |text|
    ensures Cut(text[..k]) <= text[..k]
    ensures Valid(text) ==> Valid(Cut(text[..k])) && forall j :: |Cut(text[..k])| < j <= k ==> !Valid(text[..j])
    decreases k
  {
    if k > 0 {
      if Valid(text) {
        BoundaryIff(text, k);
      }
      if !EndsWithRune(text[..k]) {
        CutIsLongest(text, k - 1);
        assert text[..k][..k - 1] == text[..k - 1];
      }
    }
  }

  /** Truncation keeps the longest prefix within the limit that valid text allows. */
  lemma LongestPrefix(text: Bytes, limit: nat)
    ensures var r := Truncated(text, limit);
            && r <= text && |r| <= limit
            && (Valid(text) ==> Valid(r) && forall k :: |r| < k <= limit && k <= |text| ==> !Valid(text[..k]))
  {
    if |text| > limit {
      CutIsLongest(text, limit);
    } else {
      assert text[..|text|] == text;
    }
  }
}
