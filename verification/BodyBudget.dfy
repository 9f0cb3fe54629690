/** The process-wide byte budget for request bodies, internal/relay/bodylimit.go. */
module BodyBudget {
  import opened Wrappers

  type Bytes = seq<int>

  datatype Error = TooLarge | Canceled | ReadFailed | BadHeader | Unsupported

  datatype Status = More | Eof | Failed

  /** What one call of a reader returns: some bytes, possibly none, and a status. */
  datatype Read = Read(data: Bytes, status: Status)

  type Reader = seq<Read>

  /** The bytes up to the end of the stream; a reader at the end of its script is at its end. */
  function Stream(reader: Reader): Bytes {
    if reader == [] then []
    else if reader[0].status != More then reader[0].data
    else reader[0].data + Stream(reader[1..])
  }

  predicate Fails(reader: Reader) {
    reader != [] && (reader[0].status == Failed || (reader[0].status == More && Fails(reader[1..])))
  }

  function Joined(pieces: Reader): Bytes {
    if pieces == [] then [] else pieces[0].data + Joined(pieces[1..])
  }

  /** A stream is what its reads return up to and with the first that reports an end, and it fails exactly
      when that reports a failure. */
  lemma {:induction false} StreamIs(before: Reader, last: Read, rest: Reader)
    requires (forall r :: r in before ==> r.status == More) && last.status != More
    ensures Stream(before + [last] + rest) == Joined(before) + last.data
    ensures Fails(before + [last] + rest) <==> last.status == Failed
    decreases |before|
  {
    var reader := before + [last] + rest;
    if before == [] {
      assert reader[0] == last && Joined(before) + last.data == last.data;
    } else {
      assert reader[0] == before[0] && before[0] in before && reader[1..] == before[1..] + [last] + rest;
      StreamIs(before[1..], last, rest);
      assert before[0].data + (Joined(before[1..]) + last.data) == Joined(before) + last.data;
    }
  }

  /** No single piece is larger than the whole budget. */
  predicate PiecesFit(reader: Reader, limit: int) {
    reader == [] || (|reader[0].data| <= limit && (reader[0].status == More ==> PiecesFit(reader[1..], limit)))
  }

  /** A stream that can be read: it does not fail, is no longer than max, and comes in pieces that fit. */
  ghost predicate Readable(reader: Reader, max: int, limit: int) {
    !Fails(reader) && |Stream(reader)| <= max && PiecesFit(reader, limit)
  }

  function Sum(charges: seq<nat>): nat {
    if charges == [] then 0 else charges[0] + Sum(charges[1..])
  }

  lemma {:induction false} SumUpdate(charges: seq<nat>, i: nat, v: nat)
    requires i < |charges|
    ensures Sum(charges[i := v]) == Sum(charges) - charges[i] + v
  {
    if i == 0 {
      assert charges[0 := v][1..] == charges[1..];
    } else {
      SumUpdate(charges[1..], i - 1, v);
      assert charges[i := v][1..] == charges[1..][i - 1 := v];
    }
  }

  lemma {:induction false} SumAtLeast(charges: seq<nat>, i: nat)
    requires i < |charges|
    ensures charges[i] <= Sum(charges)
  {
    if i > 0 {
      SumAtLeast(charges[1..], i - 1);
    }
  }

  /** A request context that is canceled after a number of looks at it. */
  class Context {
    var patience: nat

    constructor (patience: nat)
      ensures this.patience == patience
    {
      this.patience := patience;
    }

    method Canceled() returns (canceled: bool)
      modifies this
      ensures canceled <==> old(patience) == 0
      ensures patience == if canceled then 0 else old(patience) - 1
    {
      canceled := patience == 0;
      if patience > 0 {
        patience := patience - 1;
      }
    }
  }

  datatype Encoding = Identity | Gzip | Deflate | Zstd | Other

  /** What the decompressors make of a body; None is a header they refuse. */
  datatype Decoders = Decoders(gzip: Bytes -> Option<Reader>, zlib: Bytes -> Option<Reader>, flate: Bytes -> Reader, zstd: Bytes -> Option<Reader>)

  /** charges[i] is what request i has charged and not yet released. */
  class Budget {
    const limit: int
    var used: int
    ghost var charges: seq<nat>

    ghost predicate Valid()
      reads this
    {
      used == Sum(charges) <= limit
    }

    /** Valid, and the charge of one request is this. */
    ghost predicate Charged(me: nat, charge: nat)
      reads this
    {
      Valid() && me < |charges| && charges[me] == charge
    }

    /** There is no room for n more bytes, so a request for them has to wait. */
    predicate Full(n: nat)
      reads this
    {
      used + n > limit
    }

    constructor (limit: nat, ghost requests: nat)
      ensures Valid() && this.limit == limit && used == 0 && |charges| == requests && forall i :: 0 <= i < requests ==> charges[i] == 0
    {
      this.limit, used, charges := limit, 0, seq(requests, _ => 0);
      new;
      NothingCharged(requests);
    }

    static lemma {:induction false} NothingCharged(n: nat)
      ensures Sum(seq(n, _ => 0)) == 0
    {
      if n > 0 {
        assert seq(n, _ => 0)[1..] == seq(n - 1, _ => 0);
        NothingCharged(n - 1);
      }
    }

    /** Other requests run. All that is known afterwards is that they left this one's charge alone. */
    method Others(ghost me: nat)
      requires Valid() && me < |charges|
      modifies this
      ensures Charged(me, old(charges[me]))
    {
    }

    method Charge(ghost me: nat, n: nat)
      requires Valid() && me < |charges| && used + n <= limit
      modifies this
      ensures Charged(me, old(charges[me]) + n)
      ensures used == old(used) + n && charges == old(charges)[me := old(charges[me]) + n]
    {
      SumUpdate(charges, me, charges[me] + n);
      used := used + n;
      charges := charges[me := charges[me] + n];
    }

    /** Reserves n bytes, waiting for other requests when there is no room now. */
    method Acquire(ghost me: nat, n: int, ctx: Context) returns (r: Option<Error>)
      requires Valid() && me < |charges|
      modifies this, ctx
      ensures Valid() && me < |charges|
      ensures r.None? ==> Charged(me, old(charges[me]) + if n > 0 then n else 0)
      ensures r.Some? ==> Charged(me, old(charges[me]))
      ensures r == Some(TooLarge) <==> n > limit && n > 0 && old(ctx.patience) > 0
      ensures old(ctx.patience) == 0 && n > 0 ==> r == Some(Error.Canceled)
      ensures r.Some? ==> r.value.TooLarge? || (r.value.Canceled? && ctx.patience == 0)
      ensures ctx.patience <= old(ctx.patience)
      ensures 0 < n <= limit && !old(Full(n)) && old(ctx.patience) > 0 ==>
                r.None? && charges == old(charges)[me := old(charges[me]) + n] && ctx.patience == old(ctx.patience) - 1
      ensures 0 < n <= limit && old(Full(n)) && r.None? ==> ctx.patience < old(ctx.patience) - 1
    {
      if n <= 0 {
        return None;
      }
      var canceled := ctx.Canceled();
      if canceled {
        return Some(Error.Canceled);
      }
      if n > limit {
        return Some(TooLarge);
      }
      while Full(n)
        invariant Charged(me, old(charges[me])) && ctx.patience < old(ctx.patience)
        invariant ctx.patience < old(ctx.patience) - 1 ==> old(Full(n))
        invariant ctx.patience == old(ctx.patience) - 1 ==> charges == old(charges) && used == old(used)
        decreases ctx.patience
      {
        Others(me);
        canceled := ctx.Canceled();
        if canceled {
          return Some(Error.Canceled);
        }
      }
      Charge(me, n);
      return None;
    }

    /** Reserves n bytes or refuses at once. */
    method TryAcquire(ghost me: nat, n: int) returns (r: Option<Error>)
      requires Valid() && me < |charges|
      modifies this
      ensures r == if n > 0 && old(used) + n > limit then Some(TooLarge) else None
      ensures Charged(me, old(charges[me]) + if r.None? && n > 0 then n else 0)
      ensures r.Some? || n <= 0 ==> used == old(used) && charges == old(charges)
    {
      if n <= 0 {
        return None;
      }
      if used + n > limit {
        return Some(TooLarge);
      }
      Charge(me, n);
      return None;
    }

    /** Gives n bytes back. The clamp at zero never acts for a request that returns what it has. */
    method Release(ghost me: nat, n: int)
      requires Valid() && me < |charges| && n <= charges[me]
      modifies this
      ensures Charged(me, old(charges[me]) - if n > 0 then n else 0)
      ensures used == old(used) - if n > 0 then n else 0
      ensures charges == old(charges)[me := old(charges[me]) - if n > 0 then n else 0]
    {
      if n <= 0 {
        return;
      }
      SumUpdate(charges, me, charges[me] - n);
      SumAtLeast(charges, me);
      used := if used - n < 0 then 0 else used - n;
      charges := charges[me := charges[me] - n];
    }

    /** Charges one more chunk of a stream of which charge bytes are charged, or gives all back. */
    method Admit(ghost me: nat, charge: nat, n: nat, max: int, ctx: Context) returns (r: Option<Error>)
      requires Valid() && me < |charges| && charge <= charges[me] && n > 0
      modifies this, ctx
      ensures Charged(me, if r.None? then old(charges[me]) + n else old(charges[me]) - charge)
      ensures r.None? ==> charge + n <= max && n <= limit
      ensures r == Some(TooLarge) ==> charge + n > max || n > limit
      ensures r.Some? ==> r.value == TooLarge || (r.value == Error.Canceled && ctx.patience == 0)
      ensures ctx.patience <= old(ctx.patience)
    {
      if charge + n > max {
        Release(me, charge);
        return Some(TooLarge);
      }
      r := Acquire(me, n, ctx);
      if r.Some? {
        Release(me, charge);
      }
    }

    /** Reads a stream to its end. Success leaves exactly its bytes charged; every failure leaves
        the charge as it was. */
    method ReadBudget(ghost me: nat, reader: Option<Reader>, max: int, ctx: Context) returns (r: Result<Bytes, Error>, charge: nat)
      requires Valid() && me < |charges| && max >= 0
      modifies this, ctx
      ensures Charged(me, old(charges[me]) + charge)
      ensures r.Success? ==> r.value == (if reader.Some? then Stream(reader.value) else []) && |r.value| <= max && charge == |r.value|
      ensures r.Success? && reader.Some? ==> !Fails(reader.value)
      ensures r.Failure? ==> charge == 0 && reader.Some?
      ensures r == Failure(TooLarge) ==> |Stream(reader.value)| > max || !PiecesFit(reader.value, limit)
      ensures r != Failure(Error.Canceled) && reader.Some? ==> (r.Success? <==> Readable(reader.value, max, limit))
      ensures r == Failure(ReadFailed) ==> Fails(reader.value)
      ensures r == Failure(Error.Canceled) ==> ctx.patience == 0
      ensures r.Failure? ==> r.error == TooLarge || r.error == Error.Canceled || r.error == ReadFailed
    {
      hide Stream, Fails, Sum, PiecesFit;
      charge := 0;
      if reader.None? {
        return Success([]), 0;
      }
      var rest, data := reader.value, [];
      while true
        invariant Charged(me, old(charges[me]) + charge) && charge == |data| <= max
        invariant Stream(reader.value) == data + Stream(rest) && (Fails(rest) == Fails(reader.value))
        invariant PiecesFit(rest, limit) == PiecesFit(reader.value, limit)
        decreases |rest|
      {
        Others(me);
        var canceled := ctx.Canceled();
        if canceled {
          Release(me, charge);
          return Failure(Error.Canceled), 0;
        }
        var read := if rest == [] then Read([], Eof) else rest[0];
        var n := |read.data|;
        Advance(reader.value, data, rest, read);
        NextFits(rest, read, limit);
        if n > 0 {
          var failed := Admit(me, charge, n, max, ctx);
          if failed.Some? {
            return Failure(failed.value), 0;
          }
          charge := charge + n;
        }
        data := data + read.data;
        if read.status == Eof {
          return Success(data), charge;
        }
        if read.status == Failed {
          Release(me, charge);
          return Failure(ReadFailed), 0;
        }
        rest := rest[1..];
      }
    }

    /** Decodes a body by its content encoding. separate: the result has a charge of its own. */
    method DecodeBudget(ghost me: nat, body: Bytes, encoding: Encoding, decoders: Decoders, max: int, ctx: Context)
        returns (r: Result<Bytes, Error>, extra: nat, separate: bool)
      requires Valid() && me < |charges| && max >= 0
      modifies this, ctx
      ensures Charged(me, old(charges[me]) + extra)
      ensures r.Failure? ==> extra == 0
      ensures r.Success? ==> |r.value| <= max && r.value == Decoded(body, encoding, decoders)
      ensures r.Success? ==> (separate <==> encoding != Identity) && extra == if separate then |r.value| else 0
      ensures r != Failure(Error.Canceled) ==> (r.Success? <==> Decodable(body, encoding, decoders, max, limit))
      ensures r == Failure(Unsupported) <==> encoding == Other
      ensures r == Failure(BadHeader) <==> (encoding == Gzip && decoders.gzip(body).None?) || (encoding == Zstd && decoders.zstd(body).None?)
      ensures encoding == Identity ==> r == if |body| <= max then Success(body) else Failure(TooLarge)
      ensures r == Failure(Error.Canceled) ==> ctx.patience == 0
    {
      extra, separate := 0, true;
      match encoding {
        case Identity =>
          if |body| > max {
            return Failure(TooLarge), 0, false;
          }
          return Success(body), 0, false;
        case Gzip =>
          var reader := decoders.gzip(body);
          if reader.None? {
            return Failure(BadHeader), 0, false;
          }
          r, extra := ReadBudget(me, reader, max, ctx);
        case Deflate =>
          var reader := decoders.zlib(body);
          if reader.Some? {
            r, extra := ReadBudget(me, reader, max, ctx);
          } else {
            r, extra := ReadBudget(me, Some(decoders.flate(body)), max, ctx);
          }
        case Zstd =>
          var reader := decoders.zstd(body);
          if reader.None? {
            return Failure(BadHeader), 0, false;
          }
          r, extra := ReadBudget(me, reader, max, ctx);
        case Other =>
          return Failure(Unsupported), 0, false;
      }
    }

    /** Reads and decodes a request body. On success the request holds exactly the bytes of the
        decoded body; on failure it holds nothing more than before. */
    method ReadRequest(ghost me: nat, reader: Option<Reader>, encoding: Encoding, decoders: Decoders, maxCompressed: nat, maxBody: nat, ctx: Context)
        returns (r: Result<Bytes, Error>, held: nat)
      requires Valid() && me < |charges|
      modifies this, ctx
      ensures Charged(me, old(charges[me]) + held)
      ensures r.Failure? ==> held == 0
      ensures r.Success? ==> held == |r.value| && |r.value| <= (if maxBody > 0 then maxBody else 0)
      ensures r.Success? ==> var raw := if reader.Some? then Stream(reader.value) else [];
                        r.value == if raw == [] then [] else Decoded(raw, encoding, decoders)
      ensures r != Failure(Error.Canceled) ==> (r.Success? <==> Servable(reader, encoding, decoders, maxCompressed, maxBody, limit))
      ensures r == Failure(Error.Canceled) ==> ctx.patience == 0
    {
      held := 0;
      var body, compressed := ReadBudget(me, reader, maxCompressed, ctx);
      if body.Failure? {
        return Failure(body.error), 0;
      }
      if |body.value| == 0 {
        Release(me, compressed);
        return Success([]), 0;
      }
      var decoded, extra, separate := DecodeBudget(me, body.value, encoding, decoders, maxBody, ctx);
      if decoded.Failure? {
        Release(me, compressed);
        Release(me, extra);
        return Failure(decoded.error), 0;
      }
      held := compressed;
      if separate {
        Release(me, compressed);
        held := extra;
      }
      r := decoded;
    }
  }

  lemma Advance(reader: Reader, data: Bytes, rest: Reader, read: Read)
    requires read == if rest == [] then Read([], Eof) else rest[0]
    requires Stream(reader) == data + Stream(rest) && Fails(rest) == Fails(reader)
    ensures |data + read.data| <= |Stream(reader)| && (read.status == Failed ==> Fails(reader))
    ensures read.status == Eof ==> Stream(reader) == data + read.data && !Fails(reader)
    ensures read.status == More ==> rest != [] && Stream(reader) == data + read.data + Stream(rest[1..]) && Fails(rest[1..]) == Fails(reader)
  {
    StreamStarts(rest, read);
    if read.status == More {
      assert data + (read.data + Stream(rest[1..])) == data + read.data + Stream(rest[1..]);
    }
  }

  lemma NextFits(rest: Reader, read: Read, limit: int)
    requires read == if rest == [] then Read([], Eof) else rest[0]
    ensures PiecesFit(rest, limit) <==> (|read.data| <= limit || rest == []) && (read.status == More ==> PiecesFit(rest[1..], limit))
  {
  }

  lemma StreamStarts(rest: Reader, read: Read)
    requires read == if rest == [] then Read([], Eof) else rest[0]
    ensures Stream(rest) == read.data + if read.status == More then Stream(rest[1..]) else []
    ensures Fails(rest) <==> read.status == Failed || (read.status == More && Fails(rest[1..]))
  {
  }

  /** The body can be decoded within max bytes. */
  ghost predicate Decodable(body: Bytes, encoding: Encoding, decoders: Decoders, max: int, limit: int) {
    match encoding
    case Identity => |body| <= max
    case Gzip => decoders.gzip(body).Some? && Readable(decoders.gzip(body).value, max, limit)
    case Deflate =>
      Readable(if decoders.zlib(body).Some? then decoders.zlib(body).value else decoders.flate(body), max, limit)
    case Zstd => decoders.zstd(body).Some? && Readable(decoders.zstd(body).value, max, limit)
    case Other => false
  }

  /** A request that is served unless it is canceled: its body can be read, and is empty or can be decoded. */
  ghost predicate Servable(reader: Option<Reader>, encoding: Encoding, decoders: Decoders, maxCompressed: int, maxBody: int, limit: int) {
    reader.None?
    || (Readable(reader.value, maxCompressed, limit)
        && (Stream(reader.value) == [] || Decodable(Stream(reader.value), encoding, decoders, maxBody, limit)))
  }

  function Decoded(body: Bytes, encoding: Encoding, decoders: Decoders): Bytes {
    match encoding
    case Identity => body
    case Gzip => if decoders.gzip(body).Some? then Stream(decoders.gzip(body).value) else []
    case Deflate => Stream(if decoders.zlib(body).Some? then decoders.zlib(body).value else decoders.flate(body))
    case Zstd => if decoders.zstd(body).Some? then Stream(decoders.zstd(body).value) else []
    case Other => []
  }

  /** The release handed to the caller of ReadRequest. It acts once. */
  class Lease {
    const held: nat
    var done: bool

    constructor (held: nat)
      ensures this.held == held && !done
    {
      this.held, done := held, false;
    }

    method Release(budget: Budget, ghost me: nat)
      requires budget.Valid() && me < |budget.charges| && (!done ==> held <= budget.charges[me])
      modifies this, budget
      ensures done && budget.Charged(me, old(budget.charges[me]) - if old(done) then 0 else held)
    {
      if !done {
        budget.Release(me, held);
        done := true;
      }
    }
  }

  /** A whole request: whatever its encoding and however it fails, the budget of this request is
      what it was before, even if the release is called twice. */
  method HandleRequest(budget: Budget, ghost me: nat, reader: Option<Reader>, encoding: Encoding, decoders: Decoders,
                       maxCompressed: nat, maxBody: nat, ctx: Context)
    requires budget.Valid() && me < |budget.charges|
    modifies budget, ctx
    ensures budget.Charged(me, old(budget.charges[me]))
  {
    var r, held := budget.ReadRequest(me, reader, encoding, decoders, maxCompressed, maxBody, ctx);
    if r.Success? {
      var lease := new Lease(held);
      budget.Others(me);
      lease.Release(budget, me);
      budget.Others(me);
      lease.Release(budget, me);
    }
  }

  // ---- Waiting ----

  const MAX_COMPRESSED := 16 * 1024 * 1024
  const MAX_BODY := 64 * 1024 * 1024
  const DEFAULT_LIMIT := 128 * 1024 * 1024

  /** Two requests that hold the whole budget between them, each asking for more bytes than are left.
      None may come to hold more than most, what one request can need. */
  ghost predicate BothWait(budget: Budget, wanted: seq<nat>, most: nat)
    reads budget
  {
    && budget.Valid() && |budget.charges| == 2 && |wanted| == 2
    && forall i :: 0 <= i < 2 ==> 0 < wanted[i] <= budget.limit && budget.Full(wanted[i]) && budget.charges[i] + wanted[i] <= most
  }

  /** Waiting keeps what was read, so this state can be reached: both requests read one chunk each and
      ask for another byte. They wait until one of them is canceled. */
  method LetBothWait(limit: nat, most: nat) returns (budget: Budget, wanted: seq<nat>)
    requires 0 < limit && limit + 2 <= 2 * most
    ensures fresh(budget) && budget.limit == limit && BothWait(budget, wanted, most)
  {
    budget := new Budget(limit, 2);
    var first := if limit <= most - 1 then limit else most - 1;
    var ctx := new Context(2);
    var r := budget.Acquire(0, first, ctx);
    SumOfTwo(budget.charges);
    if first < limit {
      ctx := new Context(2);
      r := budget.Acquire(1, limit - first, ctx);
    }
    SumOfTwo(budget.charges);
    wanted := [1, 1];
  }

  /** It cannot be reached when there is room for all but one byte of what both may need. */
  lemma BothWaitNeedsRoom(budget: Budget, wanted: seq<nat>, most: nat)
    requires BothWait(budget, wanted, most)
    ensures 0 < budget.limit && budget.limit + 2 <= 2 * most
  {
    SumOfTwo(budget.charges);
  }

  /** With the built-in limits it can: a compressed body and its decoded form are held together. */
  lemma DefaultsLetBothWait()
    ensures 0 < DEFAULT_LIMIT && DEFAULT_LIMIT + 2 <= 2 * (MAX_COMPRESSED + MAX_BODY)
  {
  }

  lemma SumOfTwo(s: seq<nat>)
    requires |s| == 2
    ensures Sum(s) == s[0] + s[1]
  {
    assert s[1..][0] == s[1] && s[1..][1..] == [];
    assert Sum(s[1..]) == s[1] + Sum([]);
  }
}
