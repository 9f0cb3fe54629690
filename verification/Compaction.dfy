/** The nightly compaction of a day's archive, internal/op/conversation.go: the plain file is
    replaced by a gzip file through a temporary one. Any input or output operation may fail and
    the machine may crash between any two. */
module Compaction {
  import opened Wrappers

  type Bytes = seq<int>

  /** gzip as two functions; decode checks the trailer and refuses what is truncated or damaged. */
  datatype Codec = Codec(encode: Bytes -> Bytes, decode: Bytes -> Option<Bytes>)

  ghost predicate Lossless(codec: Codec) {
    forall b :: codec.decode(codec.encode(b)) == Some(b)
  }

  /** A file being written. Until it is synced a crash may leave anything in it. */
  datatype TempFile = TempFile(bytes: Bytes, synced: bool)

  /** The directory entries of one day: the plain file, its archive and the temporary file. */
  datatype Disk = Disk(source: Option<Bytes>, archive: Option<Bytes>, temp: Option<TempFile>)

  predicate Complete(codec: Codec, file: Option<Bytes>) {
    file.Some? && codec.decode(file.value).Some?
  }

  predicate Holds(codec: Codec, file: Option<Bytes>, content: Bytes) {
    file.Some? && codec.decode(file.value) == Some(content)
  }

  predicate Recoverable(codec: Codec, d: Disk, content: Bytes) {
    d.source == Some(content) || Holds(codec, d.archive, content)
  }

  /** One operation on the disk that compaction may do. */
  ghost predicate Step(codec: Codec, d: Disk, d': Disk) {
    || d' == d.(temp := None)
    || (exists bytes :: d.source.Some? && d' == d.(temp := Some(TempFile(bytes, false))))
    || (d.temp.Some? && d' == d.(temp := Some(d.temp.value.(synced := true))))
    || (d.source.Some? && d.source.value != [] && d' == d.(archive := None))
    || (d.source.Some? && d.temp == Some(TempFile(codec.encode(d.source.value), true)) && d' == d.(archive := Some(d.temp.value.bytes), temp := None))
    || (d.source.Some? && d.source.value != [] && Complete(codec, d.archive) && d' == d.(source := None))
  }

  /** After a crash the directory is one of the states it went through, and a temporary file that
      was not synced has lost its contents. */
  predicate Damaged(d: Disk, d': Disk) {
    && d'.source == d.source && d'.archive == d.archive && d'.temp.Some? == d.temp.Some?
    && (d.temp.Some? && d.temp.value.synced ==> d'.temp == d.temp)
  }

  ghost predicate IsRun(codec: Codec, trace: seq<Disk>) {
    |trace| > 0 && forall k :: 0 <= k < |trace| - 1 ==> Step(codec, trace[k], trace[k + 1]) || CrashAt(trace, k)
  }

  predicate CrashAt(trace: seq<Disk>, k: nat)
    requires k < |trace| - 1
  {
    exists j :: 0 <= j <= k && Damaged(trace[j], trace[k + 1])
  }

  /** What protects the day: a complete archive, once there is one, is an archive of this day. */
  predicate Protected(codec: Codec, d: Disk, content: Bytes) {
    && Recoverable(codec, d, content) && (d.source.Some? ==> d.source.value == content)
    && (content != [] && Complete(codec, d.archive) ==> Holds(codec, d.archive, content))
  }

  lemma StepKeepsProtected(codec: Codec, d: Disk, d': Disk, content: Bytes)
    requires Lossless(codec) && Protected(codec, d, content) && Step(codec, d, d')
    ensures Protected(codec, d', content)
  {
    if d.source.Some? && d'.archive == Some(codec.encode(d.source.value)) {
      assert codec.decode(codec.encode(content)) == Some(content);
    }
  }

  /** Any number of compactions, each cut off anywhere, with crashes that may even undo directory
      operations: the content of the day can be read back at every moment. */
  lemma {:induction false} NothingIsLost(codec: Codec, trace: seq<Disk>, content: Bytes, n: nat)
    requires Lossless(codec) && IsRun(codec, trace) && Protected(codec, trace[0], content) && n < |trace|
    ensures Protected(codec, trace[n], content) && Recoverable(codec, trace[n], content)
    decreases n
  {
    if n > 0 {
      NothingIsLost(codec, trace, content, n - 1);
      if Step(codec, trace[n - 1], trace[n]) {
        StepKeepsProtected(codec, trace[n - 1], trace[n], content);
      } else {
        assert CrashAt(trace, n - 1);
        var j :| 0 <= j <= n - 1 && Damaged(trace[j], trace[n]);
        NothingIsLost(codec, trace, content, j);
      }
    }
  }

  /** A day whose plain file is there survives every run exactly when its plain file is empty or an
      archive that is complete beforehand holds the same content: completeness is all that is checked. */
  lemma SafeIff(codec: Codec, d: Disk, content: Bytes)
    requires Lossless(codec) && d.source == Some(content)
    ensures (forall trace, n: nat :: IsRun(codec, trace) && trace[0] == d && n < |trace| ==> Recoverable(codec, trace[n], content))
       <==> (content == [] || (Complete(codec, d.archive) ==> Holds(codec, d.archive, content)))
  {
    if content == [] || (Complete(codec, d.archive) ==> Holds(codec, d.archive, content)) {
      forall trace, n: nat | IsRun(codec, trace) && trace[0] == d && n < |trace| ensures Recoverable(codec, trace[n], content) {
        NothingIsLost(codec, trace, content, n);
      }
    } else {
      var trace := [d, d.(source := None)];
      assert Step(codec, trace[0], trace[1]);
      assert IsRun(codec, trace) && !Recoverable(codec, trace[1], content);
    }
  }

  /** A missing, damaged or cut-off archive never costs the day, whatever fails and whenever it crashes. */
  lemma DamagedArchiveIsHarmless(codec: Codec, trace: seq<Disk>, content: Bytes, n: nat)
    requires Lossless(codec) && IsRun(codec, trace) && n < |trace| && trace[0].source == Some(content)
    requires trace[0].archive.None? || codec.decode(trace[0].archive.value).None?
    ensures trace[n].source == Some(content)
            || (trace[n].archive.Some? && codec.decode(trace[n].archive.value) == Some(content))
  {
    hide Step, IsRun;
    NothingIsLost(codec, trace, content, n);
  }

  lemma ExtendRun(codec: Codec, trace: seq<Disk>, next: Disk)
    requires IsRun(codec, trace) && Step(codec, trace[|trace| - 1], next)
    ensures IsRun(codec, trace + [next])
  {
    hide Step;
    var longer := trace + [next];
    forall k | 0 <= k < |longer| - 1 ensures Step(codec, longer[k], longer[k + 1]) || CrashAt(longer, k) {
      if k < |trace| - 1 && !Step(codec, trace[k], trace[k + 1]) {
        var j :| 0 <= j <= k && Damaged(trace[j], trace[k + 1]);
        assert longer[j] == trace[j];
      }
    }
  }

  /** The files of one day under the code that compacts them. fails says which input or output
      operations fail; trace records the states of the disk. */
  class DayFiles {
    const codec: Codec
    const fails: nat -> bool
    var disk: Disk
    var operations: nat
    ghost var trace: seq<Disk>

    ghost predicate Valid()
      reads this
    {
      Lossless(codec) && IsRun(codec, trace) && trace[|trace| - 1] == disk
    }

    constructor (codec: Codec, fails: nat -> bool, disk: Disk)
      requires Lossless(codec)
      ensures Valid() && this.codec == codec && this.fails == fails && this.disk == disk && trace == [disk]
    {
      this.codec, this.fails, this.disk, operations, trace := codec, fails, disk, 0, [disk];
    }

    ghost predicate Faultless()
      reads this
    {
      forall n :: n >= operations ==> !fails(n)
    }

    /** Whether the next operation works. */
    method Try() returns (works: bool)
      requires Valid()
      modifies `operations
      ensures Valid() && (old(Faultless()) ==> works && Faultless())
    {
      works := !fails(operations);
      operations := operations + 1;
    }

    method Apply(next: Disk)
      requires Valid() && Step(codec, disk, next)
      modifies `disk, `trace
      ensures Valid() && disk == next && trace == old(trace) + [next]
    {
      ExtendRun(codec, trace, next);
      disk := next;
      trace := trace + [next];
    }

    /** Removes the plain file, which is safe once a complete archive is there. */
    method RemoveSource()
      requires Valid() && disk.source.Some? && disk.source.value != [] && Complete(codec, disk.archive)
      modifies this
      ensures Valid() && old(trace) <= trace && (disk == old(disk) || disk == old(disk).(source := None))
      ensures old(Faultless()) ==> disk == old(disk).(source := None) && Faultless()
    {
      var works := Try();
      if works {
        Apply(disk.(source := None));
      }
    }

    method RemoveTemp()
      requires Valid()
      modifies this
      ensures Valid() && old(trace) <= trace && (disk == old(disk) || disk == old(disk).(temp := None))
      ensures old(Faultless()) ==> Faultless() && disk.temp == None
    {
      var works := Try();
      if works {
        Apply(disk.(temp := None));
      }
    }

    /** Opens a file and reads it through; true only if it is a complete stream. */
    method VerifyArchive(file: Option<Bytes>) returns (complete: bool)
      requires Valid()
      modifies `operations
      ensures Valid() && (complete ==> Complete(codec, file))
      ensures old(Faultless()) ==> Faultless() && complete == Complete(codec, file)
    {
      complete := Try();
      complete := complete && Complete(codec, file);
    }

    /** Writes the compressed source into the temporary file piece by piece. */
    method WriteTemp() returns (ok: bool)
      requires Valid() && disk.source.Some?
      modifies this
      ensures Valid() && old(trace) <= trace && disk.(temp := None) == old(disk).(temp := None)
      ensures ok ==> disk.temp == Some(TempFile(codec.encode(disk.source.value), false))
      ensures old(Faultless()) ==> Faultless() && ok
    {
      ok := Try();
      if !ok {
        return;
      }
      var stream := codec.encode(disk.source.value);
      Apply(disk.(temp := Some(TempFile([], false))));
      var written := 0;
      while written < |stream|
        invariant Valid() && old(trace) <= trace && disk.(temp := None) == old(disk).(temp := None)
        invariant written <= |stream| && disk.temp == Some(TempFile(stream[..written], false))
        invariant old(Faultless()) ==> Faultless()
      {
        ok := Try();
        if !ok {
          return;
        }
        written := written + 1;
        Apply(disk.(temp := Some(TempFile(stream[..written], false))));
      }
      assert stream[..|stream|] == stream;
      ok := true;
    }

    /** Publishes a complete archive of the source, or fails leaving source and archive alone. */
    method CompressAtomic() returns (ok: bool)
      requires Valid() && disk.source.Some?
      modifies this
      ensures Valid() && old(trace) <= trace
      ensures !ok ==> disk.(temp := None) == old(disk).(temp := None)
      ensures ok ==> disk == Disk(old(disk.source), Some(codec.encode(old(disk.source.value))), None)
      ensures old(Faultless()) ==> Faultless() && ok
    {
      ok := WriteTemp();
      if !ok {
        return;
      }
      ok := Try();
      if !ok {
        return;
      }
      Apply(disk.(temp := Some(disk.temp.value.(synced := true))));
      ok := VerifyArchive(Some(disk.temp.value.bytes));
      if !ok {
        return;
      }
      ok := Try();
      if !ok {
        return;
      }
      Apply(disk.(archive := Some(disk.temp.value.bytes), temp := None));
    }

    /** One compaction. Every disk state on the way is recorded in a run of Steps, so NothingIsLost
        applies to it; when nothing fails only the archive is left. */
    method Compact()
      requires Valid()
      modifies this
      ensures Valid() && old(trace) <= trace
      ensures old(disk.source).None? || old(disk.source.value) == [] ==> disk.(temp := None) == old(disk).(temp := None)
      ensures old(Faultless()) && old(disk.source).Some? && old(disk.source.value) != [] ==> disk.source == None
      ensures old(Faultless()) && old(disk.source).Some? && old(disk.source.value) != [] ==>
                disk.archive == if Complete(codec, old(disk.archive)) then old(disk.archive) else Some(codec.encode(old(disk.source.value)))
    {
      var works := Try();
      if !works || disk.source.None? || disk.source.value == [] {
        RemoveTemp();
        return;
      }
      ghost var content := disk.source.value;
      works := Try();
      if works && disk.archive.Some? {
        var complete := VerifyArchive(disk.archive);
        if complete {
          RemoveSource();
          return;
        }
        works := Try();
        if works {
          Apply(disk.(archive := None));
        }
      }
      var ok := CompressAtomic();
      if !ok {
        RemoveTemp();
        return;
      }
      assert codec.decode(codec.encode(content)) == Some(content);
      RemoveSource();
    }
  }
}
