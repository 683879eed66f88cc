/**
 `aofWrite` and `flushAppendOnlyFile`: moving the append-only buffer to its file when
 writes may be interrupted, short or refused.
 */
module AofFlush {
  import opened AofLog
  import opened Numbers

  /** One return of write(2); `Wrote` may exceed what is left, which then counts as all of it. */
  datatype WriteResult = Interrupted | WriteError | Wrote(n: nat)

  datatype Fsync = Always | Everysec | No

  /** What the system and the configuration decide about one flush. */
  datatype Env = Env(
    force: bool,
    fsync: Fsync,
    syncInProgress: bool,          // an fsync job is pending in the background
    mstime: int,
    writes: seq<WriteResult>,      // later writes succeed in full
    truncateOk: bool)              // ftruncate(2), if called, succeeds

  /** The fields `flushAppendOnlyFile` works on, and the open file behind `aof_fd`. */
  datatype Writer = Writer(
    file: seq<Byte>,
    offset: nat,                   // file offset of the descriptor
    append: bool,                  // opened with O_APPEND
    buf: seq<Byte>,                // aof_buf
    lastIncrSize: nat,
    writeOk: bool,                 // aof_last_write_status
    postponedStart: int)           // aof_flush_postponed_start

  // -------------------------------------------------------------------- the file

  function Gap(n: int): seq<Byte> {
    if n <= 0 then [] else seq(n, i => 0)
  }

  lemma GapGrows(n: nat)
    ensures Gap(n + 1) == Gap(n) + [0] && |Gap(n)| == n
  {
  }

  /** `file` with `data` over it from `at` on. */
  function Overlaid(file: seq<Byte>, at: nat, data: seq<Byte>): seq<Byte>
    requires at <= |file|
  {
    file[..at] + data + (if at + |data| < |file| then file[at + |data|..] else [])
  }

  lemma OverlaidStep(file: seq<Byte>, at: nat, data: seq<Byte>, i: nat)
    requires at <= |file| && i < |data|
    ensures
      var r := Overlaid(file, at, data[..i]);
      && at + i <= |r|
      && Overlaid(file, at, data[..i + 1]) == if at + i < |r| then r[at + i := data[i]] else r + [data[i]]
  {
  }

  /** write(2) of `data` in full: at the end with O_APPEND, else at the offset, zero-filling any gap. */
  function WriteAt(w: Writer, data: seq<Byte>): Writer {
    if data == [] then w
    else
      var at := if w.append then |w.file| else w.offset;
      var padded := w.file + Gap(at - |w.file|);
      w.(file := Overlaid(padded, at, data), offset := at + |data|)
  }

  /** ftruncate(2); the offset stays where it is. */
  function TruncateTo(w: Writer, size: nat): Writer {
    w.(file := if size <= |w.file| then w.file[..size] else w.file + Gap(size - |w.file|))
  }

  lemma WriteInPieces(w: Writer, a: seq<Byte>, b: seq<Byte>)
    ensures WriteAt(WriteAt(w, a), b) == WriteAt(w, a + b)
  {
    if a == [] {
      assert a + b == b;
    } else if b == [] {
      assert a + b == a;
    } else {
      var w1 := WriteAt(w, a);
      assert WriteAt(w1, b).file == WriteAt(w, a + b).file;
    }
  }

  // ------------------------------------------------------------------- aofWrite

  /** How many of `len` bytes get written, and whether an error stopped it. */
  function Written(len: nat, writes: seq<WriteResult>): (r: (nat, bool))
    ensures r.0 <= len
    ensures !r.1 ==> r.0 == len
    decreases writes
  {
    if len == 0 then (0, false)
    else if writes == [] then (len, false)
    else
      match writes[0]
      case Interrupted => Written(len, writes[1..])
      case WriteError => (0, true)
      case Wrote(n) =>
        var m := if n < len then n else len;
        var rest := Written(len - m, writes[1..]);
        (m + rest.0, rest.1)
  }

  function After(done: nat, r: (nat, bool)): (nat, bool) {
    (done + r.0, r.1)
  }

  /** One turn of the loop of `aofWrite`. */
  lemma WrittenTurn(len: nat, writes: seq<WriteResult>)
    ensures len == 0 ==> Written(len, writes) == (0, false)
    ensures len > 0 && writes == [] ==> Written(len, writes) == After(len, Written(0, []))
    ensures len > 0 && writes != [] ==>
              match writes[0]
              case Interrupted => Written(len, writes) == Written(len, writes[1..])
              case WriteError => Written(len, writes) == (0, true)
              case Wrote(n) =>
                var m := if n < len then n else len;
                Written(len, writes) == After(m, Written(len - m, writes[1..]))
  {
  }

  /** What `aofWrite` returns. */
  function Total(len: nat, writes: seq<WriteResult>): int {
    var (n, failed) := Written(len, writes);
    if failed && n == 0 then -1 else n
  }

  // -------------------------------------------------------- flushAppendOnlyFile

  predicate Postpones(w: Writer, e: Env) {
    e.fsync == Everysec && !e.force && e.syncInProgress
    && (w.postponedStart == 0 || e.mstime - w.postponedStart < 2000)
  }

  datatype Flushed = Flushed(writer: Writer, exited: bool)

  /** `flushAppendOnlyFile`, leaving out the fsync that follows a write. */
  function Flush(w: Writer, e: Env): Flushed {
    if w.buf == [] then Flushed(w, false)
    else if Postpones(w, e) then
      Flushed(if w.postponedStart == 0 then w.(postponedStart := e.mstime) else w, false)
    else
      var n := Written(|w.buf|, e.writes).0;
      AfterWrite(WriteAt(w, w.buf[..n]).(postponedStart := 0), n, Total(|w.buf|, e.writes), e)
  }

  /** The part after `aofWrite` wrote `n` bytes of the buffer and returned `total`. */
  function AfterWrite(w: Writer, n: nat, total: int, e: Env): Flushed
    requires n <= |w.buf|
  {
    if total == |w.buf| then
      Flushed(w.(writeOk := true, lastIncrSize := w.lastIncrSize + n, buf := []), false)
    else
      var undo := total != -1 && e.truncateOk;
      var w2 := if undo then TruncateTo(w, w.lastIncrSize) else w;
      if e.fsync == Always then Flushed(w2, true)
      else
        var w3 := w2.(writeOk := false);
        if total > 0 && !undo
        then Flushed(w3.(lastIncrSize := w3.lastIncrSize + n, buf := w3.buf[n..]), false)
        else Flushed(w3, false)
  }

  class AofWriter {
    var file: seq<Byte>
    var offset: nat
    const append: bool
    var buf: seq<Byte>
    var lastIncrSize: nat
    var writeOk: bool
    var postponedStart: int

    /** Opening `contents` for writing, positioned at its end. */
    constructor (contents: seq<Byte>, append: bool)
      ensures View() == Opened(contents, append)
    {
      file, offset, this.append := contents, |contents|, append;
      buf, lastIncrSize, writeOk, postponedStart := [], |contents|, true, 0;
    }

    function View(): Writer
      reads this
    {
      Writer(file, offset, append, buf, lastIncrSize, writeOk, postponedStart)
    }

    /** The tail of `feedAppendOnlyFile`. */
    method Feed(bytes: seq<Byte>)
      modifies this
      ensures View() == old(View()).(buf := old(buf) + bytes)
    {
      buf := buf + bytes;
    }

    /** One write(2) that takes `data` in full. */
    method Write(data: seq<Byte>)
      modifies this`file, this`offset
      ensures View() == WriteAt(old(View()), data)
    {
      if data == [] {
        return;
      }
      if append {
        offset := |file|;
      }
      ghost var at, before := offset, file;
      while |file| < offset
        invariant file == before + Gap(|file| - |before|) && |file| >= |before| && (|file| <= at || file == before)
        invariant offset == at
        decreases offset - |file|
      {
        GapGrows(|file| - |before|);
        assert before + (Gap(|file| - |before|) + [0]) == before + Gap(|file| - |before|) + [0];
        file := file + [0];
      }
      ghost var padded := file;
      assert padded == before + Gap(at - |before|);
      for i := 0 to |data|
        invariant offset == at + i <= |file|
        invariant file == Overlaid(padded, at, data[..i])
      {
        OverlaidStep(padded, at, data, i);
        file := if offset < |file| then file[offset := data[i]] else file + [data[i]];
        offset := offset + 1;
      }
      assert data[..|data|] == data;
    }

    /** `aofWrite`: retry on interrupts and short writes until done or refused. */
    method AofWrite(writes: seq<WriteResult>) returns (total: int)
      modifies this`file, this`offset
      ensures total == Total(|buf|, writes)
      ensures View() == WriteAt(old(View()), buf[..Written(|buf|, writes).0])
    {
      hide WriteAt, Written;
      ghost var w := View();
      var done: nat, i := 0, 0;
      WritesNothing(w);
      assert buf[..0] == [];
      while done < |buf|
        invariant 0 <= i <= |writes| && done <= |buf|
        invariant buf == old(buf)
        invariant View() == WriteAt(w, buf[..done])
        invariant Written(|buf|, writes) == After(done, Written(|buf| - done, writes[i..]))
        decreases |writes| - i, |buf| - done
      {
        WrittenTurn(|buf| - done, writes[i..]);
        var n := |buf| - done;
        if i < |writes| {
          assert writes[i..][1..] == writes[i + 1..];
          var result := writes[i];
          i := i + 1;
          match result {
            case Interrupted =>
              continue;
            case WriteError =>
              total := if done > 0 then done else -1;
              return;
            case Wrote(k) =>
              n := if k < n then k else n;
          }
        }
        WriteInPieces(w, buf[..done], buf[done..done + n]);
        assert buf[..done] + buf[done..done + n] == buf[..done + n];
        Write(buf[done..done + n]);
        done := done + n;
      }
      WrittenTurn(|buf| - done, writes[i..]);
      total := done;
    }

    method FlushAppendOnlyFile(e: Env) returns (exited: bool)
      modifies this
      ensures Flushed(View(), exited) == Flush(old(View()), e)
    {
      hide WriteAt, Written;
      if buf == [] {
        return false;
      }
      if e.fsync == Everysec && !e.force && e.syncInProgress {
        if postponedStart == 0 {
          postponedStart := e.mstime;
          return false;
        } else if e.mstime - postponedStart < 2000 {
          return false;
        }
      }
      var nwritten := AofWrite(e.writes);
      postponedStart := 0;
      if nwritten != |buf| {
        if nwritten != -1 && e.truncateOk {
          file := TruncateTo(View(), lastIncrSize).file;
          nwritten := -1;
        }
        if e.fsync == Always {
          return true;
        }
        writeOk := false;
        if nwritten > 0 {
          lastIncrSize := lastIncrSize + nwritten;
          buf := buf[nwritten..];
        }
        return false;
      }
      writeOk := true;
      lastIncrSize := lastIncrSize + nwritten;
      buf := [];
      return false;
    }
  }

  // ------------------------------------------------------------------- the law

  function Opened(contents: seq<Byte>, append: bool): Writer {
    Writer(contents, |contents|, append, [], |contents|, true, 0)
  }

  /** Nothing fed is lost, reordered or doubled, and the recorded size is the real one. */
  predicate Law(w: Writer, log: seq<Byte>) {
    w.file + w.buf == log && w.lastIncrSize == |w.file|
  }

  /** The next byte written lands at the end of the file. */
  predicate Aligned(w: Writer) {
    w.append || w.offset == |w.file|
  }

  /** The flush ended in a short write that ftruncate took back. */
  predicate TookBack(w: Writer, e: Env) {
    && w.buf != [] && !Postpones(w, e)
    && 0 < Written(|w.buf|, e.writes).0 < |w.buf| && e.truncateOk
  }

  /** The flush writes at least one byte. */
  predicate Writes(w: Writer, e: Env) {
    w.buf != [] && !Postpones(w, e) && Written(|w.buf|, e.writes).0 > 0
  }

  lemma AlignedWriteAppends(w: Writer, data: seq<Byte>)
    requires Aligned(w)
    ensures WriteAt(w, data).file == w.file + data
    ensures Aligned(WriteAt(w, data))
    ensures WriteAt(w, data) == w.(file := w.file + data, offset := WriteAt(w, data).offset)
  {
  }

  /** `n` bytes of the buffer are at the end of the file, and nothing else moved. */
  predicate WroteToEnd(w: Writer, n: nat, log: seq<Byte>) {
    && n <= |w.buf| && |w.file| == w.lastIncrSize + n
    && w.file[w.lastIncrSize..] == w.buf[..n]
    && w.file[..w.lastIncrSize] + w.buf == log
  }

  lemma AfterWriteKeepsLaw(w: Writer, n: nat, total: int, e: Env, log: seq<Byte>)
    requires WroteToEnd(w, n, log) && (total == n || (total == -1 && n == 0))
    ensures var f := AfterWrite(w, n, total, e); !f.exited ==> Law(f.writer, log)
  {
    hide Gap;
    var front, data, rest := w.file[..w.lastIncrSize], w.buf[..n], w.buf[n..];
    assert w.file == front + data;
    assert w.buf == data + rest;
    assert front + data + rest == front + (data + rest);
    assert TruncateTo(w, w.lastIncrSize).file == front;
    if total == |w.buf| {
      assert data == w.buf && w.file + [] == log;
    } else if total == -1 {
      assert data == [] && w.file == front;
    }
  }

  /** Every outcome of a flush keeps the law while the next byte lands at the end. */
  lemma FlushKeepsLaw(w: Writer, e: Env, log: seq<Byte>)
    requires Law(w, log) && Aligned(w)
    ensures !Flush(w, e).exited ==> Law(Flush(w, e).writer, log)
  {
    hide AfterWrite;
    var n := Written(|w.buf|, e.writes).0;
    AlignedWriteAppends(w, w.buf[..n]);
    var w1 := WriteAt(w, w.buf[..n]).(postponedStart := 0);
    hide WriteAt, Written;
    assert w1.file[..|w.file|] == w.file;
    AfterWriteKeepsLaw(w1, n, Total(|w.buf|, e.writes), e, log);
  }

  /** The next byte stops landing at the end exactly when a short write is taken back without O_APPEND. */
  lemma FlushKeepsAlignment(w: Writer, e: Env, log: seq<Byte>)
    requires Law(w, log) && Aligned(w)
    ensures Aligned(Flush(w, e).writer) <==> w.append || !TookBack(w, e)
  {
    var n := Written(|w.buf|, e.writes).0;
    AlignedWriteAppends(w, w.buf[..n]);
    WritesNothing(w);
    hide WriteAt, Written;
    assert n == 0 ==> w.buf[..n] == [];
  }

  lemma WritesNothing(w: Writer)
    ensures WriteAt(w, []) == w
  {
  }

  /**
   From any state that obeys the law, a flush keeps it exactly when the next byte lands at the
   end, or no byte is written, or what was written is taken back.
   */
  lemma FlushKeepsLawExactly(w: Writer, e: Env, log: seq<Byte>)
    requires Law(w, log) && (w.append || w.offset >= |w.file|)
    requires !Flush(w, e).exited
    ensures Law(Flush(w, e).writer, log) <==> Aligned(w) || !Writes(w, e) || TookBack(w, e)
  {
    if Aligned(w) {
      FlushKeepsLaw(w, e, log);
    } else if Writes(w, e) {
      UnalignedFlush(w, e, log);
    } else {
      WritesNothing(w);
      var n := Written(|w.buf|, e.writes).0;
      assert n == 0 ==> w.buf[..n] == [];
    }
  }

  /** Once a short write was taken back on a descriptor without O_APPEND, the next byte that stays breaks the law. */
  lemma UnalignedFlush(w: Writer, e: Env, log: seq<Byte>)
    requires Law(w, log) && !w.append && w.offset > |w.file|
    requires Writes(w, e) && !Flush(w, e).exited
    ensures Law(Flush(w, e).writer, log) <==> TookBack(w, e)
  {
    var n := Written(|w.buf|, e.writes).0;
    var w1 := WriteAt(w, w.buf[..n]);
    var w' := Flush(w, e).writer;
    assert |w1.file| == w.offset + n && w1.file[..|w.file|] == w.file;
    hide WriteAt, Written;
    if TookBack(w, e) {
      assert w'.file == w.file;
    } else {
      assert w'.file == w1.file;
      assert |w'.buf| == |w.buf| - n;
      assert |w'.file + w'.buf| > |log|;
    }
  }

  /** Bytes stay in the file behind a gap of zeros. */
  predicate Gaps(w: Writer, e: Env) {
    !Aligned(w) && Writes(w, e) && !TookBack(w, e)
  }

  /** Any other flush, even one that ends the process, leaves a part of what was fed in the file. */
  lemma FlushWithoutGap(w: Writer, e: Env, log: seq<Byte>)
    requires Law(w, log) && (w.append || w.offset >= |w.file|) && !Gaps(w, e)
    ensures
      var f := Flush(w, e);
      && f.writer.file <= log && f.writer.append == w.append
      && (w.append || f.writer.offset >= |f.writer.file|)
      && (f.exited ==> f.writer.buf != [])
      && (!f.exited ==> Law(f.writer, log))
  {
    var n := Written(|w.buf|, e.writes).0;
    WriteKeepsFront(w, n);
    if Aligned(w) {
      AlignedWriteAppends(w, w.buf[..n]);
      assert w.buf == w.buf[..n] + w.buf[n..];
      assert w.file + w.buf[..n] <= log;
    }
    assert w.file <= log;
    if !Flush(w, e).exited {
      FlushKeepsLawExactly(w, e, log);
    }
    hide WriteAt, Written, Law;
  }

  /** Nothing written from the end of the file on touches what is before. */
  lemma WriteKeepsFront(w: Writer, n: nat)
    requires n <= |w.buf| && (w.append || w.offset >= |w.file|)
    ensures
      var w1 := WriteAt(w, w.buf[..n]);
      && w.file <= w1.file && w1.file[..|w.file|] == w.file && w1 == w.(file := w1.file, offset := w1.offset)
      && (w.append || w1.offset >= |w1.file|) && (n == 0 ==> w1 == w)
  {
  }

  /** What the file holds after a flush that leaves a gap. */
  lemma FlushWithGap(w: Writer, e: Env)
    requires Gaps(w, e) && w.offset >= |w.file|
    ensures
      var n := Written(|w.buf|, e.writes).0;
      && 0 < n <= |w.buf| && w.offset > |w.file|
      && Flush(w, e).writer.file == w.file + Gap(w.offset - |w.file|) + w.buf[..n]
  {
    var n := Written(|w.buf|, e.writes).0;
    var w1 := WriteAt(w, w.buf[..n]);
    assert w1.file == w.file + Gap(w.offset - |w.file|) + w.buf[..n];
    hide WriteAt, Written;
  }

  // ---------------------------------------------------- when the buffer empties

  /** The bytes taken by a sequence of writes that are not refused. */
  function Taken(writes: seq<WriteResult>): nat {
    if writes == [] then 0 else (if writes[0].Wrote? then writes[0].n else 0) + Taken(writes[1..])
  }

  /** Write `k` is the first to be refused, and comes before `len` bytes are taken. */
  predicate RefusedAt(len: nat, writes: seq<WriteResult>, k: nat) {
    && k < |writes| && writes[k].WriteError? && Taken(writes[..k]) < len
    && forall j | 0 <= j < k :: !writes[j].WriteError?
  }

  ghost predicate Refused(len: nat, writes: seq<WriteResult>) {
    exists k: nat :: RefusedAt(len, writes, k)
  }

  lemma RefusedLater(len: nat, writes: seq<WriteResult>, k: nat)
    requires writes != [] && !writes[0].WriteError?
    ensures
      var m := Taken(writes[..1]);
      RefusedAt(len, writes, k + 1) <==> m < len && RefusedAt(len - m, writes[1..], k)
  {
    if k + 1 < |writes| {
      assert writes[..k + 1][1..] == writes[1..][..k];
      assert writes[..1][1..] == [];
      assert forall j | 0 <= j < k :: writes[1..][j] == writes[j + 1];
    }
  }

  /** A write is in full unless it is refused, and then it is what was taken before. */
  lemma {:induction false} WrittenIs(len: nat, writes: seq<WriteResult>)
    ensures Written(len, writes).1 <==> Refused(len, writes)
    ensures forall k: nat | RefusedAt(len, writes, k) :: Written(len, writes).0 == Taken(writes[..k])
    decreases writes
  {
    if len > 0 && writes != [] {
      if writes[0].WriteError? {
        assert RefusedAt(len, writes, 0);
      } else {
        var m := Taken(writes[..1]);
        assert writes[..1][1..] == [];
        var rest := if m < len then len - m else 0;
        WrittenIs(rest, writes[1..]);
        WrittenFirst(len, writes);
        forall k: nat
          ensures RefusedAt(len, writes, k + 1) <==> RefusedAt(rest, writes[1..], k)
          ensures k + 1 < |writes| ==> Taken(writes[..k + 1]) == m + Taken(writes[1..][..k])
        {
          RefusedLater(len, writes, k);
          if k + 1 < |writes| {
            assert writes[..k + 1][1..] == writes[1..][..k];
          }
        }
        RefusedShifts(len, rest, writes);
        hide Written, Taken;
        forall k: nat | RefusedAt(len, writes, k) ensures Written(len, writes).0 == Taken(writes[..k]) {
          assert k > 0 && RefusedAt(rest, writes[1..], k - 1);
        }
      }
    }
  }

  lemma WrittenFirst(len: nat, writes: seq<WriteResult>)
    requires len > 0 && writes != [] && !writes[0].WriteError?
    ensures
      var m := Taken(writes[..1]);
      if m < len then Written(len, writes) == After(m, Written(len - m, writes[1..]))
      else Written(len, writes) == (len, false) && Written(0, writes[1..]) == (0, false)
  {
    assert writes[..1][1..] == [];
  }

  lemma RefusedShifts(len: nat, rest: nat, writes: seq<WriteResult>)
    requires writes != [] && !writes[0].WriteError?
    requires forall k: nat :: RefusedAt(len, writes, k + 1) <==> RefusedAt(rest, writes[1..], k)
    ensures Refused(len, writes) <==> Refused(rest, writes[1..])
  {
    if k: nat :| RefusedAt(len, writes, k) {
      assert RefusedAt(rest, writes[1..], k - 1);
    }
    if k: nat :| RefusedAt(rest, writes[1..], k) {
      assert RefusedAt(len, writes, k + 1);
    }
  }

  /**
   A flush waits for a background fsync, for two seconds at most and never when forced. Otherwise,
   unless a write is refused, the buffer is empty afterwards and the file holds everything fed.
   */
  lemma FlushOutcome(w: Writer, e: Env, log: seq<Byte>)
    requires Law(w, log) && Aligned(w) && w.buf != []
    ensures
      var f, waits := Flush(w, e), e.fsync == Everysec && !e.force && e.syncInProgress
                                   && (w.postponedStart == 0 || e.mstime < w.postponedStart + 2000);
      if waits then
        f == Flushed(w.(postponedStart := if w.postponedStart == 0 then e.mstime else w.postponedStart), false)
      else if !Refused(|w.buf|, e.writes) then
        && !f.exited && f.writer.buf == [] && f.writer.file == log
        && f.writer.writeOk && f.writer.postponedStart == 0
      else
        && (f.exited <==> e.fsync == Always)
        && (!f.exited ==> f.writer.buf != [] && !f.writer.writeOk && f.writer.postponedStart == 0)
  {
    WrittenIs(|w.buf|, e.writes);
    var n := Written(|w.buf|, e.writes).0;
    AlignedWriteAppends(w, w.buf[..n]);
    assert n == |w.buf| ==> w.buf[..n] == w.buf;
    if Refused(|w.buf|, e.writes) {
      var k: nat :| RefusedAt(|w.buf|, e.writes, k);
      assert n < |w.buf|;
    }
    hide WriteAt, Written, Refused;
  }

  // ---------------------------------------------------------------------- runs

  datatype Step = FeedStep(bytes: seq<Byte>) | FlushStep(env: Env)

  /** The state after a run, or `exited` when a flush gave up. */
  function Run(w: Writer, steps: seq<Step>): Flushed
    decreases steps
  {
    if steps == [] then Flushed(w, false)
    else
      match steps[0]
      case FeedStep(bytes) => Run(w.(buf := w.buf + bytes), steps[1..])
      case FlushStep(e) =>
        var f := Flush(w, e);
        if f.exited then f else Run(f.writer, steps[1..])
  }

  function FedBy(steps: seq<Step>): seq<Byte> {
    if steps == [] then []
    else (if steps[0].FeedStep? then steps[0].bytes else []) + FedBy(steps[1..])
  }

  /** No flush of the run takes back a short write. */
  predicate NeverTakesBack(w: Writer, steps: seq<Step>)
    decreases steps
  {
    steps == [] ||
    match steps[0]
    case FeedStep(bytes) => NeverTakesBack(w.(buf := w.buf + bytes), steps[1..])
    case FlushStep(e) => !TookBack(w, e) && NeverTakesBack(Flush(w, e).writer, steps[1..])
  }

  /**
   Over any run that does not exit, the file followed by the buffer is everything fed since
   the file was opened, if the file was opened with O_APPEND or no short write was taken back.
   */
  lemma {:induction false} RunKeepsLaw(w: Writer, steps: seq<Step>, log: seq<Byte>)
    requires Law(w, log) && Aligned(w)
    requires w.append || NeverTakesBack(w, steps)
    requires !Run(w, steps).exited
    ensures Law(Run(w, steps).writer, log + FedBy(steps))
    decreases steps
  {
    hide Flush, TookBack, Law, Aligned;
    if steps == [] {
      assert log + FedBy(steps) == log;
    } else {
      match steps[0]
      case FeedStep(bytes) =>
        FeedKeepsLaw(w, bytes, log);
        RunKeepsLaw(w.(buf := w.buf + bytes), steps[1..], log + bytes);
        assert log + bytes + FedBy(steps[1..]) == log + FedBy(steps);
      case FlushStep(e) =>
        FlushKeepsLaw(w, e, log);
        FlushKeepsAlignment(w, e, log);
        FlushKeepsMode(w, e);
        RunKeepsLaw(Flush(w, e).writer, steps[1..], log);
        assert log + FedBy(steps) == log + FedBy(steps[1..]);
    }
  }

  lemma FeedKeepsLaw(w: Writer, bytes: seq<Byte>, log: seq<Byte>)
    requires Law(w, log) && Aligned(w)
    ensures Law(w.(buf := w.buf + bytes), log + bytes) && Aligned(w.(buf := w.buf + bytes))
  {
    assert w.file + (w.buf + bytes) == w.file + w.buf + bytes;
  }

  lemma FlushKeepsMode(w: Writer, e: Env)
    ensures Flush(w, e).writer.append == w.append
  {
  }

  /** A fresh file: after any such run it holds a prefix of what was fed and the buffer the rest. */
  lemma RunFromOpen(contents: seq<Byte>, append: bool, steps: seq<Step>)
    requires append || NeverTakesBack(Opened(contents, append), steps)
    requires !Run(Opened(contents, append), steps).exited
    ensures var w := Run(Opened(contents, append), steps).writer;
      w.file + w.buf == contents + FedBy(steps) && w.lastIncrSize == |w.file|
  {
    assert contents + [] == contents;
    RunKeepsLaw(Opened(contents, append), steps, contents);
  }

  /**
   Files of a background rewrite are opened without O_APPEND. There a short write taken back
   and then retried leaves a zero byte in the log.
   */
  lemma RetryWithoutAppendLeavesGap()
    ensures
      var shortWrite := Env(false, Everysec, false, 0, [Wrote(1), WriteError], true);
      var retry := Env(false, Everysec, false, 0, [], true);
      var run := Run(Opened([], false), [FeedStep([STAR, DIGIT0]), FlushStep(shortWrite), FlushStep(retry)]);
      !run.exited && run.writer.file == [0, STAR, DIGIT0]
  {
    var shortWrite := Env(false, Everysec, false, 0, [Wrote(1), WriteError], true);
    var retry := Env(false, Everysec, false, 0, [], true);
    var s0, s1, s2 := FeedStep([STAR, DIGIT0]), FlushStep(shortWrite), FlushStep(retry);
    var w0 := Opened([], false);
    var w1 := w0.(buf := [STAR, DIGIT0]);
    assert w0.buf + [STAR, DIGIT0] == w1.buf;
    assert shortWrite.writes[1..] == [WriteError];
    assert Written(1, [WriteError]) == (0, true);
    assert Written(2, shortWrite.writes) == (1, true);
    var w2 := Flush(w1, shortWrite).writer;
    assert w2 == w1.(offset := 1, writeOk := false);
    assert Written(2, []) == (2, false);
    var w3 := Flush(w2, retry).writer;
    assert w3.file == [0, STAR, DIGIT0];
    assert [s0, s1, s2][1..] == [s1, s2] && [s1, s2][1..] == [s2] && [s2][1..] == [];
    assert Run(w2, [s2]) == Flushed(w3, false);
    assert Run(w1, [s1, s2]) == Run(w2, [s2]);
  }
}
