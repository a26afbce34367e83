/**
 * The pipe-drain loop of ReadPipeThread: while the reader is active it peeks
 * at the pipe, grows the heap buffer DataPt by every reported amount
 * (total_bytes) and reads into it behind the bytes already read (offset).
 *
 * The pipe is a finite list of poll events; the end of the list stands for the
 * moment the launcher clears the active flag.
 */
module PipeReader {

  newtype byte = b: int | 0 <= b < 256

  /** One byte of heap memory: g_malloc and g_realloc hand out uninitialised bytes. */
  datatype Cell = Uninit | Byte(b: byte)

  /** What ReadFile reports: success, and the bytes it transferred (dwRead of them). */
  datatype ReadOutcome = ReadOutcome(ok: bool, data: seq<byte>)

  /** One pass of the loop as the pipe answers it: PeekNamedPipe's result and bytes_avail, then ReadFile's outcome. */
  datatype PollEvent = PollEvent(peekOk: bool, avail: nat, read: ReadOutcome) {

    /** ReadFile never transfers more than the bytes_avail it is asked for. */
    predicate Valid() {
      |read.data| <= avail
    }

    /** The peek succeeded and reported data, so the loop grows the buffer and reads. */
    predicate Available() {
      peekOk && avail > 0
    }

    /** The bytes this pass commits behind offset. */
    function Transferred(): seq<byte> {
      if Available() && read.ok then read.data else []
    }
  }

  predicate ValidEvents(events: seq<PollEvent>) {
    forall i :: 0 <= i < |events| ==> events[i].Valid()
  }

  /** DataPt: NULL until the first allocation, then a heap block. */
  datatype Buffer = Null | Heap(cells: seq<Cell>)

  function Cells(b: Buffer): seq<Cell> {
    if b.Null? then [] else b.cells
  }

  /** The reader's state: DataPt, total_bytes and offset. */
  datatype Capture = Capture(dataPt: Buffer, totalBytes: nat, offset: nat)

  function Bytes(data: seq<byte>): seq<Cell> {
    seq(|data|, i requires 0 <= i < |data| => Byte(data[i]))
  }

  /** What the loop keeps: DataPt is allocated exactly once something was reported, it holds total_bytes cells,
      the first offset of them hold bytes read and the rest are still uninitialised. */
  predicate WellFormed(c: Capture) {
    (c.dataPt.Null? <==> c.totalBytes == 0) &&
    |Cells(c.dataPt)| == c.totalBytes &&
    c.offset <= c.totalBytes &&
    (forall i :: 0 <= i < c.offset ==> Cells(c.dataPt)[i].Byte?) &&
    (forall i :: c.offset <= i < c.totalBytes ==> Cells(c.dataPt)[i] == Uninit)
  }

  /** g_malloc (from NULL) or g_realloc to `size` cells. */
  function Realloc(b: Buffer, size: nat): (r: seq<Cell>)
    requires |Cells(b)| <= size
    ensures |r| == size && r[..|Cells(b)|] == Cells(b)
    ensures forall i :: |Cells(b)| <= i < size ==> r[i] == Uninit
  {
    Cells(b) + seq(size - |Cells(b)|, _ => Uninit)
  }

  /** ReadFile's transfer into DataPt + at. */
  function Store(cells: seq<Cell>, at: nat, data: seq<byte>): seq<Cell>
    requires at + |data| <= |cells|
  {
    cells[..at] + Bytes(data) + cells[at + |data|..]
  }

  /** total_bytes += bytes_avail and DataPt grown to total_bytes cells. */
  function Grow(c: Capture, avail: nat): (r: Capture)
    requires WellFormed(c) && avail > 0
    ensures WellFormed(r) && r.dataPt.Heap?
    ensures r.totalBytes == c.totalBytes + avail && r.offset == c.offset
    ensures Cells(r.dataPt)[..c.offset] == Cells(c.dataPt)[..c.offset]
  {
    var total := c.totalBytes + avail;
    var grown := Realloc(c.dataPt, total);
    assert grown[..c.offset] == Cells(c.dataPt)[..c.offset];
    Capture(Heap(grown), total, c.offset)
  }

  /** ReadFile's dwRead bytes stored at offset, and offset += dwRead. */
  function Commit(c: Capture, data: seq<byte>): (r: Capture)
    requires WellFormed(c) && c.offset + |data| <= c.totalBytes
    ensures WellFormed(r) && r.dataPt.Heap? == c.dataPt.Heap?
    ensures r.totalBytes == c.totalBytes && r.offset == c.offset + |data|
    ensures Cells(r.dataPt)[..c.offset] == Cells(c.dataPt)[..c.offset]
    ensures Cells(r.dataPt)[c.offset..r.offset] == Bytes(data)
  {
    if |data| == 0 then c
    else
      var stored := Store(Cells(c.dataPt), c.offset, data);
      assert stored[..c.offset] == Cells(c.dataPt)[..c.offset];
      assert stored[c.offset..c.offset + |data|] == Bytes(data);
      Capture(Heap(stored), c.totalBytes, c.offset + |data|)
  }

  /** One pass of the loop body. */
  function Step(c: Capture, e: PollEvent): (r: Capture)
    requires WellFormed(c) && e.Valid()
    ensures WellFormed(r)
    ensures !e.Available() ==> r == c
    ensures e.Available() ==> r.totalBytes == c.totalBytes + e.avail && r.dataPt.Heap?
    ensures r.offset == c.offset + |e.Transferred()|
    ensures Cells(r.dataPt)[..c.offset] == Cells(c.dataPt)[..c.offset]
    ensures Cells(r.dataPt)[c.offset..r.offset] == Bytes(e.Transferred())
  {
    if !e.peekOk || e.avail == 0 then c
    else
      var grown := Grow(c, e.avail);
      if !e.read.ok || |e.read.data| == 0 then grown
      else Commit(grown, e.read.data)
  }

  /** The state after the loop has consumed every event. */
  function Drain(events: seq<PollEvent>): (c: Capture)
    requires ValidEvents(events)
    ensures WellFormed(c)
  {
    if |events| == 0 then Capture(Null, 0, 0)
    else Step(Drain(events[..|events| - 1]), events[|events| - 1])
  }

  /** Reference: the sum of every bytes_avail a successful peek reported. */
  function AvailSum(events: seq<PollEvent>): nat {
    if |events| == 0 then 0
    else
      var e := events[|events| - 1];
      AvailSum(events[..|events| - 1]) + (if e.Available() then e.avail else 0)
  }

  /** Reference: the in-order concatenation of the data every successful read transferred. */
  function ReadBytes(events: seq<PollEvent>): seq<byte> {
    if |events| == 0 then []
    else ReadBytes(events[..|events| - 1]) + events[|events| - 1].Transferred()
  }

  lemma BytesAppend(a: seq<byte>, b: seq<byte>)
    ensures Bytes(a + b) == Bytes(a) + Bytes(b)
  {
  }

  /** total_bytes is the sum of what was reported, offset the count of what was read,
      and the buffer starts with exactly the bytes read, in order. */
  lemma {:induction false} DrainCapture(events: seq<PollEvent>)
    requires ValidEvents(events)
    ensures Drain(events).totalBytes == AvailSum(events)
    ensures Drain(events).offset == |ReadBytes(events)| <= AvailSum(events)
    ensures Cells(Drain(events).dataPt)[..Drain(events).offset] == Bytes(ReadBytes(events))
  {
    if |events| > 0 {
      var prefix, e := events[..|events| - 1], events[|events| - 1];
      DrainCapture(prefix);
      var c, r := Drain(prefix), Drain(events);
      BytesAppend(ReadBytes(prefix), e.Transferred());
      calc {
        Cells(r.dataPt)[..r.offset];
        Cells(r.dataPt)[..c.offset] + Cells(r.dataPt)[c.offset..r.offset];
        Cells(c.dataPt)[..c.offset] + Bytes(e.Transferred());
      }
    }
  }

  /** DataPt is still NULL after the loop exactly when no peek ever reported data. */
  lemma NullUntilDataReported(events: seq<PollEvent>)
    requires ValidEvents(events)
    ensures Drain(events).dataPt.Null? <==> AvailSum(events) == 0
  {
    DrainCapture(events);
  }

  /** The final write as the source does it: a NUL at index total_bytes of DataPt. */
  datatype Termination = NullDereference | OutOfBounds(index: nat, size: nat) | Terminated(cells: seq<Cell>)

  function TerminateAsWritten(c: Capture): (t: Termination)
    ensures t.NullDereference? <==> c.dataPt.Null?
    ensures t.OutOfBounds? ==> t.index == c.totalBytes && t.size == |Cells(c.dataPt)| <= t.index
    ensures t.Terminated? ==>
      c.totalBytes < |t.cells| == |Cells(c.dataPt)| && t.cells[c.totalBytes] == Byte(0) &&
      forall i :: 0 <= i < |t.cells| && i != c.totalBytes ==> t.cells[i] == Cells(c.dataPt)[i]
  {
    if c.dataPt.Null? then NullDereference
    else if c.totalBytes < |c.dataPt.cells| then Terminated(c.dataPt.cells[c.totalBytes := Byte(0)])
    else OutOfBounds(c.totalBytes, |c.dataPt.cells|)
  }

  /** The source's terminator never lands inside the buffer: with no output it writes through NULL,
      otherwise one cell past the total_bytes cells allocated. */
  lemma TerminatorAsWrittenNeverFits(events: seq<PollEvent>)
    requires ValidEvents(events)
    ensures TerminateAsWritten(Drain(events)) ==
      if AvailSum(events) == 0 then NullDereference else OutOfBounds(AvailSum(events), AvailSum(events))
  {
    DrainCapture(events);
  }

  /** When a read fails or comes up short, the cells between the bytes read and index total_bytes,
      where the source puts its NUL, are uninitialised. */
  lemma ShortReadLeavesGap(events: seq<PollEvent>)
    requires ValidEvents(events)
    requires |ReadBytes(events)| < AvailSum(events)
    ensures |Cells(Drain(events).dataPt)| == AvailSum(events)
    ensures forall i :: |ReadBytes(events)| <= i < AvailSum(events) ==> Cells(Drain(events).dataPt)[i] == Uninit
  {
    DrainCapture(events);
  }

  lemma ShortReadExample()
    ensures var events := [PollEvent(true, 4, ReadOutcome(true, [104, 105]))];
      ReadBytes(events) == [104, 105] && AvailSum(events) == 4 &&
      Cells(Drain(events).dataPt) == [Byte(104), Byte(105), Uninit, Uninit]
  {
    var events := [PollEvent(true, 4, ReadOutcome(true, [104, 105]))];
    assert events[..0] == [];
    assert Realloc(Null, 4) == [Uninit, Uninit, Uninit, Uninit];
  }

  /** The corrected final step: g_realloc(DataPt, total_bytes + 1), which allocates when DataPt is NULL,
      then a NUL right behind the bytes read. */
  function Terminate(c: Capture): (out: seq<Cell>)
    requires WellFormed(c)
    ensures |out| == c.totalBytes + 1
    ensures out[..c.offset] == Cells(c.dataPt)[..c.offset] && out[c.offset] == Byte(0)
  {
    Realloc(c.dataPt, c.totalBytes + 1)[c.offset := Byte(0)]
  }

  /** The finished capture: the bytes read, in order, then a NUL, inside a buffer of total_bytes + 1 cells;
      with no output it is a valid empty string. */
  lemma {:induction false} TerminatedCapture(events: seq<PollEvent>)
    requires ValidEvents(events)
    ensures var out, n := Terminate(Drain(events)), |ReadBytes(events)|;
      |out| == AvailSum(events) + 1 && n < |out| &&
      out[..n] == Bytes(ReadBytes(events)) && out[n] == Byte(0)
    ensures AvailSum(events) == 0 ==> Terminate(Drain(events)) == [Byte(0)]
  {
    DrainCapture(events);
  }

  /** g_malloc(size): a fresh block of uninitialised cells. */
  method GMalloc(size: nat) returns (mem: array<Cell>)
    ensures fresh(mem) && mem[..] == Realloc(Null, size)
  {
    mem := new Cell[size](_ => Uninit);
  }

  /** g_realloc(mem, size) to a size at least the old one: the old cells are copied, the new ones uninitialised. */
  method GRealloc(mem: array<Cell>, size: nat) returns (moved: array<Cell>)
    requires mem.Length <= size
    ensures fresh(moved) && moved[..] == Realloc(Heap(mem[..]), size)
  {
    moved := new Cell[size](_ => Uninit);
    forall i | 0 <= i < mem.Length {
      moved[i] := mem[i];
    }
  }

  /** ReadFile(mem + at, toRead): reports `outcome`; on success its data is stored at `at` and dwRead is its length. */
  method ReadFile(mem: array<Cell>, at: nat, toRead: nat, outcome: ReadOutcome) returns (ok: bool, dwRead: nat)
    requires at + toRead <= mem.Length && |outcome.data| <= toRead
    modifies mem
    ensures ok == outcome.ok && dwRead == (if ok then |outcome.data| else 0)
    ensures mem[..] == if ok then Store(old(mem[..]), at, outcome.data) else old(mem[..])
  {
    ok := outcome.ok;
    dwRead := 0;
    if ok {
      forall i | 0 <= i < |outcome.data| {
        mem[at + i] := Byte(outcome.data[i]);
      }
      dwRead := |outcome.data|;
    }
  }

  ghost function View(dataPt: array?<Cell>, totalBytes: nat, offset: nat): Capture
    reads dataPt
  {
    Capture(if dataPt == null then Null else Heap(dataPt[..]), totalBytes, offset)
  }

  /** Lines 141-145: total_bytes += bytes_avail, then g_malloc or g_realloc of DataPt to total_bytes cells. */
  method GrowBuffer(dataPt: array?<Cell>, totalBytes: nat, offset: nat, bytesAvail: nat)
    returns (dataPt': array<Cell>, totalBytes': nat)
    requires WellFormed(View(dataPt, totalBytes, offset)) && bytesAvail > 0
    ensures fresh(dataPt')
    ensures View(dataPt', totalBytes', offset) == Grow(View(dataPt, totalBytes, offset), bytesAvail)
  {
    totalBytes' := totalBytes + bytesAvail;
    if dataPt == null {
      dataPt' := GMalloc(totalBytes');
    } else {
      dataPt' := GRealloc(dataPt, totalBytes');
    }
  }

  /** Lines 148-151: ReadFile into DataPt + offset; offset += dwRead unless the read failed or moved nothing. */
  method ReadAndAdvance(dataPt: array<Cell>, totalBytes: nat, offset: nat, bytesAvail: nat, outcome: ReadOutcome)
    returns (offset': nat)
    requires WellFormed(View(dataPt, totalBytes, offset))
    requires offset + bytesAvail <= totalBytes && |outcome.data| <= bytesAvail
    modifies dataPt
    ensures View(dataPt, totalBytes, offset') ==
      if outcome.ok then Commit(old(View(dataPt, totalBytes, offset)), outcome.data)
      else old(View(dataPt, totalBytes, offset))
  {
    ghost var c := View(dataPt, totalBytes, offset);
    offset' := offset;
    var ok, dwRead := ReadFile(dataPt, offset, bytesAvail, outcome);
    if !ok || dwRead == 0 {
      return;
    }
    offset' := offset + dwRead;
    assert dataPt[..] == Store(Cells(c.dataPt), offset, outcome.data);
  }

  /** One pass of the while body on DataPt, total_bytes and offset: peek, grow, read, advance. */
  method PollOnce(dataPt: array?<Cell>, totalBytes: nat, offset: nat, e: PollEvent)
    returns (dataPt': array?<Cell>, totalBytes': nat, offset': nat)
    requires WellFormed(View(dataPt, totalBytes, offset)) && e.Valid()
    ensures View(dataPt', totalBytes', offset') == Step(View(dataPt, totalBytes, offset), e)
  {
    ghost var c := View(dataPt, totalBytes, offset);
    dataPt', totalBytes', offset' := dataPt, totalBytes, offset;
    var bytesAvail := e.avail;
    if !e.peekOk || bytesAvail == 0 {
      return;
    }
    var grownPt;
    grownPt, totalBytes' := GrowBuffer(dataPt, totalBytes, offset, bytesAvail);
    offset' := ReadAndAdvance(grownPt, totalBytes', offset, bytesAvail, e.read);
    dataPt' := grownPt;
    assert Step(c, e) == if e.read.ok then Commit(Grow(c, bytesAvail), e.read.data) else Grow(c, bytesAvail);
  }

  /** The corrected final step on DataPt: grow to total_bytes + 1 cells and store the NUL at offset. */
  method TerminateBuffer(dataPt: array?<Cell>, totalBytes: nat, offset: nat) returns (captured: seq<Cell>)
    requires WellFormed(View(dataPt, totalBytes, offset))
    ensures captured == Terminate(View(dataPt, totalBytes, offset))
  {
    var mem: array<Cell>;
    if dataPt == null {
      mem := GMalloc(totalBytes + 1);
    } else {
      mem := GRealloc(dataPt, totalBytes + 1);
    }
    mem[offset] := Byte(0);
    captured := mem[..];
  }

  /** ReadPipeThread with the corrected terminator: it returns DataPt's final cells and offset,
      the count of bytes read. */
  method ReadPipeThread(events: seq<PollEvent>) returns (captured: seq<Cell>, length: nat)
    requires ValidEvents(events)
    ensures captured == Terminate(Drain(events)) && length == Drain(events).offset
    ensures length == |ReadBytes(events)| && |captured| == AvailSum(events) + 1
    ensures captured[..length] == Bytes(ReadBytes(events)) && captured[length] == Byte(0)
  {
    var dataPt: array?<Cell> := null;
    var totalBytes: nat := 0;
    var offset: nat := 0;
    var i := 0;
    while i < |events|
      invariant 0 <= i <= |events|
      invariant ValidEvents(events[..i])
      invariant View(dataPt, totalBytes, offset) == Drain(events[..i])
    {
      assert events[..i + 1][..i] == events[..i];
      assert ValidEvents(events[..i + 1]);
      dataPt, totalBytes, offset := PollOnce(dataPt, totalBytes, offset, events[i]);
      i := i + 1;
    }
    assert events[..|events|] == events;
    captured := TerminateBuffer(dataPt, totalBytes, offset);
    length := offset;
    DrainCapture(events);
    TerminatedCapture(events);
  }
}
