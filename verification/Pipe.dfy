// Pipes (kernel/fs/fd.c): one linear buffer, filled once by the write end and drained once by the read end. Each end
// keeps its position in its own file handle; the size of the shared stat record says how much has been written.
module Pipes {
  const PIPE_BUFFER_SIZE: nat := 0x10000

  // ----- the queue the two ends present -----

  // What was accepted, how much of it was read, and whether the write end's lock is still held: pipe_write leaves it
  // held when it returns -1.
  datatype Queue = Queue(accepted: seq<bv8>, position: nat, held: bool)

  datatype Call = ReadCall(cnt: nat) | WriteCall(data: seq<bv8>)

  predicate Sane(q: Queue) {
    q.position <= |q.accepted| <= PIPE_BUFFER_SIZE
  }

  // A write is taken whole or not at all.
  predicate Fits(q: Queue, data: seq<bv8>) {
    |q.accepted| < PIPE_BUFFER_SIZE && |q.accepted| + |data| <= PIPE_BUFFER_SIZE
  }

  function Read(q: Queue, cnt: nat): seq<bv8>
    requires Sane(q)
  {
    if q.position + cnt > |q.accepted| then q.accepted[q.position..] else q.accepted[q.position..q.position + cnt]
  }

  function Next(q: Queue, c: Call): Queue
    requires Sane(q)
  {
    match c
    case ReadCall(cnt) => q.(position := q.position + |Read(q, cnt)|)
    case WriteCall(data) =>
      if |q.accepted| >= PIPE_BUFFER_SIZE then q.(held := true)
      else if Fits(q, data) then q.(accepted := q.accepted + data)
      else q
  }

  // ----- runs of calls on the two ends, interleaved in any way -----

  // A write needs the lock.
  predicate Enabled(q: Queue, c: Call) {
    Sane(q) && (c.WriteCall? ==> !q.held)
  }

  ghost predicate IsRun(run: seq<Queue>, calls: seq<Call>) {
    && |run| == |calls| + 1
    && run[0] == Queue([], 0, false)
    && forall i | 0 <= i < |calls| :: StepAt(run, calls, i)
  }

  ghost predicate StepAt(run: seq<Queue>, calls: seq<Call>, i: nat)
    requires |run| == |calls| + 1 && i < |calls|
  {
    Enabled(run[i], calls[i]) && run[i + 1] == Next(run[i], calls[i])
  }

  // The bytes the first n calls took out, in order.
  ghost function Taken(run: seq<Queue>, calls: seq<Call>, n: nat): seq<bv8>
    requires IsRun(run, calls) && n <= |calls|
  {
    if n == 0 then []
    else
      var c := calls[n - 1];
      assert StepAt(run, calls, n - 1);
      Taken(run, calls, n - 1) + if c.ReadCall? then Read(run[n - 1], c.cnt) else []
  }

  // The data of the writes among the first n calls that fitted, in order.
  ghost function Given(run: seq<Queue>, calls: seq<Call>, n: nat): seq<bv8>
    requires IsRun(run, calls) && n <= |calls|
  {
    if n == 0 then []
    else
      var c := calls[n - 1];
      Given(run, calls, n - 1) + if c.WriteCall? && Fits(run[n - 1], c.data) then c.data else []
  }

  lemma TakeMore<T>(s: seq<T>, i: nat, j: nat)
    requires i <= j <= |s|
    ensures s[..i] + s[i..j] == s[..j]
  {}

  lemma TakeSame<T>(s: seq<T>, t: seq<T>, i: nat)
    requires i <= |s|
    ensures (s + t)[..i] == s[..i]
  {}

  lemma TakeThenSlice<T>(s: seq<T>, n: nat, i: nat, j: nat)
    requires i <= j <= n <= |s|
    ensures s[..n][i..j] == s[i..j]
  {}

  // A call takes out the next bytes, and what was taken before stays the start of what is accepted.
  lemma NextStart(q: Queue, c: Call)
    requires Enabled(q, c)
    ensures var q' := Next(q, c);
      && Sane(q')
      && q'.accepted[..q'.position] == q.accepted[..q.position] + (if c.ReadCall? then Read(q, c.cnt) else [])
      && q'.accepted == q.accepted + (if c.WriteCall? && Fits(q, c.data) then c.data else [])
  {
    match c
    case ReadCall(cnt) =>
      TakeMore(q.accepted, q.position, Next(q, c).position);
    case WriteCall(data) =>
      TakeSame(q.accepted, data, q.position);
  }

  // First in, first out, over every interleaving: what has been read is exactly the start of what has been accepted.
  lemma {:induction false} Fifo(run: seq<Queue>, calls: seq<Call>, n: nat)
    requires IsRun(run, calls) && n <= |calls|
    ensures Sane(run[n]) && Given(run, calls, n) == run[n].accepted
    ensures Taken(run, calls, n) == Given(run, calls, n)[..run[n].position]
  {
    if n > 0 {
      Fifo(run, calls, n - 1);
      assert StepAt(run, calls, n - 1);
      NextStart(run[n - 1], calls[n - 1]);
    }
  }

  function Min(a: nat, b: nat): nat { if a <= b then a else b }

  // A read returns what is there, up to what was asked for.
  lemma ReadLength(q: Queue, cnt: nat)
    requires Sane(q)
    ensures |Read(q, cnt)| == Min(cnt, |q.accepted| - q.position)
    ensures forall i | 0 <= i < |Read(q, cnt)| :: Read(q, cnt)[i] == q.accepted[q.position + i]
  {}

  // Over every run: each read takes the next bytes, as many as it asks for and there are, and gives none; a write that
  // still fits is taken whole and any other not at all; a write takes nothing out.
  lemma EachCall(run: seq<Queue>, calls: seq<Call>, n: nat)
    requires IsRun(run, calls) && n < |calls|
    ensures var taken, given := Taken(run, calls, n), Given(run, calls, n);
      && |taken| <= |given|
      && match calls[n]
         case ReadCall(cnt) =>
           var m := Min(cnt, |given| - |taken|);
           Taken(run, calls, n + 1) == given[..|taken| + m] && Given(run, calls, n + 1) == given
         case WriteCall(data) =>
           && Taken(run, calls, n + 1) == taken
           && Given(run, calls, n + 1) ==
              if |given| < 0x10000 && |given| + |data| <= 0x10000 then given + data else given
  {
    Fifo(run, calls, n);
    Fifo(run, calls, n + 1);
    assert StepAt(run, calls, n);
    if calls[n].ReadCall? { ReadLength(run[n], calls[n].cnt); }
  }

  // Nothing accepted is lost: a read that asks for enough completes the transfer.
  lemma Drained(run: seq<Queue>, calls: seq<Call>, n: nat)
    requires IsRun(run, calls) && n < |calls| && calls[n].ReadCall?
    requires run[n].position + calls[n].cnt >= |Given(run, calls, n)|
    ensures Taken(run, calls, n + 1) == Given(run, calls, n + 1) == Given(run, calls, n)
  {
    Fifo(run, calls, n);
    Fifo(run, calls, n + 1);
  }

  // The lock stays held only after a write to a full buffer.
  lemma {:induction false} HeldIsFull(run: seq<Queue>, calls: seq<Call>, n: nat)
    requires IsRun(run, calls) && n <= |calls|
    ensures Sane(run[n]) && (run[n].held ==> |run[n].accepted| == PIPE_BUFFER_SIZE)
  {
    if n > 0 {
      HeldIsFull(run, calls, n - 1);
      assert StepAt(run, calls, n - 1);
      NextStart(run[n - 1], calls[n - 1]);
    }
  }

  lemma {:induction false} HeldStays(run: seq<Queue>, calls: seq<Call>, n: nat, m: nat)
    requires IsRun(run, calls) && n <= m <= |calls| && run[n].held
    ensures run[m].held && run[m].accepted == run[n].accepted && (n < m ==> calls[m - 1].ReadCall?)
    decreases m
  {
    if n < m {
      HeldStays(run, calls, n, m - 1);
      assert StepAt(run, calls, m - 1);
    }
  }

  // The buffer is not reused: a pipe carries PIPE_BUFFER_SIZE bytes in its life. The first write after that returns
  // -1, and the lock it keeps means no write follows it.
  lemma WritesEnd(run: seq<Queue>, calls: seq<Call>, n: nat, m: nat)
    requires IsRun(run, calls) && n <= m <= |calls|
    ensures run[n].held ==> |Given(run, calls, n)| == PIPE_BUFFER_SIZE
    ensures run[n].held ==> Given(run, calls, m) == Given(run, calls, n) && run[m].held
    ensures run[n].held && n < m ==> calls[m - 1].ReadCall?
  {
    HeldIsFull(run, calls, n);
    Fifo(run, calls, n);
    Fifo(run, calls, m);
    if run[n].held { HeldStays(run, calls, n, m); }
  }

  // ----- the code -----

  method Memcpy8(dest: array<bv8>, at: nat, src: array<bv8>, from: nat, n: nat)
    requires dest != src && at + n <= dest.Length && from + n <= src.Length
    modifies dest
    ensures dest[..] == old(dest[..at] + src[from..from + n] + dest[at + n..])
  {
    for i := 0 to n
      invariant dest[..at + i] == old(dest[..at] + src[from..from + i])
      invariant dest[at + i..] == old(dest[at + i..])
    {
      dest[at + i] := src[from + i];
      assert dest[at + i..][1..] == dest[at + i + 1..];
    }
    assert dest[..] == dest[..at + n] + dest[at + n..];
  }

  class Pipe {
    const buffer: array<bv8>
    var readPos: nat
    var writePos: nat
    var size: nat
    var locked: bool

    ghost predicate Valid()
      reads this
    {
      buffer.Length == PIPE_BUFFER_SIZE && readPos <= size == writePos <= PIPE_BUFFER_SIZE
    }

    ghost function Contents(): (q: Queue)
      requires Valid()
      reads this, buffer
      ensures Sane(q)
    {
      Queue(buffer[..size], readPos, locked)
    }

    // The buffer, the two handles and the stat record of syscall_pipe.
    constructor ()
      ensures Valid() && fresh(buffer) && Contents() == Queue([], 0, false)
    {
      buffer := new bv8[PIPE_BUFFER_SIZE];
      readPos, writePos, size, locked := 0, 0, 0, false;
    }

    // pipe_read; `waits` is the guard of its event_wait.
    method PipeRead(offset: nat, cnt: nat, out: array<bv8>) returns (n: nat, waits: bool)
      requires Valid() && offset == readPos && out != buffer && cnt <= out.Length
      modifies out
      ensures n <= cnt && out[..n] == Read(Contents(), cnt) && out[n..] == old(out[n..])
      ensures n == Min(cnt, size - offset) && out[..n] == buffer[offset..offset + n]
      ensures !waits
    {
      waits := offset > size;
      n := if offset + cnt > size then size - offset else cnt;
      Memcpy8(out, 0, buffer, offset, n);
      TakeThenSlice(buffer[..], size, offset, offset + n);
      assert buffer[..size] == buffer[..][..size] && buffer[offset..offset + n] == buffer[..][offset..offset + n];
    }

    // pipe_write; `fires` is the guard of its event_fire.
    method PipeWrite(offset: nat, cnt: nat, data: array<bv8>) returns (n: int, fires: bool)
      requires Valid() && !locked && offset == writePos && data != buffer && cnt == data.Length
      modifies buffer, this`size, this`locked
      ensures n == if offset >= PIPE_BUFFER_SIZE then -1 else if offset + cnt > PIPE_BUFFER_SIZE then 0 else cnt
      ensures size == offset + (if n == -1 then 0 else n) && locked == (n == -1) && !fires
      ensures buffer[..offset] == old(buffer[..offset]) && (n == cnt ==>
        buffer[..size] == old(buffer[..offset]) + data[..])
    {
      if offset >= PIPE_BUFFER_SIZE {
        locked := true;
        return -1, false;
      }
      var c := if offset + cnt > PIPE_BUFFER_SIZE then size - offset else cnt;
      fires := offset > size;
      if offset + c > size {
        size := size + (offset + c - size);
      }
      Memcpy8(buffer, offset, data, 0, c);
      n := c;
    }

    // fd_read on the read end.
    method FdRead(count: nat, out: array<bv8>) returns (n: nat)
      requires Valid() && out != buffer && count <= out.Length
      modifies out, this`readPos
      ensures Valid() && n <= count && out[..n] == Read(old(Contents()), count) && out[n..] == old(out[n..])
      ensures n == Min(count, size - old(readPos)) && readPos == old(readPos) + n
      ensures out[..n] == buffer[old(readPos)..old(readPos) + n]
      ensures Contents() == Next(old(Contents()), ReadCall(count))
    {
      var waits;
      n, waits := PipeRead(readPos, count, out);
      readPos := readPos + n;
    }

    // fd_write on the write end.
    method FdWrite(data: array<bv8>) returns (n: int)
      requires Valid() && !locked && data != buffer
      modifies buffer, this`writePos, this`size, this`locked
      ensures Valid() && Contents() == Next(old(Contents()), WriteCall(data[..]))
      ensures n == if old(size) == 0x10000 then -1 else if old(size) + data.Length <= 0x10000 then data.Length else 0
      ensures n > 0 ==> buffer[..size] == old(buffer[..size]) + data[..]
      ensures n <= 0 ==> size == old(size) && buffer[..size] == old(buffer[..size])
      ensures locked == (n == -1) && writePos == size
    {
      var fires;
      n, fires := PipeWrite(writePos, data.Length, data);
      if n != -1 {
        writePos := writePos + n;
      }
    }
  }
}
