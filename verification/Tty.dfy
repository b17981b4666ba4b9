/** The terminal as written: an edit buffer and a ring of eight fixed-size lines
    (drivers/tty/tty.c). It behaves as the LineDiscipline. */
module Tty {
  import opened Errno
  import L = LineDiscipline
  import Ring
  import Scheduler
  import KernelScheduler

  class Terminal {
    const kernel: KernelScheduler.Kernel
    const wait: int
    const lines: array2<int>
    const lengths: array<nat>
    const editLine: array<int>
    var head: nat
    var tail: nat
    var count: nat
    var dropped: nat
    var editLength: nat
    ghost var queue: seq<seq<int>>
    ghost var log: L.Tty

    /** tty_init(). */
    constructor (kernel: KernelScheduler.Kernel, wait: int)
      requires kernel.Valid() && wait in kernel.waiters
      ensures Valid() && this.kernel == kernel && Synced() && log == L.START
      ensures fresh(lines) && fresh(lengths) && fresh(editLine)
    {
      this.kernel, this.wait := kernel, wait;
      lines := new int[L.QUEUE_SIZE, L.LINE_LENGTH];
      lengths := new nat[L.QUEUE_SIZE];
      editLine := new int[L.LINE_LENGTH];
      head, tail, count, dropped, editLength, queue, log := 0, 0, 0, 0, 0, [], L.START;
    }

    /** Slot k holds the line. */
    ghost predicate Holds(k: nat, line: seq<int>)
      reads lines, lengths
      requires lines.Length0 == L.QUEUE_SIZE && lines.Length1 == L.LINE_LENGTH && lengths.Length == L.QUEUE_SIZE && k < L.QUEUE_SIZE
    {
      && lengths[k] == |line| < L.LINE_LENGTH
      && forall j :: 0 <= j < |line| ==> lines[k, j] == line[j]
    }

    /** The ring holds the queued lines in order. */
    ghost predicate Queued()
      reads this, lines, lengths
    {
      && lines.Length0 == L.QUEUE_SIZE && lines.Length1 == L.LINE_LENGTH && lengths.Length == L.QUEUE_SIZE
      && editLine.Length == L.LINE_LENGTH && editLength < L.LINE_LENGTH
      && head < L.QUEUE_SIZE && tail < L.QUEUE_SIZE && count == |queue| <= L.QUEUE_SIZE
      && tail == Ring.Wrap(head + count, L.QUEUE_SIZE)
      && forall i :: 0 <= i < |queue| ==> Holds(Ring.Wrap(head + i, L.QUEUE_SIZE), queue[i])
    }

    ghost predicate Valid()
      reads this, lines, lengths, kernel
    {
      Queued() && kernel.Valid() && wait in kernel.waiters && lengths as object != editLine as object
    }

    /** The line being edited. */
    ghost function Edit(): seq<int>
      reads this, editLine
      requires editLength <= editLine.Length
    {
      editLine[..editLength]
    }

    /** The buffers hold what the line discipline says they hold after all events so far. */
    ghost predicate Synced()
      reads this, editLine
      requires editLength <= editLine.Length
    {
      log.edit == Edit() && log.queue == queue && log.dropped == dropped
    }

    /** Copy the edited line to the tail slot. */
    method StoreLine()
      requires Queued() && |queue| < L.QUEUE_SIZE
      modifies this`tail, this`count, this`queue, lines, lengths
      ensures Queued() && queue == old(queue) + [Edit()] && Edit() == old(Edit())
    {
      ghost var edit := Edit();
      CopyLine();
      lengths[tail] := editLength;
      forall i | 0 <= i < |queue|
        ensures Holds(Ring.Wrap(head + i, L.QUEUE_SIZE), queue[i])
      {
        assert old(Holds(Ring.Wrap(head + i, L.QUEUE_SIZE), queue[i]));
      }
      PushLine(edit);
    }

    /** The tail moves past the line stored there. */
    method PushLine(ghost line: seq<int>)
      requires Queued() && |queue| < L.QUEUE_SIZE && Holds(tail, line)
      modifies this`tail, this`count, this`queue
      ensures Queued() && queue == old(queue) + [line]
    {
      tail := (tail + 1) % L.QUEUE_SIZE;
      count := count + 1;
      queue := queue + [line];
    }

    method CopyLine()
      requires Queued()
      modifies lines
      ensures forall j :: 0 <= j < editLength ==> lines[tail, j] == editLine[j]
      ensures forall k, j :: 0 <= k < L.QUEUE_SIZE && k != tail && 0 <= j < L.LINE_LENGTH ==> lines[k, j] == old(lines[k, j])
    {
      var index := 0;
      while index < editLength
        invariant 0 <= index <= editLength
        invariant forall j :: 0 <= j < index ==> lines[tail, j] == editLine[j]
        invariant forall k, j :: 0 <= k < L.QUEUE_SIZE && k != tail && 0 <= j < L.LINE_LENGTH ==> lines[k, j] == old(lines[k, j])
      {
        lines[tail, index] := editLine[index];
        index := index + 1;
      }
      lines[tail, editLength] := 0;
    }

    /** tty_submit_edit_line(): queue the line and wake a reader, or count it as dropped; the
        edit buffer is empty afterwards. `ok` is false where the wakeup panics. */
    method SubmitEditLine() returns (ok: bool)
      requires Valid()
      modifies this`tail, this`count, this`queue, this`dropped, this`editLength, lines, lengths, kernel
      ensures ok ==> Valid() && Edit() == []
      ensures |old(queue)| == L.QUEUE_SIZE ==>
        ok && queue == old(queue) && dropped == old(dropped) + 1 && kernel.Snapshot() == old(kernel.Snapshot())
      ensures |old(queue)| < L.QUEUE_SIZE ==>
        && queue == old(queue) + [old(Edit())] && dropped == old(dropped)
        && ok == Scheduler.WakeOne(old(kernel.Snapshot()), wait).Ok?
        && (ok ==> kernel.Snapshot() == Scheduler.WakeOne(old(kernel.Snapshot()), wait).value)
    {
      if count == L.QUEUE_SIZE {
        dropped := dropped + 1;
        editLength := 0;
        return true;
      }
      StoreLine();
      ok := kernel.WakeOneLocked(wait);
      if ok {
        editLength := 0;
      }
    }

    /** tty_receive_char(). */
    method ReceiveChar(ch: int) returns (ok: bool)
      requires Valid() && Synced()
      modifies this`log, this`tail, this`count, this`queue, this`dropped, this`editLength, editLine, lines, lengths, kernel
      ensures ok ==> Valid() && Synced() && log == L.Received(old(log), ch)
      ensures ch != L.LF ==> ok && kernel.Snapshot() == old(kernel.Snapshot())
    {
      log := L.Received(log, ch);
      if ch == L.LF {
        ok := SubmitEditLine();
        return;
      }
      EditChar(ch);
      return true;
    }

    /** Backspace takes the last character away; another is added while there is room. */
    method EditChar(ch: int)
      requires Queued() && ch != L.LF && lengths as object != editLine as object
      modifies this`editLength, editLine
      ensures Queued() && Edit() == L.Received(L.START.(edit := old(Edit())), ch).edit
    {
      if ch == L.BS {
        if editLength != 0 {
          assert editLine[..editLength][..editLength - 1] == editLine[..editLength - 1];
          editLength := editLength - 1;
        }
        return;
      }
      if editLength + 1 >= L.LINE_LENGTH {
        return;
      }
      editLine[editLength] := ch;
      editLength := editLength + 1;
    }

    /** tty_pop_line_locked(): the oldest line, cut to the caller's buffer and ended by a NUL. */
    method PopLine(buffer: array<int>, size: nat) returns (ret: int)
      requires Queued() && Synced() && 0 < size <= buffer.Length && buffer != lengths as object && buffer != editLine
      modifies this`head, this`count, this`queue, this`log, buffer
      ensures Queued() && Synced() && log == L.Popped(old(log))
      ensures old(queue) == [] ==> ret == -EAGAIN && queue == [] && buffer[..] == old(buffer[..])
      ensures old(queue) != [] ==>
        && queue == old(queue)[1..]
        && ret == |L.Cut(old(queue)[0], size)| && ret < buffer.Length
        && buffer[..ret] == L.Cut(old(queue)[0], size) && buffer[ret] == 0
    {
      if count == 0 {
        return -EAGAIN;
      }
      var length := lengths[head];
      ghost var line := queue[0];
      assert Holds(Ring.Wrap(head + 0, L.QUEUE_SIZE), line);
      if length + 1 > size {
        length := size - 1;
      }
      var index := 0;
      while index < length
        invariant 0 <= index <= length
        invariant forall j :: 0 <= j < index ==> buffer[j] == line[j]
        invariant head == old(head) && count == old(count) && queue == old(queue) && log == old(log)
      {
        buffer[index] := lines[head, index];
        index := index + 1;
      }
      buffer[length] := 0;
      DropLine();
      log := L.Popped(log);
      return length;
    }

    /** The head moves past the oldest line. */
    method DropLine()
      requires Queued() && queue != []
      modifies this`head, this`count, this`queue
      ensures Queued() && queue == old(queue)[1..]
    {
      ghost var next := (head + 1) % L.QUEUE_SIZE;
      forall i | 0 <= i < |queue| - 1
        ensures Holds(Ring.Wrap(next + i, L.QUEUE_SIZE), queue[1..][i])
      {
        assert Ring.Wrap(next + i, L.QUEUE_SIZE) == Ring.Wrap(head + (i + 1), L.QUEUE_SIZE);
      }
      head := (head + 1) % L.QUEUE_SIZE;
      count := count - 1;
      queue := queue[1..];
    }

    /** tty_try_read_line(), and the locked half of tty_read_line(). */
    method TryReadLine(buffer: array<int>, size: nat) returns (ret: int)
      requires Queued() && Synced() && size <= buffer.Length && buffer != lengths as object && buffer != editLine
      modifies this`head, this`count, this`queue, this`log, buffer
      ensures Queued() && Synced()
      ensures size == 0 ==> ret == -EINVAL && log == old(log)
      ensures size > 0 ==> log == L.Popped(old(log))
      ensures size > 0 && old(queue) == [] ==> ret == -EAGAIN
      ensures size > 0 && old(queue) != [] ==> 0 <= ret < buffer.Length && buffer[..ret] == L.Cut(old(queue)[0], size) && buffer[ret] == 0
    {
      if size == 0 {
        return -EINVAL;
      }
      ret := PopLine(buffer, size);
    }
  }
}
