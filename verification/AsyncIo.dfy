/** The writer object itself: each region under its lock carries out one step of the protocol. */
module AsyncIo {
  import opened CStrings
  import opened AsyncRing
  import opened AsyncWriter

  class AsyncObject {
    const ring: Ring
    var finish: Finish
    var refcount: int
    var thread: bool

    ghost predicate Valid()
      reads this, ring
    {
      ring.Valid()
    }

    /** The object is in protocol state `s`. */
    ghost predicate Matches(s: Aio)
      reads this, ring, ring.buffer
    {
      && Valid() && s.queue == ring.Contents() && s.finish == finish
      && s.refs == refcount && s.thread == thread
    }

    constructor (ghost clients: nat)
      ensures fresh(ring) && fresh(ring.buffer) && Matches(Init(clients))
    {
      ring := new Ring();
      finish, refcount, thread := Running, 2, true;
    }

    /** `aio_write_unlocked`, between `aio_lock` and `aio_unlock`. */
    method WriteUnlocked(data: seq<byte>, ghost s: Aio, ghost c: nat)
      requires Matches(s) && Enabled(s, Step.Write(c, data))
      modifies ring, ring.buffer
      ensures Matches(Next(s, Step.Write(c, data)))
    {
      ring.Write(data);
    }

    /** The region of `aio_close`. */
    method RequestClose(ghost s: Aio, ghost c: nat)
      requires Matches(s) && Enabled(s, SetClose(c))
      modifies this
      ensures Matches(Next(s, SetClose(c)))
    {
      finish := Close;
    }

    /** The region of `aio_wait`. */
    method RequestExit(ghost s: Aio, ghost c: nat)
      requires Matches(s) && Enabled(s, SetExit(c))
      modifies this
      ensures Matches(Next(s, SetExit(c)))
    {
      thread := false;
      if finish == Running {
        finish := Exit;
      }
    }

    /** The region of `aio_free`; the caller deletes the object if it was the last to hold it. */
    method Release(ghost s: Aio, ghost c: nat) returns (last: bool)
      requires Matches(s) && !s.freed && Enabled(s, Step.Free(c))
      modifies this
      ensures Matches(Next(s, Step.Free(c))) && (last <==> Next(s, Step.Free(c)).freed)
    {
      if thread {
        thread := false;
      }
      refcount := refcount - 1;
      last := refcount == 0;
    }

    /** The worker's region, from taking the lock to releasing it. */
    method Turn(ghost s: Aio) returns (turn: AsyncWriter.Turn, last: bool)
      requires Matches(s) && !s.freed && Enabled(s, WorkerTurn)
      modifies this, ring
      ensures Matches(Next(s, WorkerTurn)) && turn == TurnOf(s.queue, s.finish)
      ensures last <==> Next(s, WorkerTurn).freed
    {
      last := false;
      if ring.readPos == ring.writePos {
        if finish != Running {
          turn := Leave(finish == Close);
          refcount := refcount - 1;
          last := refcount == 0;
        } else {
          turn := Sleep;
        }
        return;
      }
      var chunk := ring.Take();
      turn := Emit(chunk);
    }
  }
}
