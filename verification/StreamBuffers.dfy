/** The fixed-capacity byte window of one flow direction (src/stream_buffer.c). */
module StreamBuffers {
  import opened Bytes

  /** What a reader of the buffer can observe: a bounded queue of bytes. */
  datatype Stream = Stream(live: bool, capacity: nat, unread: seq<byte>)

  const RELEASED := Stream(false, 0, [])

  predicate Fits(s: Stream, bytes: seq<byte>) {
    s.live && |s.unread| + |bytes| <= s.capacity
  }

  function Appended(s: Stream, bytes: seq<byte>): Stream {
    if Fits(s, bytes) then s.(unread := s.unread + bytes) else s
  }

  function Consumed(s: Stream, count: nat): Stream {
    s.(unread := s.unread[Min(count, |s.unread|)..])
  }

  class StreamBuffer {
    var data: array?<byte>
    var length: nat
    var consumed: nat
    var capacity: nat

    ghost predicate Valid()
      reads this, data
    {
      && consumed <= length <= capacity
      && (data == null ==> capacity == 0)
      && (data != null ==> data.Length == capacity)
    }

    ghost function View(): Stream
      requires Valid()
      reads this, data
    {
      if data == null then RELEASED else Stream(true, capacity, data[consumed..length])
    }

    /** A zeroed buffer, as `memset` leaves it. */
    constructor ()
      ensures Valid() && View() == RELEASED && data == null
    {
      data, length, consumed, capacity := null, 0, 0, 0;
    }

    method Init(bytes: nat) returns (ok: bool)
      requires Valid()
      modifies this
      ensures ok <==> bytes > 0
      ensures Valid() && View() == if ok then Stream(true, bytes, []) else old(View())
      ensures ok ==> fresh(data)
      ensures !ok ==> data == old(data)
    {
      if bytes == 0 {
        return false;
      }
      data := new byte[bytes](_ => 0);
      length, consumed, capacity := 0, 0, bytes;
      return true;
    }

    method Cleanup()
      modifies this
      ensures Valid() && View() == RELEASED && data == null
    {
      data, length, consumed, capacity := null, 0, 0, 0;
    }

    /** Moves the unread bytes to the front; a reader cannot tell. */
    method CompactBuffer()
      requires Valid()
      modifies this`length, this`consumed, data
      ensures Valid() && View() == old(View()) && consumed == 0
    {
      if consumed == 0 {
        return;
      }
      if consumed >= length {
        length, consumed := 0, 0;
        return;
      }
      forall i | 0 <= i < length - consumed {
        data[i] := data[consumed + i];
      }
      length, consumed := length - consumed, 0;
      assert View().unread == old(View()).unread;
    }

    /** Copies bytes behind the written ones, where they are known to fit. */
    method Write(bytes: seq<byte>)
      requires Valid() && data != null && length + |bytes| <= capacity
      modifies this`length, data
      ensures Valid() && View() == old(View()).(unread := old(View().unread) + bytes)
    {
      ghost var before := data[consumed..length];
      forall i | 0 <= i < |bytes| {
        data[length + i] := bytes[i];
      }
      assert data[length..length + |bytes|] == bytes && data[consumed..length] == before;
      length := length + |bytes|;
      assert data[consumed..length] == before + bytes;
    }

    /** Append succeeds exactly when the unread bytes and the new ones fit the capacity together. */
    method Append(bytes: seq<byte>) returns (ok: bool)
      requires Valid()
      modifies this`length, this`consumed, data
      ensures Valid()
      ensures ok <==> Fits(old(View()), bytes)
      ensures View() == Appended(old(View()), bytes)
    {
      if data == null {
        return false;
      }
      if |bytes| == 0 {
        assert View().unread + bytes == View().unread;
        return true;
      }
      if |bytes| > capacity {
        return false;
      }
      if |bytes| > capacity - length {
        CompactBuffer();
      }
      if |bytes| > capacity - length {
        return false;
      }
      Write(bytes);
      return true;
    }

    /** Drops exactly the first `count` unread bytes, or all of them. */
    method Consume(count: nat)
      requires Valid()
      modifies this`length, this`consumed, data
      ensures Valid() && View() == Consumed(old(View()), count)
    {
      var readable := Length();
      if count >= readable {
        length, consumed := 0, 0;
        assert View() == Consumed(old(View()), count);
        return;
      }
      consumed := consumed + count;
      assert View() == Consumed(old(View()), count);
      if consumed > capacity / 2 {
        CompactBuffer();
      }
    }

    method Clear()
      requires Valid()
      modifies this`length, this`consumed
      ensures Valid() && View() == old(View()).(unread := [])
    {
      length, consumed := 0, 0;
    }

    /** The readable window: empty, as NULL is for the original's readers, when nothing is unread. */
    function Data(): (window: seq<byte>)
      requires Valid()
      reads this, data
      ensures window == View().unread
    {
      if data == null || consumed >= length then [] else data[consumed..length]
    }

    function Length(): (count: nat)
      requires Valid()
      reads this, data
      ensures count == |View().unread|
    {
      if consumed >= length then 0 else length - consumed
    }
  }

  datatype Operation = Put(bytes: seq<byte>) | Take(count: nat) | ClearAll

  /** The stream after a sequence of operations, all bytes accepted and all bytes that have left. */
  function Replay(s: Stream, operations: seq<Operation>): (r: (Stream, seq<byte>, seq<byte>)) {
    if operations == [] then (s, [], [])
    else
      var (before, accepted, drained) := Replay(s, operations[..|operations| - 1]);
      match operations[|operations| - 1]
      case Put(bytes) =>
        (Appended(before, bytes), if Fits(before, bytes) then accepted + bytes else accepted, drained)
      case Take(count) =>
        (Consumed(before, count), accepted, drained + before.unread[..Min(count, |before.unread|)])
      case ClearAll => (before.(unread := []), accepted, drained + before.unread)
  }

  /** First in, first out, within the capacity, over every run: what was accepted is what
      has left followed by what is still unread. */
  lemma {:induction false} FirstInFirstOut(capacity: nat, operations: seq<Operation>)
    ensures var (s, accepted, drained) := Replay(Stream(true, capacity, []), operations);
            && accepted == drained + s.unread
            && s.live && s.capacity == capacity && |s.unread| <= capacity
  {
    if operations != [] {
      FirstInFirstOut(capacity, operations[..|operations| - 1]);
      var (before, accepted, drained) := Replay(Stream(true, capacity, []), operations[..|operations| - 1]);
      match operations[|operations| - 1]
      case Put(bytes) =>
        assert drained + before.unread + bytes == drained + (before.unread + bytes);
      case Take(count) =>
        var k := Min(count, |before.unread|);
        assert before.unread == before.unread[..k] + before.unread[k..];
      case ClearAll =>
    }
  }
}
