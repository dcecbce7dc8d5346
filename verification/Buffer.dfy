/** yvent/Buffer.h and yvent/Buffer.cpp: a flat array with a prepend area that
    behaves as a byte queue. */
module Buffers {
  import opened Bytes

  const CHEAP_PREPEND: nat := 8
  const INITIAL_SIZE: nat := 1024
  const EXTRA_SIZE: nat := 65536

  /** One call on a buffer; `Arrive` is a `readFd` that read `bytes`. */
  datatype Op =
    | Append(bytes: seq<Byte>)
    | Prepend(bytes: seq<Byte>)
    | Retrieve(len: nat)
    | RetrieveAll
    | Arrive(bytes: seq<Byte>)

  /** What a plain byte queue does for the same call. */
  function QueueOp(q: seq<Byte>, op: Op): seq<Byte>
    requires op.Retrieve? ==> op.len <= |q|
  {
    match op
    case Append(bytes) => q + bytes
    case Prepend(bytes) => bytes + q
    case Retrieve(len) => q[len..]
    case RetrieveAll => []
    case Arrive(bytes) => q + bytes
  }

  /** `q'` is what the queue holds after `ops` ran on `q` without a retrieve of more than it held. */
  predicate QueueRuns(q: seq<Byte>, ops: seq<Op>, q': seq<Byte>)
    decreases |ops|
  {
    if ops == [] then q == q'
    else
      var op := ops[0];
      (op.Retrieve? ==> op.len <= |q|) && QueueRuns(QueueOp(q, op), ops[1..], q')
  }

  lemma {:induction false} QueueRunsSnoc(q: seq<Byte>, ops: seq<Op>, q': seq<Byte>, op: Op)
    requires QueueRuns(q, ops, q')
    requires op.Retrieve? ==> op.len <= |q'|
    ensures QueueRuns(q, ops + [op], QueueOp(q', op))
    decreases |ops|
  {
    if ops == [] {
      assert ops + [op] == [op];
      assert [op][1..] == [];
    } else {
      QueueRunsSnoc(QueueOp(q, ops[0]), ops[1..], q', op);
      assert (ops + [op])[1..] == ops[1..] + [op];
    }
  }

  lemma QueueRunsNext(q: seq<Byte>, ops: seq<Op>, n: nat, q': seq<Byte>)
    requires n < |ops| && QueueRuns(q, ops[..n], q')
    requires ops[n].Retrieve? ==> ops[n].len <= |q'|
    ensures QueueRuns(q, ops[..n + 1], QueueOp(q', ops[n]))
  {
    QueueRunsSnoc(q, ops[..n], q', ops[n]);
    assert ops[..n + 1] == ops[..n] + [ops[n]];
  }

  /** Whether room for `len` bytes is found without a larger array: at the tail, or in front of
      the readable bytes beyond the prepend area and at the tail together. */
  predicate KeepsStorage(size: nat, reader: nat, writer: nat, len: nat) {
    len <= size - writer || len + 8 <= (size - writer) + reader
  }

  class Buffer {
    var data: array<Byte>
    var reader: nat
    var writer: nat

    ghost predicate Valid()
      reads this
    {
      reader <= writer <= data.Length && CHEAP_PREPEND <= data.Length
    }

    /** The readable region: the queue this buffer stands for. */
    ghost function Contents(): (s: seq<Byte>)
      requires Valid()
      reads this, data
      ensures |s| == writer - reader
    {
      data[reader..writer]
    }

    /** The size argument of the source's constructor is ignored there too. */
    constructor ()
      ensures Valid() && fresh(data)
      ensures Contents() == []
      ensures reader == 8 && data.Length == 8 + 1024
    {
      data := new Byte[CHEAP_PREPEND + INITIAL_SIZE](_ => 0);
      reader := CHEAP_PREPEND;
      writer := CHEAP_PREPEND;
    }

    function WritableBytes(): (n: nat)
      requires Valid()
      reads this
    {
      data.Length - writer
    }

    function ReadableBytes(): (n: nat)
      requires Valid()
      reads this, data
      ensures n == |Contents()|
    {
      writer - reader
    }

    function PrependableBytes(): nat
      reads this
    {
      reader
    }

    method Swap(other: Buffer)
      requires Valid() && other.Valid()
      modifies this, other
      ensures Valid() && other.Valid()
      ensures data == old(other.data) && other.data == old(data)
      ensures Contents() == old(other.Contents()) && other.Contents() == old(Contents())
    {
      var d, r, w := data, reader, writer;
      data, reader, writer := other.data, other.reader, other.writer;
      other.data, other.reader, other.writer := d, r, w;
    }

    /** `resize`: the bytes held so far stay where they are. */
    method Grow(size: nat)
      requires Valid() && data.Length <= size
      modifies this
      ensures Valid() && fresh(data) && data.Length == size
      ensures reader == old(reader) && writer == old(writer)
      ensures Contents() == old(Contents())
    {
      var was := data;
      data := new Byte[size](i requires 0 <= i reads was => if i < was.Length then was[i] else 0);
      assert forall i :: reader <= i < writer ==> data[i] == was[i];
    }

    /** Moves the readable bytes down to the prepend area, in place; the regions may overlap. */
    method Slide()
      requires Valid() && CHEAP_PREPEND < reader
      modifies this, data
      ensures Valid() && data == old(data)
      ensures reader == CHEAP_PREPEND
      ensures Contents() == old(Contents())
    {
      var readable := writer - reader;
      ghost var was := data[..];
      for i := 0 to readable
        invariant unchanged(this)
        invariant forall j :: CHEAP_PREPEND <= j < CHEAP_PREPEND + i ==> data[j] == was[j + (reader - CHEAP_PREPEND)]
        invariant forall j :: CHEAP_PREPEND + i <= j < data.Length ==> data[j] == was[j]
      {
        data[CHEAP_PREPEND + i] := data[reader + i];
      }
      reader := CHEAP_PREPEND;
      writer := reader + readable;
    }

    /** The second branch relies on an assertion of the source: the readable bytes do not
        already start in the prepend area. */
    method MakeSpace(len: nat)
      requires Valid()
      requires WritableBytes() < len
      modifies this, data
      ensures Valid() && (data == old(data) || fresh(data))
      ensures WritableBytes() >= len
      ensures Contents() == old(Contents())
      ensures data == old(data) <==> len + 8 <= old(WritableBytes() + PrependableBytes())
      ensures reader == if data == old(data) then 8 else old(reader)
    {
      if WritableBytes() + PrependableBytes() < len + CHEAP_PREPEND {
        Grow(writer + len);
      } else {
        assert CHEAP_PREPEND < reader;
        Slide();
      }
    }

    method EnsureWritableBytes(len: nat)
      requires Valid()
      modifies this, data
      ensures Valid() && (data == old(data) || fresh(data))
      ensures WritableBytes() >= len
      ensures Contents() == old(Contents())
      ensures data == old(data) <==> KeepsStorage(old(data.Length), old(reader), old(writer), len)
      ensures reader == if old(WritableBytes()) < len && data == old(data) then 8 else old(reader)
    {
      if WritableBytes() < len {
        MakeSpace(len);
      }
    }

    method Append(bytes: seq<Byte>)
      requires Valid()
      modifies this, data
      ensures Valid() && (data == old(data) || fresh(data))
      ensures Contents() == old(Contents()) + bytes
      ensures data == old(data) <==> KeepsStorage(old(data.Length), old(reader), old(writer), |bytes|)
      ensures reader == if old(WritableBytes()) < |bytes| && data == old(data) then 8 else old(reader)
    {
      EnsureWritableBytes(|bytes|);
      Place(bytes);
    }

    /** A copy to the start of the free tail followed by `hasWritten`. */
    method Place(bytes: seq<Byte>)
      requires Valid()
      requires |bytes| <= WritableBytes()
      modifies this, data
      ensures Valid() && data == old(data)
      ensures writer == old(writer) + |bytes|
      ensures Contents() == old(Contents()) + bytes
    {
      CopyInto(data, writer, bytes);
      assert data[reader..writer + |bytes|] == data[reader..writer] + data[writer..writer + |bytes|];
      writer := writer + |bytes|;
    }

    method Prepend(bytes: seq<Byte>)
      requires Valid()
      requires |bytes| <= PrependableBytes()
      modifies this, data
      ensures Valid() && data == old(data) && reader == old(reader) - |bytes|
      ensures Contents() == bytes + old(Contents())
    {
      reader := reader - |bytes|;
      CopyInto(data, reader, bytes);
      assert data[reader..writer] == data[reader..reader + |bytes|] + data[reader + |bytes|..writer];
    }

    method RetrieveAll()
      requires Valid()
      modifies this
      ensures Valid() && data == old(data) && reader == 8
      ensures Contents() == []
    {
      reader := CHEAP_PREPEND;
      writer := CHEAP_PREPEND;
    }

    method Retrieve(len: nat)
      requires Valid()
      requires len <= ReadableBytes()
      modifies this
      ensures Valid() && data == old(data)
      ensures reader == if len < |old(Contents())| then old(reader) + len else 8
      ensures Contents() == old(Contents())[len..]
    {
      if len < ReadableBytes() {
        reader := reader + len;
      } else {
        RetrieveAll();
      }
    }

    /** The first `len` readable bytes, read through `peek`. */
    method Peek(len: nat) returns (r: seq<Byte>)
      requires Valid()
      requires len <= ReadableBytes()
      ensures r == Contents()[..len]
    {
      r := data[reader..reader + len];
    }

    method RetrieveAsString(len: nat) returns (r: seq<Byte>)
      requires Valid()
      requires len <= ReadableBytes()
      modifies this
      ensures Valid() && data == old(data)
      ensures r == old(Contents())[..len] && Contents() == old(Contents())[len..]
    {
      r := data[reader..reader + len];
      Retrieve(len);
    }

    /** `std::search` for CR LF over the readable region. */
    method FindCRLF() returns (r: Option<nat>)
      requires Valid()
      ensures r == FindCrlf(Contents())
    {
      var i := reader;
      while i < writer
        invariant reader <= i <= writer
        invariant CrlfFrom(Contents(), 0) == CrlfFrom(Contents(), i - reader)
      {
        if i + 1 < writer && data[i] == CR && data[i + 1] == LF {
          assert CrlfAt(Contents(), i - reader);
          return Some(i - reader);
        }
        i := i + 1;
      }
      r := None;
    }

    /** The most one `readv` can deliver: the second region is offered only when the first is small. */
    function ReadCapacity(): nat
      requires Valid()
      reads this
    {
      WritableBytes() + (if WritableBytes() < 65536 then 65536 else 0)
    }

    /** `readFd`: `got` is what the kernel placed in the two regions, or None for an error.
        The kernel fills the free tail of the array first and the stack area after it. */
    method ReadFd(got: Option<seq<Byte>>) returns (n: int)
      requires Valid()
      requires got.Some? ==> |got.value| <= ReadCapacity()
      modifies this, data
      ensures Valid() && (data == old(data) || fresh(data))
      ensures n == if got.Some? then |got.value| else -1
      ensures Contents() == old(Contents()) + (if got.Some? then got.value else [])
    {
      var writable := WritableBytes();
      if got.None? {
        return -1;
      }
      var bytes := got.value;
      n := |bytes|;
      if n <= writable {
        Place(bytes);
      } else {
        Place(bytes[..writable]);
        AppendOverflow(bytes[writable..]);
        assert bytes[..writable] + bytes[writable..] == bytes;
      }
    }

    /** Bytes that landed in the stack area are appended from there. */
    method AppendOverflow(bytes: seq<Byte>)
      requires Valid()
      requires |bytes| <= EXTRA_SIZE
      modifies this, data
      ensures Valid() && (data == old(data) || fresh(data))
      ensures Contents() == old(Contents()) + bytes
    {
      var extra := new Byte[EXTRA_SIZE](_ => 0);
      CopyInto(extra, 0, bytes);
      var overflow := extra[..|bytes|];
      assert overflow == bytes;
      Append(overflow);
    }

    /** The asserted precondition of a call, and for a read what the kernel can deliver. */
    predicate Allows(op: Op)
      requires Valid()
      reads this
    {
      match op
      case Append(_) => true
      case Prepend(bytes) => |bytes| <= PrependableBytes()
      case Retrieve(len) => len <= writer - reader
      case RetrieveAll => true
      case Arrive(bytes) => |bytes| <= ReadCapacity()
    }

    /** One call is one operation of the byte queue. */
    method Apply(op: Op)
      requires Valid() && Allows(op)
      modifies this, data
      ensures Valid() && (data == old(data) || fresh(data))
      ensures op.Retrieve? ==> op.len <= |old(Contents())|
      ensures Contents() == QueueOp(old(Contents()), op)
    {
      match op
      case Append(bytes) => Append(bytes);
      case Prepend(bytes) => Prepend(bytes);
      case Retrieve(len) => Retrieve(len);
      case RetrieveAll => RetrieveAll();
      case Arrive(bytes) => var n := ReadFd(Some(bytes));
    }

    /** Runs the calls in order, stopping before the first whose asserted precondition fails. */
    method Drive(ops: seq<Op>) returns (done: nat)
      requires Valid()
      modifies this, data
      ensures Valid() && (data == old(data) || fresh(data))
      ensures done <= |ops|
      ensures QueueRuns(old(Contents()), ops[..done], Contents())
      ensures done < |ops| ==> !Allows(ops[done])
    {
      done := 0;
      ghost var start := Contents();
      while done < |ops| && Allows(ops[done])
        invariant Valid() && (data == old(data) || fresh(data))
        invariant done <= |ops|
        invariant QueueRuns(start, ops[..done], Contents())
      {
        ghost var before := Contents();
        Apply(ops[done]);
        QueueRunsNext(start, ops, done, before);
        done := done + 1;
      }
    }
  }

  /** `std::copy` of a byte string into an array. */
  method CopyInto(a: array<Byte>, at: nat, bytes: seq<Byte>)
    requires at + |bytes| <= a.Length
    modifies a
    ensures a[at..at + |bytes|] == bytes
    ensures forall k :: 0 <= k < at || at + |bytes| <= k < a.Length ==> a[k] == old(a[k])
  {
    for i := 0 to |bytes|
      invariant a[at..at + i] == bytes[..i]
      invariant forall k :: 0 <= k < at || at + i <= k < a.Length ==> a[k] == old(a[k])
    {
      a[at + i] := bytes[i];
    }
  }
}
