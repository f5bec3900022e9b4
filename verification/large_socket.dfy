/** The objects of the large-data transport: the sender, the receiver, and the socket that shows them as a stream
    of bytes. */
module LargeSocket {
  import opened Basics
  import opened LargeData
  import opened LargeTransport

  lemma EncodeLast(ps: seq<Packet>, p: Packet)
    ensures Encode(ps + [p]) == Encode(ps) + ToBytes(p)
  {
    var fs := Frames(ps);
    assert Frames(ps + [p]) == fs + [ToBytes(p)];
    JoinedLast(fs, ToBytes(p));
  }

  lemma EncodeAppend(ps: seq<Packet>, qs: seq<Packet>)
    ensures Encode(ps + qs) == Encode(ps) + Encode(qs)
  {
    assert Frames(ps + qs) == Frames(ps) + Frames(qs);
    JoinedAppend(Frames(ps), Frames(qs));
  }

  lemma OnWireExtended(ds: seq<Bytes>, ms: seq<seq<bool>>, i: nat)
    requires Masks(ds, ms) && i < |ds|
    ensures Encode(OnWire(ds[..i + 1], ms[..i + 1])) ==
      Encode(OnWire(ds[..i], ms[..i])) + Encode(Kept(Packets(IdentifierOf(i), ds[i]), ms[i]))
  {
    assert ds[..i + 1][..i] == ds[..i] && ms[..i + 1][..i] == ms[..i];
    EncodeAppend(OnWire(ds[..i], ms[..i]), Kept(Packets(IdentifierOf(i), ds[i]), ms[i]));
  }

  /** The wire after the first k of the packets have been written to it. */
  function Written(wire: Bytes, ps: seq<Packet>, mask: seq<bool>, k: nat): Bytes
    requires |mask| == |ps| && k <= |ps|
  {
    if k == 0 then wire
    else if mask[k - 1] then Written(wire, ps, mask, k - 1) + ToBytes(ps[k - 1])
    else Written(wire, ps, mask, k - 1)
  }

  lemma {:induction false} WrittenIs(wire: Bytes, ps: seq<Packet>, mask: seq<bool>, k: nat)
    requires |mask| == |ps| && k <= |ps|
    ensures Written(wire, ps, mask, k) == wire + Encode(Kept(ps[..k], mask[..k]))
  {
    if k > 0 {
      var kept := Kept(ps[..k - 1], mask[..k - 1]);
      WrittenIs(wire, ps, mask, k - 1);
      KeptExtended(ps, mask, k - 1);
      EncodeLast(kept, ps[k - 1]);
      Associate(wire, Encode(kept), ToBytes(ps[k - 1]));
    }
  }

  lemma PacketAt(identifier: Word, data: Bytes, k: nat)
    requires Fits(data) && k < Pieces(data)
    ensures Packets(identifier, data)[k] == Packet(identifier, k, |Parts(data)|, Parts(data)[k])
  {
  }

  class LargeSender {
    var connected: bool
    var parts: seq<Payload>
    var identifier: Word
    var num: int
    /** The bytes that the TCP socket has accepted. */
    var wire: Bytes

    constructor (connected: bool)
      ensures identifier == BAD_IDENTIFIER && wire == [] && this.connected == connected
    {
      this.connected, parts, identifier, num, wire := connected, [], BAD_IDENTIFIER, 0, [];
    }

    method AdvanceIdentifier()
      modifies this`identifier
      ensures identifier == NextIdentifier(old(identifier))
    {
      identifier := (identifier + 1) % WORD;
      if identifier == BAD_IDENTIFIER {
        identifier := (identifier + 1) % WORD;
      }
    }

    /** The parts: as many whole ones as there are, and the tail if there is one. */
    method Split(data: Bytes)
      requires Fits(data)
      modifies this`parts
      ensures parts == Parts(data)
    {
      parts := [];
      var i := 0;
      while i < |data| / MAX_DATA_SIZE
        invariant 0 <= i <= |data| / MAX_DATA_SIZE && parts == Parts(data)[..i]
      {
        parts := parts + [data[i * MAX_DATA_SIZE..(i + 1) * MAX_DATA_SIZE]];
        i := i + 1;
      }
      var tail := data[|parts| * MAX_DATA_SIZE..];
      if tail != [] {
        assert Pieces(data) == i + 1 && tail == Piece(data, i);
        assert Parts(data) == Parts(data)[..i] + [Piece(data, i)];
        parts := parts + [tail];
      } else {
        assert Pieces(data) == i;
      }
    }

    /** sendNextPart; `accepted` says whether the write to the TCP socket succeeds.  After the last part it
        forgets the parts. */
    method SendNextPart(accepted: bool) returns (r: int)
      requires 0 <= num && |parts| < 0x8000_0000
      modifies this`wire, this`parts
      ensures r == num * MAX_DATA_SIZE
      ensures parts == if num < |old(parts)| then old(parts) else []
      ensures wire == if num < |old(parts)| && accepted
        then old(wire) + ToBytes(Packet(identifier, num, |old(parts)|, old(parts)[num])) else old(wire)
    {
      if num >= |parts| {
        parts := [];
        return num * MAX_DATA_SIZE;
      }
      var p := Packet(identifier, num, |parts|, parts[num]);
      if accepted {
        wire := wire + ToBytes(p);
      }
      return num * MAX_DATA_SIZE;
    }

    method SendParts(ghost data: Bytes, mask: seq<bool>) returns (r: int)
      requires Fits(data) && |mask| == Pieces(data) && parts == Parts(data)
      modifies this`num, this`wire, this`parts
      ensures wire == old(wire) + Encode(Kept(Packets(identifier, data), mask)) && r == Reported(data)
      ensures parts == old(parts) && num == |parts|
    {
      r, num := 0, 0;
      ghost var ps := Packets(identifier, data);
      while num < |parts|
        invariant 0 <= num <= |parts| && parts == old(parts)
        invariant wire == Written(old(wire), ps, mask, num)
        invariant r == if num == 0 then 0 else (num - 1) * MAX_DATA_SIZE
      {
        PacketAt(identifier, data, num);
        r := SendNextPart(mask[num]);
        num := num + 1;
      }
      WrittenIs(old(wire), ps, mask, num);
      assert ps[..num] == ps && mask[..num] == mask;
    }

    /** writeData; `mask` says which of the writes to the TCP socket succeed. */
    method WriteData(data: Bytes, mask: seq<bool>) returns (r: int)
      requires Fits(data) && |mask| == Pieces(data)
      modifies this
      ensures connected == old(connected)
      ensures !connected ==> r == -1 && wire == old(wire) && identifier == old(identifier)
      ensures connected ==> r == Reported(data) && identifier == NextIdentifier(old(identifier))
      ensures connected ==> wire == old(wire) + Encode(Kept(Packets(identifier, data), mask))
    {
      if !connected {
        return -1;
      }
      AdvanceIdentifier();
      Split(data);
      r := SendParts(data, mask);
    }
  }

  /** A sender that has written a list of data has put on the wire what OnWire says. */
  method SendAll(ds: seq<Bytes>, ms: seq<seq<bool>>) returns (sender: LargeSender)
    requires Masks(ds, ms)
    ensures sender.wire == Encode(OnWire(ds, ms))
  {
    sender := new LargeSender(true);
    var i := 0;
    while i < |ds|
      invariant 0 <= i <= |ds| && fresh(sender) && sender.connected
      invariant sender.identifier == if i == 0 then BAD_IDENTIFIER else IdentifierOf(i - 1)
      invariant sender.wire == Encode(OnWire(ds[..i], ms[..i]))
    {
      OnWireExtended(ds, ms, i);
      var _ := sender.WriteData(ds[i], ms[i]);
      i := i + 1;
    }
    assert ds[..i] == ds && ms[..i] == ms;
  }

  class LargeReceiver {
    var buffer: Bytes
    var timerOn: bool
    var parts: seq<Bytes>
    var identifier: Word
    /** The data handed out. */
    var came: seq<Bytes>

    ghost function State(): Receiver
      reads this
    {
      Receiver(buffer, timerOn, Assembly(parts, identifier), came)
    }

    constructor ()
      ensures State() == FRESH
    {
      buffer, timerOn, parts, identifier, came := [], false, [], BAD_IDENTIFIER, [];
    }

    method OnReadyRead(chunk: Bytes)
      modifies this`buffer, this`timerOn
      ensures State() == ReadyRead(old(State()), chunk)
    {
      buffer := buffer + chunk;
      if |buffer| >= HEADER {
        timerOn := true;
      }
    }

    method TimerEvent()
      modifies this
      ensures State() == Tick(old(State())) && old(came) <= came
    {
      if timerOn {
        ProceedBuffer();
      }
    }

    method ProceedBuffer()
      modifies this
      ensures State() == Proceed(old(State())) && old(came) <= came
    {
      var index := IndexOf(buffer, SIGNATURE);
      if index > 0 {
        buffer := buffer[index..];
      }
      var size := PacketSize(buffer);
      if |buffer| < size || !(HEADER <= size <= HEADER + MAX_DATA_SIZE) {
        return;
      }
      var data := buffer[..size];
      buffer := buffer[size..];
      ProceedPacket(FromBytes(data));
      if |buffer| < HEADER {
        timerOn := false;
      }
    }

    method ProceedPacket(p: Packet)
      modifies this`parts, this`identifier, this`came
      ensures var o := Accept(old(Assembly(parts, identifier)), p);
        Assembly(parts, identifier) == o.st && came == old(came) + o.came
    {
      if identifier != BAD_IDENTIFIER {
        if identifier != p.identifier {
          parts := [];
        }
      }
      identifier := p.identifier;
      if |parts| != p.number {
        parts := [];
        return;
      }
      parts := parts + [p.data];
      if p.count == |parts| {
        PostData();
      }
    }

    method PostData()
      modifies this`parts, this`identifier, this`came
      ensures came == old(came) + [Joined(old(parts))] && Assembly(parts, identifier) == IDLE
    {
      var result := [];
      var i := 0;
      while i < |parts|
        invariant 0 <= i <= |parts| && result == Joined(parts[..i]) && parts == old(parts) && came == old(came)
      {
        JoinedLast(parts[..i], parts[i]);
        assert parts[..i + 1] == parts[..i] + [parts[i]];
        result := result + parts[i];
        i := i + 1;
      }
      assert parts[..i] == parts;
      parts, identifier := [], BAD_IDENTIFIER;
      came := came + [result];
    }
  }

  lemma RunNext(events: seq<Event>, i: nat)
    requires i < |events|
    ensures Run(events[..i + 1]) == Handle(Run(events[..i]), events[i])
  {
    RunLast(events[..i], events[i]);
    assert events[..i + 1] == events[..i] + [events[i]];
  }

  /** A receiver that has seen a list of events is in the state that Run says. */
  method ReceiveAll(events: seq<Event>) returns (receiver: LargeReceiver)
    ensures receiver.State() == Run(events)
  {
    receiver := new LargeReceiver();
    var i := 0;
    while i < |events|
      invariant 0 <= i <= |events| && fresh(receiver) && receiver.State() == Run(events[..i])
    {
      RunNext(events, i);
      match events[i] {
        case Chunk(bytes) => receiver.OnReadyRead(bytes);
        case TimerTick => receiver.TimerEvent();
      }
      i := i + 1;
    }
    assert events[..i] == events;
  }

  /** The reading side of LargeSocket: the bytes that a receiver hands out, as a stream. */
  class StreamReader {
    const receiver: LargeReceiver
    var buffer: Bytes
    /** The bytes that have been read. */
    ghost var taken: Bytes

    ghost predicate Valid()
      reads this, receiver
    {
      taken + buffer == Joined(receiver.came)
    }

    constructor ()
      ensures Valid() && taken == [] && fresh(receiver) && receiver.State() == FRESH
    {
      receiver := new LargeReceiver();
      buffer, taken := [], [];
    }

    method BytesCame(chunk: Bytes)
      requires Valid()
      modifies receiver
      ensures Valid() && receiver.State() == ReadyRead(old(receiver.State()), chunk)
    {
      receiver.OnReadyRead(chunk);
    }

    /** The receiver's timer; what it hands out goes to the buffer. */
    method TimerEvent()
      requires Valid()
      modifies this`buffer, receiver
      ensures Valid() && receiver.State() == Tick(old(receiver.State()))
    {
      var before := receiver.came;
      receiver.TimerEvent();
      var more := receiver.came[|before|..];
      JoinedAppend(before, more);
      assert receiver.came == before + more;
      Associate(taken, buffer, Joined(more));
      DataReceived(more);
    }

    /** The signals of the receiver, one after the other. */
    method DataReceived(datas: seq<Bytes>)
      modifies this`buffer
      ensures buffer == old(buffer) + Joined(datas)
    {
      var i := 0;
      while i < |datas|
        invariant 0 <= i <= |datas| && buffer == old(buffer) + Joined(datas[..i])
      {
        JoinedLast(datas[..i], datas[i]);
        assert datas[..i + 1] == datas[..i] + [datas[i]];
        OnDataReceived(datas[i]);
        i := i + 1;
      }
      assert datas[..i] == datas;
    }

    method OnDataReceived(data: Bytes)
      modifies this`buffer
      ensures buffer == old(buffer) + data
    {
      buffer := buffer + data;
    }

    /** Reading takes at most maxlen bytes from the front. */
    method ReadData(maxlen: nat) returns (data: Bytes)
      requires Valid()
      modifies this`buffer, this`taken
      ensures Valid() && taken == old(taken) + data
      ensures |data| == (if maxlen <= |old(buffer)| then maxlen else |old(buffer)|) && old(buffer) == data + buffer
    {
      var ret := if maxlen <= |buffer| then maxlen else |buffer|;
      data := buffer[..ret];
      buffer := buffer[ret..];
      taken := taken + data;
    }
  }

  /** With nothing dropped on the way, the bytes read from a socket are a prefix of the bytes written to the other
      one, whatever the chunks, the ticks and the sizes of the reads; and all of them, once all has arrived, the
      timer has stopped and the buffer has been read. */
  lemma BytesReadWereWritten(sender: LargeSender, ds: seq<Bytes>, reader: StreamReader, events: seq<Event>)
    requires Masks(ds, Lossless(ds)) && sender.wire == Encode(OnWire(ds, Lossless(ds)))
    requires reader.Valid() && reader.receiver.State() == Run(events) && Arrived(events) <= sender.wire
    ensures reader.taken <= Joined(ds)
    ensures Arrived(events) == sender.wire && !reader.receiver.timerOn && reader.buffer == [] ==>
      reader.taken == Joined(ds)
  {
    StreamDelivery(ds, events);
    assert reader.taken <= Joined(reader.receiver.came);
  }
}
