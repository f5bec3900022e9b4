/** The packets of the large-data transport and their bytes. */
module LargeData {
  import opened Basics

  const WORD := 0x1_0000_0000

  type Word = w: int | 0 <= w < WORD

  type Int32 = i: int | -0x8000_0000 <= i < 0x8000_0000

  /** The identifier that no data can have. */
  const BAD_IDENTIFIER: Word := WORD - 1

  const MAX_DATA_SIZE := 30000

  const HEADER := 24

  /** The characters "ldp0002"; a packet carries the terminating zero too. */
  const SIGNATURE: Bytes := [108, 100, 112, 48, 48, 48, 50]

  /** What one packet can carry. */
  type Payload = bs: Bytes | |bs| <= MAX_DATA_SIZE

  datatype Packet = Packet(identifier: Word, number: Int32, count: Int32, data: Payload)

  // ---------------------------------------------------------------- numbers

  /** A 32-bit number, most significant byte first. */
  function WordBytes(w: Word): (bs: Bytes)
    ensures |bs| == 4
  {
    var high, low := w / 0x1_0000, w % 0x1_0000;
    [high / 0x100, high % 0x100, low / 0x100, low % 0x100]
  }

  function ReadPair(high: int, low: int): int { 0x100 * high + low }

  function ReadWord(bs: Bytes): Word
    requires |bs| == 4
  {
    0x1_0000 * ReadPair(bs[0], bs[1]) + ReadPair(bs[2], bs[3])
  }

  lemma WordRead(w: Word)
    ensures ReadWord(WordBytes(w)) == w
  {
  }

  /** Two's complement. */
  function IntBytes(i: Int32): (bs: Bytes)
    ensures |bs| == 4
  {
    WordBytes(if i < 0 then i + WORD else i)
  }

  function ReadInt(bs: Bytes): Int32
    requires |bs| == 4
  {
    var w := ReadWord(bs);
    if w < 0x8000_0000 then w else w - WORD
  }

  lemma IntRead(i: Int32)
    ensures ReadInt(IntBytes(i)) == i
  {
    WordRead(if i < 0 then i + WORD else i);
  }

  // ---------------------------------------------------------------- packets

  function HeaderBytes(p: Packet): (bs: Bytes)
    ensures |bs| == HEADER
  {
    SIGNATURE + [0] + WordBytes(p.identifier) + IntBytes(p.number) + IntBytes(p.count) + IntBytes(|p.data|)
  }

  /** toByteArray. */
  function ToBytes(p: Packet): (bs: Bytes)
    ensures |bs| == HEADER + |p.data|
  {
    HeaderBytes(p) + p.data
  }

  function Quad(a: int, b: int, c: int, d: int): int { 0x100_0000 * a + 0x1_0000 * b + 0x100 * c + d }

  /** The four bytes make the number, most significant byte first. */
  predicate Spells(bs: Bytes, at: nat, w: int)
    requires at + 4 <= |bs|
  {
    Quad(bs[at], bs[at + 1], bs[at + 2], bs[at + 3]) == w
  }

  lemma WordSpelt(w: Word)
    ensures Spells(WordBytes(w), 0, w)
  {
    WordRead(w);
  }

  lemma FieldsInPlace(p: Packet)
    ensures var bs := ToBytes(p);
      && bs[..8] == SIGNATURE + [0] && bs[24..] == p.data
      && bs[8..12] == WordBytes(p.identifier) && bs[12..16] == IntBytes(p.number)
      && bs[16..20] == IntBytes(p.count) && bs[20..24] == IntBytes(|p.data|)
  {
  }

  lemma TwosComplement(i: Int32)
    ensures 0 <= i % WORD < WORD && IntBytes(i) == WordBytes(i % WORD)
  {
  }

  /** The fields of the header: the signature with its zero, identifier, number, count and size, in network order and
      two's complement, and the data behind them. */
  lemma PacketLayout(p: Packet)
    ensures var bs := ToBytes(p);
      && bs[..8] == [108, 100, 112, 48, 48, 48, 50, 0] && bs[24..] == p.data
      && Spells(bs, 8, p.identifier) && Spells(bs, 12, p.number % WORD) && Spells(bs, 16, p.count % WORD)
      && Spells(bs, 20, |p.data|)
  {
    var bs := ToBytes(p);
    FieldsInPlace(p);
    TwosComplement(p.number);
    TwosComplement(p.count);
    FieldSpelt(bs, 8, p.identifier);
    FieldSpelt(bs, 12, p.number % WORD);
    FieldSpelt(bs, 16, p.count % WORD);
    FieldSpelt(bs, 20, |p.data|);
  }

  lemma FieldSpelt(bs: Bytes, at: nat, w: Word)
    requires at + 4 <= |bs| && bs[at..at + 4] == WordBytes(w)
    ensures Spells(bs, at, w)
  {
    WordSpelt(w);
    var four := bs[at..at + 4];
    assert four[0] == bs[at] && four[1] == bs[at + 1] && four[2] == bs[at + 2] && four[3] == bs[at + 3];
  }

  /** packetSize: a field that the bytes do not reach is read as zero. */
  function PacketSize(bs: Bytes): int {
    if |bs| < HEADER then HEADER else HEADER + ReadInt(bs[20..24])
  }

  /** fromByteArray, for the bytes of one whole packet. */
  function FromBytes(bs: Bytes): Packet
    requires HEADER <= |bs| <= HEADER + MAX_DATA_SIZE
  {
    Packet(ReadWord(bs[8..12]), ReadInt(bs[12..16]), ReadInt(bs[16..20]), bs[24..])
  }

  predicate OccursAt(bs: Bytes, pattern: Bytes, j: nat) {
    j + |pattern| <= |bs| && bs[j..j + |pattern|] == pattern
  }

  lemma OccursShift(bs: Bytes, pattern: Bytes, j: nat)
    requires bs != []
    ensures OccursAt(bs[1..], pattern, j) <==> OccursAt(bs, pattern, j + 1)
  {
    if j + 1 + |pattern| <= |bs| {
      assert bs[1..][j..j + |pattern|] == bs[j + 1..j + 1 + |pattern|];
    }
  }

  /** QByteArray::indexOf: the first place of a pattern, or -1. */
  function IndexOf(bs: Bytes, pattern: Bytes): (i: int)
    ensures -1 <= i
    ensures i >= 0 ==> OccursAt(bs, pattern, i)
    ensures forall j: nat :: j < i || i == -1 ==> !OccursAt(bs, pattern, j)
  {
    if |bs| < |pattern| then -1
    else if bs[..|pattern|] == pattern then 0
    else
      var i := IndexOf(bs[1..], pattern);
      assert forall j: nat :: j > 0 && OccursAt(bs, pattern, j) ==> OccursAt(bs[1..], pattern, j - 1) by {
        forall j: nat | j > 0 ensures OccursAt(bs, pattern, j) ==> OccursAt(bs[1..], pattern, j - 1) {
          OccursShift(bs, pattern, j - 1);
        }
      }
      if i == -1 then -1 else
        OccursShift(bs, pattern, i);
        i + 1
  }

  /** The fields of a header, wherever the packet ends. */
  lemma HeaderFields(p: Packet, rest: Bytes)
    ensures var bs := HeaderBytes(p) + rest;
      && bs[..7] == SIGNATURE && bs[8..12] == WordBytes(p.identifier) && bs[12..16] == IntBytes(p.number)
      && bs[16..20] == IntBytes(p.count) && bs[20..24] == IntBytes(|p.data|) && bs[24..] == rest
  {
    var bs := HeaderBytes(p) + rest;
    assert bs == SIGNATURE + [0] + WordBytes(p.identifier) + IntBytes(p.number) + IntBytes(p.count)
                 + IntBytes(|p.data|) + rest;
  }

  /** Reading a packet gives back the packet. */
  lemma PacketRoundTrip(p: Packet)
    ensures FromBytes(ToBytes(p)) == p
  {
    HeaderFields(p, p.data);
    WordRead(p.identifier);
    IntRead(p.number);
    IntRead(p.count);
  }

  /** At the front of the buffer a packet is recognised and its size known, whatever follows it. */
  lemma PacketInFront(p: Packet, rest: Bytes)
    ensures IndexOf(ToBytes(p) + rest, SIGNATURE) == 0
    ensures PacketSize(ToBytes(p) + rest) == |ToBytes(p)|
    ensures (ToBytes(p) + rest)[..|ToBytes(p)|] == ToBytes(p) && (ToBytes(p) + rest)[|ToBytes(p)|..] == rest
  {
    assert ToBytes(p) + rest == HeaderBytes(p) + (p.data + rest);
    HeaderFields(p, p.data + rest);
    IntRead(|p.data|);
  }

  /** The size is known as soon as the header is there. */
  lemma SizeKnown(p: Packet, n: nat)
    requires HEADER <= n <= |ToBytes(p)|
    ensures IndexOf(ToBytes(p)[..n], SIGNATURE) == 0
    ensures PacketSize(ToBytes(p)[..n]) == |ToBytes(p)|
  {
    assert ToBytes(p)[..n] == HeaderBytes(p) + p.data[..n - HEADER];
    HeaderFields(p, p.data[..n - HEADER]);
    IntRead(|p.data|);
  }
}
