/** The Internet checksum of echo requests, and the request that carries it. */
module Icmp {
  import opened Basics

  const MODULUS := 65535

  /** A 16-bit word, least significant byte first. */
  function Word(low: int, high: int): int { low + 256 * high }

  /** The words of a packet added up; an odd last byte counts as it is. */
  function Sum(bs: Bytes): (s: nat)
    ensures s <= 65535 * ((|bs| + 1) / 2)
  {
    if bs == [] then 0 else if |bs| == 1 then bs[0] else Word(bs[0], bs[1]) + Sum(bs[2..])
  }

  /** Adding the upper half to the lower, twice; what is left in 16 bits. */
  function Folded(s: nat): (r: nat)
    ensures r < 65536
  {
    var once := s / 65536 + s % 65536;
    (once + once / 65536) % 65536
  }

  /** The complement in 16 bits. */
  function Checksum(bs: Bytes): (r: nat)
    ensures r < 65536
  {
    65535 - Folded(Sum(bs))
  }

  method AddWords(buffer: array<Byte>, size: nat) returns (cksum: nat)
    requires size <= buffer.Length
    ensures cksum == Sum(buffer[..size])
  {
    var at, left := 0, size;
    cksum := 0;
    while left > 1
      invariant at + left == size && cksum + Sum(buffer[at..size]) == Sum(buffer[..size])
    {
      assert buffer[at..size][2..] == buffer[at + 2..size];
      cksum := cksum + Word(buffer[at], buffer[at + 1]);
      at, left := at + 2, left - 2;
    }
    if left != 0 {
      cksum := cksum + buffer[at];
    }
  }

  /** ip_checksum. */
  method IpChecksum(buffer: array<Byte>, size: nat) returns (r: nat)
    requires size <= buffer.Length
    ensures r == Checksum(buffer[..size])
  {
    var cksum := AddWords(buffer, size);
    cksum := cksum / 65536 + cksum % 65536;
    cksum := cksum + cksum / 65536;
    r := 65535 - cksum % 65536;
  }

  /** A byte at an even place counts once, one at an odd place 256 times. */
  function Weight(i: nat): nat { if i % 2 == 0 then 1 else 256 }

  function Weighted(bs: Bytes, n: nat): nat
    requires n <= |bs|
  {
    if n == 0 then 0 else Weighted(bs, n - 1) + Weight(n - 1) * bs[n - 1]
  }

  lemma {:induction false} WeightedBehind(bs: Bytes, n: nat)
    requires 2 <= n <= |bs|
    ensures Weighted(bs, n) == bs[0] + 256 * bs[1] + Weighted(bs[2..], n - 2)
  {
    if n > 2 {
      WeightedBehind(bs, n - 1);
    } else {
      assert Weighted(bs, 1) == Weighted(bs, 0) + 1 * bs[0];
    }
  }

  /** The words are read least significant byte first, and an odd last byte as if a zero followed. */
  lemma {:induction false} SumByPlace(bs: Bytes)
    ensures Sum(bs) == Weighted(bs, |bs|)
  {
    if |bs| >= 2 {
      SumByPlace(bs[2..]);
      WeightedBehind(bs, |bs|);
    } else if |bs| == 1 {
      assert Weighted(bs, 1) == Weighted(bs, 0) + 1 * bs[0];
    }
  }

  // ---------------------------------------------------------------- arithmetic modulo 65535

  predicate Congruent(x: int, y: int) { x % MODULUS == y % MODULUS }

  lemma MultipleAdded(x: int, q: int)
    ensures Congruent(x + MODULUS * q, x)
  {
  }

  /** The sum after one fold, with the part above 16 bits added to it again. */
  function Second(s: nat): nat {
    var once := s / 65536 + s % 65536;
    once / 65536 + once % 65536
  }

  lemma SecondCongruent(s: nat)
    ensures Congruent(Second(s), s)
  {
    var h, l := s / 65536, s % 65536;
    var once := h + l;
    MultipleAdded(once, h);
    assert s == once + MODULUS * h;
    MultipleAdded(Second(s), once / 65536);
    assert once == Second(s) + MODULUS * (once / 65536);
  }

  lemma FoldedIsSecond(s: nat)
    ensures Folded(s) == Second(s) % 65536
  {
    var once := s / 65536 + s % 65536;
    var a, b := once / 65536, once % 65536;
    assert once + a == 65536 * a + (a + b);
  }

  /** Two folds keep the sum modulo 65535 exactly when what is left above 16 bits is a multiple of it. */
  lemma FoldsSuffice(s: nat)
    ensures Congruent(Folded(s), s) <==> Second(s) / 65536 % MODULUS == 0
  {
    SecondCongruent(s);
    FoldedIsSecond(s);
    var carry := Second(s) / 65536;
    assert Second(s) == Folded(s) + carry + MODULUS * carry;
    MultipleAdded(Folded(s) + carry, carry);
    SameWithout(Folded(s), carry);
  }

  lemma SameWithout(x: int, y: nat)
    ensures Congruent(x + y, x) <==> y % MODULUS == 0
  {
    var q := y / MODULUS;
    MultipleAdded(x + y % MODULUS, q);
    assert x + y == x + y % MODULUS + MODULUS * q;
  }

  /** Below 2^32 nothing is left. */
  lemma NoCarry(s: nat)
    requires s < 0x1_0000_0000
    ensures Second(s) < 65536 && Congruent(Folded(s), s) && (Folded(s) == 0 <==> s == 0)
  {
    FoldsSuffice(s);
  }

  /** The checksum is minus the sum of the words, modulo 65535. */
  lemma ChecksumCongruent(bs: Bytes)
    requires Sum(bs) < 0x1_0000_0000
    ensures Congruent(Sum(bs) + Checksum(bs), 0)
  {
    var s := Sum(bs);
    NoCarry(s);
    var q := s / MODULUS - Folded(s) / MODULUS;
    assert s == Folded(s) + MODULUS * q;
    MultipleAdded(0, q + 1);
  }

  // ---------------------------------------------------------------- storing the checksum

  /** A word in the place of two bytes. */
  function Stored(bs: Bytes, at: nat, word: nat): Bytes
    requires at + 1 < |bs| && word < 65536
  {
    bs[at := word % 256][at + 1 := word / 256]
  }

  /** Storing a word where there was none adds it to the sum. */
  lemma {:induction false} StoredSum(bs: Bytes, at: nat, word: nat)
    requires at % 2 == 0 && at + 1 < |bs| && word < 65536 && bs[at] == 0 && bs[at + 1] == 0
    ensures Sum(Stored(bs, at, word)) == Sum(bs) + word
    decreases at
  {
    var bs' := Stored(bs, at, word);
    if at == 0 {
      assert bs'[2..] == bs[2..];
    } else {
      StoredSum(bs[2..], at - 2, word);
      assert bs'[2..] == Stored(bs[2..], at - 2, word);
    }
  }

  /** A packet with its checksum stored in a word that was zero has the checksum zero. */
  lemma StoredChecksum(bs: Bytes, at: nat)
    requires at % 2 == 0 && at + 1 < |bs| && bs[at] == 0 && bs[at + 1] == 0 && Sum(bs) < 0x1_0000_0000
    ensures Checksum(Stored(bs, at, Checksum(bs))) == 0
  {
    var s, r := Sum(bs), Checksum(bs);
    StoredSum(bs, at, r);
    ChecksumCongruent(bs);
    SumOrChecksum(bs);
    StoredSumBounded(bs);
    NoCarry(s + r);
    FoldsToAllOnes(Folded(s + r));
  }

  /** 2^32 - 1 is a multiple of 65535, and no greater one can be reached. */
  lemma MultipleBelow(s: nat, r: nat)
    requires s <= 0xffff_ffff && r < 65536 && Congruent(s + r, 0) && (s == 0xffff_ffff ==> r == 0)
    ensures s + r <= 0xffff_ffff
  {
    var q := (s + r) / MODULUS;
    assert s + r == MODULUS * q;
    assert q <= 65537 || s == 0xffff_ffff;
  }

  lemma StoredSumBounded(bs: Bytes)
    requires Sum(bs) < 0x1_0000_0000
    ensures Sum(bs) + Checksum(bs) < 0x1_0000_0000
  {
    ChecksumCongruent(bs);
    LastSum(Sum(bs));
    MultipleBelow(Sum(bs), Checksum(bs));
  }

  lemma LastSum(s: nat)
    ensures s == 0xffff_ffff ==> Folded(s) == 65535
  {
  }

  lemma SumOrChecksum(bs: Bytes)
    requires Sum(bs) < 0x1_0000_0000
    ensures Sum(bs) + Checksum(bs) > 0
  {
    NoCarry(Sum(bs));
  }

  lemma FoldsToAllOnes(f: nat)
    requires 0 < f < 65536 && f % MODULUS == 0
    ensures f == 65535
  {
  }

  // ---------------------------------------------------------------- sending

  const HEADER := 8
  const ECHO := 8
  const MAX_PING_DATA_SIZE := 1024

  /** htons, as the two bytes that it stores. */
  function NetworkBytes(word: int): Bytes { [word / 256 % 256, word % 256] }

  /** The request before its checksum is known. */
  function Unsigned(ident: nat, number: nat, msg: Bytes): Bytes {
    [ECHO, 0, 0, 0] + NetworkBytes(ident) + NetworkBytes(number) + msg
  }

  /** The request that is sent. */
  function Request(ident: nat, number: nat, msg: Bytes): Bytes {
    var bs := Unsigned(ident, number, msg);
    Stored(bs, 2, Checksum(bs))
  }

  /** A 16-bit word in network order. */
  function NetworkWord(high: int, low: int): int { 256 * high + low }

  lemma NetworkOrder(word: nat)
    ensures var bs := NetworkBytes(word); |bs| == 2 && NetworkWord(bs[0], bs[1]) == word % 65536
  {
    assert word / 256 % 256 == word % 65536 / 256;
  }

  /** The request is written in the order of the header: what it is, the checksum, whose it is and which one. */
  lemma RequestLayout(ident: nat, number: nat, msg: Bytes)
    ensures var packet := Request(ident, number, msg);
      && |packet| == 8 + |msg| && packet[0] == 8 && packet[1] == 0 && packet[8..] == msg
      && NetworkWord(packet[4], packet[5]) == ident % 65536
      && NetworkWord(packet[6], packet[7]) == number % 65536
  {
    var packet := Request(ident, number, msg);
    NetworkOrder(ident);
    NetworkOrder(number);
    assert packet[4..8] == NetworkBytes(ident) + NetworkBytes(number);
    assert packet[4] == packet[4..8][0] && packet[5] == packet[4..8][1];
    assert packet[6] == packet[4..8][2] && packet[7] == packet[4..8][3];
  }

  /** A receiver that adds the words of the request finds no error. */
  lemma RequestIsGood(ident: nat, number: nat, msg: Bytes)
    requires |msg| <= MAX_PING_DATA_SIZE
    ensures Checksum(Request(ident, number, msg)) == 0
  {
    StoredChecksum(Unsigned(ident, number, msg), 2);
  }

  class IcmpSocket {
    var isOpen: bool
    const ident: nat
    var numSent: nat

    constructor (ident: nat)
      ensures !isOpen && numSent == 0 && this.ident == ident
    {
      this.ident, isOpen, numSent := ident, false, 0;
    }

    method Open()
      modifies this
      ensures isOpen && numSent == 0
    {
      isOpen, numSent := true, 0;
    }

    /** send: builds the request in a buffer of fixed size; `accepted` says whether the system takes it. */
    method Send(msg: Bytes, accepted: bool) returns (sent: bool, packet: Bytes)
      requires |msg| <= MAX_PING_DATA_SIZE
      modifies this`numSent
      ensures sent == (isOpen && accepted) && numSent == old(numSent) + if sent then 1 else 0
      ensures packet == if isOpen then Request(ident, old(numSent) + 1, msg) else []
    {
      if !isOpen {
        return false, [];
      }
      var data := new Byte[HEADER + MAX_PING_DATA_SIZE](_ => 0);
      var size := HEADER + |msg|;
      FillRequest(data, ident, numSent + 1, msg);
      var checksum := IpChecksum(data, size);
      ghost var unsigned := data[..size];
      data[2], data[3] := checksum % 256, checksum / 256;
      assert data[..size] == Stored(unsigned, 2, checksum);
      if accepted {
        numSent := numSent + 1;
      }
      return accepted, data[..size];
    }
  }

  method FillRequest(data: array<Byte>, ident: nat, number: nat, msg: Bytes)
    requires HEADER + |msg| <= data.Length
    modifies data
    ensures data[..HEADER + |msg|] == Unsigned(ident, number, msg)
  {
    data[0], data[1], data[2], data[3] := ECHO, 0, 0, 0;
    data[4], data[5] := ident / 256 % 256, ident % 256;
    data[6], data[7] := number / 256 % 256, number % 256;
    ghost var head := data[..HEADER];
    assert head == [ECHO, 0, 0, 0] + NetworkBytes(ident) + NetworkBytes(number);
    var i := 0;
    while i < |msg|
      invariant 0 <= i <= |msg| && data[..HEADER] == head && data[HEADER..HEADER + i] == msg[..i]
    {
      data[HEADER + i] := msg[i];
      i := i + 1;
    }
    assert data[..HEADER + |msg|] == data[..HEADER] + data[HEADER..HEADER + i];
  }
}
