/** The Redis client: the line of text that a command is typed as, the request that is sent for it, and the replies
    that are read. */
module Redis {
  import opened Basics
  import opened QtText

  // ---------------------------------------------------------------- splitting a line into parts

  /** QChar::isSpace. */
  predicate IsSpace(c: char) {
    c == ' ' || '\t' <= c <= '\r' || c == '\U{85}' || c == '\U{A0}' || c == '\U{1680}' || '\U{2000}' <= c <= '\U{200A}'
    || c == '\U{2028}' || c == '\U{2029}' || c == '\U{202F}' || c == '\U{205F}' || c == '\U{3000}'
  }

  /** The parts so far, the part in progress, and whether a quote is open. */
  datatype Scan = Scan(parts: seq<string>, buffer: string, open: bool)

  const START := Scan([], "", false)

  /** One turn of the loop: the new state, and how many characters it takes. */
  function Turn(s: string, k: nat, st: Scan): (Scan, nat)
    requires k < |s|
  {
    var c := s[k];
    if st.open then
      var next := if k + 1 < |s| then s[k + 1] else ' ';
      if c == '\\' && next == '"' then (st.(buffer := st.buffer + "\""), 2)
      else if c == '"' then (st.(open := false), 1)
      else (st.(buffer := st.buffer + [c]), 1)
    else if !IsSpace(c) then
      if c == '"' then (st.(open := true), 1) else (st.(buffer := st.buffer + [c]), 1)
    else if st.buffer != "" then (Scan(st.parts + [st.buffer], "", false), 1)
    else (st, 1)
  }

  function ScanFrom(s: string, k: nat, st: Scan): Scan
    decreases |s| - k
  {
    if k >= |s| then st
    else
      var (st', n) := Turn(s, k, st);
      ScanFrom(s, k + n, st')
  }

  /** The buffer that is left at the end is a part too. */
  function Finish(st: Scan): seq<string> { if st.buffer != "" then st.parts + [st.buffer] else st.parts }

  function Tokenise(s: string): seq<string> { Finish(ScanFrom(s, 0, START)) }

  // ---------------------------------------------------------------- the request

  const CRLF := "\r\n"

  /** A character, a number and a line end. */
  function Size(c: char, n: nat): string { [c] + Decimal(n) + CRLF }

  function Bulk(p: string): string { Size('$', |p|) + p + CRLF }

  function Bulks(ps: seq<string>): string { if ps == [] then "" else Bulk(ps[0]) + Bulks(ps[1..]) }

  function Command(ps: seq<string>): string { Size('*', |ps|) + Bulks(ps) }

  lemma BulksNext(bin: string, ps: seq<string>, i: nat)
    requires i < |ps|
    ensures bin + Bulks(ps[i..]) == (bin + Bulk(ps[i])) + Bulks(ps[i + 1..])
  {
    assert ps[i..][0] == ps[i] && ps[i..][1..] == ps[i + 1..];
  }

  // ---------------------------------------------------------------- the reply

  /** QString::toInt of the text from lo to hi, for digits with an optional minus sign. */
  function ToInt(s: string, lo: nat, hi: nat): int
    requires lo <= hi <= |s|
  {
    if lo < hi && 0 <= Number(s, lo, hi) <= INT_MAX then Number(s, lo, hi)
    else if lo + 1 < hi && s[lo] == '-' && 0 <= Number(s, lo + 1, hi) <= INT_MAX + 1 then 0 - Number(s, lo + 1, hi)
    else 0
  }

  /** Where QString::mid(pos, n) starts and ends in a text of some size; a negative n means "to the end". */
  function MidStart(size: nat, pos: int): (lo: nat)
    ensures lo <= size
  {
    if pos < 0 then 0 else if pos > size then size else pos
  }

  function MidEnd(size: nat, pos: int, n: int): (hi: nat)
    ensures MidStart(size, pos) <= hi <= size
  {
    var lo := MidStart(size, pos);
    if n < 0 || pos + n > size then size else if pos + n < lo then lo else pos + n
  }

  function MidAt(s: string, pos: int, n: int): string { s[MidStart(|s|, pos)..MidEnd(|s|, pos, n)] }

  function MidNumber(s: string, pos: int, n: int): int { ToInt(s, MidStart(|s|, pos), MidEnd(|s|, pos, n)) }

  /** The first line end at or after a position, or -1. */
  function LineEnd(s: string, from: nat): (i: int)
    ensures i == -1 || from <= i < |s| - 1
    decreases |s| - from
  {
    if from + 1 >= |s| then -1
    else if s[from] == '\r' && s[from + 1] == '\n' then from
    else LineEnd(s, from + 1)
  }

  lemma {:induction false} LineEndIs(s: string, from: nat, i: nat)
    requires from <= i < |s| - 1 && s[i] == '\r' && s[i + 1] == '\n'
    requires forall j :: from <= j < i ==> s[j] != '\r'
    ensures LineEnd(s, from) == i
    decreases i - from
  {
    if from < i {
      LineEndIs(s, from + 1, i);
    }
  }

  /** QString::indexOf from a position; one before the start counts from the end. */
  function LineEndAt(s: string, pos: int): int {
    LineEnd(s, if pos >= 0 then pos else if pos + |s| >= 0 then pos + |s| else 0)
  }

  /** Where the next element of a list starts, and what it is. */
  function Element(reply: string, pos: int): (int, string) {
    var index := LineEndAt(reply, pos);
    var len := MidNumber(reply, pos + 1, index - pos - 1);
    (index + 2 + len + 2, if len == -1 then "NULL" else MidAt(reply, index + 2, len))
  }

  /** Taking count elements, each where the one before ends, behind those read already. */
  function Collect(read: seq<string>, pos: int, count: int, element: int -> (int, string)): seq<string>
    decreases count
  {
    if count <= 0 then read
    else
      var (next, x) := element(pos);
      Collect(read + [x], next, count - 1, element)
  }

  lemma CollectStep(read: seq<string>, pos: int, count: int, element: int -> (int, string), next: int, x: string)
    requires count > 0 && element(pos) == (next, x)
    ensures Collect(read, pos, count, element) == Collect(read + [x], next, count - 1, element)
  {
  }

  /** The elements of a list. */
  function Elements(reply: string, pos: int, count: int): seq<string> {
    Collect(["list"], pos, count, p => Element(reply, p))
  }

  /** QString::chop. */
  function Chopped(s: string, n: nat): string { if n > |s| then "" else s[..|s| - n] }

  /** What readLine emits; nothing for an empty reply. */
  function Response(reply: string): (r: seq<string>)
    requires reply != ""
  {
    var value := Chopped(reply[1..], 2);
    var index := LineEnd(reply, 0);
    var number := MidNumber(reply, 1, index - 1);
    match reply[0]
    case '+' => ["string", value]
    case '-' => ["error", value]
    case ':' => ["integer", value]
    case '$' => ["bulk", if number == -1 then "NULL" else MidAt(reply, index + 2, number)]
    case '*' => Elements(reply, index + 2, number)
    case _ => []
  }

  // ---------------------------------------------------------------- the object

  class Reader {
    var reading: bool
    /** The text written to the socket. */
    var sent: string
    /** The signals with the replies. */
    var responses: seq<seq<string>>

    constructor ()
      ensures !reading && sent == "" && responses == []
    {
      reading, sent, responses := false, "", [];
    }

    method SendData(data: string)
      modifies this`sent
      ensures sent == if reading then old(sent) + Command(Tokenise(data)) else old(sent)
    {
      if !reading {
        return;
      }
      var parts := SplitLine(data);
      var bin := Encode(parts);
      sent := sent + bin;
    }

    static method Encode(parts: seq<string>) returns (bin: string)
      ensures bin == Command(parts)
    {
      bin := "*" + Decimal(|parts|) + CRLF;
      var i := 0;
      while i < |parts|
        invariant 0 <= i <= |parts| && bin + Bulks(parts[i..]) == Command(parts)
      {
        BulksNext(bin, parts, i);
        bin := bin + ("$" + Decimal(|parts[i]|) + CRLF + parts[i] + CRLF);
        i := i + 1;
      }
      assert bin + "" == bin;
    }

    static method SplitLine(test: string) returns (parts: seq<string>)
      ensures parts == Tokenise(test)
    {
      parts := [];
      var buffer, open, k := "", false, 0;
      while k < |test|
        invariant k >= 0 && ScanFrom(test, k, Scan(parts, buffer, open)) == ScanFrom(test, 0, START)
        decreases |test| - k
      {
        var c := test[k];
        if open {
          var next := if k < |test| - 1 then test[k + 1] else ' ';
          if c == '\\' && next == '"' {
            buffer := buffer + "\"";
            k := k + 1;
          } else if c == '"' {
            open := false;
          } else {
            buffer := buffer + [c];
          }
        } else {
          if !IsSpace(c) {
            if c == '"' {
              open := true;
            } else {
              buffer := buffer + [c];
            }
          } else if buffer != "" {
            parts := parts + [buffer];
            buffer := "";
          }
        }
        k := k + 1;
      }
      if buffer != "" {
        parts := parts + [buffer];
      }
    }

    method ReadLine(reply: string)
      modifies this`responses
      ensures responses == if reply == "" then old(responses) else old(responses) + [Response(reply)]
    {
      if reply == "" {
        return;
      }
      var result: seq<string> := [];
      if reply[0] == '+' {
        result := ["string", Chopped(reply[1..], 2)];
      } else if reply[0] == '-' {
        result := ["error", Chopped(reply[1..], 2)];
      } else if reply[0] == ':' {
        result := ["integer", Chopped(reply[1..], 2)];
      } else if reply[0] == '$' {
        var index := LineEnd(reply, 0);
        var len := MidNumber(reply, 1, index - 1);
        result := ["bulk", if len == -1 then "NULL" else MidAt(reply, index + 2, len)];
      } else if reply[0] == '*' {
        result := ReadList(reply);
      }
      responses := responses + [result];
    }

    static method ReadList(reply: string) returns (result: seq<string>)
      ensures var index := LineEnd(reply, 0);
        result == Elements(reply, index + 2, MidNumber(reply, 1, index - 1))
    {
      var index := LineEnd(reply, 0);
      var count := MidNumber(reply, 1, index - 1);
      result := ReadElements(index + 2, count, p => Element(reply, p));
    }

    /** The loop over the elements of a list; the caller says what is at a place. */
    static method ReadElements(start: int, count: int, element: int -> (int, string)) returns (result: seq<string>)
      ensures result == Collect(["list"], start, count, element)
    {
      var pos, i := start, 0;
      result := ["list"];
      ghost var left := count;
      while i < count
        invariant i >= 0 && left == count - i
        invariant Collect(result, pos, left, element) == Collect(["list"], start, count, element)
      {
        var (next, x) := element(pos);
        CollectStep(result, pos, left, element, next, x);
        result, pos := result + [x], next;
        i, left := i + 1, left - 1;
      }
    }
  }

  // ---------------------------------------------------------------- decoding what was encoded

  lemma ReadsText(s: string, pos: nat, t: string)
    requires Reads(s, pos, t)
    ensures s[pos..pos + |t|] == t
  {
  }

  lemma {:induction false} NumberRead(s: string, pos: nat, n: nat)
    requires Reads(s, pos, Decimal(n))
    ensures Number(s, pos, pos + |Decimal(n)|) == n
  {
    if n >= 10 {
      ReadsSplit(s, pos, Decimal(n / 10), ['0' + (n % 10) as char]);
      NumberRead(s, pos, n / 10);
    }
    assert Decimal(n)[|Decimal(n)| - 1] == s[pos + |Decimal(n)| - 1];
  }

  lemma SizeRead(s: string, pos: nat, c: char, n: nat)
    requires c != '\r' && n <= INT_MAX && Reads(s, pos, Size(c, n))
    ensures LineEnd(s, pos) == pos + 1 + |Decimal(n)|
    ensures pos + 1 + |Decimal(n)| <= |s| && ToInt(s, pos + 1, pos + 1 + |Decimal(n)|) == n
  {
    var d := Decimal(n);
    var end := pos + 1 + |d|;
    ReadsSplit(s, pos, [c] + d, CRLF);
    ReadsSplit(s, pos, [c], d);
    assert [c][0] == s[pos] && CRLF[0] == s[end] && CRLF[1] == s[end + 1];
    forall j | pos <= j < end ensures s[j] != '\r' {
      if j > pos {
        assert d[j - pos - 1] == s[pos + 1 + (j - pos - 1)] && IsDigit(d[j - pos - 1]);
      }
    }
    LineEndIs(s, pos, end);
    NumberRead(s, pos + 1, n);
  }

  lemma BulkSplit(s: string, pos: nat, p: string)
    requires Reads(s, pos, Bulk(p))
    ensures Reads(s, pos, Size('$', |p|)) && Reads(s, pos + |Size('$', |p|)|, p)
  {
    ReadsSplit(s, pos, Size('$', |p|) + p, CRLF);
    ReadsSplit(s, pos, Size('$', |p|), p);
  }

  /** The element at a place, once its line end and its size are known. */
  lemma ElementAt(reply: string, pos: nat, end: nat, len: nat)
    requires LineEnd(reply, pos) == end && pos + 1 <= end && end + 2 + len <= |reply|
    requires ToInt(reply, pos + 1, end) == len
    ensures Element(reply, pos) == (end + 2 + len + 2, reply[end + 2..end + 2 + len])
  {
  }

  /** Wherever a bulk string is, it is read back, and the reader stands behind it. */
  lemma BulkRead(reply: string, pos: nat, p: string)
    requires |p| <= INT_MAX && Reads(reply, pos, Bulk(p))
    ensures Element(reply, pos) == (pos + |Bulk(p)|, p)
  {
    BulkSplit(reply, pos, p);
    SizeRead(reply, pos, '$', |p|);
    ElementAt(reply, pos, pos + 1 + |Decimal(|p|)|, |p|);
    ReadsText(reply, pos + |Size('$', |p|)|, p);
  }

  lemma ListAtStart(reply: string, end: nat, head: nat, count: nat)
    requires head == end + 2 && LineEnd(reply, 0) == end && 1 <= end < |reply|
    requires ToInt(reply, 1, end) == count && reply[0] == '*'
    ensures Response(reply) == Elements(reply, head, count)
  {
  }

  /** So does decoding a single bulk string. */
  lemma BulkRoundTrip(p: string)
    requires |p| <= INT_MAX
    ensures Response(Bulk(p)) == ["bulk", p]
  {
    var reply, end := Bulk(p), 1 + |Decimal(|p|)|;
    ReadsItself(reply);
    BulkSplit(reply, 0, p);
    BulkAlone(reply, end, p);
  }

  lemma BulkAlone(reply: string, end: nat, p: string)
    requires |p| <= INT_MAX && end == 1 + |Decimal(|p|)|
    requires Reads(reply, 0, Size('$', |p|)) && Reads(reply, |Size('$', |p|)|, p)
    ensures Response(reply) == ["bulk", p]
  {
    SizeRead(reply, 0, '$', |p|);
    SizeFirst('$', |p|);
    ReadsFirst(reply, 0, Size('$', |p|), 0);
    BulkAtStart(reply, end, |p|);
    ReadsText(reply, end + 2, p);
  }

  lemma BulkAtStart(reply: string, end: nat, len: nat)
    requires LineEnd(reply, 0) == end && 1 <= end && end + 2 + len <= |reply|
    requires ToInt(reply, 1, end) == len && reply[0] == '$'
    ensures Response(reply) == ["bulk", reply[end + 2..end + 2 + len]]
  {
  }

  // ---------------------------------------------------------------- lists with null elements

  /** An element of a list in a reply. */
  datatype Item = Null | Text(text: string)

  const NULL_ITEM := "$-1\r\n"

  function ItemBytes(x: Item): string { if x.Null? then NULL_ITEM else Bulk(x.text) }

  function BytesOf(xs: seq<Item>): (ts: seq<string>)
    ensures |ts| == |xs| && forall i :: 0 <= i < |xs| ==> ts[i] == ItemBytes(xs[i])
  {
    seq(|xs|, i requires 0 <= i < |xs| => ItemBytes(xs[i]))
  }

  function Concat(ts: seq<string>): string { if ts == [] then "" else ts[0] + Concat(ts[1..]) }

  function ListReply(xs: seq<Item>): string { Size('*', |xs|) + Concat(BytesOf(xs)) }

  /** How an element is shown to the caller. */
  function Shown(x: Item): string { if x.Null? then "NULL" else x.text }

  function ShownAll(xs: seq<Item>): (ps: seq<string>)
    ensures |ps| == |xs| && forall i :: 0 <= i < |xs| ==> ps[i] == Shown(xs[i])
  {
    seq(|xs|, i requires 0 <= i < |xs| => Shown(xs[i]))
  }

  /** Every null is the last element or directly followed by an empty text. */
  predicate NullsFit(xs: seq<Item>) { forall i :: 0 <= i < |xs| - 1 && xs[i].Null? ==> xs[i + 1] == Text("") }

  predicate Sized(xs: seq<Item>) { forall i :: 0 <= i < |xs| && xs[i].Text? ==> |xs[i].text| <= INT_MAX }

  lemma NullSize(reply: string, pos: nat)
    requires Reads(reply, pos, NULL_ITEM)
    ensures pos + 5 <= |reply| && LineEnd(reply, pos) == LineEnd(reply, pos + 1) == pos + 3
    ensures ToInt(reply, pos + 1, pos + 3) == -1 && ToInt(reply, pos + 2, pos + 3) == 1
  {
    var t := NULL_ITEM;
    assert t[0] == reply[pos] && t[1] == reply[pos + 1] && t[2] == reply[pos + 2];
    assert t[3] == reply[pos + 3] && t[4] == reply[pos + 4];
    LineEndIs(reply, pos, pos + 3);
    LineEndIs(reply, pos + 1, pos + 3);
    assert Number(reply, pos + 1, pos + 2) == -1;
    assert Number(reply, pos + 2, pos + 3) == 1 by { assert Number(reply, pos + 2, pos + 2) == 0; }
  }

  /** Behind a null the reader stands one place too far. */
  lemma NullRead(reply: string, pos: nat)
    requires Reads(reply, pos, NULL_ITEM)
    ensures Element(reply, pos) == (pos + |NULL_ITEM| + 1, "NULL")
  {
    NullSize(reply, pos);
  }

  lemma {:induction false} TailNumber(s: string, pos: nat, n: nat)
    requires n > 0 && Reads(s, pos, Decimal(n))
    ensures 0 <= Number(s, pos + 1, pos + |Decimal(n)|) < n
  {
    if n >= 10 {
      ReadsSplit(s, pos, Decimal(n / 10), ['0' + (n % 10) as char]);
      TailNumber(s, pos, n / 10);
    }
    assert Decimal(n)[|Decimal(n)| - 1] == s[pos + |Decimal(n)| - 1];
  }

  /** One place too far, an empty text is still read as it is, and the reader stands behind it. */
  lemma EmptyReadLate(reply: string, pos: nat)
    requires Reads(reply, pos, Bulk(""))
    ensures Element(reply, pos + 1) == (pos + |Bulk("")|, "")
  {
    BulkSplit(reply, pos, "");
    SizeRead(reply, pos, '$', 0);
    LateLineEnd(reply, pos, pos + 2);
    assert |Size('$', 0)| == 4 && |Bulk("")| == 6;
    ElementAt(reply, pos + 1, pos + 2, 0);
    assert reply[pos + 4..pos + 4] == "";
  }

  lemma LateLineEnd(s: string, from: nat, end: nat)
    requires LineEnd(s, from) == end && from < end
    ensures LineEnd(s, from + 1) == end
  {
  }

  /** Any other text is read with a length that lacks its first digit. */
  lemma TextReadLate(reply: string, pos: nat, p: string)
    requires p != "" && |p| <= INT_MAX && Reads(reply, pos, Bulk(p))
    ensures Element(reply, pos + 1).1 != p
  {
    var d := Decimal(|p|);
    BulkSplit(reply, pos, p);
    ReadsSplit(reply, pos, ['$'] + d, CRLF);
    ReadsSplit(reply, pos, ['$'], d);
    SizeRead(reply, pos, '$', |p|);
    LateLineEnd(reply, pos, pos + 1 + |d|);
    TailNumber(reply, pos + 1, |p|);
    assert 0 <= MidNumber(reply, pos + 2, |d| - 1) < |p|;
  }

  /** So is a null. */
  lemma NullReadLate(reply: string, pos: nat)
    requires Reads(reply, pos, NULL_ITEM)
    ensures Element(reply, pos + 1).1 != "NULL"
  {
    NullSize(reply, pos);
  }

  /** What an element function says of the element x that stands between two places: at its start, and one place
      too far. */
  predicate ReadsItem(element: int -> (int, string), start: int, end: int, x: Item) {
    && element(start) == (if x.Null? then end + 1 else end, Shown(x))
    && (if x == Text("") then element(start + 1) == (end, "") else element(start + 1).1 != Shown(x))
  }

  lemma NullItemRead(reply: string, pos: nat, end: nat, element: int -> (int, string))
    requires Reads(reply, pos, NULL_ITEM) && end == pos + |NULL_ITEM|
    requires element(pos) == Element(reply, pos) && element(pos + 1) == Element(reply, pos + 1)
    ensures ReadsItem(element, pos, end, Null)
  {
    NullRead(reply, pos);
    NullReadLate(reply, pos);
  }

  lemma EmptyItemRead(reply: string, pos: nat, end: nat, element: int -> (int, string))
    requires Reads(reply, pos, Bulk("")) && end == pos + |Bulk("")|
    requires element(pos) == Element(reply, pos) && element(pos + 1) == Element(reply, pos + 1)
    ensures ReadsItem(element, pos, end, Text(""))
  {
    BulkRead(reply, pos, "");
    EmptyReadLate(reply, pos);
  }

  lemma TextItemRead(reply: string, pos: nat, end: nat, p: string, element: int -> (int, string))
    requires Reads(reply, pos, Bulk(p)) && end == pos + |Bulk(p)| && 0 < |p| <= INT_MAX
    requires element(pos) == Element(reply, pos) && element(pos + 1) == Element(reply, pos + 1)
    ensures ReadsItem(element, pos, end, Text(p))
  {
    BulkRead(reply, pos, p);
    TextReadLate(reply, pos, p);
  }

  /** Where texts start when they follow each other, and where the last one ends. */
  function Starts(pos: nat, ts: seq<string>): (r: seq<nat>)
    ensures |r| == |ts| + 1 && r[0] == pos
    decreases ts
  {
    if ts == [] then [pos] else [pos] + Starts(pos + |ts[0]|, ts[1..])
  }

  lemma {:induction false} TextOfMany(s: string, pos: nat, ts: seq<string>, i: nat)
    requires i < |ts| && Reads(s, pos, Concat(ts))
    ensures Reads(s, Starts(pos, ts)[i], ts[i])
    ensures Starts(pos, ts)[i + 1] == Starts(pos, ts)[i] + |ts[i]|
    decreases ts
  {
    ReadsSplit(s, pos, ts[0], Concat(ts[1..]));
    if i > 0 {
      TextOfMany(s, pos + |ts[0]|, ts[1..], i - 1);
    }
  }

  /** The function says at every place what the reply holds there. */
  ghost predicate IsReader(element: int -> (int, string), reply: string) {
    forall k :: element(k) == Element(reply, k)
  }

  lemma NullOrText(element: int -> (int, string), at: int, end: int, x: Item)
    requires x.Null? ==> ReadsItem(element, at, end, Null)
    requires x.Text? ==> ReadsItem(element, at, end, Text(x.text))
    ensures ReadsItem(element, at, end, x)
  {
  }

  lemma ItemRead(reply: string, at: nat, end: nat, x: Item, element: int -> (int, string))
    requires Reads(reply, at, ItemBytes(x)) && end == at + |ItemBytes(x)| && (x.Text? ==> |x.text| <= INT_MAX)
    requires IsReader(element, reply)
    ensures x.Null? ==> ReadsItem(element, at, end, Null)
    ensures x.Text? ==> ReadsItem(element, at, end, Text(x.text))
  {
    assert element(at) == Element(reply, at) && element(at + 1) == Element(reply, at + 1);
    if x.Null? {
      NullItemRead(reply, at, end, element);
    } else if x.text == "" {
      EmptyItemRead(reply, at, end, element);
    } else {
      TextItemRead(reply, at, end, x.text, element);
    }
  }

  lemma ItemOfList(reply: string, pos: nat, xs: seq<Item>, k: nat, element: int -> (int, string))
    requires k < |xs| && Sized(xs) && Reads(reply, pos, Concat(BytesOf(xs))) && IsReader(element, reply)
    ensures ReadsItem(element, Starts(pos, BytesOf(xs))[k], Starts(pos, BytesOf(xs))[k + 1], xs[k])
  {
    var starts := Starts(pos, BytesOf(xs));
    TextOfMany(reply, pos, BytesOf(xs), k);
    ItemRead(reply, starts[k], starts[k + 1], xs[k], element);
    NullOrText(element, starts[k], starts[k + 1], xs[k]);
  }

  /** What has been read stays in front. */
  lemma {:induction false} CollectKeeps(read: seq<string>, pos: int, count: int, element: int -> (int, string))
    ensures read <= Collect(read, pos, count, element)
    decreases count
  {
    if count > 0 {
      var (next, x) := element(pos);
      CollectKeeps(read + [x], next, count - 1, element);
    }
  }

  /** The elements from the i-th on, at their right places, come to what they mean. */
  predicate CollectsFrom(read: seq<string>, starts: seq<int>, xs: seq<Item>, element: int -> (int, string), i: nat)
    requires |starts| == |xs| + 1 && i <= |xs|
  {
    Collect(read, starts[i], |xs| - i, element) == read + ShownAll(xs[i..])
  }

  predicate FitsAt(xs: seq<Item>, i: nat)
    requires i < |xs|
  {
    xs[i].Null? && i + 1 < |xs| ==> xs[i + 1] == Text("")
  }

  lemma ShownNext(read: seq<string>, xs: seq<Item>, i: nat)
    requires i < |xs|
    ensures read + ShownAll(xs[i..]) == read + [Shown(xs[i])] + ShownAll(xs[i + 1..])
  {
    assert ShownAll(xs[i..]) == [Shown(xs[i])] + ShownAll(xs[i + 1..]);
  }

  /** A null and an element behind it that is not an empty text: it is misread. */
  lemma MisreadBehindNull(read: seq<string>, starts: seq<int>, xs: seq<Item>, element: int -> (int, string), i: nat)
    requires |starts| == |xs| + 1 && i + 1 < |xs| && xs[i].Null? && xs[i + 1] != Text("")
    requires ReadsItem(element, starts[i], starts[i + 1], xs[i])
    requires ReadsItem(element, starts[i + 1], starts[i + 2], xs[i + 1])
    ensures !CollectsFrom(read, starts, xs, element, i)
  {
    var (next, x) := element(starts[i + 1] + 1);
    CollectStep(read, starts[i], |xs| - i, element, starts[i + 1] + 1, "NULL");
    CollectStep(read + ["NULL"], starts[i + 1] + 1, |xs| - i - 1, element, next, x);
    CollectKeeps(read + ["NULL"] + [x], next, |xs| - i - 2, element);
    assert (read + ["NULL"] + [x])[|read| + 1] == x;
    assert (read + ShownAll(xs[i..]))[|read| + 1] == Shown(xs[i + 1]);
  }

  /** A null and an empty text behind it are read as they are. */
  lemma EmptyBehindNull(read: seq<string>, starts: seq<int>, xs: seq<Item>, element: int -> (int, string), i: nat)
    requires |starts| == |xs| + 1 && i + 1 < |xs| && xs[i].Null? && xs[i + 1] == Text("")
    requires ReadsItem(element, starts[i], starts[i + 1], xs[i])
    requires ReadsItem(element, starts[i + 1], starts[i + 2], xs[i + 1])
    ensures CollectsFrom(read, starts, xs, element, i) <==>
      CollectsFrom(read + ["NULL"] + [""], starts, xs, element, i + 2)
  {
    CollectStep(read, starts[i], |xs| - i, element, starts[i + 1] + 1, "NULL");
    CollectStep(read + ["NULL"], starts[i + 1] + 1, |xs| - i - 1, element, starts[i + 2], "");
    ShownNext(read, xs, i);
    ShownNext(read + ["NULL"], xs, i + 1);
  }

  /** A text, or a null at the end. */
  lemma OneItem(read: seq<string>, starts: seq<int>, xs: seq<Item>, element: int -> (int, string), i: nat)
    requires |starts| == |xs| + 1 && i < |xs| && (xs[i].Text? || i + 1 == |xs|)
    requires ReadsItem(element, starts[i], starts[i + 1], xs[i])
    ensures CollectsFrom(read, starts, xs, element, i) <==>
      CollectsFrom(read + [Shown(xs[i])], starts, xs, element, i + 1)
  {
    var next := if xs[i].Null? then starts[i + 1] + 1 else starts[i + 1];
    CollectStep(read, starts[i], |xs| - i, element, next, Shown(xs[i]));
    ShownNext(read, xs, i);
  }

  /** The elements are read back exactly when every null fits. */
  lemma {:induction false} ItemsRead(read: seq<string>, starts: seq<int>, xs: seq<Item>,
                                     element: int -> (int, string), i: nat)
    requires |starts| == |xs| + 1 && i <= |xs|
    requires forall k :: 0 <= k < |xs| ==> ReadsItem(element, starts[k], starts[k + 1], xs[k])
    ensures CollectsFrom(read, starts, xs, element, i) <==> forall k :: i <= k < |xs| ==> FitsAt(xs, k)
    decreases |xs| - i
  {
    if i == |xs| {
      assert read + ShownAll(xs[i..]) == read;
    } else if xs[i].Text? || i + 1 == |xs| {
      OneItem(read, starts, xs, element, i);
      ItemsRead(read + [Shown(xs[i])], starts, xs, element, i + 1);
      assert FitsAt(xs, i);
    } else if xs[i + 1] == Text("") {
      EmptyBehindNull(read, starts, xs, element, i);
      ItemsRead(read + ["NULL"] + [""], starts, xs, element, i + 2);
      assert FitsAt(xs, i) && FitsAt(xs, i + 1);
    } else {
      MisreadBehindNull(read, starts, xs, element, i);
      assert !FitsAt(xs, i);
    }
  }

  lemma FitsEverywhere(xs: seq<Item>)
    ensures NullsFit(xs) <==> forall k :: 0 <= k < |xs| ==> FitsAt(xs, k)
  {
    if forall k :: 0 <= k < |xs| ==> FitsAt(xs, k) {
      forall i | 0 <= i < |xs| - 1 && xs[i].Null? ensures xs[i + 1] == Text("") {
        assert FitsAt(xs, i);
      }
    }
  }

  lemma AllItemsRead(reply: string, pos: nat, xs: seq<Item>, element: int -> (int, string))
    requires Sized(xs) && Reads(reply, pos, Concat(BytesOf(xs))) && IsReader(element, reply)
    ensures Collect(["list"], pos, |xs|, element) == ["list"] + ShownAll(xs) <==> NullsFit(xs)
  {
    var starts := Starts(pos, BytesOf(xs));
    forall k | 0 <= k < |xs| ensures ReadsItem(element, starts[k], starts[k + 1], xs[k]) {
      ItemOfList(reply, pos, xs, k, element);
    }
    ItemsRead(["list"], starts, xs, element, 0);
    FitsEverywhere(xs);
    assert xs[0..] == xs;
  }

  lemma ElementsRead(reply: string, pos: nat, xs: seq<Item>)
    requires Sized(xs) && Reads(reply, pos, Concat(BytesOf(xs)))
    ensures Elements(reply, pos, |xs|) == ["list"] + ShownAll(xs) <==> NullsFit(xs)
  {
    AllItemsRead(reply, pos, xs, p => Element(reply, p));
  }

  lemma ListSplit(n: nat, rest: string)
    requires n <= INT_MAX
    ensures var reply, head := Size('*', n) + rest, |Size('*', n)|;
      && LineEnd(reply, 0) == head - 2 && reply[0] == '*'
      && head <= |reply| && ToInt(reply, 1, head - 2) == n
      && Reads(reply, head, rest)
  {
    var reply := Size('*', n) + rest;
    ReadsItself(reply);
    ReadsSplit(reply, 0, Size('*', n), rest);
    SizeRead(reply, 0, '*', n);
    SizeFirst('*', n);
    ReadsFirst(reply, 0, Size('*', n), 0);
  }

  lemma ReadsItself(s: string)
    ensures Reads(s, 0, s)
  {
  }

  lemma SizeFirst(c: char, n: nat)
    ensures |Size(c, n)| > 0 && Size(c, n)[0] == c
  {
  }

  /** A list is decoded as it was meant exactly when every null in it is last or directly followed by an empty
      text. */
  lemma ListRoundTrip(xs: seq<Item>)
    requires |xs| <= INT_MAX && Sized(xs)
    ensures Response(ListReply(xs)) == ["list"] + ShownAll(xs) <==> NullsFit(xs)
  {
    var head := |Size('*', |xs|)|;
    ListSplit(|xs|, Concat(BytesOf(xs)));
    ListAtStart(ListReply(xs), head - 2, head, |xs|);
    ElementsRead(ListReply(xs), head, xs);
  }

  /** A list with a null before a text that is not empty is misread; with the null at the end it is not. */
  lemma NullElementMisread()
    ensures Response(ListReply([Null, Text("a")])) != ["list", "NULL", "a"]
    ensures Response(ListReply([Text("a"), Null])) == ["list", "a", "NULL"]
  {
    var first, last := [Null, Text("a")], [Text("a"), Null];
    ListRoundTrip(first);
    ListRoundTrip(last);
    assert first[0].Null? && first[1] != Text("");
    ShownTwo(Null, Text("a"));
    ShownTwo(Text("a"), Null);
  }

  lemma ShownTwo(x: Item, y: Item)
    ensures ["list"] + ShownAll([x, y]) == ["list", Shown(x), Shown(y)]
  {
  }

  function Texts(ps: seq<string>): (xs: seq<Item>)
    ensures |xs| == |ps| && forall i :: 0 <= i < |ps| ==> xs[i] == Text(ps[i])
  {
    seq(|ps|, i requires 0 <= i < |ps| => Text(ps[i]))
  }

  lemma {:induction false} BulksAreItems(ps: seq<string>)
    ensures Concat(BytesOf(Texts(ps))) == Bulks(ps)
  {
    if ps != [] {
      BulksAreItems(ps[1..]);
      assert BytesOf(Texts(ps))[1..] == BytesOf(Texts(ps[1..]));
    }
  }

  /** Decoding the encoded command gives back the parts, whatever characters they hold. */
  lemma CommandRoundTrip(ps: seq<string>)
    requires |ps| <= INT_MAX && forall i :: 0 <= i < |ps| ==> |ps[i]| <= INT_MAX
    ensures Response(Command(ps)) == ["list"] + ps
  {
    BulksAreItems(ps);
    ListRoundTrip(Texts(ps));
    assert ShownAll(Texts(ps)) == ps;
  }

  /** A status, an error and a number are read as the text between their first character and the line end. */
  lemma LineReplies(value: string)
    ensures Response("+" + value + "\r\n") == ["string", value]
    ensures Response("-" + value + "\r\n") == ["error", value]
    ensures Response(":" + value + "\r\n") == ["integer", value]
  {
    OneLine('+', value);
    OneLine('-', value);
    OneLine(':', value);
  }

  lemma OneLine(c: char, value: string)
    ensures var reply := [c] + value + "\r\n"; reply[0] == c && Chopped(reply[1..], 2) == value
  {
    assert ([c] + value + "\r\n")[1..] == value + "\r\n";
  }

  /** The request for a command of two parts, written out for short parts. */
  lemma CommandText(a: string, b: string)
    requires |a| < 10 && |b| < 10
    ensures Command([a, b]) == "*2\r\n" + Bulk(a) + Bulk(b)
    ensures forall p :: p == a || p == b ==> Bulk(p) == "$" + ['0' + |p| as char] + "\r\n" + p + "\r\n"
  {
    assert Decimal(2) == "2" && Size('*', 2) == "*2\r\n";
    assert [a, b][1..] == [b] && [b][1..] == [];
    assert Bulks([b]) == Bulk(b) + "" == Bulk(b);
    assert "*2\r\n" + Bulk(a) + Bulk(b) == "*2\r\n" + (Bulk(a) + Bulk(b));
  }

  // ---------------------------------------------------------------- splitting what was quoted

  /** The text with a backslash before every quote. */
  function Escaped(p: string): string {
    if p == "" then "" else (if p[0] == '"' then "\\\"" else [p[0]]) + Escaped(p[1..])
  }

  /** With the closing quote. */
  function Closed(p: string): string { Escaped(p) + "\"" }

  function Quoted(p: string): string { "\"" + Closed(p) }

  /** Quoted parts, each behind a space. */
  function Following(ps: seq<string>): string {
    if ps == [] then "" else " " + Quoted(ps[0]) + Following(ps[1..])
  }

  /** The quoted parts with a space between. */
  function Line(ps: seq<string>): string { if ps == [] then "" else Quoted(ps[0]) + Following(ps[1..]) }

  predicate EndsInBackslash(p: string) { p != "" && p[|p| - 1] == '\\' }

  /** What the scanner makes of a quoted part: a backslash at its end takes the closing quote for an escaped one. */
  function Unquoted(p: string): string { if EndsInBackslash(p) then p[..|p| - 1] + "\"" else p }

  lemma ReadsFirst(s: string, k: nat, t: string, i: nat)
    requires Reads(s, k, t) && i < |t|
    ensures s[k + i] == t[i]
  {
  }

  /** What is written for the first character of a part, and what follows. */
  lemma EscapedSplit(p: string)
    requires p != ""
    ensures var e := if p[0] == '"' then "\\\"" else [p[0]];
      Closed(p) == e + Closed(p[1..]) && |Escaped(p)| == |e| + |Escaped(p[1..])|
  {
    var e := if p[0] == '"' then "\\\"" else [p[0]];
    assert Escaped(p) == e + Escaped(p[1..]);
  }

  /** A closed part never starts with a quote that is not its end. */
  lemma ClosedFirst(p: string)
    ensures |Closed(p)| > 0 && (Closed(p)[0] == '"' <==> p == "")
  {
  }

  lemma TurnByOne(s: string, k: nat, st: Scan, p: string)
    requires st.open && p != "" && p != "\\" && p[0] != '"' && Reads(s, k, [p[0]] + Closed(p[1..]))
    ensures k < |s| && Turn(s, k, st) == (st.(buffer := st.buffer + [p[0]]), 1)
  {
    var t := [p[0]] + Closed(p[1..]);
    ReadsFirst(s, k, t, 0);
    ReadsFirst(s, k, t, 1);
    ClosedFirst(p[1..]);
    assert t[1] == Closed(p[1..])[0];
  }

  lemma TurnByTwo(s: string, k: nat, st: Scan, rest: string)
    requires st.open && Reads(s, k, "\\\"" + rest)
    ensures k + 1 < |s| && Turn(s, k, st) == (st.(buffer := st.buffer + "\""), 2)
  {
    var t := "\\\"" + rest;
    ReadsFirst(s, k, t, 0);
    ReadsFirst(s, k, t, 1);
  }

  /** One character of a quoted part, unless it is a backslash before the closing quote. */
  lemma TurnInQuotes(s: string, k: nat, st: Scan, p: string)
    requires st.open && Reads(s, k, Closed(p)) && p != "" && p != "\\"
    ensures var n := if p[0] == '"' then 2 else 1;
      && k + n <= |s| && Turn(s, k, st) == (st.(buffer := st.buffer + [p[0]]), n)
      && |Escaped(p)| == n + |Escaped(p[1..])| && Reads(s, k + n, Closed(p[1..]))
  {
    var e := if p[0] == '"' then "\\\"" else [p[0]];
    EscapedSplit(p);
    ReadsSplit(s, k, e, Closed(p[1..]));
    if p[0] == '"' {
      TurnByTwo(s, k, st, Closed(p[1..]));
    } else {
      TurnByOne(s, k, st, p);
    }
  }

  /** The end of a quoted part. */
  lemma TurnAtQuote(s: string, k: nat, st: Scan, p: string)
    requires st.open && Reads(s, k, p + "\"") && (p == "" || p == "\\")
    ensures k < |s|
    ensures p == "" ==> Turn(s, k, st) == (st.(open := false), 1)
    ensures p != "" ==> Turn(s, k, st) == (st.(buffer := st.buffer + "\""), 2)
  {
    ReadsFirst(s, k, p + "\"", 0);
    if p != "" {
      ReadsFirst(s, k, p + "\"", 1);
    }
  }

  /** A quoted part, from behind its first quote: `end` is the place behind it, and `after` the state there. */
  lemma {:induction false} ScanQuoted(s: string, k: nat, st: Scan, p: string, end: nat, after: Scan)
    requires st.open && Reads(s, k, Closed(p)) && end == k + |Escaped(p)| + 1
    requires after == st.(buffer := st.buffer + Unquoted(p), open := EndsInBackslash(p))
    ensures ScanFrom(s, k, st) == ScanFrom(s, end, after)
    decreases |p|
  {
    if p == "" {
      TurnAtQuote(s, k, st, p);
      assert st.buffer + "" == st.buffer;
      ScanStep(s, k, st, after, 1, end);
    } else if p == "\\" {
      assert Escaped(p) == p;
      TurnAtQuote(s, k, st, p);
      assert Unquoted(p) == "\"";
      ScanStep(s, k, st, after, 2, end);
    } else {
      var n, next := if p[0] == '"' then 2 else 1, st.(buffer := st.buffer + [p[0]]);
      TurnInQuotes(s, k, st, p);
      UnquotedTail(p);
      Appended(st.buffer, [p[0]], Unquoted(p[1..]));
      ScanQuoted(s, k + n, next, p[1..], end, after);
      ScanStep(s, k, st, next, n, k + n);
    }
  }

  lemma ScanStep(s: string, k: nat, st: Scan, next: Scan, n: nat, end: nat)
    requires k < |s| && Turn(s, k, st) == (next, n) && end == k + n
    ensures ScanFrom(s, k, st) == ScanFrom(s, end, next)
  {
  }

  lemma UnquotedTail(p: string)
    requires p != "" && p != "\\"
    ensures EndsInBackslash(p) == EndsInBackslash(p[1..])
    ensures Unquoted(p) == [p[0]] + Unquoted(p[1..])
  {
  }

  /** A part that is in progress ends up at the front of the next part. */
  lemma {:induction false} ScanExtends(s: string, k: nat, st: Scan)
    ensures st.parts <= Finish(ScanFrom(s, k, st))
    ensures st.buffer != "" ==>
      var ps := Finish(ScanFrom(s, k, st)); |ps| > |st.parts| && st.buffer <= ps[|st.parts|]
    decreases |s| - k
  {
    if k < |s| {
      var (st', n) := Turn(s, k, st);
      ScanExtends(s, k + n, st');
    }
  }

  predicate NoEmptyPart(ps: seq<string>) { forall i :: 0 <= i < |ps| ==> ps[i] != "" }

  lemma {:induction false} ScanNonEmpty(s: string, k: nat, st: Scan)
    requires NoEmptyPart(st.parts)
    ensures NoEmptyPart(Finish(ScanFrom(s, k, st)))
    decreases |s| - k
  {
    if k < |s| {
      var (st', n) := Turn(s, k, st);
      ScanNonEmpty(s, k + n, st');
    }
  }

  predicate Good(p: string) { p != "" && !EndsInBackslash(p) }

  predicate AllGood(ps: seq<string>) { forall i :: 0 <= i < |ps| ==> Good(ps[i]) }

  /** A quoted part stands at this place and ends before another. */
  predicate QuotedAt(s: string, k: nat, p: string, end: nat) {
    k < |s| && s[k] == '"' && Reads(s, k + 1, Closed(p)) && end == k + |Escaped(p)| + 2
  }

  lemma QuotedSplit(s: string, k: nat, p: string)
    requires Reads(s, k, Quoted(p))
    ensures QuotedAt(s, k, p, k + |Quoted(p)|)
  {
    ReadsSplit(s, k, "\"", Closed(p));
    ReadsFirst(s, k, "\"", 0);
  }

  lemma FollowingSplit(s: string, k: nat, ps: seq<string>) returns (end: nat)
    requires ps != [] && Reads(s, k, Following(ps))
    ensures k < |s| && s[k] == ' ' && QuotedAt(s, k + 1, ps[0], end) && Reads(s, end, Following(ps[1..]))
    ensures end + |Following(ps[1..])| == k + |Following(ps)|
  {
    ReadsSplit(s, k, " " + Quoted(ps[0]), Following(ps[1..]));
    ReadsSplit(s, k, " ", Quoted(ps[0]));
    ReadsFirst(s, k, " ", 0);
    QuotedSplit(s, k + 1, ps[0]);
    end := k + 1 + |Quoted(ps[0])|;
  }

  /** A quoted part, from its first quote. */
  lemma ScanPart(s: string, k: nat, acc: seq<string>, p: string, end: nat, after: Scan)
    requires QuotedAt(s, k, p, end) && after == Scan(acc, Unquoted(p), EndsInBackslash(p))
    ensures ScanFrom(s, k, Scan(acc, "", false)) == ScanFrom(s, end, after)
  {
    var within := Scan(acc, "", true);
    assert "" + Unquoted(p) == Unquoted(p);
    ScanQuoted(s, k + 1, within, p, end, after);
    ScanStep(s, k, Scan(acc, "", false), within, 1, k + 1);
  }

  /** A space behind a part that is finished starts a new part. */
  lemma ScanSpace(s: string, k: nat, acc: seq<string>, buffer: string)
    requires k < |s| && s[k] == ' ' && buffer != ""
    ensures ScanFrom(s, k, Scan(acc, buffer, false)) == ScanFrom(s, k + 1, Scan(acc + [buffer], "", false))
  {
    ScanStep(s, k, Scan(acc, buffer, false), Scan(acc + [buffer], "", false), 1, k + 1);
  }

  /** Parts that are not empty and do not end in a backslash come back as they were. */
  lemma {:induction false} ScanGood(s: string, k: nat, acc: seq<string>, buffer: string, ps: seq<string>)
    requires AllGood(ps) && buffer != "" && Reads(s, k, Following(ps)) && k + |Following(ps)| == |s|
    ensures Finish(ScanFrom(s, k, Scan(acc, buffer, false))) == acc + [buffer] + ps
    decreases |ps|
  {
    if ps == [] {
      assert acc + [buffer] + ps == acc + [buffer];
    } else {
      var p := ps[0];
      assert Good(p);
      var end := FollowingSplit(s, k, ps);
      ScanSpace(s, k, acc, buffer);
      ScanPart(s, k + 1, acc + [buffer], p, end, Scan(acc + [buffer], p, false));
      ScanGood(s, end, acc + [buffer], p, ps[1..]);
      assert acc + [buffer] + [p] + ps[1..] == acc + [buffer] + ps;
    }
  }

  /** A part that ends in a backslash comes back with a quote in the place of the backslash. */
  lemma ScanBadPart(s: string, k: nat, acc: seq<string>, p: string, end: nat)
    requires QuotedAt(s, k, p, end) && EndsInBackslash(p)
    ensures var ts := Finish(ScanFrom(s, k, Scan(acc, "", false)));
      |ts| > |acc| && |ts[|acc|]| >= |p| && ts[|acc|][|p| - 1] == '"'
  {
    var after := Scan(acc, Unquoted(p), true);
    ScanPart(s, k, acc, p, end, after);
    ScanExtends(s, end, after);
    assert Unquoted(p)[|p| - 1] == '"';
  }

  /** So a list with such a part does not come back. */
  lemma {:induction false} ScanBad(s: string, k: nat, acc: seq<string>, buffer: string, ps: seq<string>, j: nat)
    requires buffer != "" && Reads(s, k, Following(ps))
    requires j < |ps| && (forall i :: 0 <= i < j ==> Good(ps[i])) && EndsInBackslash(ps[j])
    ensures Finish(ScanFrom(s, k, Scan(acc, buffer, false))) != acc + [buffer] + ps
    decreases j
  {
    var p := ps[0];
    var end := FollowingSplit(s, k, ps);
    ScanSpace(s, k, acc, buffer);
    if j == 0 {
      ScanBadPart(s, k + 1, acc + [buffer], p, end);
      assert (acc + [buffer] + ps)[|acc| + 1] == p;
    } else {
      assert Good(p);
      ScanPart(s, k + 1, acc + [buffer], p, end, Scan(acc + [buffer], p, false));
      ScanBad(s, end, acc + [buffer], p, ps[1..], j - 1);
      assert acc + [buffer] + [p] + ps[1..] == acc + [buffer] + ps;
    }
  }

  /** The first part that ends in a backslash, when no part is empty. */
  lemma FirstBad(ps: seq<string>) returns (j: nat)
    requires NoEmptyPart(ps) && !AllGood(ps)
    ensures j < |ps| && (forall i :: 0 <= i < j ==> Good(ps[i])) && EndsInBackslash(ps[j])
  {
    j := 0;
    while j < |ps| && Good(ps[j])
      invariant j <= |ps| && forall i :: 0 <= i < j ==> Good(ps[i])
    {
      j := j + 1;
    }
  }

  /** The line, from its start: the first part, and what follows it. */
  lemma LineSplit(ps: seq<string>) returns (end: nat)
    requires ps != []
    ensures QuotedAt(Line(ps), 0, ps[0], end)
    ensures Reads(Line(ps), end, Following(ps[1..])) && end + |Following(ps[1..])| == |Line(ps)|
  {
    end := |Quoted(ps[0])|;
    ReadsSplit(Line(ps), 0, Quoted(ps[0]), Following(ps[1..]));
    QuotedSplit(Line(ps), 0, ps[0]);
  }

  lemma GoodLine(ps: seq<string>)
    requires AllGood(ps)
    ensures Tokenise(Line(ps)) == ps
  {
    if ps != [] {
      assert Good(ps[0]);
      var end := LineSplit(ps);
      ScanPart(Line(ps), 0, [], ps[0], end, Scan([], ps[0], false));
      ScanGood(Line(ps), end, [], ps[0], ps[1..]);
      assert [] + [ps[0]] + ps[1..] == ps;
    }
  }

  lemma BadFirst(s: string, ps: seq<string>, end: nat)
    requires ps != [] && QuotedAt(s, 0, ps[0], end) && EndsInBackslash(ps[0])
    ensures Tokenise(s) != ps
  {
    ScanBadPart(s, 0, [], ps[0], end);
  }

  lemma BadLater(s: string, ps: seq<string>, j: nat, end: nat)
    requires 0 < j < |ps| && (forall i :: 0 <= i < j ==> Good(ps[i])) && EndsInBackslash(ps[j])
    requires QuotedAt(s, 0, ps[0], end) && Reads(s, end, Following(ps[1..]))
    ensures Tokenise(s) != ps
  {
    var p, rest := ps[0], ps[1..];
    assert Good(p);
    ScanPart(s, 0, [], p, end, Scan([], p, false));
    ScanBad(s, end, [], p, rest, j - 1);
    assert [] + [p] + rest == ps;
  }

  lemma BadLine(ps: seq<string>, j: nat)
    requires j < |ps| && (forall i :: 0 <= i < j ==> Good(ps[i])) && EndsInBackslash(ps[j])
    ensures Tokenise(Line(ps)) != ps
  {
    var end := LineSplit(ps);
    if j == 0 {
      BadFirst(Line(ps), ps, end);
    } else {
      BadLater(Line(ps), ps, j, end);
    }
  }

  /** Splitting the quoted and joined parts gives back the parts exactly when none is empty or ends in a
      backslash. */
  lemma QuoteRoundTrip(ps: seq<string>)
    ensures Tokenise(Line(ps)) == ps <==> AllGood(ps)
  {
    ScanNonEmpty(Line(ps), 0, START);
    if AllGood(ps) {
      GoodLine(ps);
    } else if NoEmptyPart(ps) {
      var j := FirstBad(ps);
      BadLine(ps, j);
    }
  }

  // ---------------------------------------------------------------- splitting what was typed

  /** A piece of a part: plain characters, or a text in quotes. */
  datatype Piece = Plain(text: string) | Quote(text: string)

  /** A part of a line: the white space before it, and its pieces, one right behind the other. */
  datatype Part = Part(gap: string, pieces: seq<Piece>)

  predicate IsBlank(t: string) { forall i :: 0 <= i < |t| ==> IsSpace(t[i]) }

  predicate IsPlain(t: string) { forall i :: 0 <= i < |t| ==> !IsSpace(t[i]) && t[i] != '"' }

  /** A text in quotes may contain anything, but not end in a backslash. */
  predicate GoodPiece(x: Piece) { if x.Plain? then IsPlain(x.text) else !EndsInBackslash(x.text) }

  predicate GoodPieces(xs: seq<Piece>) { xs == [] || (GoodPiece(xs[0]) && GoodPieces(xs[1..])) }

  predicate GoodPart(p: Part) { IsBlank(p.gap) && GoodPieces(p.pieces) }

  /** Parts with white space between. */
  predicate GoodParts(ps: seq<Part>) {
    (forall i :: 0 <= i < |ps| ==> GoodPart(ps[i])) && forall i :: 0 < i < |ps| ==> ps[i].gap != ""
  }

  function PieceTyped(x: Piece): string { if x.Plain? then x.text else Quoted(x.text) }

  function PiecesTyped(xs: seq<Piece>): string {
    if xs == [] then "" else PieceTyped(xs[0]) + PiecesTyped(xs[1..])
  }

  /** The line, as it is typed. */
  function LineTyped(ps: seq<Part>, tail: string): string {
    if ps == [] then tail else ps[0].gap + (PiecesTyped(ps[0].pieces) + LineTyped(ps[1..], tail))
  }

  /** What the pieces say, put together. */
  function Meaning(xs: seq<Piece>): string { if xs == [] then "" else xs[0].text + Meaning(xs[1..]) }

  /** What the parts say; one that says nothing does not count. */
  function Meanings(ps: seq<Part>): seq<string> {
    if ps == [] then [] else Said(Meaning(ps[0].pieces)) + Meanings(ps[1..])
  }

  function Said(word: string): seq<string> { if word == "" then [] else [word] }

  lemma ReadsNext(s: string, k: nat, t: string)
    requires Reads(s, k, t) && t != ""
    ensures k < |s| && s[k] == t[0] && Reads(s, k + 1, t[1..])
  {
    ReadsFirst(s, k, t, 0);
    assert t == [t[0]] + t[1..];
    ReadsSplit(s, k, [t[0]], t[1..]);
  }

  /** White space ends the part in progress. */
  lemma {:induction false} ScanBlank(s: string, k: nat, st: Scan, t: string)
    requires !st.open && Reads(s, k, t) && IsBlank(t)
    ensures ScanFrom(s, k, st) == ScanFrom(s, k + |t|, if t == "" then st else Scan(Finish(st), "", false))
    decreases |t|
  {
    if t != "" {
      var next := Scan(Finish(st), "", false);
      ReadsNext(s, k, t);
      ScanStep(s, k, st, next, 1, k + 1);
      ScanBlank(s, k + 1, next, t[1..]);
    }
  }

  lemma {:induction false} ScanPlain(s: string, k: nat, st: Scan, t: string)
    requires !st.open && Reads(s, k, t) && IsPlain(t)
    ensures ScanFrom(s, k, st) == ScanFrom(s, k + |t|, st.(buffer := st.buffer + t))
    decreases |t|
  {
    if t == "" {
      assert st.buffer + t == st.buffer;
    } else {
      var next := st.(buffer := st.buffer + [t[0]]);
      ReadsNext(s, k, t);
      ScanStep(s, k, st, next, 1, k + 1);
      ScanPlain(s, k + 1, next, t[1..]);
      assert st.buffer + [t[0]] + t[1..] == st.buffer + t;
    }
  }

  lemma ScanPiece(s: string, k: nat, st: Scan, x: Piece)
    requires !st.open && Reads(s, k, PieceTyped(x)) && GoodPiece(x)
    ensures ScanFrom(s, k, st) == ScanFrom(s, k + |PieceTyped(x)|, st.(buffer := st.buffer + x.text))
  {
    if x.Plain? {
      ScanPlain(s, k, st, x.text);
    } else {
      var within := st.(open := true);
      QuotedSplit(s, k, x.text);
      ScanStep(s, k, st, within, 1, k + 1);
      ScanQuoted(s, k + 1, within, x.text, k + |Quoted(x.text)|, st.(buffer := st.buffer + x.text));
    }
  }

  /** The scanner comes from one place and state to another. */
  predicate Leads(s: string, k: nat, st: Scan, end: nat, after: Scan) { ScanFrom(s, k, st) == ScanFrom(s, end, after) }

  lemma PiecesSplit(s: string, k: nat, xs: seq<Piece>, first: string, rest: string)
    requires xs != [] && Reads(s, k, PiecesTyped(xs)) && first == PieceTyped(xs[0]) && rest == PiecesTyped(xs[1..])
    ensures Reads(s, k, first) && Reads(s, k + |first|, rest) && |PiecesTyped(xs)| == |first| + |rest|
  {
    assert PiecesTyped(xs) == first + rest;
    ReadsSplit(s, k, first, rest);
  }

  lemma FirstMeaning(st: Scan, xs: seq<Piece>, next: Scan)
    requires xs != [] && next == st.(buffer := st.buffer + xs[0].text)
    ensures st.(buffer := st.buffer + Meaning(xs)) == next.(buffer := next.buffer + Meaning(xs[1..]))
  {
    Appended(st.buffer, xs[0].text, Meaning(xs[1..]));
  }

  lemma FirstPiece(s: string, k: nat, st: Scan, x: Piece, mid: nat, next: Scan)
    requires !st.open && Reads(s, k, PieceTyped(x)) && GoodPiece(x)
    requires mid == k + |PieceTyped(x)| && next == st.(buffer := st.buffer + x.text)
    ensures Leads(s, k, st, mid, next)
  {
    ScanPiece(s, k, st, x);
  }

  lemma {:induction false} ScanPieces(s: string, k: nat, st: Scan, xs: seq<Piece>, end: nat, after: Scan)
    requires !st.open && Reads(s, k, PiecesTyped(xs)) && GoodPieces(xs)
    requires end == k + |PiecesTyped(xs)| && after == st.(buffer := st.buffer + Meaning(xs))
    ensures Leads(s, k, st, end, after)
    decreases |xs|
  {
    if xs == [] {
      assert st.buffer + "" == st.buffer;
    } else {
      var mid, next := k + |PieceTyped(xs[0])|, st.(buffer := st.buffer + xs[0].text);
      PiecesSplit(s, k, xs, PieceTyped(xs[0]), PiecesTyped(xs[1..]));
      FirstPiece(s, k, st, xs[0], mid, next);
      FirstMeaning(st, xs, next);
      ScanPieces(s, mid, next, xs[1..], end, after);
    }
  }

  lemma PartSplit(s: string, k: nat, p: Part, rest: string)
    requires Reads(s, k, p.gap + (PiecesTyped(p.pieces) + rest))
    ensures var mid := k + |p.gap|;
      var end := mid + |PiecesTyped(p.pieces)|;
      Reads(s, k, p.gap) && Reads(s, mid, PiecesTyped(p.pieces)) && Reads(s, end, rest)
  {
    ReadsSplit(s, k, p.gap, PiecesTyped(p.pieces) + rest);
    ReadsSplit(s, k + |p.gap|, PiecesTyped(p.pieces), rest);
  }

  /** One part, with the white space before it. */
  lemma ScanWhole(s: string, k: nat, st: Scan, p: Part, end: nat, after: Scan)
    requires !st.open && GoodPart(p) && (p.gap != "" || st.buffer == "")
    requires Reads(s, k, p.gap) && Reads(s, k + |p.gap|, PiecesTyped(p.pieces))
    requires end == k + |p.gap| + |PiecesTyped(p.pieces)| && after == Scan(Finish(st), Meaning(p.pieces), false)
    ensures Leads(s, k, st, end, after)
  {
    var clean := Scan(Finish(st), "", false);
    ScanBlank(s, k, st, p.gap);
    assert "" + Meaning(p.pieces) == Meaning(p.pieces);
    ScanPieces(s, k + |p.gap|, clean, p.pieces, end, after);
  }

  lemma MeaningsNext(read: seq<string>, ps: seq<Part>)
    requires ps != []
    ensures Finish(Scan(read, Meaning(ps[0].pieces), false)) + Meanings(ps[1..]) == read + Meanings(ps)
  {
    SaidNext(read, Meaning(ps[0].pieces), Meanings(ps[1..]));
  }

  lemma SaidNext(read: seq<string>, word: string, rest: seq<string>)
    ensures Finish(Scan(read, word, false)) + rest == read + (Said(word) + rest)
  {
    assert read + [] == read;
  }

  lemma LineLength(ps: seq<Part>, tail: string)
    requires ps != []
    ensures |LineTyped(ps, tail)|
         == |ps[0].gap| + |PiecesTyped(ps[0].pieces)| + |LineTyped(ps[1..], tail)|
  {
  }

  lemma {:induction false} ScanParts(s: string, k: nat, st: Scan, ps: seq<Part>, tail: string)
    requires !st.open && GoodParts(ps) && IsBlank(tail) && (ps != [] && ps[0].gap == "" ==> st.buffer == "")
    requires Reads(s, k, LineTyped(ps, tail)) && k + |LineTyped(ps, tail)| == |s|
    ensures Finish(ScanFrom(s, k, st)) == Finish(st) + Meanings(ps)
    decreases |ps|
  {
    if ps == [] {
      ScanBlank(s, k, st, tail);
      assert Finish(st) + [] == Finish(st);
    } else {
      var p, rest := ps[0], LineTyped(ps[1..], tail);
      var end, after := k + |p.gap| + |PiecesTyped(p.pieces)|, Scan(Finish(st), Meaning(p.pieces), false);
      LineLength(ps, tail);
      PartSplit(s, k, p, rest);
      ScanWhole(s, k, st, p, end, after);
      ScanParts(s, end, after, ps[1..], tail);
      MeaningsNext(Finish(st), ps);
    }
  }

  /** A line splits into what its parts say, whatever white space stands between, before and behind them:
      plain words come back as they are, quoted texts without their quotes, and pieces without white space
      between them as one part. */
  lemma LineSplits(ps: seq<Part>, tail: string)
    requires GoodParts(ps) && IsBlank(tail)
    ensures Tokenise(LineTyped(ps, tail)) == Meanings(ps)
  {
    var s := LineTyped(ps, tail);
    ReadsItself(s);
    ScanParts(s, 0, START, ps, tail);
    assert [] + Meanings(ps) == Meanings(ps);
  }

  /** The words that a line is made of. */
  function WordParts(gaps: seq<string>, words: seq<string>): (ps: seq<Part>)
    requires |gaps| == |words|
    ensures |ps| == |words| && forall i :: 0 <= i < |ps| ==> ps[i] == Part(gaps[i], [Plain(words[i])])
  {
    if words == [] then [] else [Part(gaps[0], [Plain(words[0])])] + WordParts(gaps[1..], words[1..])
  }

  lemma {:induction false} WordsMeant(gaps: seq<string>, words: seq<string>)
    requires |gaps| == |words| && NoEmptyPart(words)
    ensures Meanings(WordParts(gaps, words)) == words
  {
    if words != [] {
      WordsMeant(gaps[1..], words[1..]);
      assert Meaning([Plain(words[0])]) == words[0] + Meaning([]) == words[0];
      assert WordParts(gaps, words)[1..] == WordParts(gaps[1..], words[1..]);
      assert [words[0]] + words[1..] == words;
    }
  }

  /** Words without quotes, with any white space between, come back as they are. */
  lemma WordsSplit(gaps: seq<string>, words: seq<string>, tail: string)
    requires |gaps| == |words| && IsBlank(tail) && forall i :: 0 <= i < |gaps| ==> IsBlank(gaps[i])
    requires forall i :: 0 < i < |gaps| ==> gaps[i] != ""
    requires forall i :: 0 <= i < |words| ==> words[i] != "" && IsPlain(words[i])
    ensures Tokenise(LineTyped(WordParts(gaps, words), tail)) == words
  {
    var ps := WordParts(gaps, words);
    forall i | 0 <= i < |ps| ensures GoodPart(ps[i]) {
      assert GoodPiece(Plain(words[i])) && ps[i].pieces[1..] == [];
    }
    LineSplits(ps, tail);
    WordsMeant(gaps, words);
  }
}
