/** The text of OLDI messages: the header every message carries, the data part of an STS
    message, and the acknowledgement (LAM) that quotes the header it answers. */
module OldiText {
  import opened QtText

  // ---------------------------------------------------------------- Qt string operations

  predicate IsSlash(c: char) { c == '/' }

  predicate NoDigits(s: string) { forall i :: 0 <= i < |s| ==> !IsDigit(s[i]) }

  /** Decimal digits, padded with zeros to three places. */
  function Padded(n: nat): (s: string)
    ensures |s| >= 3 && AllDigits(s)
    ensures |s| == 3 <==> n < 1000
  {
    var d := Decimal(n);
    if |d| == 1 then "00" + d else if |d| == 2 then "0" + d else d
  }

  /** QString::toUInt and toUShort: 0 for a text that is no number or is above the limit. */
  function ToNumber(s: string, limit: nat): nat {
    if s == "" || !AllDigits(s) || Value(s) > limit then 0 else Value(s)
  }

  const UINT16_MAX := 0xffff
  const UINT32_MAX := 0xffff_ffff

  lemma {:induction false} LeadingZero(s: string)
    requires AllDigits(s)
    ensures AllDigits("0" + s) && Value("0" + s) == Value(s)
  {
    if s == "" {
      assert "0"[..0] == "";
    } else {
      var t := s[..|s| - 1];
      LeadingZero(t);
      assert ("0" + s)[..|s|] == "0" + t;
    }
  }

  lemma ValueOfPadded(n: nat)
    ensures Value(Padded(n)) == n
  {
    ValueOfDecimal(n);
    var d := Decimal(n);
    LeadingZero(d);
    LeadingZero("0" + d);
    assert "0" + ("0" + d) == "00" + d;
  }

  lemma ThreeDigits(s: string)
    requires |s| == 3 && AllDigits(s)
    ensures Value(s) < 1000
  {
    var t := s[..2];
    var u := t[..1];
    assert Value(u) == (s[0] - '0') as nat by { assert u[..0] == ""; }
    assert Value(t) == 10 * Value(u) + (s[1] - '0') as nat;
  }

  // ---------------------------------------------------------------- dash-separated lists

  /** A non-empty word without a dash. */
  predicate Word(s: string) { s != "" && '-' !in s }

  predicate Words(ws: seq<string>) { forall i :: 0 <= i < |ws| ==> Word(ws[i]) }

  /** QString::split("-", SkipEmptyParts); acc is the part read so far. */
  function SplitFrom(s: string, acc: string): (ws: seq<string>)
    requires '-' !in acc
    ensures Words(ws)
  {
    if s == "" then (if acc == "" then [] else [acc])
    else if s[0] == '-' then (if acc == "" then [] else [acc]) + SplitFrom(s[1..], "")
    else SplitFrom(s[1..], acc + [s[0]])
  }

  function Split(s: string): (ws: seq<string>)
    ensures Words(ws)
  {
    SplitFrom(s, "")
  }

  /** Every part with a dash in front. */
  function Join(ws: seq<string>): string {
    if ws == [] then "" else "-" + ws[0] + Join(ws[1..])
  }

  lemma {:induction false} SplitWord(w: string, rest: string, acc: string)
    requires '-' !in w && '-' !in acc
    requires rest == "" || rest[0] == '-'
    ensures SplitFrom(w + rest, acc) == (if acc + w == "" then [] else [acc + w]) + Split(rest)
  {
    if w == "" {
      assert w + rest == rest && acc + w == acc;
      if rest != "" {
        assert Split(rest) == SplitFrom(rest[1..], "");
      }
    } else {
      assert (w + rest)[1..] == w[1..] + rest;
      assert acc + [w[0]] + w[1..] == acc + w;
      SplitWord(w[1..], rest, acc + [w[0]]);
    }
  }

  /** Splitting undoes joining. */
  lemma {:induction false} SplitJoin(ws: seq<string>)
    requires Words(ws)
    ensures Split(Join(ws)) == ws
  {
    if ws != [] {
      var rest := Join(ws[1..]);
      assert Join(ws)[1..] == ws[0] + rest;
      SplitWord(ws[0], rest, "");
      assert "" + ws[0] == ws[0];
      SplitJoin(ws[1..]);
    }
  }

  // ---------------------------------------------------------------- messages

  /** The part of a message that goes over the wire; `data` follows the number. */
  datatype Mes = Mes(kind: string, num: nat, from: string, to: string, data: string)

  const LAM := "LAM"
  const ERR := "ERR"
  const STS := "STS"

  /** A name as the protocol uses them: neither a digit nor a slash.  (A percent sign would also
      upset the program's printing, which substitutes numbered placeholders one by one.) */
  predicate Name(s: string) { s != "" && NoDigits(s) && '/' !in s && '%' !in s }

  function Text(m: Mes): string {
    "(" + m.kind + m.from + "/" + m.to + Padded(m.num) + m.data + ")"
  }

  const NO_MES := Mes("", 0, "", "", "")

  /** The fields of a header whose slash and whose first digit stand at the given places. */
  function Fields(s: string, slash: nat, digit: nat): Mes {
    var data := Mid(s, digit + 3, -1);
    Mes(Mid(s, 1, 3), ToNumber(Mid(s, digit, 3), UINT16_MAX), Mid(s, 4, slash - 4),
        Mid(s, slash + 1, digit - slash - 1), if data == "" then "" else data[..|data| - 1])
  }

  function ParseHeader(s: string): Mes {
    if |s| < 11 then NO_MES
    else
      var slash := Find(s, IsSlash);
      var digit := Find(s, IsDigit);
      if slash < 0 || digit < 0 then Mes(Mid(s, 1, 3), 0, "", "", "") else Fields(s, slash, digit)
  }

  lemma FindInConcat(a: string, b: string, p: char -> bool)
    requires b != "" && p(b[0]) && forall i :: 0 <= i < |a| ==> !p(a[i])
    ensures Find(a + b, p) == |a|
  {
    FindIs(a + b, p, |a|);
  }

  lemma MidLeft(a: string, b: string, pos: nat)
    requires pos <= |a|
    ensures Mid(a + b, pos, |a| - pos) == a[pos..]
  {
  }

  lemma MidRight(a: string, b: string, k: nat)
    requires k <= |b|
    ensures Mid(a + b, |a|, k) == b[..k]
    ensures Mid(a + b, |a| + k, -1) == b[k..]
  {
  }

  /** The printed message, cut before the slash and before the number. */
  lemma Regroup(kind: string, from: string, to: string, num: string, data: string)
    ensures var s := "(" + kind + from + "/" + to + num + data + ")";
      && s == ("(" + kind) + (from + "/" + to + num + data + ")")
      && s == ("(" + kind + from) + ("/" + to + num + data + ")")
      && s == ("(" + kind + from + "/" + to) + (num + data + ")")
  {
  }

  lemma TrimmedTail(num: string, data: string)
    requires |num| >= 3
    ensures (num + data + ")")[..3] == num[..3]
    ensures var t := (num + data + ")")[3..]; t != "" && t[..|t| - 1] == num[3..] + data
  {
  }

  lemma Positions(m: Mes)
    requires |m.kind| == 3 && NoDigits(m.kind) && '/' !in m.kind && Name(m.from) && Name(m.to)
    ensures Find(Text(m), IsSlash) == 4 + |m.from|
    ensures Find(Text(m), IsDigit) == 5 + |m.from| + |m.to|
  {
    var num := Padded(m.num);
    Regroup(m.kind, m.from, m.to, num, m.data);
    FindInConcat("(" + m.kind + m.from, "/" + m.to + num + m.data + ")", IsSlash);
    FindInConcat("(" + m.kind + m.from + "/" + m.to, num + m.data + ")", IsDigit);
  }

  lemma Names(m: Mes)
    requires |m.kind| == 3
    ensures Mid(Text(m), 1, 3) == m.kind && Mid(Text(m), 4, |m.from|) == m.from
    ensures Mid(Text(m), 5 + |m.from|, |m.to|) == m.to
  {
    var num := Padded(m.num);
    Regroup(m.kind, m.from, m.to, num, m.data);
    var x, y, z := "(" + m.kind, "(" + m.kind + m.from, "(" + m.kind + m.from + "/" + m.to;
    MidLeft(x, m.from + "/" + m.to + num + m.data + ")", 1);
    MidLeft(y, "/" + m.to + num + m.data + ")", 4);
    MidLeft(z, num + m.data + ")", 5 + |m.from|);
    assert x[1..] == m.kind && y[4..] == m.from && z[5 + |m.from|..] == m.to;
  }

  lemma NumberAndTail(m: Mes)
    requires |m.kind| == 3
    ensures var digit := 5 + |m.from| + |m.to|;
      var tail := Mid(Text(m), digit + 3, -1);
      && |Text(m)| >= digit + 4
      && Mid(Text(m), digit, 3) == Padded(m.num)[..3]
      && tail != "" && tail[..|tail| - 1] == Padded(m.num)[3..] + m.data
  {
    var num := Padded(m.num);
    Regroup(m.kind, m.from, m.to, num, m.data);
    MidRight("(" + m.kind + m.from + "/" + m.to, num + m.data + ")", 3);
    TrimmedTail(num, m.data);
  }

  lemma ParsedAt(s: string, slash: nat, digit: nat)
    requires |s| >= 11 && Find(s, IsSlash) == slash && Find(s, IsDigit) == digit
    ensures ParseHeader(s) == Fields(s, slash, digit)
  {
  }

  lemma FieldsOfText(m: Mes)
    requires |m.kind| == 3
    ensures Fields(Text(m), 4 + |m.from|, 5 + |m.from| + |m.to|)
         == Mes(m.kind, ToNumber(Padded(m.num)[..3], UINT16_MAX), m.from, m.to, Padded(m.num)[3..] + m.data)
  {
    Names(m);
    NumberAndTail(m);
  }

  lemma TextLong(m: Mes)
    requires |m.kind| == 3 && m.from != "" && m.to != ""
    ensures |Text(m)| >= 11
  {
  }

  lemma ParsedText(m: Mes)
    requires |m.kind| == 3 && NoDigits(m.kind) && '/' !in m.kind && Name(m.from) && Name(m.to)
    ensures ParseHeader(Text(m)) == Fields(Text(m), 4 + |m.from|, 5 + |m.from| + |m.to|)
  {
    Positions(m);
    TextLong(m);
    ParsedAt(Text(m), 4 + |m.from|, 5 + |m.from| + |m.to|);
  }

  /** What parsing makes of a printed message: only three places of the number are read. */
  lemma HeaderFields(m: Mes)
    requires |m.kind| == 3 && NoDigits(m.kind) && '/' !in m.kind && Name(m.from) && Name(m.to)
    ensures ParseHeader(Text(m)) == Mes(m.kind, ToNumber(Padded(m.num)[..3], UINT16_MAX), m.from, m.to,
                                        Padded(m.num)[3..] + m.data)
  {
    ParsedText(m);
    FieldsOfText(m);
  }

  /** Parsing undoes printing exactly for the numbers that fit the three places. */
  lemma HeaderRoundTrip(m: Mes)
    requires |m.kind| == 3 && NoDigits(m.kind) && '/' !in m.kind && Name(m.from) && Name(m.to)
    ensures ParseHeader(Text(m)) == m <==> m.num < 1000
  {
    HeaderFields(m);
    ValueOfPadded(m.num);
    var num := Padded(m.num);
    ThreeDigits(num[..3]);
    if m.num < 1000 {
      assert num[..3] == num && num[3..] + m.data == m.data;
    }
  }

  // ---------------------------------------------------------------- STS messages

  /** What an STS message says: a text "-client-sector-sector..." and a priority. */
  datatype Sts = Sts(num: nat, to: string, from: string, text: string, priority: nat)

  function StsMes(d: Sts): Mes {
    Mes(STS, d.num, d.from, d.to, "-" + Decimal(d.priority) + d.text)
  }

  function GetSts(m: Mes): Sts {
    var parts := Split(m.data);
    if parts == [] then Sts(m.num, m.to, m.from, "", 0)
    else Sts(m.num, m.to, m.from, Join(parts[1..]), ToNumber(parts[0], UINT32_MAX) % 0x1_0000)
  }

  lemma {:induction false} JoinAppend(ws: seq<string>, w: string)
    ensures Join(ws + [w]) == Join(ws) + "-" + w
  {
    if ws == [] {
      assert ws + [w] == [w] && Join([w]) == "-" + w + Join([]);
    } else {
      JoinAppend(ws[1..], w);
      assert (ws + [w])[1..] == ws[1..] + [w];
    }
  }

  /** GetDataSTS, as the loop that appends the parts. */
  method ReadSts(m: Mes) returns (d: Sts)
    ensures d == GetSts(m)
  {
    var parts := Split(m.data);
    d := Sts(m.num, m.to, m.from, "", 0);
    if |parts| > 0 {
      d := d.(priority := ToNumber(parts[0], UINT32_MAX) % 0x1_0000);
      var i := 1;
      while i < |parts|
        invariant 1 <= i <= |parts|
        invariant d == Sts(m.num, m.to, m.from, Join(parts[1..i]),
                           ToNumber(parts[0], UINT32_MAX) % 0x1_0000)
      {
        JoinAppend(parts[1..i], parts[i]);
        assert parts[1..i] + [parts[i]] == parts[1..i + 1];
        d := d.(text := d.text + "-" + parts[i]);
        i := i + 1;
      }
      assert parts[1..i] == parts[1..];
    }
  }

  lemma DecimalIsWord(n: nat)
    ensures Word(Decimal(n))
  {
    assert forall i :: 0 <= i < |Decimal(n)| ==> IsDigit(Decimal(n)[i]);
  }

  lemma NumberOfDecimal(n: nat, limit: nat)
    requires n <= limit
    ensures ToNumber(Decimal(n), limit) == n
  {
    ValueOfDecimal(n);
  }

  lemma StsWords(d: Sts, ws: seq<string>)
    requires Words(ws) && d.text == Join(ws)
    ensures Split(StsMes(d).data) == [Decimal(d.priority)] + ws
  {
    DecimalIsWord(d.priority);
    var all := [Decimal(d.priority)] + ws;
    assert all[1..] == ws;
    SplitJoin(all);
  }

  lemma StsParts(d: Sts, ws: seq<string>)
    requires d.priority <= UINT16_MAX && Words(ws) && d.text == Join(ws)
    ensures GetSts(StsMes(d)) == d
  {
    StsWords(d, ws);
    NumberOfDecimal(d.priority, UINT32_MAX);
    assert Split(StsMes(d).data)[1..] == ws;
  }

  lemma StsParses(d: Sts)
    requires d.num < 1000 && Name(d.from) && Name(d.to)
    ensures ParseHeader(Text(StsMes(d))) == StsMes(d)
  {
    HeaderRoundTrip(StsMes(d));
  }

  /** An STS message survives printing, the wire and parsing, and its text splits into the same words. */
  lemma StsRoundTrip(d: Sts, ws: seq<string>)
    requires d.num < 1000 && Name(d.from) && Name(d.to) && d.priority <= UINT16_MAX
    requires Words(ws) && d.text == Join(ws)
    ensures GetSts(ParseHeader(Text(StsMes(d)))) == d && Split(d.text) == ws
    ensures ParseHeader(Text(StsMes(d))).kind == STS
  {
    StsParses(d);
    StsParts(d, ws);
    SplitJoin(ws);
  }

  // ---------------------------------------------------------------- acknowledgement

  /** GetLAM: the answer to m, quoting m's header without its type. */
  function GetLam(m: Mes, num: nat): Mes {
    Mes(LAM, num, m.to, m.from, m.from + "/" + m.to + Padded(m.num))
  }

  /** isAnswer: does `reply` answer the pending message p? */
  predicate IsAnswer(p: Mes, reply: Mes) {
    && (reply.kind == ERR || reply.kind == LAM)
    && reply.from == p.to && reply.to == p.from
    && var quoted := ParseHeader("(LAM" + reply.data + ")");
       quoted.num == p.num && quoted.from == p.from && quoted.to == p.to
  }

  /** The error codes that the message learns from its answer. */
  function AnswerErrors(reply: Mes): seq<string> { Split(ParseHeader("(LAM" + reply.data + ")").data) }

  /** The error with the code 1, which turns m down; it quotes m's header as the acknowledgement does. */
  function GetErr(m: Mes, num: nat): Mes {
    Mes(ERR, num, m.to, m.from, m.from + "/" + m.to + Padded(m.num) + "-001")
  }

  datatype Key<N> = Key(num: nat, from: N, to: N)

  function KeyOf(m: Mes): Key<string> { Key(m.num, m.from, m.to) }

  lemma QuotedText(from: string, to: string, num: string, tail: string)
    ensures "(LAM" + (from + "/" + to + num + tail) + ")" == "(" + LAM + from + "/" + to + num + tail + ")"
  {
    assert "(LAM" == "(" + LAM;
  }

  lemma QuotedHeader(m: Mes, num: nat)
    requires Name(m.from) && Name(m.to) && m.num < 1000
    ensures ParseHeader("(LAM" + GetLam(m, num).data + ")") == Mes(LAM, m.num, m.from, m.to, "")
  {
    var quoted := Mes(LAM, m.num, m.from, m.to, "");
    HeaderRoundTrip(quoted);
    QuotedText(m.from, m.to, Padded(m.num), "");
    assert m.from + "/" + m.to + Padded(m.num) + "" == GetLam(m, num).data;
  }

  lemma LamParses(m: Mes, num: nat)
    requires Name(m.from) && Name(m.to) && num < 1000
    ensures ParseHeader(Text(GetLam(m, num))) == GetLam(m, num)
  {
    HeaderRoundTrip(GetLam(m, num));
  }

  /** The acknowledgement of m, sent over the wire, is accepted by m and by no message with
      another key. */
  lemma LamAnswersOnly(m: Mes, num: nat, p: Mes)
    requires Name(m.from) && Name(m.to) && m.num < 1000 && num < 1000
    ensures IsAnswer(p, ParseHeader(Text(GetLam(m, num)))) <==> KeyOf(p) == KeyOf(m)
  {
    LamParses(m, num);
    QuotedHeader(m, num);
  }

  /** m can be printed and quoted without loss. */
  predicate Quotable(m: Mes) { Name(m.from) && Name(m.to) && m.num < 1000 }

  /** The reply, sent over the wire, answers exactly the messages with the key of m. */
  ghost predicate AnswersOnly(reply: Mes, m: Mes) {
    forall p :: IsAnswer(p, ParseHeader(Text(reply))) <==> KeyOf(p) == KeyOf(m)
  }

  lemma Quoted(m: Mes, tail: string)
    requires Quotable(m)
    ensures ParseHeader("(LAM" + (m.from + "/" + m.to + Padded(m.num) + tail) + ")")
         == Mes(LAM, m.num, m.from, m.to, tail)
  {
    HeaderRoundTrip(Mes(LAM, m.num, m.from, m.to, tail));
    QuotedText(m.from, m.to, Padded(m.num), tail);
  }

  /** The error that turns m down is accepted by m, with the code 001, and by no message with another key. */
  lemma ErrAnswersOnly(m: Mes, num: nat)
    requires Quotable(m) && num < 1000
    ensures AnswersOnly(GetErr(m, num), m)
    ensures AnswerErrors(ParseHeader(Text(GetErr(m, num)))) == ["001"]
  {
    HeaderRoundTrip(GetErr(m, num));
    Quoted(m, "-001");
    SplitWord("001", "", "");
    assert "-001"[1..] == "001" + "" && "" + "001" == "001";
    assert Split("-001") == SplitFrom("-001"[1..], "");
  }

  /** The acknowledgement of m is accepted by m without an error. */
  lemma LamAnswers(m: Mes, num: nat)
    requires Quotable(m) && num < 1000
    ensures AnswersOnly(GetLam(m, num), m)
    ensures AnswerErrors(ParseHeader(Text(GetLam(m, num)))) == []
  {
    LamParses(m, num);
    QuotedHeader(m, num);
    forall p ensures IsAnswer(p, ParseHeader(Text(GetLam(m, num)))) <==> KeyOf(p) == KeyOf(m) {
      LamAnswersOnly(m, num, p);
    }
  }

  /** A message that quotes m, whatever follows, answers m exactly if it is a LAM or an ERR that goes
      from m's receiver to m's sender, and never answers a message with another key. */
  lemma QuotingAnswers(m: Mes, r: Mes, tail: string, p: Mes)
    requires Quotable(m) && Quotable(r) && |r.kind| == 3 && NoDigits(r.kind) && '/' !in r.kind
    requires r.data == m.from + "/" + m.to + Padded(m.num) + tail
    ensures IsAnswer(p, ParseHeader(Text(r)))
       <==> (r.kind == LAM || r.kind == ERR) && (r.from, r.to) == (m.to, m.from) && KeyOf(p) == KeyOf(m)
    ensures AnswerErrors(ParseHeader(Text(r))) == Split(tail)
  {
    HeaderRoundTrip(r);
    Quoted(m, tail);
  }

  // ---------------------------------------------------------------- the texts that the protocol describes

  lemma PaddedTwo(n: nat, a: nat, b: nat)
    requires n == 10 * a + b && 0 < a < 10 && b < 10
    ensures Padded(n) == ['0', '0' + a as char, '0' + b as char]
  {
    assert Decimal(a) == ['0' + a as char];
    assert Decimal(n) == Decimal(a) + ['0' + b as char];
  }

  /** A message is printed as its parts one after the other. */
  lemma Printed(m: Mes, num: string, head: string, wire: string)
    requires num == Padded(m.num) && head == "(" + m.kind + m.from + "/" + m.to + num
    requires wire == head + m.data + ")"
    ensures Text(m) == wire
  {
  }

  lemma StsWire(d: Sts)
    requires d == Sts(12, "FDP", "CWPA", "-CWPA-S1-S2", 0)
    ensures Text(StsMes(d)) == "(STSCWPA/FDP012-0-CWPA-S1-S2)"
  {
    StsData(d);
    StsLiterals();
    Printed(StsMes(d), "012", "(STSCWPA/FDP012", "(STSCWPA/FDP012-0-CWPA-S1-S2)");
  }

  lemma StsData(d: Sts)
    requires d == Sts(12, "FDP", "CWPA", "-CWPA-S1-S2", 0)
    ensures Padded(12) == "012" && StsMes(d) == Mes(STS, 12, "CWPA", "FDP", "-0-CWPA-S1-S2")
  {
    PaddedTwo(12, 1, 2);
  }

  lemma StsLiterals()
    ensures "(STSCWPA/FDP012" == "(" + STS + "CWPA" + "/" + "FDP" + "012"
    ensures "(STSCWPA/FDP012-0-CWPA-S1-S2)" == "(STSCWPA/FDP012" + "-0-CWPA-S1-S2" + ")"
  {
  }

  lemma LamWire(m: Mes, num: nat)
    requires KeyOf(m) == Key(14, "CWPI", "FDP") && num == 15
    ensures Text(GetLam(m, num)) == "(LAMFDP/CWPI015CWPI/FDP014)"
  {
    LamData(m);
    LamLiterals();
    Printed(GetLam(m, num), "015", "(LAMFDP/CWPI015", "(LAMFDP/CWPI015CWPI/FDP014)");
  }

  lemma LamData(m: Mes)
    requires KeyOf(m) == Key(14, "CWPI", "FDP")
    ensures Padded(15) == "015" && GetLam(m, 15) == Mes(LAM, 15, "FDP", "CWPI", "CWPI/FDP014")
  {
    PaddedTwo(15, 1, 5);
    PaddedTwo(14, 1, 4);
  }

  lemma LamLiterals()
    ensures "(LAMFDP/CWPI015" == "(" + LAM + "FDP" + "/" + "CWPI" + "015"
    ensures "(LAMFDP/CWPI015CWPI/FDP014)" == "(LAMFDP/CWPI015" + "CWPI/FDP014" + ")"
  {
  }

  lemma ErrWire(m: Mes, num: nat)
    requires KeyOf(m) == Key(12, "CWPI", "FDP") && num == 13
    ensures Text(GetErr(m, num)) == "(ERRFDP/CWPI013CWPI/FDP012-001)"
  {
    ErrData(m);
    ErrLiterals();
    Printed(GetErr(m, num), "013", "(ERRFDP/CWPI013", "(ERRFDP/CWPI013CWPI/FDP012-001)");
  }

  lemma ErrData(m: Mes)
    requires KeyOf(m) == Key(12, "CWPI", "FDP")
    ensures Padded(13) == "013" && GetErr(m, 13) == Mes(ERR, 13, "FDP", "CWPI", "CWPI/FDP012-001")
  {
    PaddedTwo(13, 1, 3);
    PaddedTwo(12, 1, 2);
  }

  lemma ErrLiterals()
    ensures "(ERRFDP/CWPI013" == "(" + ERR + "FDP" + "/" + "CWPI" + "013"
    ensures "(ERRFDP/CWPI013CWPI/FDP012-001)" == "(ERRFDP/CWPI013" + "CWPI/FDP012-001" + ")"
  {
  }
}
