/** multiArg: replacing the numbered placeholders of a text by arguments. */
module MultiArg {
  import opened QtText

  const MAX_NUMBER := 999

  // ---------------------------------------------------------------- placeholders

  function DigitsEnd(s: string, i: nat): (end: nat)
    requires i <= |s|
    ensures i <= end <= |s|
    ensures forall j :: i <= j < end ==> IsDigit(s[j])
    ensures end < |s| ==> !IsDigit(s[end])
    decreases |s| - i
  {
    if i < |s| && IsDigit(s[i]) then DigitsEnd(s, i + 1) else i
  }

  /** Where the digits of a placeholder start: behind the percent sign and an "L" that may follow it. */
  function DigitsStart(s: string, i: nat): nat { if i + 1 < |s| && s[i + 1] == 'L' then i + 2 else i + 1 }

  /** The number of the placeholder at i and the place behind it; -1 if there is none up to the limit. */
  function Escape(s: string, i: nat, limit: int): (int, nat) {
    var start := DigitsStart(s, i);
    if start < |s| && IsDigit(s[start]) && Number(s, start, DigitsEnd(s, start)) <= limit then
      (Number(s, start, DigitsEnd(s, start)), DigitsEnd(s, start))
    else (-1, i)
  }

  lemma {:induction false} DigitsMakeNumber(s: string, lo: nat, hi: nat)
    requires lo <= hi <= |s| && forall j :: lo <= j < hi ==> IsDigit(s[j])
    ensures Number(s, lo, hi) >= 0
  {
    if lo < hi { DigitsMakeNumber(s, lo, hi - 1); }
  }

  /** A placeholder goes beyond its percent sign and holds no other one, and its number does not depend on the limit. */
  lemma EscapeShape(s: string, i: nat, limit: int)
    requires i < |s|
    ensures Escape(s, i, limit).0 != -1 ==> i < Escape(s, i, limit).1 <= |s| && 0 <= Escape(s, i, limit).0 <= limit
    ensures Escape(s, i, limit).0 != -1 ==> forall j :: i < j < Escape(s, i, limit).1 ==> s[j] != '%'
    ensures forall other: int ::
      other >= limit && Escape(s, i, limit).0 != -1 ==> Escape(s, i, other) == Escape(s, i, limit)
    ensures forall other: int :: other >= limit && Escape(s, i, limit).0 == -1 && Escape(s, i, other).0 != -1 ==>
      Escape(s, i, other).0 > limit
  {
    var start := DigitsStart(s, i);
    if start < |s| { DigitsMakeNumber(s, start, DigitsEnd(s, start)); }
  }

  method GetEscape(s: string, pos: nat, limit: int) returns (number: int, next: nat)
    requires pos < |s|
    ensures (number, next) == Escape(s, pos, limit)
  {
    var i := pos + 1;
    if i < |s| && s[i] == 'L' {
      i := i + 1;
    }
    if i < |s| {
      if !IsDigit(s[i]) {
        return -1, pos;
      }
      var start := i;
      var escape := (s[i] - '0') as int;
      i := i + 1;
      while i < |s|
        invariant start < i <= |s| && escape >= 0 && escape == Number(s, start, i)
        invariant DigitsEnd(s, i) == DigitsEnd(s, start)
      {
        if !IsDigit(s[i]) {
          break;
        }
        escape := escape * 10 + (s[i] - '0') as int;
        i := i + 1;
      }
      if escape <= limit {
        return escape, i;
      }
    }
    return -1, pos;
  }

  /** Is there a placeholder at i? */
  predicate IsHole(s: string, i: nat) { i + 1 < |s| && s[i] == '%' && Escape(s, i, MAX_NUMBER).0 != -1 }

  function NumberAt(s: string, i: nat): int { Escape(s, i, MAX_NUMBER).0 }

  // ---------------------------------------------------------------- the substitution

  /** How many of the numbers are less than n. */
  function Rank(used: set<int>, n: int): nat { |set m | m in used && m < n| }

  /** All the numbers used in a text. */
  ghost function Used(s: string): set<int> { set i: nat | i < |s| && IsHole(s, i) :: NumberAt(s, i) }

  /** Behind the text made so far, the rest of s with every placeholder replaced at once: the one with the k-th
      smallest number by the k-th argument.  One that has no argument stays as it is. */
  ghost function Fill(done: string, s: string, i: nat, used: set<int>, args: seq<string>): string
    decreases |s| - i
  {
    if i >= |s| then done
    else if IsHole(s, i) then
      EscapeShape(s, i, MAX_NUMBER);
      var (n, next) := Escape(s, i, MAX_NUMBER);
      Fill(done + (if Rank(used, n) < |args| then args[Rank(used, n)] else s[i..next]), s, next, used, args)
    else Fill(done + [s[i]], s, i + 1, used, args)
  }

  /** The text with its placeholders replaced. */
  ghost function Filled(s: string, args: seq<string>): string { Fill("", s, 0, Used(s), args) }

  /** Text without placeholders is copied. */
  lemma {:induction false} FillPlain(done: string, s: string, i: nat, end: nat, used: set<int>, args: seq<string>)
    requires i <= end <= |s| && forall j :: i <= j < end ==> !IsHole(s, j)
    ensures Fill(done, s, i, used, args) == Fill(done + s[i..end], s, end, used, args)
    decreases end - i
  {
    if i == end {
      assert done + s[i..end] == done;
    } else {
      FillPlain(done + [s[i]], s, i + 1, end, used, args);
      assert done + [s[i]] + s[i + 1..end] == done + s[i..end];
    }
  }

  /** A placeholder without an argument may as well be copied one character at a time. */
  lemma FillLiteral(done: string, s: string, i: nat, used: set<int>, args: seq<string>)
    requires IsHole(s, i) && Rank(used, NumberAt(s, i)) >= |args|
    ensures Fill(done, s, i, used, args) == Fill(done + [s[i]], s, i + 1, used, args)
  {
    EscapeShape(s, i, MAX_NUMBER);
    var next := Escape(s, i, MAX_NUMBER).1;
    FillPlain(done + [s[i]], s, i + 1, next, used, args);
    assert done + [s[i]] + s[i + 1..next] == done + s[i..next];
  }

  // ---------------------------------------------------------------- the numbers in order

  predicate Ascending(keys: seq<int>) { forall i, j :: 0 <= i < j < |keys| ==> keys[i] < keys[j] }

  /** QMap::insert, as far as the keys are concerned. */
  function Inserted(keys: seq<int>, n: int): (r: seq<int>)
    requires Ascending(keys)
    ensures Ascending(r) && forall m :: m in r <==> m in keys || m == n
    decreases |keys|
  {
    if keys == [] then [n]
    else if n < keys[0] then [n] + keys
    else if n == keys[0] then keys
    else
      var rest := Inserted(keys[1..], n);
      assert forall m :: m in keys <==> m == keys[0] || m in keys[1..];
      assert forall j :: 0 <= j < |rest| ==> rest[j] in rest && keys[0] < rest[j];
      [keys[0]] + rest
  }

  /** In ascending order the place of a number is its rank. */
  lemma {:induction false} RankIsPlace(keys: seq<int>, used: set<int>, k: nat)
    requires Ascending(keys) && k < |keys| && forall m :: m in used <==> m in keys
    ensures Rank(used, keys[k]) == k
  {
    var below := set m | m in used && m < keys[k];
    assert forall m :: m in below <==> m in keys[..k];
    Cardinality(keys[..k], below);
  }

  lemma {:induction false} Cardinality(keys: seq<int>, s: set<int>)
    requires Ascending(keys) && forall m :: m in s <==> m in keys
    ensures |s| == |keys|
  {
    if keys == [] {
      forall m ensures m !in s {
        assert m !in keys;
      }
    } else {
      var last := keys[|keys| - 1];
      var rest := keys[..|keys| - 1];
      assert last in s && forall m :: m in s - {last} <==> m in rest;
      Cardinality(rest, s - {last});
    }
  }

  // ---------------------------------------------------------------- the two passes

  /** The numbers of the placeholders before i. */
  ghost function UsedBefore(s: string, i: nat): set<int> { set j: nat | j < i && IsHole(s, j) :: NumberAt(s, j) }

  lemma UsedNext(s: string, i: nat, next: nat)
    requires i < next && forall j :: i < j < next ==> !IsHole(s, j)
    ensures UsedBefore(s, next) == if IsHole(s, i) then UsedBefore(s, i) + {NumberAt(s, i)} else UsedBefore(s, i)
  {
    forall m | m in UsedBefore(s, next) ensures m in UsedBefore(s, i) || (IsHole(s, i) && m == NumberAt(s, i)) {
      var j: nat :| j < next && IsHole(s, j) && NumberAt(s, j) == m;
    }
    forall m | m in UsedBefore(s, i) ensures m in UsedBefore(s, next) {
      var j: nat :| j < i && IsHole(s, j) && NumberAt(s, j) == m;
      assert j < next;
    }
    if IsHole(s, i) {
      assert NumberAt(s, i) in UsedBefore(s, next);
    }
  }

  lemma UsedAll(s: string, i: nat)
    requires i + 1 >= |s|
    ensures UsedBefore(s, i) == Used(s)
  {
    forall m ensures m in UsedBefore(s, i) <==> m in Used(s) {
    }
  }

  ghost predicate SameElements(keys: seq<int>, used: set<int>) { forall m :: m in keys <==> m in used }

  /** The first pass: the numbers that occur. */
  method CollectNumbers(s: string) returns (keys: seq<int>)
    ensures Ascending(keys) && SameElements(keys, Used(s))
  {
    keys := [];
    var i, end := 0, |s| - 1;
    while i < end
      invariant 0 <= i <= |s| && Ascending(keys) && SameElements(keys, UsedBefore(s, i))
      decreases |s| - i
    {
      EscapeShape(s, i, MAX_NUMBER);
      if s[i] == '%' {
        var number, next := GetEscape(s, i, MAX_NUMBER);
        if number != -1 {
          UsedNext(s, i, next);
          keys, i := Inserted(keys, number), next;
          continue;
        }
      }
      UsedNext(s, i, i + 1);
      i := i + 1;
    }
    UsedAll(s, i);
  }

  /** The k-th smallest number has the k-th argument, as far as they go; the others have none. */
  ghost predicate Assigned(argOf: map<int, int>, keys: seq<int>, count: int) {
    forall k :: 0 <= k < |keys| ==> keys[k] in argOf && argOf[keys[k]] == if k < count then k else -1
  }

  function LastOf(keys: seq<int>, count: nat): int
    requires count <= |keys|
  {
    if count == 0 then -1 else keys[count - 1]
  }

  /** How many numbers get an argument. */
  function Served(keys: seq<int>, numArgs: nat): (count: nat)
    ensures count <= |keys| && count <= numArgs
  {
    if numArgs < |keys| then numArgs else |keys|
  }

  /** The arguments of the numbers, and the largest number that has one. */
  method AssignArguments(keys: seq<int>, numArgs: nat) returns (argOf: map<int, int>, last: int)
    requires Ascending(keys)
    ensures Assigned(argOf, keys, Served(keys, numArgs)) && last == LastOf(keys, Served(keys, numArgs))
  {
    argOf := map m | m in keys :: -1;
    var arg := 0;
    last := -1;
    while arg < |keys| && arg < numArgs
      invariant 0 <= arg <= |keys| && arg <= numArgs && Assigned(argOf, keys, arg) && last == LastOf(keys, arg)
    {
      argOf := argOf[keys[arg] := arg];
      last := keys[arg];
      arg := arg + 1;
    }
  }

  /** With the limit of the second pass a placeholder is found exactly when its number has an argument, which is the
      one of its rank. */
  lemma PassesAgree(s: string, i: nat, keys: seq<int>, numArgs: nat)
    requires i + 1 < |s| && s[i] == '%' && Ascending(keys) && SameElements(keys, Used(s))
    ensures var (n, next) := Escape(s, i, LastOf(keys, Served(keys, numArgs)));
      if n != -1 then
        IsHole(s, i) && (n, next) == Escape(s, i, MAX_NUMBER) && Rank(Used(s), n) < Served(keys, numArgs)
        && keys[Rank(Used(s), n)] == n
      else IsHole(s, i) ==> Rank(Used(s), NumberAt(s, i)) >= numArgs
  {
    var last := LastOf(keys, Served(keys, numArgs));
    var (n, next) := Escape(s, i, last);
    EscapeShape(s, i, last);
    EscapeShape(s, i, MAX_NUMBER);
    KeysSmall(s, keys);
    if IsHole(s, i) {
      assert NumberAt(s, i) in Used(s);
      var k :| 0 <= k < |keys| && keys[k] == NumberAt(s, i);
      RankIsPlace(keys, Used(s), k);
    }
  }

  lemma KeysSmall(s: string, keys: seq<int>)
    requires SameElements(keys, Used(s))
    ensures forall k :: 0 <= k < |keys| ==> 0 <= keys[k] <= MAX_NUMBER
  {
    forall k | 0 <= k < |keys| ensures 0 <= keys[k] <= MAX_NUMBER {
      assert keys[k] in keys;
      var i: nat :| i < |s| && IsHole(s, i) && NumberAt(s, i) == keys[k];
      EscapeShape(s, i, MAX_NUMBER);
    }
  }

  /** multiArg. */
  method MultiArg(s: string, args: seq<string>) returns (result: string)
    ensures result == Filled(s, args)
  {
    var keys := CollectNumbers(s);
    var argOf, last := AssignArguments(keys, |args|);
    ghost var count := Served(keys, |args|);
    KeysSmall(s, keys);
    var i, end := 0, |s| - 1;
    result := "";
    while i < |s|
      invariant 0 <= i <= |s| && Assigned(argOf, keys, count)
      invariant Fill(result, s, i, Used(s), args) == Filled(s, args)
      decreases |s| - i
    {
      if s[i] == '%' && i != end {
        PassesAgree(s, i, keys, |args|);
        EscapeShape(s, i, last);
        var number, next := GetEscape(s, i, last);
        // Looking a number up in the map enters it with the argument 0 if it is not there.
        var arg := if number in argOf then argOf[number] else 0;
        argOf := argOf[number := arg];
        if number != -1 && arg != -1 {
          result, i := result + args[arg], next;
          continue;
        }
        if IsHole(s, i) {
          FillLiteral(result, s, i, Used(s), args);
        }
      }
      result := result + [s[i]];
      i := i + 1;
    }
  }

  // ---------------------------------------------------------------- what a text means

  /** A text is made of characters and of digits behind a percent sign; these are a placeholder unless their number is
      too great. */
  datatype Piece = Chars(text: string) | Hole(long: bool, digits: string)

  /** Behind a percent sign: digits, or an "L" and digits. */
  predicate NumberFollows(u: string) { u != "" && (IsDigit(u[0]) || (u[0] == 'L' && |u| > 1 && IsDigit(u[1]))) }

  /** No percent sign in t has a number behind it; `rest` stands behind t. */
  predicate Harmless(t: string, rest: string) {
    forall i :: 0 <= i < |t| && t[i] == '%' ==> !NumberFollows(t[i + 1..] + rest)
  }

  /** The piece ends where the text `rest` begins. */
  predicate GoodPiece(x: Piece, rest: string) {
    match x
    case Chars(t) => Harmless(t, rest)
    case Hole(_, digits) => digits != "" && AllDigits(digits) && (rest == "" || !IsDigit(rest[0]))
  }

  predicate GoodPieces(xs: seq<Piece>) { xs == [] || (GoodPiece(xs[0], ShownAll(xs[1..])) && GoodPieces(xs[1..])) }

  /** The piece is a placeholder. */
  predicate IsPlace(x: Piece) { x.Hole? && AllDigits(x.digits) && Value(x.digits) <= MAX_NUMBER }

  function Shown(x: Piece): string {
    match x
    case Chars(t) => t
    case Hole(long, digits) => HoleHead(long) + digits
  }

  function ShownAll(xs: seq<Piece>): string { if xs == [] then "" else Shown(xs[0]) + ShownAll(xs[1..]) }

  /** The numbers of the placeholders. */
  function Numbers(xs: seq<Piece>): set<int> { if xs == [] then {} else NumbersOf(xs[0]) + Numbers(xs[1..]) }

  function NumbersOf(x: Piece): set<int> { if IsPlace(x) then {Value(x.digits)} else {} }

  /** Where n is in the order, or -1. */
  function PlaceOf(order: seq<int>, n: int): (k: int)
    ensures -1 <= k < |order| && (k >= 0 ==> order[k] == n)
    ensures n in order ==> k >= 0
  {
    if order == [] then -1 else if order[|order| - 1] == n then |order| - 1 else PlaceOf(order[..|order| - 1], n)
  }

  /** The placeholder with the number in place k of the order is replaced by the argument k; all else stays. */
  function Replaced(x: Piece, order: seq<int>, args: seq<string>): string {
    var k := if IsPlace(x) then PlaceOf(order, Value(x.digits)) else -1;
    if 0 <= k < |args| then args[k] else Shown(x)
  }

  function ReplacedAll(xs: seq<Piece>, order: seq<int>, args: seq<string>): string {
    if xs == [] then "" else Replaced(xs[0], order, args) + ReplacedAll(xs[1..], order, args)
  }

  // ---------------------------------------------------------------- every text is made so

  lemma Digits(s: string) returns (digits: string, rest: string)
    ensures s == digits + rest && AllDigits(digits) && (rest == "" || !IsDigit(rest[0]))
    ensures s != "" && IsDigit(s[0]) ==> digits != ""
  {
    var end := DigitsEnd(s, 0);
    digits, rest := s[..end], s[end..];
  }

  lemma HoleInFront(s: string) returns (x: Piece, rest: string)
    requires s != "" && s[0] == '%' && NumberFollows(s[1..])
    ensures s == Shown(x) + rest && GoodPiece(x, rest) && |rest| < |s|
  {
    var long := s[1] == 'L';
    var head, digits := HoleHead(long), "";
    digits, rest := Digits(s[|head|..]);
    x := Hole(long, digits);
    assert s == head + s[|head|..] == head + (digits + rest);
    Appended(head, digits, rest);
  }

  lemma CharInFront(s: string) returns (x: Piece)
    requires s != "" && (s[0] == '%' ==> !NumberFollows(s[1..]))
    ensures s == Shown(x) + s[1..] && GoodPiece(x, s[1..])
  {
    x := Chars(s[..1]);
    assert s[..1][1..] + s[1..] == s[1..];
  }

  lemma {:induction false} EveryText(s: string) returns (xs: seq<Piece>)
    ensures GoodPieces(xs) && ShownAll(xs) == s
    decreases |s|
  {
    xs := [];
    if s != "" {
      var x, rest := Chars(""), s[1..];
      if s[0] == '%' && NumberFollows(s[1..]) {
        x, rest := HoleInFront(s);
      } else {
        x := CharInFront(s);
      }
      var more := EveryText(rest);
      xs := [x] + more;
      assert xs[1..] == more;
    }
  }

  // ---------------------------------------------------------------- one piece

  lemma {:induction false} DigitsEndIs(s: string, i: nat, end: nat)
    requires i <= end <= |s| && (forall j :: i <= j < end ==> IsDigit(s[j])) && (end < |s| ==> !IsDigit(s[end]))
    ensures DigitsEnd(s, i) == end
    decreases end - i
  {
    if i < end {
      DigitsEndIs(s, i + 1, end);
    }
  }

  lemma {:induction false} NumberIs(s: string, pos: nat, digits: string)
    requires Reads(s, pos, digits) && AllDigits(digits)
    ensures Number(s, pos, pos + |digits|) == Value(digits)
    decreases |digits|
  {
    if digits != "" {
      NumberIs(s, pos, digits[..|digits| - 1]);
    }
  }

  lemma CharsAreNoHoles(s: string, k: nat, t: string, rest: string)
    requires Reads(s, k, t) && Reads(s, k + |t|, rest) && k + |t| + |rest| == |s| && Harmless(t, rest)
    ensures NoHoles(s, k, k + |t|)
  {
    forall j | k <= j < k + |t| ensures !IsHole(s, j) {
      assert t[j - k] == s[j];
      if s[j] == '%' {
        var u := t[j - k + 1..] + rest;
        NoNumberNoHole(s, j, u);
      }
    }
  }

  lemma NoNumberNoHole(s: string, j: nat, u: string)
    requires j < |s| && u == s[j + 1..] && !NumberFollows(u)
    ensures !IsHole(s, j)
  {
  }

  /** The head of a placeholder, before its digits. */
  function HoleHead(long: bool): (t: string)
    ensures |t| == if long then 2 else 1
  {
    if long then "%L" else "%"
  }

  lemma HoleStarts(s: string, k: nat, long: bool, start: nat)
    requires start == k + |HoleHead(long)| && start < |s| && Reads(s, k, HoleHead(long)) && IsDigit(s[start])
    ensures s[k] == '%' && DigitsStart(s, k) == start
  {
    var head := HoleHead(long);
    assert s[k] == head[0];
    if long {
      assert s[k + 1] == head[1];
    }
  }

  lemma HoleDigits(s: string, start: nat, digits: string)
    requires Reads(s, start, digits) && digits != "" && AllDigits(digits)
    requires start + |digits| < |s| ==> !IsDigit(s[start + |digits|])
    ensures IsDigit(s[start]) && DigitsEnd(s, start) == start + |digits|
    ensures Number(s, start, start + |digits|) == Value(digits)
  {
    forall j | start <= j < start + |digits| ensures IsDigit(s[j]) {
      assert digits[j - start] == s[j];
    }
    DigitsEndIs(s, start, start + |digits|);
    NumberIs(s, start, digits);
  }

  lemma HoleIsFound(s: string, k: nat, long: bool, digits: string, start: nat)
    requires start == k + |HoleHead(long)| && Reads(s, k, HoleHead(long)) && Reads(s, start, digits)
    requires digits != "" && AllDigits(digits) && (start + |digits| < |s| ==> !IsDigit(s[start + |digits|]))
    ensures IsHole(s, k) <==> Value(digits) <= MAX_NUMBER
    ensures IsHole(s, k) ==> Escape(s, k, MAX_NUMBER) == (Value(digits), start + |digits|)
    ensures NoHoles(s, k + 1, start + |digits|)
  {
    HoleDigits(s, start, digits);
    HoleStarts(s, k, long, start);
    forall j | k < j < start + |digits| ensures s[j] != '%' {
      if j < start {
        assert HoleHead(long)[j - k] == s[j];
      } else {
        assert digits[j - start] == s[j];
      }
    }
  }

  /** The text ends with these pieces, from k on. */
  predicate EndsWith(s: string, k: nat, xs: seq<Piece>) { Reads(s, k, ShownAll(xs)) && k + |ShownAll(xs)| == |s| }

  predicate NoHoles(s: string, k: nat, end: nat) { forall j :: k <= j < end ==> !IsHole(s, j) }

  /** The piece x stands at k and ends at `end`: text without placeholders, or a placeholder. */
  predicate StandsAt(s: string, k: nat, x: Piece, end: nat) {
    && k <= end <= |s| && s[k..end] == Shown(x)
    && (IsPlace(x) ==> IsHole(s, k) && Escape(s, k, MAX_NUMBER) == (Value(x.digits), end))
    && (!IsPlace(x) ==> NoHoles(s, k, end))
  }

  lemma PieceSplit(s: string, k: nat, xs: seq<Piece>, first: string, rest: string)
    requires xs != [] && GoodPieces(xs) && EndsWith(s, k, xs) && first == Shown(xs[0]) && rest == ShownAll(xs[1..])
    ensures Reads(s, k, first) && Reads(s, k + |first|, rest) && k + |first| + |rest| == |s|
    ensures GoodPiece(xs[0], rest) && EndsWith(s, k + |first|, xs[1..])
  {
    assert ShownAll(xs) == first + rest;
    ReadsSplit(s, k, first, rest);
  }

  /** The string `rest` stands behind the piece. */
  lemma PieceFound(s: string, k: nat, x: Piece, end: nat, first: string, rest: string)
    requires GoodPiece(x, rest) && first == Shown(x) && end == k + |first|
    requires Reads(s, k, first) && Reads(s, end, rest) && end + |rest| == |s|
    ensures StandsAt(s, k, x, end)
  {
    assert s[k..end] == first;
    match x
    case Chars(t) => CharsAreNoHoles(s, k, t, rest);
    case Hole(long, digits) =>
      ReadsSplit(s, k, HoleHead(long), digits);
      assert rest != "" ==> s[end] == rest[0];
      HoleIsFound(s, k, long, digits, k + |HoleHead(long)|);
  }

  // ---------------------------------------------------------------- the whole text

  lemma NoHolesBetween(s: string, i: nat, end: nat)
    requires i <= end && NoHoles(s, i, end)
    ensures UsedBefore(s, end) == UsedBefore(s, i)
  {
    forall m | m in UsedBefore(s, end) ensures m in UsedBefore(s, i) {
      var j: nat :| j < end && IsHole(s, j) && NumberAt(s, j) == m;
    }
    forall m | m in UsedBefore(s, i) ensures m in UsedBefore(s, end) {
      var j: nat :| j < i && IsHole(s, j) && NumberAt(s, j) == m;
      assert j < end;
    }
  }

  lemma NumberFound(s: string, k: nat, x: Piece, end: nat)
    requires StandsAt(s, k, x, end)
    ensures UsedBefore(s, end) == UsedBefore(s, k) + NumbersOf(x)
  {
    if !IsPlace(x) {
      NoHolesBetween(s, k, end);
    } else {
      EscapeShape(s, k, MAX_NUMBER);
      UsedNext(s, k, end);
    }
  }

  /** The numbers that the first pass finds are those of the placeholders. */
  lemma {:induction false} NumbersFound(s: string, k: nat, xs: seq<Piece>)
    requires GoodPieces(xs) && EndsWith(s, k, xs)
    ensures UsedBefore(s, |s|) == UsedBefore(s, k) + Numbers(xs)
    decreases |xs|
  {
    if xs != [] {
      var end := k + |Shown(xs[0])|;
      var first, rest := Shown(xs[0]), ShownAll(xs[1..]);
      PieceSplit(s, k, xs, first, rest);
      PieceFound(s, k, xs[0], end, first, rest);
      NumberFound(s, k, xs[0], end);
      NumbersFound(s, end, xs[1..]);
    }
  }

  lemma PieceFilled(done: string, s: string, k: nat, x: Piece, end: nat, order: seq<int>, used: set<int>,
                    args: seq<string>)
    requires StandsAt(s, k, x, end)
    requires Ascending(order) && SameElements(order, used) && NumbersOf(x) <= used
    ensures Fill(done, s, k, used, args) == Fill(done + Replaced(x, order, args), s, end, used, args)
  {
    if !IsPlace(x) {
      FillPlain(done, s, k, end, used, args);
    } else {
      assert Value(x.digits) in used;
      RankIsPlace(order, used, PlaceOf(order, Value(x.digits)));
    }
  }

  lemma {:induction false} PiecesFilled(done: string, s: string, k: nat, xs: seq<Piece>, order: seq<int>,
                                        used: set<int>, args: seq<string>)
    requires GoodPieces(xs) && EndsWith(s, k, xs)
    requires Ascending(order) && SameElements(order, used) && Numbers(xs) <= used
    ensures Fill(done, s, k, used, args) == done + ReplacedAll(xs, order, args)
    decreases |xs|
  {
    if xs == [] {
      assert done + "" == done;
    } else {
      var end, next := k + |Shown(xs[0])|, done + Replaced(xs[0], order, args);
      var first, rest := Shown(xs[0]), ShownAll(xs[1..]);
      PieceSplit(s, k, xs, first, rest);
      PieceFound(s, k, xs[0], end, first, rest);
      PieceFilled(done, s, k, xs[0], end, order, used, args);
      PiecesFilled(next, s, end, xs[1..], order, used, args);
      Appended(done, Replaced(xs[0], order, args), ReplacedAll(xs[1..], order, args));
    }
  }

  /** Of a text in pieces, each placeholder whose number is the k-th smallest is replaced by the argument k, and all
      else stays as it is; `order` lists the numbers.  Every text is in pieces (`EveryText`). */
  lemma SubstitutedByOrder(xs: seq<Piece>, order: seq<int>, args: seq<string>)
    requires GoodPieces(xs) && Ascending(order) && SameElements(order, Numbers(xs))
    ensures Filled(ShownAll(xs), args) == ReplacedAll(xs, order, args)
  {
    var s := ShownAll(xs);
    NumbersFound(s, 0, xs);
    assert UsedBefore(s, 0) == {};
    UsedAll(s, |s|);
    PiecesFilled("", s, 0, xs, order, Used(s), args);
    assert "" + ReplacedAll(xs, order, args) == ReplacedAll(xs, order, args);
  }
}
