/** Constraints of a table query as text and back
    (trace_streamer/src/base/filter_constraints.cpp:22-120). */
module FilterConstraints {
  import opened Words
  import opened Chunks
  import opened Decimal

  type i32 = n: int | -0x8000_0000 <= n < 0x8000_0000

  datatype Constraint = Constraint(idx: i32, col: i32, op: u8, isSupport: bool)

  /** A column and an operator, or a column and a direction. */
  datatype Pair = Pair(col: i32, op: u8)

  /** The cast to int32_t. */
  function AsInt32(n: int): (r: i32)
    ensures -0x8000_0000 <= n < 0x8000_0000 ==> r == n
  {
    var m := n % TWO32;
    if m < 0x8000_0000 then m else m - TWO32
  }

  function PairsOf(constraints: seq<Constraint>): (r: seq<Pair>)
    ensures |r| == |constraints|
    ensures forall i :: 0 <= i < |r| ==> r[i] == Pair(constraints[i].col, constraints[i].op)
  {
    seq(|constraints|, i requires 0 <= i < |constraints| => Pair(constraints[i].col, constraints[i].op))
  }

  // ---------------------------------------------------------------------------
  // Writing
  // ---------------------------------------------------------------------------

  function PairText(p: Pair): (s: string) {
    " " + Print(p.col) + (" " + Print(p.op))
  }

  /** The first n pairs. */
  function PairsText(pairs: seq<Pair>, n: nat): (s: string)
    requires n <= |pairs|
  {
    if n == 0 then "" else PairsText(pairs, n - 1) + PairText(pairs[n - 1])
  }

  function Text(pairs: seq<Pair>, orders: seq<Pair>): (s: string) {
    ("C" + Print(|pairs|)) + (PairsText(pairs, |pairs|) + ((" O" + Print(|orders|)) + PairsText(orders, |orders|)))
  }

  // ---------------------------------------------------------------------------
  // Reading
  // ---------------------------------------------------------------------------

  /** A failed assertion stops the program. */
  datatype Scan<T> = Crashed | Scanned(value: T, next: nat, op: u8)

  /** GetColAndOp: after a number that overflows the operator keeps its last value. */
  function ReadPair(s: string, next: nat, op: u8): (r: Scan<Pair>)
    requires next <= |s|
    ensures r.Scanned? ==> r.next <= |s|
  {
    var c := StrToL(s, next);
    if c.overflow then Scanned(Pair(AsInt32(c.value), op), c.next, op)
    else if c.next == next then Crashed
    else
      var o := StrToL(s, c.next);
      Scanned(Pair(AsInt32(c.value), o.value % 256), o.next, o.value % 256)
  }

  function ReadPairs(s: string, next: nat, op: u8, n: nat): (r: Scan<seq<Pair>>)
    requires next <= |s|
    ensures r.Scanned? ==> r.next <= |s| && |r.value| == n
  {
    if n == 0 then Scanned([], next, op) else
    match ReadPairs(s, next, op, n - 1)
    case Crashed => Crashed
    case Scanned(pairs, at, op1) =>
      match ReadPair(s, at, op1)
      case Crashed => Crashed
      case Scanned(p, at1, op2) => Scanned(pairs + [p], at1, op2)
  }

  function Count(n: int): (r: nat) {
    if AsInt32(n) < 0 then 0 else AsInt32(n)
  }

  /** What FromString appends to the constraints and to the order-by list. */
  datatype Outcome = Failed | Parsed(constraints: seq<Pair>, orders: seq<Pair>)

  /** The order-by part; a count out of range ends the parse early. */
  function ParseOrders(s: string, pairs: seq<Pair>, next: nat, op: u8): (r: Outcome)
    requires next <= |s|
  {
    if next + 1 >= |s| || s[next + 1] != 'O' then Failed else
    var m := StrToL(s, next + 2);
    if m.overflow then Parsed(pairs, []) else
    match ReadPairs(s, m.next, op, Count(m.value))
    case Crashed => Failed
    case Scanned(orders, _, _) => Parsed(pairs, orders)
  }

  function Parse(s: string): (r: Outcome) {
    if s == "" || s[0] != 'C' then Failed else
    var c := StrToL(s, 1);
    if c.overflow then Parsed([], []) else
    match ReadPairs(s, c.next, 0, Count(c.value))
    case Crashed => Failed
    case Scanned(pairs, next, op) => ParseOrders(s, pairs, next, op)
  }

  // ---------------------------------------------------------------------------
  // Round trip
  // ---------------------------------------------------------------------------

  /** A number behind a space is read, and the space ends the number before it. */
  lemma SpacedNumber(s: string, i: nat, n: int)
    requires LONG_MIN <= n <= LONG_MAX && HasAt(s, i, " " + Print(n)) && Ends(s, i + |" " + Print(n)|)
    ensures i <= |s| && StrToL(s, i) == Number(n, i + |" " + Print(n)|, false) && Ends(s, i)
  {
    HasAtParts(s, i, " ", Print(n));
    assert s[i] == " "[0];
    ReadPrinted(s, i + 1, n);
  }

  lemma PairRoundTrip(s: string, i: nat, p: Pair, op: u8)
    requires HasAt(s, i, PairText(p)) && Ends(s, i + |PairText(p)|)
    ensures i <= |s| && ReadPair(s, i, op) == Scanned(p, i + |PairText(p)|, p.op)
    ensures Ends(s, i)
  {
    hide HasAt, StrToL, Print, Ends;
    var a, b := " " + Print(p.col), " " + Print(p.op);
    HasAtParts(s, i, a, b);
    SpacedNumber(s, i + |a|, p.op);
    SpacedNumber(s, i, p.col);
  }

  lemma {:induction false} PairsRoundTrip(s: string, i: nat, pairs: seq<Pair>, n: nat, op: u8)
    requires n <= |pairs| && i <= |s|
    requires HasAt(s, i, PairsText(pairs, n)) && Ends(s, i + |PairsText(pairs, n)|)
    ensures var r := ReadPairs(s, i, op, n);
            r.Scanned? && r.value == pairs[..n] && r.next == i + |PairsText(pairs, n)|
    ensures Ends(s, i)
  {
    hide HasAt, ReadPair, PairText, Ends;
    if n > 0 {
      var p, before := pairs[n - 1], PairsText(pairs, n - 1);
      HasAtParts(s, i, before, PairText(p));
      PairRoundTrip(s, i + |before|, p, 0);
      PairsRoundTrip(s, i, pairs, n - 1, op);
      PairRoundTrip(s, i + |before|, p, ReadPairs(s, i, op, n - 1).op);
      assert pairs[..n] == pairs[..n - 1] + [p];
    }
  }

  /** A count behind a letter, followed by that many pairs. */
  lemma {:induction false} CountedPairs(s: string, i: nat, pairs: seq<Pair>, op: u8)
    requires |pairs| < 0x8000_0000 && i <= |s|
    requires HasAt(s, i, Print(|pairs|) + PairsText(pairs, |pairs|))
    requires Ends(s, i + |Print(|pairs|)| + |PairsText(pairs, |pairs|)|)
    ensures var c := StrToL(s, i);
            && c == Number(|pairs|, i + |Print(|pairs|)|, false) && Count(c.value) == |pairs|
            && var r := ReadPairs(s, c.next, op, |pairs|);
               r.Scanned? && r.value == pairs && r.next == c.next + |PairsText(pairs, |pairs|)|
  {
    hide StrToL, Ends, Print, PairsText, ReadPairs;
    var number := Print(|pairs|);
    HasAtParts(s, i, number, PairsText(pairs, |pairs|));
    PairsRoundTrip(s, i + |number|, pairs, |pairs|, op);
    ReadPrinted(s, i, |pairs|);
    assert pairs[..|pairs|] == pairs;
  }

  lemma {:induction false} OrdersRoundTrip(s: string, i: nat, pairs: seq<Pair>, orders: seq<Pair>, op: u8)
    requires |orders| < 0x8000_0000 && i <= |s|
    requires HasAt(s, i, " O" + (Print(|orders|) + PairsText(orders, |orders|)))
    requires i + 2 + |Print(|orders|)| + |PairsText(orders, |orders|)| == |s|
    ensures ParseOrders(s, pairs, i, op) == Parsed(pairs, orders) && Ends(s, i)
  {
    hide StrToL, Print, PairsText, ReadPairs, Count;
    HasAtParts(s, i, " O", Print(|orders|) + PairsText(orders, |orders|));
    assert s[i] == " O"[0] && s[i + 1] == " O"[1];
    hide HasAt;
    CountedPairs(s, i + 2, orders, op);
  }

  /** Reading back what was written gives the same pairs. */
  lemma TextRoundTrip(pairs: seq<Pair>, orders: seq<Pair>)
    requires |pairs| < 0x8000_0000 && |orders| < 0x8000_0000
    ensures Parse(Text(pairs, orders)) == Parsed(pairs, orders)
  {
    hide StrToL, Print, PairsText, ReadPairs, Count, ParseOrders, Ends, HasAt;
    var s := Text(pairs, orders);
    var head := Print(|pairs|) + PairsText(pairs, |pairs|);
    var tail := " O" + (Print(|orders|) + PairsText(orders, |orders|));
    assert s == "C" + (head + tail);
    Whole(s);
    HasAtParts(s, 0, "C", head + tail);
    HasAtParts(s, 1, head, tail);
    OrdersRoundTrip(s, 1 + |head|, pairs, orders, 0);
    CountedPairs(s, 1, pairs, 0);
    OrdersRoundTrip(s, 1 + |head|, pairs, orders, ReadPairs(s, 1 + |Print(|pairs|)|, 0, |pairs|).op);
  }

  lemma Whole(s: string)
    ensures HasAt(s, 0, s)
  {
  }

  // ---------------------------------------------------------------------------
  // The object
  // ---------------------------------------------------------------------------

  /** The constraints FromString adds: numbered from 0. */
  function Numbered(pairs: seq<Pair>): (r: seq<Constraint>)
    requires |pairs| < 0x8000_0000
    ensures |r| == |pairs|
    ensures forall i :: 0 <= i < |r| ==> r[i] == Constraint(i, pairs[i].col, pairs[i].op, false)
  {
    seq(|pairs|, i requires 0 <= i < |pairs| => Constraint(i, pairs[i].col, pairs[i].op, false))
  }

  class Constraints {
    var constraints: seq<Constraint>
    var orderBys: seq<Pair>

    constructor ()
      ensures constraints == [] && orderBys == []
    {
      constraints, orderBys := [], [];
    }

    method ToString() returns (idxStr: string)
      ensures idxStr == Text(PairsOf(constraints), orderBys)
    {
      hide PairsText, Print;
      idxStr := AppendPairs("C" + Print(|constraints|), PairsOf(constraints));
      idxStr := AppendPairs(idxStr + (" O" + Print(|orderBys|)), orderBys);
    }

    /** Called with a text that FromString accepts: it appends what the text says. */
    method FromString(idxStr: string)
      requires Parse(idxStr).Parsed?
      modifies this
      ensures |Parse(idxStr).constraints| < 0x8000_0000
      ensures constraints == old(constraints) + Numbered(Parse(idxStr).constraints)
      ensures orderBys == old(orderBys) + Parse(idxStr).orders
    {
      hide StrToL, ReadPairs, ReadPair;
      var c := StrToL(idxStr, 1);
      if c.overflow {
        return;
      }
      var pairs, next, op := ScanPairs(idxStr, c.next, 0, Count(c.value));
      constraints := constraints + Numbered(pairs);
      var m := StrToL(idxStr, next + 2);
      if m.overflow {
        return;
      }
      var orders, _, _ := ScanPairs(idxStr, m.next, op, Count(m.value));
      orderBys := orderBys + orders;
    }
  }

  method AppendPairs(text: string, pairs: seq<Pair>) returns (r: string)
    ensures r == text + PairsText(pairs, |pairs|)
  {
    hide Print;
    r := text;
    var i := 0;
    assert text + PairsText(pairs, 0) == text;
    while i < |pairs|
      invariant i <= |pairs| && r == text + PairsText(pairs, i)
    {
      var col, op := " " + Print(pairs[i].col), " " + Print(pairs[i].op);
      Regroup(text, PairsText(pairs, i), col, op);
      r := r + col;
      r := r + op;
      i := i + 1;
    }
  }

  lemma Regroup(a: string, b: string, c: string, d: string)
    ensures a + b + c + d == a + (b + (c + d))
  {
  }

  /** Reads n pairs one after the other. */
  method ScanPairs(s: string, start: nat, startOp: u8, n: nat) returns (pairs: seq<Pair>, next: nat, op: u8)
    requires start <= |s| && ReadPairs(s, start, startOp, n).Scanned?
    ensures ReadPairs(s, start, startOp, n) == Scanned(pairs, next, op)
  {
    pairs, next, op := [], start, startOp;
    var i := 0;
    while i < n
      invariant i <= n && next <= |s| && ReadPairs(s, start, startOp, i) == Scanned(pairs, next, op)
    {
      PairsGoOn(s, start, startOp, i + 1, n);
      var p := ReadPair(s, next, op);
      pairs, next, op := pairs + [p.value], p.next, p.op;
      i := i + 1;
    }
  }

  /** A scan that gets to the end gets everywhere before. */
  lemma {:induction false} PairsGoOn(s: string, next: nat, op: u8, i: nat, n: nat)
    requires next <= |s| && i <= n && ReadPairs(s, next, op, n).Scanned?
    ensures ReadPairs(s, next, op, i).Scanned?
  {
    hide ReadPair;
    if i < n {
      PairsGoOn(s, next, op, i, n - 1);
    }
  }

  /** Writing an object's constraints and reading them into an empty one rebuilds them: the same
      columns and operators in order, numbered from 0, and the same order-by list. */
  method RoundTrip(c: Constraints) returns (d: Constraints)
    requires |c.constraints| < 0x8000_0000 && |c.orderBys| < 0x8000_0000
    ensures fresh(d) && PairsOf(d.constraints) == PairsOf(c.constraints) && d.orderBys == c.orderBys
    ensures forall i :: 0 <= i < |d.constraints| ==> d.constraints[i].idx == i
  {
    hide Parse, Text;
    var s := c.ToString();
    TextRoundTrip(PairsOf(c.constraints), c.orderBys);
    d := new Constraints();
    d.FromString(s);
  }
}
