/** Exactly which texts are read as constraints, and as which; the others make an assertion fail
    (trace_streamer/src/base/filter_constraints.cpp:66-120). */
module ConstraintText {
  import opened Words
  import opened Decimal
  import opened FilterConstraints

  // ---------------------------------------------------------------------------
  // Numbers
  // ---------------------------------------------------------------------------

  ghost predicate Spaces(s: string, i: nat, a: nat) {
    && i <= a <= |s|
    && (forall k :: i <= k < a ==> s[k] as int == 32 || 9 <= s[k] as int <= 13)
    && (a < |s| ==> !(s[a] as int == 32 || 9 <= s[a] as int <= 13))
  }

  ghost predicate AllDigits(s: string, b: nat, e: nat) {
    && b <= e <= |s|
    && (forall k :: b <= k < e ==> '0' <= s[k] <= '9')
    && (e < |s| ==> !('0' <= s[e] <= '9'))
  }

  /** Spaces from i, perhaps a sign, and digits from b to e. */
  ghost predicate NumberAt(s: string, i: nat, a: nat, b: nat, e: nat) {
    && Spaces(s, i, a) && AllDigits(s, b, e)
    && b == if a < |s| && (s[a] == '-' || s[a] == '+') then a + 1 else a
  }

  lemma {:induction false} SkipSpaceIs(s: string, i: nat, a: nat)
    requires Spaces(s, i, a)
    ensures SkipSpace(s, i) == a
    decreases |s| - i
  {
    if i < a {
      SkipSpaceIs(s, i + 1, a);
    }
  }

  /** strtol on any text: nothing is read without digits; otherwise the signed number, or the nearest
      long and the mark of an overflow. */
  lemma {:induction false} StrToLReads(s: string, i: nat, a: nat, b: nat, e: nat)
    requires NumberAt(s, i, a, b, e)
    ensures var r := StrToL(s, i);
            if b == e then r == Number(0, i, false)
            else var n := if s[a] == '-' then 0 - Value(s, b, e) else Value(s, b, e);
                 && r.next == e && (r.overflow <==> !(-0x8000_0000_0000_0000 <= n <= 0x7FFF_FFFF_FFFF_FFFF))
                 && r.value == (if n > 0x7FFF_FFFF_FFFF_FFFF then 0x7FFF_FFFF_FFFF_FFFF
                                else if n < -0x8000_0000_0000_0000 then -0x8000_0000_0000_0000 else n)
  {
    SkipSpaceIs(s, i, a);
    EndOfDigits(s, b, e);
    hide SkipSpace, DigitsEnd;
    assert b < e && s[a] == '-' ==> b == a + 1;
  }

  /** Every text has such a reading at every place. */
  lemma {:induction false} EveryTextReads(s: string, i: nat) returns (a: nat, b: nat, e: nat)
    requires i <= |s|
    ensures NumberAt(s, i, a, b, e)
  {
    a := i;
    while a < |s| && IsSpace(s[a])
      invariant i <= a <= |s| && forall k :: i <= k < a ==> IsSpace(s[k])
    {
      a := a + 1;
    }
    b := if a < |s| && (s[a] == '-' || s[a] == '+') then a + 1 else a;
    e := b;
    while e < |s| && IsDigit(s[e])
      invariant b <= e <= |s| && forall k :: b <= k < e ==> IsDigit(s[k])
    {
      e := e + 1;
    }
  }

  // ---------------------------------------------------------------------------
  // Pairs
  // ---------------------------------------------------------------------------

  /** The pair read at i when op was the last operator; reading goes on at j with op'. An overflow of the
      column leaves the operator alone; a column without digits is not accepted. */
  ghost predicate PairAt(s: string, i: nat, op: u8, p: Pair, j: nat, op': u8) {
    i <= |s| &&
    var c := StrToL(s, i);
    && (c.value - p.col) % 0x1_0000_0000 == 0 && op' == p.op
    && if c.overflow then p.op == op && j == c.next
       else c.next != i && var o := StrToL(s, c.next); (o.value - p.op) % 256 == 0 && j == o.next
  }

  ghost predicate PairsAt(s: string, i: nat, op: u8, pairs: seq<Pair>, j: nat, op': u8) {
    if pairs == [] then j == i <= |s| && op' == op
    else
      var n := |pairs| - 1;
      var front, last := pairs[..n], pairs[n];
      exists k: nat, o: u8 :: PairsAt(s, i, op, front, k, o) && PairAt(s, k, o, last, j, op')
  }

  lemma SameWord(n: int, col: i32)
    ensures AsInt32(n) == col <==> (n - col) % 0x1_0000_0000 == 0
  {
    var r := AsInt32(n);
    assert (n - r) % TWO32 == 0 by {
      var q := n / TWO32;
      assert n == TWO32 * q + n % TWO32;
      assert n - r == if n % TWO32 < 0x8000_0000 then TWO32 * q else TWO32 * (q + 1);
    }
    if (n - col) % TWO32 == 0 {
      var x, y := (n - col) / TWO32, (n - r) / TWO32;
      assert r - col == TWO32 * (x - y);
      assert x == y;
    }
  }

  lemma SameByte(n: int, op: u8)
    ensures n % 256 == op <==> (n - op) % 256 == 0
  {
  }

  lemma {:induction false} PairIff(s: string, i: nat, op: u8, p: Pair, j: nat, op': u8)
    requires i <= |s|
    ensures PairAt(s, i, op, p, j, op') <==> ReadPair(s, i, op) == Scanned(p, j, op')
  {
    hide StrToL, AsInt32;
    var c := StrToL(s, i);
    SameWord(c.value, p.col);
    SameByte(StrToL(s, c.next).value, p.op);
  }

  lemma {:induction false} PairsIff(s: string, i: nat, op: u8, pairs: seq<Pair>, j: nat, op': u8)
    requires i <= |s|
    ensures PairsAt(s, i, op, pairs, j, op') <==> ReadPairs(s, i, op, |pairs|) == Scanned(pairs, j, op')
    decreases |pairs|
  {
    hide ReadPair, PairAt;
    if pairs != [] {
      var n := |pairs| - 1;
      var front := pairs[..n];
      assert pairs == front + [pairs[n]];
      if PairsAt(s, i, op, pairs, j, op') {
        var k: nat, o: u8 :| PairsAt(s, i, op, front, k, o) && PairAt(s, k, o, pairs[n], j, op');
        PairsIff(s, i, op, front, k, o);
        PairIff(s, k, o, pairs[n], j, op');
      }
      if ReadPairs(s, i, op, |pairs|) == Scanned(pairs, j, op') {
        var r := ReadPairs(s, i, op, n);
        assert r.value == front;
        PairsIff(s, i, op, front, r.next, r.op);
        PairIff(s, r.next, r.op, pairs[n], j, op');
      }
    }
  }

  // ---------------------------------------------------------------------------
  // The whole text
  // ---------------------------------------------------------------------------

  /** A count as a 32-bit number, none if that is negative. */
  ghost predicate CountIs(value: int, n: nat) {
    n == if value % 0x1_0000_0000 < 0x8000_0000 then value % 0x1_0000_0000 else 0
  }

  /** What follows the constraints: one character, an O, a count and that many pairs. */
  ghost predicate OrdersAt(s: string, j: nat, op: u8, orders: seq<Pair>) {
    && j + 1 < |s| && s[j + 1] == 'O'
    && var m := StrToL(s, j + 2);
       if m.overflow then orders == []
       else CountIs(m.value, |orders|) && exists k: nat, o: u8 :: PairsAt(s, m.next, op, orders, k, o)
  }

  /** A C, a count, that many pairs, and the order-by part. A count that overflows ends the text. */
  ghost predicate Accepts(s: string, pairs: seq<Pair>, orders: seq<Pair>) {
    && s != "" && s[0] == 'C'
    && var c := StrToL(s, 1);
       if c.overflow then pairs == [] && orders == []
       else CountIs(c.value, |pairs|) && exists j: nat, op: u8 :: PairsAt(s, c.next, 0, pairs, j, op) && OrdersAt(s, j, op, orders)
  }

  lemma CountMeans(value: int, n: nat)
    ensures CountIs(value, n) <==> Count(value) == n
  {
  }

  lemma {:induction false} OrdersIff(s: string, pairs: seq<Pair>, j: nat, op: u8, orders: seq<Pair>)
    requires j <= |s|
    ensures OrdersAt(s, j, op, orders) <==> ParseOrders(s, pairs, j, op) == Parsed(pairs, orders)
  {
    hide StrToL, ReadPairs, PairsAt, Count, CountIs;
    if j + 1 < |s| && s[j + 1] == 'O' {
      var m := StrToL(s, j + 2);
      CountMeans(m.value, |orders|);
      if OrdersAt(s, j, op, orders) && !m.overflow {
        var k: nat, o: u8 :| PairsAt(s, m.next, op, orders, k, o);
        PairsIff(s, m.next, op, orders, k, o);
      }
      if ParseOrders(s, pairs, j, op) == Parsed(pairs, orders) && !m.overflow {
        var r := ReadPairs(s, m.next, op, Count(m.value));
        PairsIff(s, m.next, op, orders, r.next, r.op);
      }
    }
  }

  /** Main result: for any text, the parse succeeds with these pairs if and only if the text is accepted
      as them. */
  lemma {:induction false} ParseIff(s: string, pairs: seq<Pair>, orders: seq<Pair>)
    ensures Parse(s) == Parsed(pairs, orders) <==> Accepts(s, pairs, orders)
  {
    hide StrToL, ReadPairs, PairsAt, OrdersAt, ParseOrders, Count, CountIs;
    if s != "" && s[0] == 'C' {
      var c := StrToL(s, 1);
      CountMeans(c.value, |pairs|);
      if Accepts(s, pairs, orders) && !c.overflow {
        var j: nat, op: u8 :| PairsAt(s, c.next, 0, pairs, j, op) && OrdersAt(s, j, op, orders);
        PairsIff(s, c.next, 0, pairs, j, op);
        OrdersIff(s, pairs, j, op, orders);
      }
      if Parse(s) == Parsed(pairs, orders) && !c.overflow {
        var r := ReadPairs(s, c.next, 0, Count(c.value));
        OrdersKeep(s, r.value, r.next, r.op);
        PairsIff(s, c.next, 0, pairs, r.next, r.op);
        OrdersIff(s, pairs, r.next, r.op, orders);
      }
    }
  }

  lemma OrdersKeep(s: string, pairs: seq<Pair>, j: nat, op: u8)
    requires j <= |s|
    ensures ParseOrders(s, pairs, j, op).Parsed? ==> ParseOrders(s, pairs, j, op).constraints == pairs
  {
    hide StrToL, ReadPairs;
  }
}
