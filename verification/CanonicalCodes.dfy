/** Canonical prefix codes: shorter codes first, equal lengths by symbol, each code the successor of the last. */
module Canonical {
  import opened Bytes
  import opened HuffmanOptimal
  import opened HuffmanLengths

  type bit = b: int | 0 <= b < 2
  type HuffCode = seq<bit>
  datatype Pair = Pair(length: nat, symbol: nat)

  // ---- code words as numbers ----

  function Value(bits: HuffCode): nat
  {
    if bits == [] then 0 else 2 * Value(bits[..|bits| - 1]) + bits[|bits| - 1]
  }

  function Zeros(n: nat): (z: HuffCode)
    ensures |z| == n
  {
    seq(n, _ => 0)
  }

  lemma {:induction false} ValueBound(bits: HuffCode)
    ensures Value(bits) < Pow2(|bits|)
  {
    if bits != [] {
      ValueBound(bits[..|bits| - 1]);
    }
  }

  lemma {:induction false} ValueConcat(a: HuffCode, b: HuffCode)
    ensures Value(a + b) == Value(a) * Pow2(|b|) + Value(b)
  {
    if b == [] {
      assert a + b == a;
    } else {
      var n := |b| - 1;
      ValueConcat(a, b[..n]);
      assert (a + b)[..|a + b| - 1] == a + b[..n];
      Associate(Value(a), Pow2(n));
    }
  }

  lemma Associate(a: nat, b: nat)
    ensures a * (2 * b) == 2 * (a * b)
  {
  }

  lemma {:induction false} ValueZeros(n: nat)
    ensures Value(Zeros(n)) == 0
  {
    if n > 0 {
      ValueZeros(n - 1);
      assert Zeros(n)[..n - 1] == Zeros(n - 1);
    }
  }

  lemma {:induction false} ValueInjective(a: HuffCode, b: HuffCode)
    requires |a| == |b| && Value(a) == Value(b)
    ensures a == b
  {
    if a != [] {
      ValueInjective(a[..|a| - 1], b[..|b| - 1]);
      assert a == a[..|a| - 1] + [a[|a| - 1]] && b == b[..|b| - 1] + [b[|b| - 1]];
    }
  }

  /** The word after `bits` among those of the same length, and whether there was none. */
  function Successor(bits: HuffCode): (r: (HuffCode, bool))
    ensures |r.0| == |bits|
    ensures r.1 <==> Value(bits) + 1 == Pow2(|bits|)
    ensures Value(r.0) == if r.1 then 0 else Value(bits) + 1
  {
    if bits == [] then ([], true) else
      var n := |bits| - 1;
      if bits[n] == 0 then
        ValueBound(bits[..n]);
        assert (bits[..n] + [1])[..n] == bits[..n];
        (bits[..n] + [1], false)
      else
        var (front, carry) := Successor(bits[..n]);
        assert (front + [0])[..n] == front;
        (front + [0], carry)
  }

  function Ones(n: nat): (z: HuffCode)
    ensures |z| == n
  {
    seq(n, _ => 1)
  }

  lemma {:induction false} SuccessorOfOnes(n: nat)
    ensures Successor(Ones(n)) == (Zeros(n), true)
  {
    if n == 0 {
      assert Ones(0) == [] && Zeros(0) == [];
    } else {
      SuccessorOfOnes(n - 1);
      assert Ones(n)[..n - 1] == Ones(n - 1) && Zeros(n) == Zeros(n - 1) + [0];
    }
  }

  lemma {:induction false} SuccessorCarries(front: HuffCode, n: nat)
    ensures Successor(front + [0] + Ones(n)) == (front + [1] + Zeros(n), false)
  {
    var code := front + [0] + Ones(n);
    if n == 0 {
      assert code[..|front|] == front && front + [1] + Zeros(0) == front + [1];
    } else {
      SuccessorCarries(front, n - 1);
      assert code[..|code| - 1] == front + [0] + Ones(n - 1);
      assert front + [1] + Zeros(n - 1) + [0] == front + [1] + Zeros(n);
    }
  }

  /** The carry stops at the last zero of the code. */
  lemma CarryStops(code: HuffCode, current: HuffCode, q: nat)
    requires q < |code| == |current| && current[q] == code[q] == 0
    requires forall k :: 0 <= k < q ==> current[k] == code[k]
    requires forall k :: q < k < |code| ==> code[k] == 1 && current[k] == 0
    ensures Successor(code) == (current[q := 1], false)
  {
    var n := |code| - q - 1;
    SuccessorCarries(code[..q], n);
    assert code == code[..q] + [0] + Ones(n);
    assert current[q := 1] == code[..q] + [1] + Zeros(n);
  }

  /** The carry loop over the bits of the current code word. */
  method Increment(code: HuffCode) returns (current: HuffCode, carry: bool)
    ensures (current, carry) == Successor(code)
  {
    current, carry := code, true;
    var p := |code|;
    while p > 0 && carry
      invariant 0 <= p <= |code| == |current|
      invariant carry ==> forall k :: 0 <= k < p ==> current[k] == code[k]
      invariant carry ==> forall k :: p <= k < |code| ==> code[k] == 1 && current[k] == 0
      invariant !carry ==> (current, false) == Successor(code)
    {
      if current[p - 1] == 0 {
        CarryStops(code, current, p - 1);
        current := current[p - 1 := 1];
        carry := false;
      } else {
        current := current[p - 1 := 0];
      }
      p := p - 1;
    }
    if carry {
      SuccessorOfOnes(|code|);
      assert code == Ones(|code|) && current == Zeros(|code|);
    }
  }

  // ---- the table in canonical order ----

  predicate Less(a: Pair, b: Pair)
  {
    a.length < b.length || (a.length == b.length && a.symbol < b.symbol)
  }

  function Insert(p: Pair, s: seq<Pair>): seq<Pair>
  {
    if s == [] || Less(p, s[0]) then [p] + s else [s[0]] + Insert(p, s[1..])
  }

  /** The symbols below `n` that have a code, in canonical order. */
  function Ordered(lengths: seq<nat>, n: nat): seq<Pair>
    requires n <= |lengths|
  {
    if n == 0 then []
    else if lengths[n - 1] == 0 then Ordered(lengths, n - 1)
    else Insert(Pair(lengths[n - 1], n - 1), Ordered(lengths, n - 1))
  }

  ghost predicate Sorted(s: seq<Pair>)
  {
    forall i, j :: 0 <= i < j < |s| ==> Less(s[i], s[j])
  }

  predicate PairsFit(s: seq<Pair>, m: nat)
  {
    forall i :: 0 <= i < |s| ==> s[i].length <= m
  }

  /** Kraft units taken by the codes of a list of pairs. */
  function PairUnits(s: seq<Pair>, m: nat): nat
    requires PairsFit(s, m)
  {
    if s == [] then 0 else Pow2(m - s[0].length) + PairUnits(s[1..], m)
  }

  lemma {:induction false} InsertMembers(p: Pair, s: seq<Pair>, q: Pair)
    ensures q in Insert(p, s) <==> q == p || q in s
  {
    if s != [] && !Less(p, s[0]) {
      InsertMembers(p, s[1..], q);
      assert s == [s[0]] + s[1..];
    }
  }

  lemma {:induction false} InsertSorted(p: Pair, s: seq<Pair>)
    requires Sorted(s) && p !in s
    ensures Sorted(Insert(p, s))
  {
    if s == [] {
    } else if Less(p, s[0]) {
      assert forall i :: 0 < i < |s| ==> Less(s[0], s[i]);
    } else {
      InsertSorted(p, s[1..]);
      var t := Insert(p, s[1..]);
      forall i | 0 <= i < |t| ensures Less(s[0], t[i]) {
        InsertMembers(p, s[1..], t[i]);
        assert s[0] in s && t[i] in t;
      }
    }
  }

  lemma {:induction false} InsertUnits(p: Pair, s: seq<Pair>, m: nat)
    requires PairsFit(s, m) && p.length <= m
    ensures PairsFit(Insert(p, s), m)
    ensures PairUnits(Insert(p, s), m) == Pow2(m - p.length) + PairUnits(s, m)
  {
    if s == [] || Less(p, s[0]) {
      assert ([p] + s)[1..] == s;
    } else {
      InsertUnits(p, s[1..], m);
      var t := Insert(p, s[1..]);
      assert ([s[0]] + t)[1..] == t;
    }
  }

  lemma {:induction false} OrderedMembers(lengths: seq<nat>, n: nat, q: Pair)
    requires n <= |lengths|
    ensures q in Ordered(lengths, n) <==> q.symbol < n && lengths[q.symbol] == q.length > 0
  {
    if n > 0 {
      OrderedMembers(lengths, n - 1, q);
      if lengths[n - 1] > 0 {
        InsertMembers(Pair(lengths[n - 1], n - 1), Ordered(lengths, n - 1), q);
      }
    }
  }

  lemma {:induction false} OrderedSorted(lengths: seq<nat>, n: nat)
    requires n <= |lengths|
    ensures Sorted(Ordered(lengths, n))
  {
    if n > 0 {
      OrderedSorted(lengths, n - 1);
      if lengths[n - 1] > 0 {
        OrderedMembers(lengths, n - 1, Pair(lengths[n - 1], n - 1));
        InsertSorted(Pair(lengths[n - 1], n - 1), Ordered(lengths, n - 1));
      }
    }
  }

  lemma {:induction false} OrderedUnits(lengths: seq<nat>, n: nat, m: nat)
    requires n <= |lengths| && AtMost(lengths, m)
    ensures PairsFit(Ordered(lengths, n), m)
    ensures PairUnits(Ordered(lengths, n), m) == CodeUnits(lengths[..n], m)
  {
    if n > 0 {
      OrderedUnits(lengths, n - 1, m);
      var l := lengths[n - 1];
      assert lengths[..n] == lengths[..n - 1] + [l];
      var share := if l == 0 then 0 else Pow2(m - l);
      SumAppend(CodeShares(lengths[..n - 1], m), share);
      assert CodeShares(lengths[..n], m) == CodeShares(lengths[..n - 1], m) + [share];
      if l > 0 {
        InsertUnits(Pair(l, n - 1), Ordered(lengths, n - 1), m);
      }
    }
  }

  ghost predicate Distinct(ordered: seq<Pair>)
  {
    forall i, j :: 0 <= i < j < |ordered| ==> ordered[i].symbol != ordered[j].symbol
  }

  /** The canonical list as a whole: strictly sorted, each used symbol once with its own length. */
  lemma OrderedMeaning(lengths: seq<nat>)
    ensures var s := Ordered(lengths, |lengths|);
            && Sorted(s) && Distinct(s)
            && (forall k :: 0 <= k < |s| ==> s[k].symbol < |lengths| && lengths[s[k].symbol] == s[k].length > 0)
            && (forall i :: 0 <= i < |lengths| && lengths[i] > 0 ==> Pair(lengths[i], i) in s)
  {
    var s := Ordered(lengths, |lengths|);
    OrderedSorted(lengths, |lengths|);
    forall i | 0 <= i < |lengths| && lengths[i] > 0 ensures Pair(lengths[i], i) in s {
      OrderedMembers(lengths, |lengths|, Pair(lengths[i], i));
    }
    forall k | 0 <= k < |s| ensures s[k].symbol < |lengths| && lengths[s[k].symbol] == s[k].length > 0 {
      OrderedMembers(lengths, |lengths|, s[k]);
      assert s[k] in s;
    }
    forall i, j | 0 <= i < j < |s| ensures s[i].symbol != s[j].symbol {
      assert Less(s[i], s[j]);
    }
  }

  lemma OrderedAt(lengths: seq<nat>, s: nat) returns (k: nat)
    requires s < |lengths| && lengths[s] > 0
    ensures k < |Ordered(lengths, |lengths|)| && Ordered(lengths, |lengths|)[k].symbol == s
  {
    OrderedMeaning(lengths);
    k :| 0 <= k < |Ordered(lengths, |lengths|)| && Ordered(lengths, |lengths|)[k] == Pair(lengths[s], s);
  }

  // ---- assigning the codes ----

  /** The assignment loop from the pair at the head of `ordered` on. */
  function Assign(ordered: seq<Pair>, current: HuffCode, codes: seq<HuffCode>): (r: Option<seq<HuffCode>>)
    ensures r.Some? ==> |r.value| == |codes|
  {
    if ordered == [] then Some(codes)
    else if ordered[0].length < |current| || |codes| <= ordered[0].symbol then None
    else
      var code := current + Zeros(ordered[0].length - |current|);
      var codes' := codes[ordered[0].symbol := code];
      if |ordered| == 1 then Some(codes')
      else
        var (next, carry) := Successor(code);
        if carry then None else Assign(ordered[1..], next, codes')
  }

  function NoCodes(): (r: seq<HuffCode>)
    ensures |r| == 256
  {
    seq(256, _ => [])
  }

  function CanonicalCodes(lengths: seq<nat>): (r: Option<seq<HuffCode>>)
    requires |lengths| == 256
    ensures r.Some? ==> |r.value| == 256
  {
    var ordered := Ordered(lengths, |lengths|);
    if ordered == [] then Some(NoCodes())
    else Assign(ordered, Zeros(ordered[0].length), NoCodes())
  }

  /** Where on the scale of `2^m` units a code's own units begin. */
  function Start(code: HuffCode, m: nat): nat
    requires |code| <= m
  {
    Value(code) * Pow2(m - |code|)
  }

  lemma ExtendStart(code: HuffCode, d: nat, m: nat)
    requires |code| + d <= m
    ensures Start(code + Zeros(d), m) == Start(code, m)
  {
    ValueConcat(code, Zeros(d));
    ValueZeros(d);
    Pow2Add(d, m - |code| - d);
    MulAssociate(Value(code), Pow2(d), Pow2(m - |code| - d));
  }

  lemma MulAssociate(a: nat, b: nat, c: nat)
    ensures a * b * c == a * (b * c)
  {
  }

  /** The next code starts where this one's units end; there is none exactly when they end the scale. */
  lemma NextStart(code: HuffCode, m: nat)
    requires |code| <= m
    ensures var (next, carry) := Successor(code);
            && (if carry then Start(code, m) + Pow2(m - |code|) == Pow2(m)
                else Start(next, m) == Start(code, m) + Pow2(m - |code|) < Pow2(m))
  {
    var d := Pow2(m - |code|);
    ValueBound(code);
    Pow2Add(|code|, m - |code|);
    Distribute(Value(code), 1, d);
    if Value(code) + 1 < Pow2(|code|) {
      Monotone(Value(code) + 2, Pow2(|code|), d);
      Distribute(Value(code), 2, d);
    }
  }

  /** Codes for the pairs of `ordered` lie end to end from `start` on; nothing else changes. */
  ghost predicate EndToEnd(ordered: seq<Pair>, codes: seq<HuffCode>, start: nat, m: nat)
  {
    && PairsFit(ordered, m)
    && forall k :: 0 <= k < |ordered| ==>
         && ordered[k].symbol < |codes|
         && |codes[ordered[k].symbol]| == ordered[k].length
         && Start(codes[ordered[k].symbol], m) == start + PairUnits(ordered[..k], m)
  }

  lemma UnitsPrefix(ordered: seq<Pair>, k: nat, m: nat)
    requires 1 <= k <= |ordered| && PairsFit(ordered, m)
    ensures PairUnits(ordered[..k], m) == Pow2(m - ordered[0].length) + PairUnits(ordered[1..][..k - 1], m)
  {
    assert ordered[..k][1..] == ordered[1..][..k - 1];
  }

  /** The codes of the tail, placed after the head's, make the whole list lie end to end. */
  lemma HeadAndTail(ordered: seq<Pair>, codes: seq<HuffCode>, start: nat, m: nat)
    requires ordered != [] && PairsFit(ordered, m) && ordered[0].symbol < |codes|
    requires |codes[ordered[0].symbol]| == ordered[0].length && Start(codes[ordered[0].symbol], m) == start
    requires EndToEnd(ordered[1..], codes, start + Pow2(m - ordered[0].length), m)
    ensures EndToEnd(ordered, codes, start, m)
  {
    forall k | 0 <= k < |ordered|
      ensures ordered[k].symbol < |codes| && |codes[ordered[k].symbol]| == ordered[k].length
      ensures Start(codes[ordered[k].symbol], m) == start + PairUnits(ordered[..k], m)
    {
      if k > 0 {
        assert ordered[1..][k - 1] == ordered[k];
        UnitsPrefix(ordered, k, m);
      }
    }
  }

  ghost predicate Unlisted(ordered: seq<Pair>, s: nat)
  {
    forall k :: 0 <= k < |ordered| ==> ordered[k].symbol != s
  }

  lemma UnlistedTail(ordered: seq<Pair>, s: nat)
    requires ordered != [] && Unlisted(ordered, s)
    ensures ordered[0].symbol != s && Unlisted(ordered[1..], s)
  {
  }

  lemma {:induction false} AssignMeaning(ordered: seq<Pair>, current: HuffCode, codes: seq<HuffCode>, m: nat)
    requires ordered != [] && PairsFit(ordered, m) && Sorted(ordered) && Distinct(ordered)
    requires forall k :: 0 <= k < |ordered| ==> ordered[k].symbol < |codes|
    requires |current| <= ordered[0].length
    ensures var r := Assign(ordered, current, codes);
            && (r.Some? <==> Start(current, m) + PairUnits(ordered, m) <= Pow2(m))
            && (r.Some? ==>
                 && EndToEnd(ordered, r.value, Start(current, m), m)
                 && forall s :: 0 <= s < |codes| && Unlisted(ordered, s) ==> r.value[s] == codes[s])
  {
    AssignStep(ordered, current, codes);
    var code := current + Zeros(ordered[0].length - |current|);
    var codes' := codes[ordered[0].symbol := code];
    ExtendStart(current, ordered[0].length - |current|, m);
    NextStart(code, m);
    var (next, carry) := Successor(code);
    var rest := ordered[1..];
    if |ordered| == 1 {
      assert rest == [];
      HeadAndTail(ordered, codes', Start(current, m), m);
    } else if !carry {
      assert Less(ordered[0], ordered[1]);
      AssignMeaning(rest, next, codes', m);
      var r := Assign(rest, next, codes');
      if r.Some? {
        assert Unlisted(rest, ordered[0].symbol);
        HeadAndTail(ordered, r.value, Start(current, m), m);
        forall s | 0 <= s < |codes| && Unlisted(ordered, s) ensures r.value[s] == codes[s] {
          UnlistedTail(ordered, s);
        }
      }
    }
  }

  // ---- what the codes promise ----

  ghost predicate PrefixFree(codes: seq<HuffCode>)
  {
    forall s, t :: 0 <= s < |codes| && 0 <= t < |codes| && s != t && codes[s] != [] && codes[t] != []
      ==> !(codes[s] <= codes[t])
  }

  /** A code with another as a prefix starts inside that one's units. */
  lemma PrefixInside(a: HuffCode, b: HuffCode, m: nat)
    requires a <= b && |b| <= m
    ensures Start(a, m) <= Start(b, m) < Start(a, m) + Pow2(m - |a|)
  {
    var rest := b[|a|..];
    assert b == a + rest;
    ValueConcat(a, rest);
    ValueBound(rest);
    Pow2Add(|rest|, m - |b|);
    InsideArithmetic(Value(a), Value(rest), Pow2(|rest|), Pow2(m - |b|));
  }

  lemma InsideArithmetic(a: nat, r: nat, d: nat, e: nat)
    requires r < d && e >= 1
    ensures a * (d * e) <= (a * d + r) * e < a * (d * e) + d * e
  {
    MulAssociate(a, d, e);
    Distribute(a * d, r, e);
    Monotone(r + 1, d, e);
    Distribute(r, 1, e);
  }

  lemma {:induction false} UnitsGrow(ordered: seq<Pair>, i: nat, j: nat, m: nat)
    requires i < j <= |ordered| && PairsFit(ordered, m)
    ensures PairUnits(ordered[..i], m) + Pow2(m - ordered[i].length) <= PairUnits(ordered[..j], m)
  {
    if i == 0 {
      assert ordered[..0] == [];
      UnitsPrefix(ordered, j, m);
    } else {
      UnitsPrefix(ordered, i, m);
      UnitsPrefix(ordered, j, m);
      UnitsGrow(ordered[1..], i - 1, j - 1, m);
    }
  }

  lemma EndToEndIsPrefixFree(ordered: seq<Pair>, codes: seq<HuffCode>, start: nat, m: nat)
    requires EndToEnd(ordered, codes, start, m)
    requires forall s :: 0 <= s < |codes| && codes[s] != [] ==> exists k :: 0 <= k < |ordered| && ordered[k].symbol == s
    ensures PrefixFree(codes)
  {
    forall s, t | 0 <= s < |codes| && 0 <= t < |codes| && s != t && codes[s] != [] && codes[t] != []
      ensures !(codes[s] <= codes[t])
    {
      var i :| 0 <= i < |ordered| && ordered[i].symbol == s;
      var j :| 0 <= j < |ordered| && ordered[j].symbol == t;
      if codes[s] <= codes[t] {
        PrefixInside(codes[s], codes[t], m);
        if i < j {
          UnitsGrow(ordered, i, j, m);
        } else {
          UnitsGrow(ordered, j, i, m);
        }
        assert false;
      }
    }
  }

  /** The assigned codes have their lengths, and only symbols of the list have codes. */
  lemma AssignedLengths(lengths: seq<nat>, codes: seq<HuffCode>, m: nat)
    requires |lengths| == |codes| && EndToEnd(Ordered(lengths, |lengths|), codes, 0, m)
    requires forall s :: 0 <= s < |codes| && Unlisted(Ordered(lengths, |lengths|), s) ==> codes[s] == []
    ensures forall s :: 0 <= s < |codes| ==> |codes[s]| == lengths[s]
    ensures PrefixFree(codes)
  {
    var ordered := Ordered(lengths, |lengths|);
    OrderedMeaning(lengths);
    forall s | 0 <= s < |codes| ensures |codes[s]| == lengths[s] {
      if lengths[s] > 0 {
        var k := OrderedAt(lengths, s);
      } else {
        assert Unlisted(ordered, s);
      }
    }
    forall s | 0 <= s < |codes| && codes[s] != [] ensures exists k :: 0 <= k < |ordered| && ordered[k].symbol == s {
      var k := OrderedAt(lengths, s);
    }
    EndToEndIsPrefixFree(ordered, codes, 0, m);
  }

  /**
   The canonical assignment fails exactly when the lengths break Kraft's inequality. Otherwise every
   symbol gets a code of its length and no code is a prefix of another one.
   */
  lemma CanonicalCodesMeaning(lengths: seq<nat>, m: nat)
    requires |lengths| == 256 && AtMost(lengths, m)
    ensures var r := CanonicalCodes(lengths);
            && (r.Some? <==> CodeUnits(lengths, m) <= Pow2(m))
            && (r.Some? ==> PrefixFree(r.value) && forall s :: 0 <= s < 256 ==> |r.value[s]| == lengths[s])
  {
    var ordered := Ordered(lengths, |lengths|);
    OrderedMeaning(lengths);
    OrderedUnits(lengths, |lengths|, m);
    assert lengths[..|lengths|] == lengths;
    if ordered == [] {
      forall s | 0 <= s < 256 ensures lengths[s] == 0 {
        OrderedMembers(lengths, |lengths|, Pair(lengths[s], s));
      }
    } else {
      var zero, none := Zeros(ordered[0].length), NoCodes();
      ValueZeros(ordered[0].length);
      AssignMeaning(ordered, zero, none, m);
      var r := Assign(ordered, zero, none);
      if r.Some? {
        AssignedLengths(lengths, r.value, m);
      }
    }
  }

  /** The lengths the encoder builds always have canonical codes, with a code for every occurring byte. */
  lemma EncoderCodesExist(frequencies: seq<nat>)
    requires |frequencies| == 256
    ensures var r := CanonicalCodes(CodeLengths(frequencies));
            r.Some? && PrefixFree(r.value) && forall s :: 0 <= s < 256 ==> (r.value[s] != [] <==> frequencies[s] > 0)
  {
    var m := 255 + |frequencies|;
    LengthsMeaning(frequencies, m);
    assert AtMost(CodeLengths(frequencies), m);
    CanonicalCodesMeaning(CodeLengths(frequencies), m);
    assert Pow2(m) == 2 * Pow2(m - 1);
  }

  // ---- the assignment in the program's own form ----

  method AssignLoop(ordered: seq<Pair>) returns (result: Option<seq<HuffCode>>)
    requires ordered != [] && Sorted(ordered)
    requires forall k :: 0 <= k < |ordered| ==> ordered[k].symbol < 256
    ensures result == Assign(ordered, Zeros(ordered[0].length), NoCodes())
  {
    var codes := NoCodes();
    var current := Zeros(ordered[0].length);
    var i := 0;
    ghost var goal := Assign(ordered, current, codes);
    assert ordered[0..] == ordered;
    while i < |ordered|
      invariant 0 <= i <= |ordered| && |codes| == 256
      invariant i < |ordered| ==> |current| <= ordered[i].length
      invariant Assign(ordered[i..], current, codes) == goal
    {
      AssignStep(ordered[i..], current, codes);
      current := current + Zeros(ordered[i].length - |current|);
      codes := codes[ordered[i].symbol := current];
      assert ordered[i..][1..] == ordered[i + 1..];
      if i + 1 < |ordered| {
        assert Less(ordered[i], ordered[i + 1]);
        var carry;
        current, carry := Increment(current);
        if carry {
          return None;
        }
      }
      i := i + 1;
    }
    return Some(codes);
  }

  lemma AssignStep(rest: seq<Pair>, current: HuffCode, codes: seq<HuffCode>)
    requires rest != [] && |current| <= rest[0].length && rest[0].symbol < |codes|
    ensures var code := current + Zeros(rest[0].length - |current|);
            var codes' := codes[rest[0].symbol := code];
            Assign(rest, current, codes) ==
              if |rest| == 1 then Assign(rest[1..], code, codes')
              else if Successor(code).1 then None
              else Assign(rest[1..], Successor(code).0, codes')
  {
  }

  method AssignCanonicalCodes(lengths: seq<byte>) returns (result: Option<seq<HuffCode>>)
    requires |lengths| == 256
    ensures result == CanonicalCodes(lengths)
  {
    var ordered := [];
    var symbol := 0;
    while symbol < |lengths|
      invariant 0 <= symbol <= |lengths| && ordered == Ordered(lengths, symbol)
    {
      if lengths[symbol] != 0 {
        ordered := Insert(Pair(lengths[symbol], symbol), ordered);
      }
      symbol := symbol + 1;
    }
    if ordered == [] {
      return Some(NoCodes());
    }
    OrderedMeaning(lengths);
    result := AssignLoop(ordered);
  }
}
