/** Fixed-width little-endian fields and length-prefixed strings: printing and reading are inverse. */
module Fields {
  import opened Bytes

  const MaxString := 1048576

  function Print(values: seq<nat>, widths: seq<nat>): (r: seq<byte>)
    requires |values| == |widths|
    ensures |r| == Sum(widths)
  {
    if widths == [] then []
    else
      var n := |widths| - 1;
      Print(values[..n], widths[..n]) + LittleEndian(values[n], widths[n])
  }

  ghost predicate Fits(values: seq<nat>, widths: seq<nat>)
  {
    |values| == |widths| && forall i :: 0 <= i < |widths| ==> values[i] < Pow256(widths[i])
  }

  /** The values of the fields at the front of `s`. */
  function Values(s: seq<byte>, widths: seq<nat>): (r: seq<nat>)
    requires |s| >= Sum(widths)
    ensures |r| == |widths|
  {
    if widths == [] then []
    else
      var n := |widths| - 1;
      Values(s, widths[..n]) + [FromLittleEndian(s[Sum(widths[..n])..Sum(widths)])]
  }

  lemma {:induction false} ValuesOfPrint(values: seq<nat>, widths: seq<nat>, rest: seq<byte>)
    requires Fits(values, widths)
    ensures Values(Print(values, widths) + rest, widths) == values
  {
    if widths != [] {
      var n := |widths| - 1;
      var front, last := Print(values[..n], widths[..n]), LittleEndian(values[n], widths[n]);
      ValuesOfPrint(values[..n], widths[..n], last + rest);
      Associative(front, last, rest);
      assert (front + (last + rest))[|front|..|front| + |last|] == last;
      FromLittleEndianOf(values[n], widths[n]);
      assert values == values[..n] + [values[n]];
    }
  }

  lemma PrintAppend(values: seq<nat>, v: nat, widths: seq<nat>)
    requires |values| + 1 == |widths|
    ensures Print(values + [v], widths) == Print(values, widths[..|values|]) + LittleEndian(v, widths[|values|])
  {
    assert (values + [v])[..|values|] == values;
  }

  lemma PrintStep(values: seq<nat>, widths: seq<nat>, n: nat)
    requires n < |values| == |widths|
    ensures Print(values[..n + 1], widths[..n + 1]) == Print(values[..n], widths[..n]) + LittleEndian(values[n], widths[n])
  {
    assert values[..n + 1][..n] == values[..n] && widths[..n + 1][..n] == widths[..n];
  }

  /** Each field stands where the widths before it end. */
  lemma {:induction false} FieldPlace(values: seq<nat>, widths: seq<nat>, n: nat, i: nat)
    requires i < n <= |values| == |widths|
    ensures Sum(widths[..i]) + widths[i] <= Sum(widths[..n])
    ensures Print(values[..n], widths[..n])[Sum(widths[..i])..Sum(widths[..i]) + widths[i]] == LittleEndian(values[i], widths[i])
    decreases n
  {
    var before, last := Print(values[..n - 1], widths[..n - 1]), LittleEndian(values[n - 1], widths[n - 1]);
    PrintStep(values, widths, n - 1);
    assert widths[..n][..n - 1] == widths[..n - 1];
    if i < n - 1 {
      FieldPlace(values, widths, n - 1, i);
      var from, to := Sum(widths[..i]), Sum(widths[..i]) + widths[i];
      assert (before + last)[from..to] == before[from..to];
    } else {
      Halves(before, last);
    }
  }

  lemma Slice(s: seq<byte>, a: seq<byte>, b: seq<byte>, c: seq<byte>, i: nat, j: nat)
    requires s == a + b + c && i <= j <= |b|
    ensures s[|a| + i..|a| + j] == b[i..j]
  {
  }

  lemma OneByte(s: seq<byte>, k: nat, code: nat)
    requires k < |s| && code < 256 && s[k..k + 1] == LittleEndian(code, 1)
    ensures s[k] == code
  {
    assert LittleEndian(code, 1) == [code];
    assert s[k] == s[k..k + 1][0];
  }

  lemma ReadBack(field: seq<byte>, width: nat)
    requires |field| == width
    ensures FromLittleEndian(field) < Pow256(width) && LittleEndian(FromLittleEndian(field), width) == field
  {
    LittleEndianOfFrom(field);
  }

  lemma {:induction false} ValuesFit(s: seq<byte>, widths: seq<nat>)
    requires |s| >= Sum(widths)
    ensures Fits(Values(s, widths), widths)
  {
    if widths != [] {
      var n := |widths| - 1;
      ValuesFit(s, widths[..n]);
      ReadBack(s[Sum(widths[..n])..Sum(widths)], widths[n]);
    }
  }

  lemma SliceJoin(s: seq<byte>, i: nat, j: nat)
    requires i <= j <= |s|
    ensures s[..i] + s[i..j] == s[..j]
  {
  }

  lemma {:induction false} PrintOfValues(s: seq<byte>, widths: seq<nat>)
    requires |s| >= Sum(widths)
    ensures Print(Values(s, widths), widths) == s[..Sum(widths)]
  {
    if widths != [] {
      var n := |widths| - 1;
      var before, all := Sum(widths[..n]), Sum(widths);
      var field := s[before..all];
      PrintOfValues(s, widths[..n]);
      ReadBack(field, widths[n]);
      PrintAppend(Values(s, widths[..n]), FromLittleEndian(field), widths);
      SliceJoin(s, before, all);
    }
  }

  /** What reading yields: a value and the bytes after it, or a failure. */
  type Read<T> = Option<(T, seq<byte>)>

  function ReadFields(s: seq<byte>, widths: seq<nat>): Read<seq<nat>>
  {
    if |s| < Sum(widths) then None else Some((Values(s, widths), s[Sum(widths)..]))
  }

  lemma FieldsRead(values: seq<nat>, widths: seq<nat>, rest: seq<byte>)
    requires Fits(values, widths)
    ensures ReadFields(Print(values, widths) + rest, widths) == Some((values, rest))
  {
    ValuesOfPrint(values, widths, rest);
  }

  lemma FieldsPrinted(s: seq<byte>, widths: seq<nat>)
    requires ReadFields(s, widths).Some?
    ensures var r := ReadFields(s, widths).value; Fits(r.0, widths) && s == Print(r.0, widths) + r.1
  {
    PrintOfValues(s, widths);
    ValuesFit(s, widths);
  }

  predicate Storable(text: seq<byte>)
  {
    |text| <= MaxString && 0 !in text
  }

  function PrintString(text: seq<byte>): (r: seq<byte>)
    ensures |r| == 4 + |text|
  {
    LittleEndian(|text|, 4) + text
  }

  function ReadString(s: seq<byte>): Read<seq<byte>>
  {
    if |s| < 4 then None
    else
      var n := FromLittleEndian(s[..4]);
      if n > MaxString || |s| < 4 + n || 0 in s[4..4 + n] then None else Some((s[4..4 + n], s[4 + n..]))
  }

  lemma MaxStringFits()
    ensures MaxString < Pow256(4)
  {
  }

  lemma StringRead(text: seq<byte>, rest: seq<byte>)
    requires Storable(text)
    ensures ReadString(PrintString(text) + rest) == Some((text, rest))
  {
    MaxStringFits();
    var s := PrintString(text) + rest;
    FromLittleEndianOf(|text|, 4);
    assert s[..4] == LittleEndian(|text|, 4) && s[4..4 + |text|] == text && s[4 + |text|..] == rest;
  }

  lemma StringPrinted(s: seq<byte>)
    requires ReadString(s).Some?
    ensures var r := ReadString(s).value; Storable(r.0) && s == PrintString(r.0) + r.1
  {
    LittleEndianOfFrom(s[..4]);
    var n := FromLittleEndian(s[..4]);
    assert s == s[..4] + s[4..4 + n] + s[4 + n..];
  }
}
