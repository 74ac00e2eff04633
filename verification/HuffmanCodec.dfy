/** Huffman compression of a whole file and the decoder that undoes it. */
module HuffmanCodec {
  import opened Bytes
  import opened HuffmanOptimal
  import opened HuffmanLengths
  import opened HuffmanBuilder
  import opened Canonical
  import opened BitStream
  import opened HuffmanTrie

  const TableOffset := 12
  const PayloadOffset := 268

  function Magic(): (m: seq<byte>)
    ensures |m| == 4
  {
    [72, 85, 70, 49]
  }

  function Header(size: nat, lengths: seq<byte>): (h: seq<byte>)
    ensures |h| == 12 + |lengths|
  {
    Magic() + LittleEndian(size, 8) + lengths
  }

  // ---- data as bits ----

  function EncodeBits(codes: seq<HuffCode>, data: seq<byte>): HuffCode
    requires |codes| == 256
  {
    if data == [] then [] else codes[data[0]] + EncodeBits(codes, data[1..])
  }

  predicate HasCodes(codes: seq<HuffCode>, data: seq<byte>)
    requires |codes| == 256
  {
    forall i :: 0 <= i < |data| ==> codes[data[i]] != []
  }

  lemma {:induction false} EncodeConcat(codes: seq<HuffCode>, a: seq<byte>, b: seq<byte>)
    requires |codes| == 256
    ensures EncodeBits(codes, a + b) == EncodeBits(codes, a) + EncodeBits(codes, b)
  {
    if a == [] {
      assert a + b == b;
    } else {
      EncodeConcat(codes, a[1..], b);
      assert (a + b)[1..] == a[1..] + b;
      assert codes[a[0]] + (EncodeBits(codes, a[1..]) + EncodeBits(codes, b)) == EncodeBits(codes, a) + EncodeBits(codes, b);
    }
  }

  lemma EncodeOne(codes: seq<HuffCode>, b: byte)
    requires |codes| == 256
    ensures EncodeBits(codes, [b]) == codes[b]
  {
    assert [b][1..] == [];
  }

  /** Two data strings whose bits begin alike begin alike themselves. */
  lemma {:induction false} DecodingIsUnique(codes: seq<HuffCode>, a: seq<byte>, b: seq<byte>, x: HuffCode, y: HuffCode)
    requires |codes| == 256 && PrefixFree(codes) && HasCodes(codes, a) && HasCodes(codes, b)
    requires EncodeBits(codes, a) + x == EncodeBits(codes, b) + y && |a| <= |b|
    ensures a <= b && x == EncodeBits(codes, b[|a|..]) + y
  {
    if a == [] {
      assert EncodeBits(codes, a) + x == x && b[0..] == b;
    } else {
      var ca, cb := codes[a[0]], codes[b[0]];
      var ta, tb := EncodeBits(codes, a[1..]), EncodeBits(codes, b[1..]);
      assert EncodeBits(codes, a) + x == ca + (ta + x) && EncodeBits(codes, b) + y == cb + (tb + y);
      SamePrefix(ca, ta + x, cb, tb + y);
      assert a[0] == b[0];
      DecodingIsUnique(codes, a[1..], b[1..], x, y);
      assert a == [a[0]] + a[1..] && b == [b[0]] + b[1..];
      assert b[1..][|a| - 1..] == b[|a|..];
    }
  }

  lemma SameSizeSameBits(codes: seq<HuffCode>, a: seq<byte>, b: seq<byte>, x: HuffCode, y: HuffCode)
    requires |codes| == 256 && PrefixFree(codes) && HasCodes(codes, a) && HasCodes(codes, b)
    requires EncodeBits(codes, a) + x == EncodeBits(codes, b) + y && |a| == |b|
    ensures a == b && x == y
  {
    DecodingIsUnique(codes, a, b, x, y);
    assert b[|a|..] == [] && [] + y == y;
  }

  lemma SamePrefix(a: HuffCode, x: HuffCode, b: HuffCode, y: HuffCode)
    requires a + x == b + y
    ensures a <= b || b <= a
    ensures a == b ==> x == y
  {
    assert (a + x)[..|a|] == a && (b + y)[..|b|] == b && (a + x)[|a|..] == x && (b + y)[|b|..] == y;
    if |a| <= |b| {
      assert b[..|a|] == (b + y)[..|a|];
    } else {
      assert a[..|b|] == (a + x)[..|b|];
    }
  }

  // ---- frequencies ----

  function Frequencies(data: seq<byte>): (f: seq<nat>)
    ensures |f| == 256
  {
    if data == [] then seq(256, _ => 0)
    else
      var front, b := Frequencies(data[..|data| - 1]), data[|data| - 1];
      front[b := front[b] + 1]
  }

  lemma {:induction false} FrequenciesMeaning(data: seq<byte>)
    ensures Sum(Frequencies(data)) == |data|
    ensures forall s :: 0 <= s < 256 ==> (Frequencies(data)[s] > 0 <==> s in data)
  {
    if data == [] {
      SumZero(Frequencies(data));
    } else {
      var front, b := data[..|data| - 1], data[|data| - 1];
      FrequenciesMeaning(front);
      SumUpdate(Frequencies(front), b, Frequencies(front)[b] + 1);
      assert data == front + [b];
    }
  }

  /** The bit count of the encoding is what the cost function measures. */
  lemma {:induction false} EncodedSize(codes: seq<HuffCode>, lengths: seq<nat>, data: seq<byte>)
    requires |codes| == |lengths| == 256
    requires forall s :: 0 <= s < 256 ==> |codes[s]| == lengths[s]
    ensures |EncodeBits(codes, data)| == Cost(Frequencies(data), lengths)
  {
    if data == [] {
      SumZero(Products(Frequencies(data), lengths));
    } else {
      var front, b := data[..|data| - 1], data[|data| - 1];
      EncodedSize(codes, lengths, front);
      assert data == front + [b];
      EncodeConcat(codes, front, [b]);
      EncodeOne(codes, b);
      CountOnce(Frequencies(front), lengths, b);
    }
  }

  lemma CountOnce(w: seq<nat>, l: seq<nat>, k: nat)
    requires k < |w| == |l|
    ensures Cost(w[k := w[k] + 1], l) == Cost(w, l) + l[k]
  {
    SumUpdate(Products(w, l), k, (w[k] + 1) * l[k]);
    assert Products(w, l)[k := (w[k] + 1) * l[k]] == Products(w[k := w[k] + 1], l);
    Distribute(w[k], 1, l[k]);
  }

  // ---- the format ----

  /**
   `input` is the stream of `output`: the header declaring its size and a table of lengths, then the
   code bits of its bytes under that table, zero-padded to a whole byte, and nothing after.
   */
  ghost predicate IsStream(input: seq<byte>, output: seq<byte>)
  {
    |input| >= PayloadOffset &&
    var lengths := input[TableOffset..PayloadOffset];
    input[..PayloadOffset] == Header(|output|, lengths) &&
    var codes := CanonicalCodes(lengths);
    && codes.Some?
    && HasCodes(codes.value, output)
    && (output == [] ==> forall s :: 0 <= s < 256 ==> codes.value[s] == [])
    && input[PayloadOffset..] == Pack(EncodeBits(codes.value, output))
  }

  ghost function Lengths(data: seq<byte>): (l: seq<byte>)
    ensures |l| == 256 && l == CodeLengths(Frequencies(data))
  {
    LengthsMeaning(Frequencies(data), 255);
    CodeLengths(Frequencies(data))
  }

  lemma EncoderMeaning(data: seq<byte>)
    ensures var codes := CanonicalCodes(Lengths(data));
            codes.Some? && HasCodes(codes.value, data) && (data == [] ==> forall s :: 0 <= s < 256 ==> codes.value[s] == [])
  {
    EncoderCodesExist(Frequencies(data));
    FrequenciesMeaning(data);
    var codes := CanonicalCodes(Lengths(data)).value;
    forall i | 0 <= i < |data| ensures codes[data[i]] != [] {
      assert data[i] in data;
    }
  }

  /** What the compressor writes. */
  ghost function Compressed(data: seq<byte>): seq<byte>
  {
    EncoderMeaning(data);
    Header(|data|, Lengths(data)) + Pack(EncodeBits(CanonicalCodes(Lengths(data)).value, data))
  }

  /** The compressor's output is a stream of its input. */
  lemma CompressedIsStream(data: seq<byte>)
    ensures IsStream(Compressed(data), data)
  {
    EncoderMeaning(data);
    var lengths := Lengths(data);
    var header := Header(|data|, lengths);
    assert header[12..268] == lengths;
    var s := Compressed(data);
    assert s[..268] == header && s[12..268] == lengths;
    assert s[268..] == Pack(EncodeBits(CanonicalCodes(lengths).value, data));
  }

  lemma HeaderSize(a: nat, b: nat, la: seq<byte>, lb: seq<byte>)
    requires Header(a, la) == Header(b, lb) && |la| == |lb| && a < UINT64 && b < UINT64
    ensures a == b
  {
    assert Header(a, la)[4..12] == LittleEndian(a, 8) && Header(b, lb)[4..12] == LittleEndian(b, 8);
    LittleEndianInjective(a, b, 8);
  }

  /** A stream determines its output: no two files share one. */
  lemma StreamIsUnique(input: seq<byte>, a: seq<byte>, b: seq<byte>)
    requires IsStream(input, a) && IsStream(input, b) && |a| < UINT64 && |b| < UINT64
    ensures a == b
  {
    var lengths := input[TableOffset..PayloadOffset];
    HeaderSize(|a|, |b|, lengths, lengths);
    SizedStreamIsUnique(input, a, b);
  }

  lemma SizedStreamIsUnique(input: seq<byte>, a: seq<byte>, b: seq<byte>)
    requires IsStream(input, a) && IsStream(input, b) && |a| == |b|
    ensures a == b
  {
    var lengths := input[TableOffset..PayloadOffset];
    var codes := CanonicalCodes(lengths).value;
    CanonicalCodesMeaning(lengths, 255);
    var x, y := EncodeBits(codes, a), EncodeBits(codes, b);
    BitsOfPack(x);
    BitsOfPack(y);
    DecodingIsUnique(codes, a, b, Zeros(Padding(|x|)), Zeros(Padding(|y|)));
  }

  /**
   No prefix code with at least one bit per occurring byte makes the stream shorter than the
   compressor's: 268 bytes of header and the packed bits of an optimal table.
   */
  lemma CompressedIsShortest(data: seq<byte>, alt: seq<nat>, m: nat)
    requires Feasible(Frequencies(data), alt, m)
    ensures |Compressed(data)| <= 268 + (Cost(Frequencies(data), alt) + 7) / 8
  {
    var lengths := Lengths(data);
    EncoderMeaning(data);
    CanonicalCodesMeaning(lengths, 255);
    EncodedSize(CanonicalCodes(lengths).value, lengths, data);
    LengthsAreOptimal(Frequencies(data), alt, m);
  }

  function EightBits(): (l: seq<nat>)
    ensures |l| == 256
  {
    seq(256, _ => 8)
  }

  lemma EightBitsFit(frequencies: seq<nat>)
    requires |frequencies| == 256
    ensures Feasible(frequencies, EightBits(), 8)
  {
    SumAtMost(UsedShares(frequencies, EightBits(), 8), 1);
  }

  lemma {:induction false} SumAtMost(s: seq<nat>, x: nat)
    requires forall i :: 0 <= i < |s| ==> s[i] <= x
    ensures Sum(s) <= |s| * x
  {
    if s != [] {
      SumAtMost(s[..|s| - 1], x);
      assert (|s| - 1) * x + x == |s| * x;
    }
  }

  lemma {:induction false} SumScaled(s: seq<nat>, t: seq<nat>, x: nat)
    requires |s| == |t| && forall i :: 0 <= i < |s| ==> t[i] == s[i] * x
    ensures Sum(t) == Sum(s) * x
  {
    if s != [] {
      var n := |s| - 1;
      SumScaled(s[..n], t[..n], x);
      assert Sum(s[..n]) * x + s[n] * x == (Sum(s[..n]) + s[n]) * x;
    }
  }

  /** Bytes as they are would be a code of eight bits each, so nothing grows by more than the header. */
  lemma CompressedSize(data: seq<byte>)
    ensures |Compressed(data)| <= 268 + |data|
  {
    var frequencies := Frequencies(data);
    EightBitsFit(frequencies);
    CompressedIsShortest(data, EightBits(), 8);
    FrequenciesMeaning(data);
    SumScaled(frequencies, Products(frequencies, EightBits()), 8);
  }

  // ---- the program ----

  method HuffmanCompress(input: seq<byte>) returns (output: seq<byte>)
    requires |input| < UINT64
    ensures output == Compressed(input)
    ensures IsStream(output, input)
  {
    var frequencies: seq<nat> := seq(256, _ => 0);
    var i := 0;
    while i < |input|
      invariant 0 <= i <= |input| && frequencies == Frequencies(input[..i])
    {
      assert input[..i + 1][..i] == input[..i];
      frequencies := frequencies[input[i] := frequencies[input[i]] + 1];
      i := i + 1;
    }
    assert input[..i] == input;
    FrequenciesMeaning(input);
    var lengths := BuildHuffmanLengths(frequencies);
    var table := AssignCanonicalCodes(lengths);
    EncoderMeaning(input);
    var codes := table.value;
    output := WriteStream(input, lengths, codes);
    CompressedIsStream(input);
  }

  lemma EncodeSnoc(codes: seq<HuffCode>, data: seq<byte>, i: nat)
    requires |codes| == 256 && i < |data|
    ensures EncodeBits(codes, data[..i + 1]) == EncodeBits(codes, data[..i]) + codes[data[i]]
  {
    assert data[..i + 1] == data[..i] + [data[i]];
    EncodeConcat(codes, data[..i], [data[i]]);
    EncodeOne(codes, data[i]);
  }

  method WriteStream(input: seq<byte>, lengths: seq<byte>, codes: seq<HuffCode>) returns (output: seq<byte>)
    requires |codes| == |lengths| == 256
    ensures output == Header(|input|, lengths) + Pack(EncodeBits(codes, input))
  {
    var header := Header(|input|, lengths);
    var writer := new BitWriter(header);
    var i := 0;
    assert Bits(header) + [] == Bits(header);
    while i < |input|
      invariant 0 <= i <= |input| && writer.Valid()
      invariant writer.Written() == Bits(header) + EncodeBits(codes, input[..i])
    {
      writer.Write(codes[input[i]]);
      EncodeSnoc(codes, input, i);
      Associative(Bits(header), EncodeBits(codes, input[..i]), codes[input[i]]);
      i := i + 1;
    }
    assert input[..i] == input;
    writer.Finish();
    PackAfterBytes(header, EncodeBits(codes, input));
    output := writer.out;
  }

  // ---- the decoder ----

  /** A node without a symbol lies strictly above every code it is comparable to. */
  lemma StrictlyAbove(trie: seq<TrieNode>, paths: seq<HuffCode>, codes: seq<HuffCode>, node: nat, symbol: nat)
    requires TrieOf(trie, paths, codes, |codes|) && PrefixFree(codes)
    requires node < |trie| && trie[node].symbol < 0 && symbol < |codes| && codes[symbol] != []
    requires paths[node] <= codes[symbol] || codes[symbol] <= paths[node]
    ensures paths[node] < codes[symbol]
  {
    assert paths[node] != codes[symbol];
    if codes[symbol] <= paths[node] {
      NothingBelowACode(paths, codes, node, symbol);
    }
  }

  lemma NothingBelowACode(paths: seq<HuffCode>, codes: seq<HuffCode>, node: nat, symbol: nat)
    requires OnCodes(paths, codes, |codes|) && PrefixFree(codes)
    requires node < |paths| && symbol < |codes| && codes[symbol] != [] && codes[symbol] <= paths[node]
    ensures paths[node] == codes[symbol]
  {
    var t :| 0 <= t < |codes| && paths[node] <= codes[t];
    assert codes[symbol] <= codes[t];
  }

  lemma ChildTowards(trie: seq<TrieNode>, paths: seq<HuffCode>, codes: seq<HuffCode>, node: nat, symbol: nat)
    requires TrieOf(trie, paths, codes, |codes|) && node < |trie| && symbol < |codes| && paths[node] < codes[symbol]
    ensures Child(trie[node], codes[symbol][|paths[node]|]) >= 0
  {
    var bit := codes[symbol][|paths[node]|];
    assert codes[symbol][..|paths[node]| + 1] == paths[node] + [bit];
    assert ChildFits(trie, paths, node, bit);
  }

  /** A node without a symbol that leads to a code: the code goes on with an unread bit, and so does the trie. */
  lemma MustContinue(trie: seq<TrieNode>, paths: seq<HuffCode>, codes: seq<HuffCode>, node: nat, unread: HuffCode,
                     more: seq<byte>, pad: HuffCode)
    requires |codes| == 256 && TrieOf(trie, paths, codes, 256) && PrefixFree(codes)
    requires node < |trie| && trie[node].symbol < 0
    requires more != [] && HasCodes(codes, more) && paths[node] + unread == EncodeBits(codes, more) + pad
    ensures unread != [] && Child(trie[node], unread[0]) >= 0
  {
    var tail := EncodeBits(codes, more[1..]) + pad;
    Associative(codes[more[0]], EncodeBits(codes, more[1..]), pad);
    SamePrefix(paths[node], unread, codes[more[0]], tail);
    StrictlyAbove(trie, paths, codes, node, more[0]);
    ChildTowards(trie, paths, codes, node, more[0]);
    assert (paths[node] + unread)[|paths[node]|] == codes[more[0]][|paths[node]|];
  }

  /** The bits of a payload that packs the codes of `output`. */
  lemma PayloadBits(codes: seq<HuffCode>, payload: seq<byte>, output: seq<byte>)
    requires |codes| == 256 && payload == Pack(EncodeBits(codes, output))
    ensures Bits(payload) == EncodeBits(codes, output) + Zeros(Padding(|EncodeBits(codes, output)|))
  {
    BitsOfPack(EncodeBits(codes, output));
  }

  ghost predicate Unpackable(codes: seq<HuffCode>, payload: seq<byte>, n: nat)
    requires |codes| == 256
  {
    forall o: seq<byte> :: |o| == n && HasCodes(codes, o) ==> payload != Pack(EncodeBits(codes, o))
  }

  /** With the trie unable to go on before `n` bytes are decoded, the payload packs no `n` bytes. */
  lemma Stuck(trie: seq<TrieNode>, paths: seq<HuffCode>, codes: seq<HuffCode>, node: nat, unread: HuffCode,
              payload: seq<byte>, output: seq<byte>, n: nat)
    requires |codes| == 256 && TrieOf(trie, paths, codes, 256) && PrefixFree(codes)
    requires node < |trie| && trie[node].symbol < 0 && |output| < n && HasCodes(codes, output)
    requires Bits(payload) == EncodeBits(codes, output) + (paths[node] + unread)
    requires unread == [] || Child(trie[node], unread[0]) < 0
    ensures Unpackable(codes, payload, n)
  {
    forall o: seq<byte> | |o| == n && HasCodes(codes, o) ensures payload != Pack(EncodeBits(codes, o)) {
      if payload == Pack(EncodeBits(codes, o)) {
        var pad := Zeros(Padding(|EncodeBits(codes, o)|));
        PayloadBits(codes, payload, o);
        DecodingIsUnique(codes, output, o, paths[node] + unread, pad);
        MustContinue(trie, paths, codes, node, unread, o[|output|..], pad);
      }
    }
  }

  /** All bytes decoded and less than a byte of zeros left: the payload packs them. */
  lemma CleanEnd(bits: HuffCode, unread: HuffCode, payload: seq<byte>)
    requires Bits(payload) == bits + unread && |unread| < 8 && unread == Zeros(|unread|)
    ensures payload == Pack(bits)
  {
    assert |unread| == Padding(|bits|);
    BitsOfPack(bits);
    PackOfBits(payload);
    PackOfBits(Pack(bits));
  }

  /** All bytes decoded and anything else left: the payload packs nothing of that size. */
  lemma DirtyEnd(codes: seq<HuffCode>, unread: HuffCode, payload: seq<byte>, output: seq<byte>)
    requires |codes| == 256 && PrefixFree(codes) && HasCodes(codes, output)
    requires Bits(payload) == EncodeBits(codes, output) + unread
    requires !(|unread| < 8 && unread == Zeros(|unread|))
    ensures Unpackable(codes, payload, |output|)
  {
    forall o: seq<byte> | |o| == |output| && HasCodes(codes, o) ensures payload != Pack(EncodeBits(codes, o)) {
      if payload == Pack(EncodeBits(codes, o)) {
        var pad := Zeros(Padding(|EncodeBits(codes, o)|));
        PayloadBits(codes, payload, o);
        SameSizeSameBits(codes, output, o, unread, pad);
      }
    }
  }

  lemma OneBitOn(done: HuffCode, path: HuffCode, unread: HuffCode)
    requires unread != []
    ensures done + (path + unread) == done + (path + [unread[0]] + unread[1..])
  {
    assert unread == [unread[0]] + unread[1..];
    Associative(path, [unread[0]], unread[1..]);
  }

  lemma OneByteOn(codes: seq<HuffCode>, output: seq<byte>, symbol: byte, unread: HuffCode)
    requires |codes| == 256
    ensures EncodeBits(codes, output) + (codes[symbol] + unread) == EncodeBits(codes, output + [symbol]) + ([] + unread)
  {
    EncodeConcat(codes, output, [symbol]);
    EncodeOne(codes, symbol);
    Associative(EncodeBits(codes, output), codes[symbol], unread);
    assert [] + unread == unread;
  }

  /** Halfway through decoding: the payload's bits are those of `output`, of the path walked since, and the unread ones. */
  ghost predicate Decoding(codes: seq<HuffCode>, trie: seq<TrieNode>, paths: seq<HuffCode>, payload: seq<byte>,
                           output: seq<byte>, node: nat, unread: HuffCode)
  {
    && |codes| == 256 && |paths| == |trie| && node < |trie| && trie[node].symbol < 0 && HasCodes(codes, output)
    && Bits(payload) == EncodeBits(codes, output) + (paths[node] + unread)
  }

  lemma DecodeBit(codes: seq<HuffCode>, trie: seq<TrieNode>, paths: seq<HuffCode>, payload: seq<byte>,
                  output: seq<byte>, node: nat, unread: HuffCode)
    requires TrieOf(trie, paths, codes, |codes|) && Decoding(codes, trie, paths, payload, output, node, unread)
    requires unread != [] && Child(trie[node], unread[0]) >= 0
    ensures var next := Child(trie[node], unread[0]);
            && next < |trie|
            && (if trie[next].symbol < 0 then Decoding(codes, trie, paths, payload, output, next, unread[1..])
                else trie[next].symbol < 256
                     && Decoding(codes, trie, paths, payload, output + [trie[next].symbol], 0, unread[1..]))
  {
    var next := Child(trie[node], unread[0]);
    OneBitOn(EncodeBits(codes, output), paths[node], unread);
    assert ChildFits(trie, paths, node, unread[0]);
    if trie[next].symbol >= 0 {
      OneByteOn(codes, output, trie[next].symbol, unread[1..]);
    }
  }

  /** Walks the trie bit by bit until `n` bytes are decoded. */
  method DecodePayload(codes: seq<HuffCode>, trie: seq<TrieNode>, ghost paths: seq<HuffCode>,
                       input: seq<byte>, position: nat, n: nat) returns (result: Option<seq<byte>>)
    requires |codes| == 256 && TrieOf(trie, paths, codes, 256) && PrefixFree(codes)
    requires position <= |input| && n > 0
    ensures result.Some? ==> |result.value| == n && HasCodes(codes, result.value)
                             && input[position..] == Pack(EncodeBits(codes, result.value))
    ensures result.None? ==> Unpackable(codes, input[position..], n)
  {
    ghost var payload := input[position..];
    var reader := new BitReader(input, position);
    var output: seq<byte> := [];
    var node: nat := 0;
    assert [] + ([] + Bits(payload)) == Bits(payload);
    while |output| < n
      invariant reader.Valid() && |output| <= n && (output != [] ==> reader.remaining < 8)
      invariant Decoding(codes, trie, paths, payload, output, node, reader.Unread()) && (|output| == n ==> node == 0)
      decreases |reader.Unread()|
    {
      ghost var unread := reader.Unread();
      if unread == [] || Child(trie[node], unread[0]) < 0 {
        Stuck(trie, paths, codes, node, unread, payload, output, n);
      } else {
        DecodeBit(codes, trie, paths, payload, output, node, unread);
      }
      var bit := reader.Read();
      if bit < 0 {
        return None;
      }
      var next := Child(trie[node], bit);
      if next < 0 {
        return None;
      }
      node := next;
      if trie[node].symbol >= 0 {
        output := output + [trie[node].symbol];
        node := 0;
      }
    }
    assert [] + reader.Unread() == reader.Unread();
    var clean := reader.HasOnlyZeroPaddingAndEof();
    if clean {
      CleanEnd(EncodeBits(codes, output), reader.Unread(), payload);
      result := Some(output);
    } else {
      DirtyEnd(codes, reader.Unread(), payload, output);
      result := None;
    }
  }

  lemma HeaderOf(input: seq<byte>, n: nat)
    requires |input| >= 268 && n < UINT64
    ensures input[..268] == Header(n, input[12..268]) <==> input[..4] == Magic() && FromLittleEndian(input[4..12]) == n
  {
    Pow256Of8();
    FromLittleEndianOf(n, 8);
    LittleEndianOfFrom(input[4..12]);
    assert input[..268] == input[..4] + input[4..12] + input[12..268];
    var h := Header(n, input[12..268]);
    assert h[..4] == Magic() && h[4..12] == LittleEndian(n, 8);
    assert input[..268][..4] == input[..4] && input[..268][4..12] == input[4..12];
  }

  /**
   Accepts exactly the streams of outputs of the expected size, and returns that output. Everything
   else is refused: a wrong header or size, a table that breaks Kraft's inequality or does not fit the
   size, a truncated or undecodable bit string, and any padding or trailing data beyond the last byte.
   */
  method HuffmanDecompress(input: seq<byte>, expectedSize: nat) returns (result: Option<seq<byte>>)
    requires expectedSize < UINT64
    ensures result.Some? ==> |result.value| == expectedSize && IsStream(input, result.value)
    ensures result.None? ==> forall o :: |o| == expectedSize ==> !IsStream(input, o)
  {
    if |input| < 4 || input[..4] != Magic() {
      if |input| >= 268 { HeaderOf(input, expectedSize); }
      return None;
    }
    if |input| < 12 || FromLittleEndian(input[4..12]) != expectedSize {
      if |input| >= 268 { HeaderOf(input, expectedSize); }
      return None;
    }
    if |input| < 268 {
      return None;
    }
    HeaderOf(input, expectedSize);
    var lengths := input[12..268];
    var table := AssignCanonicalCodes(lengths);
    if table.None? {
      return None;
    }
    var codes := table.value;
    CanonicalCodesMeaning(lengths, 255);
    var ok, trie, symbolCount;
    ghost var paths;
    ok, trie, symbolCount, paths := BuildTrie(codes);
    assert ok;  // the prefix checks of the table cannot fire
    if !((expectedSize == 0 && symbolCount == 0) || (expectedSize > 0 && symbolCount > 0)) {
      TableDoesNotFit(input, codes, expectedSize);
      return None;
    }
    if expectedSize == 0 {
      EmptyPayload(input, codes);
      if |input| == 268 {
        return Some([]);
      }
      return None;
    }
    result := DecodePayload(codes, trie, paths, input, 268, expectedSize);
  }

  lemma TableDoesNotFit(input: seq<byte>, codes: seq<HuffCode>, n: nat)
    requires |input| >= 268 && CanonicalCodes(input[12..268]) == Some(codes)
    requires n == 0 <==> exists s :: 0 <= s < 256 && codes[s] != []
    ensures forall o :: |o| == n ==> !IsStream(input, o)
  {
    forall o | |o| == n ensures !IsStream(input, o) {
      if n > 0 {
        assert codes[o[0]] == [];
      }
    }
  }

  lemma EmptyPayload(input: seq<byte>, codes: seq<HuffCode>)
    requires |input| >= 268 && CanonicalCodes(input[12..268]) == Some(codes)
    requires input[..268] == Header(0, input[12..268])
    requires forall s :: 0 <= s < 256 ==> codes[s] == []
    ensures IsStream(input, []) <==> |input| == 268
  {
    assert EncodeBits(codes, []) == [] && Pack([]) == [];
  }

  /** Decompressing what the compressor wrote returns the input, empty and single-valued inputs included. */
  method RoundTrip(input: seq<byte>) returns (result: Option<seq<byte>>)
    requires |input| < UINT64
    ensures result == Some(input)
  {
    var packed := HuffmanCompress(input);
    result := HuffmanDecompress(packed, |input|);
    if result.Some? {
      StreamIsUnique(packed, result.value, input);
    }
  }
}
