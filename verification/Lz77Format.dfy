/** The LZ77 token block: its grammar, what it denotes, and the decoder. */
module Lz77Format {
  import opened Bytes

  const MinMatch := 3
  const MaxDistance := 0xFFFF

  /** One sequence of a block. The last one may hold literals only; the match nibble of its token is then unused. */
  datatype Step = Match(literals: seq<byte>, length: nat, distance: nat) | Last(literals: seq<byte>, nibble: nat)

  // ---- what a block denotes ----

  /** The byte-wise copy: source and destination may overlap. */
  function Copy(out: seq<byte>, distance: nat, n: nat): (r: seq<byte>)
    requires 1 <= distance <= |out|
    ensures |r| == |out| + n && out <= r
    decreases n
  {
    if n == 0 then out else Copy(out + [out[|out| - distance]], distance, n - 1)
  }

  /** A step fits behind `produced` bytes: its match reaches back into what is already there. */
  predicate Fits(step: Step, produced: nat, last: bool)
  {
    match step
    case Match(literals, length, distance) =>
      length >= MinMatch && 1 <= distance <= MaxDistance && distance <= produced + |literals|
    case Last(literals, nibble) => last && literals != [] && nibble < 16
  }

  function Apply(out: seq<byte>, step: Step): (r: seq<byte>)
    requires Fits(step, |out|, true)
    ensures |out| < |r|
  {
    match step
    case Match(literals, length, distance) => Copy(out + literals, distance, length)
    case Last(literals, _) => out + literals
  }

  predicate Valid(steps: seq<Step>, out: seq<byte>)
    decreases |steps|
  {
    steps != [] ==> Fits(steps[0], |out|, |steps| == 1) && Valid(steps[1..], Apply(out, steps[0]))
  }

  function Expand(steps: seq<Step>, out: seq<byte>): (r: seq<byte>)
    requires Valid(steps, out)
    ensures |out| <= |r|
    decreases |steps|
  {
    if steps == [] then out else Expand(steps[1..], Apply(out, steps[0]))
  }

  // ---- how it is written ----

  function Extension(extra: nat): seq<byte>
  {
    if extra >= 255 then [255] + Extension(extra - 255) else [extra]
  }

  /** The bytes continuing a nibble of 15; none for a smaller count. */
  function LengthBytes(count: nat): seq<byte>
  {
    if count >= 15 then Extension(count - 15) else []
  }

  predicate PrintableStep(step: Step)
  {
    match step
    case Match(_, length, distance) => length >= MinMatch && distance <= MaxDistance
    case Last(_, nibble) => nibble < 16
  }

  function Nibble(step: Step): nat
    requires PrintableStep(step)
  {
    match step
    case Match(_, length, _) => Min(length - MinMatch, 15)
    case Last(_, nibble) => nibble
  }

  /** What follows the literals of a step. */
  function MatchBytes(step: Step): seq<byte>
    requires PrintableStep(step)
  {
    match step
    case Match(_, length, distance) => LengthBytes(length - MinMatch) + [distance % 256, distance / 256]
    case Last(_, _) => []
  }

  /** The token byte: the literal count above the match nibble. */
  function Token(count: nat, nibble: nat): byte
    requires nibble < 16
  {
    Min(count, 15) * 16 + nibble
  }

  function StepBytes(step: Step): (r: seq<byte>)
    requires PrintableStep(step)
    ensures r != []
  {
    [Token(|step.literals|, Nibble(step))] + LengthBytes(|step.literals|) + step.literals + MatchBytes(step)
  }

  predicate Printable(steps: seq<Step>)
  {
    forall i :: 0 <= i < |steps| ==> PrintableStep(steps[i])
  }

  function BlockBytes(steps: seq<Step>): seq<byte>
    requires Printable(steps)
  {
    if steps == [] then [] else StepBytes(steps[0]) + BlockBytes(steps[1..])
  }

  lemma {:induction false} ValidIsPrintable(steps: seq<Step>, out: seq<byte>)
    requires Valid(steps, out)
    ensures Printable(steps)
    decreases |steps|
  {
    if steps != [] {
      ValidIsPrintable(steps[1..], Apply(out, steps[0]));
      assert steps == [steps[0]] + steps[1..];
    }
  }

  // ---- the decoder ----

  /** Extension bytes added to `value`; refused as soon as the block size is exceeded. */
  function Extend(value: nat, input: seq<byte>, size: nat): (r: Option<(nat, seq<byte>)>)
    ensures r.Some? ==> |r.value.1| < |input|
    decreases |input|
  {
    if value > size || input == [] || value + input[0] > size then None
    else if input[0] != 255 then Some((value + input[0], input[1..]))
    else Extend(value + 255, input[1..], size)
  }

  function ReadLength(nibble: nat, input: seq<byte>, size: nat): (r: Option<(nat, seq<byte>)>)
    ensures r.Some? ==> |r.value.1| <= |input|
  {
    if nibble == 15 then Extend(15, input, size) else Some((nibble, input))
  }

  function StepSize(step: Step): nat
  {
    match step
    case Match(literals, length, _) => |literals| + length
    case Last(literals, _) => |literals|
  }

  /** Reads the distance of a match whose literals and length are known. */
  function ReadDistance(literals: seq<byte>, length: nat, input: seq<byte>, produced: nat, size: nat): Option<(Step, seq<byte>)>
  {
    if |input| < 2 then None
    else
      var distance := input[0] as int + 256 * (input[1] as int);
      if distance == 0 || distance > produced + |literals| || produced + |literals| + length > size then None
      else Some((Match(literals, length, distance), input[2..]))
  }

  /** Reads the match of a step whose literals are known. */
  function ReadMatch(nibble: nat, literals: seq<byte>, input: seq<byte>, produced: nat, size: nat): Option<(Step, seq<byte>)>
  {
    match ReadLength(nibble, input, size)
    case None => None
    case Some((code, rest)) => ReadDistance(literals, code + MinMatch, rest, produced, size)
  }

  /** Reads the literals of a step, whose count has been read, and what follows them. */
  function ReadLiterals(count: nat, nibble: nat, input: seq<byte>, produced: nat, size: nat): Option<(Step, seq<byte>)>
  {
    if count > |input| || produced + count > size then None
    else if produced + count == size then Some((Last(input[..count], nibble), input[count..]))
    else ReadMatch(nibble, input[..count], input[count..], produced, size)
  }

  /** Reads one step of a block of `size` bytes of which `produced` are there. */
  function ReadStep(input: seq<byte>, produced: nat, size: nat): Option<(Step, seq<byte>)>
  {
    if input == [] then None
    else
      match ReadLength(input[0] / 16, input[1..], size)
      case None => None
      case Some((count, rest)) => ReadLiterals(count, input[0] % 16, rest, produced, size)
  }

  // ---- reading back one written step ----

  lemma {:induction false} ExtendReads(extra: nat, value: nat, rest: seq<byte>, size: nat)
    requires value + extra <= size
    ensures Extend(value, Extension(extra) + rest, size) == Some((value + extra, rest))
    decreases extra
  {
    var input := Extension(extra) + rest;
    if extra >= 255 {
      ExtendReads(extra - 255, value + 255, rest, size);
      assert input == [255] + (Extension(extra - 255) + rest);
    } else {
      assert input[1..] == rest;
    }
  }

  lemma LengthReads(count: nat, rest: seq<byte>, size: nat)
    requires count <= size
    ensures ReadLength(Min(count, 15), LengthBytes(count) + rest, size) == Some((count, rest))
  {
    if count >= 15 {
      ExtendReads(count - 15, 15, rest, size);
    } else {
      assert [] + rest == rest;
    }
  }

  lemma TokenSplits(count: nat, nibble: nat)
    requires nibble < 16
    ensures Token(count, nibble) / 16 == Min(count, 15) && Token(count, nibble) % 16 == nibble
  {
  }

  lemma TokenJoins(token: byte, count: nat)
    requires Min(count, 15) == token / 16
    ensures Token(count, token % 16) == token
  {
  }

  lemma StepLayout(step: Step, rest: seq<byte>)
    requires PrintableStep(step)
    ensures StepBytes(step) + rest == [Token(|step.literals|, Nibble(step))]
              + (LengthBytes(|step.literals|) + (step.literals + (MatchBytes(step) + rest)))
  {
  }

  lemma DistanceReads(literals: seq<byte>, length: nat, distance: nat, rest: seq<byte>, produced: nat, size: nat)
    requires 1 <= distance <= MaxDistance && distance <= produced + |literals| && produced + |literals| + length <= size
    ensures ReadDistance(literals, length, [distance % 256, distance / 256] + rest, produced, size)
              == Some((Match(literals, length, distance), rest))
  {
    var input := [distance % 256, distance / 256] + rest;
    assert input[0] == distance % 256 && input[1] == distance / 256 && input[2..] == rest;
  }

  lemma TokenReads(count: nat, nibble: nat, tail: seq<byte>, produced: nat, size: nat)
    requires nibble < 16 && count <= size
    ensures ReadStep([Token(count, nibble)] + (LengthBytes(count) + tail), produced, size)
              == ReadLiterals(count, nibble, tail, produced, size)
  {
    var token := Token(count, nibble);
    var input := [token] + (LengthBytes(count) + tail);
    assert input[0] == token && input[1..] == LengthBytes(count) + tail;
    TokenSplits(count, nibble);
    LengthReads(count, tail, size);
  }

  lemma MatchReads(literals: seq<byte>, length: nat, distance: nat, rest: seq<byte>, produced: nat, size: nat)
    requires length >= MinMatch && 1 <= distance <= MaxDistance && distance <= produced + |literals|
    requires produced + |literals| + length <= size
    ensures ReadMatch(Min(length - MinMatch, 15), literals, MatchBytes(Match(literals, length, distance)) + rest, produced, size)
              == Some((Match(literals, length, distance), rest))
  {
    var pair := [distance % 256, distance / 256];
    Associative(LengthBytes(length - MinMatch), pair, rest);
    LengthReads(length - MinMatch, pair + rest, size);
    DistanceReads(literals, length, distance, rest, produced, size);
  }

  /** The reader returns a written step and leaves what follows it. */
  lemma StepReads(step: Step, rest: seq<byte>, produced: nat, size: nat)
    requires PrintableStep(step) && Fits(step, produced, true) && produced + StepSize(step) <= size
    requires step.Last? ==> produced + StepSize(step) == size
    ensures ReadStep(StepBytes(step) + rest, produced, size) == Some((step, rest))
  {
    var literals, tail := step.literals, MatchBytes(step) + rest;
    StepLayout(step, rest);
    TokenReads(|literals|, Nibble(step), literals + tail, produced, size);
    BodyReads(step, rest, produced, size);
  }

  lemma BodyReads(step: Step, rest: seq<byte>, produced: nat, size: nat)
    requires PrintableStep(step) && Fits(step, produced, true) && produced + StepSize(step) <= size
    requires step.Last? ==> produced + StepSize(step) == size
    ensures ReadLiterals(|step.literals|, Nibble(step), step.literals + (MatchBytes(step) + rest), produced, size)
              == Some((step, rest))
  {
    Halves(step.literals, MatchBytes(step) + rest);
    match step {
      case Match(literals, length, distance) =>
        MatchReads(literals, length, distance, rest, produced, size);
      case Last(_, _) =>
        assert [] + rest == rest;
    }
  }

  // ---- every step read was written ----

  /** Extension bytes have one reading: the bytes read are the extension of the count read. */
  lemma {:induction false} ExtendPrints(value: nat, input: seq<byte>, size: nat)
    requires Extend(value, input, size).Some?
    ensures var (count, rest) := Extend(value, input, size).value;
            value <= count && input == Extension(count - value) + rest
    decreases |input|
  {
    if input[0] == 255 {
      ExtendPrints(value + 255, input[1..], size);
      var (count, rest) := Extend(value, input, size).value;
      assert input == [255] + input[1..];
      assert Extension(count - value) == [255] + Extension(count - value - 255);
    }
  }

  lemma LengthPrints(nibble: nat, input: seq<byte>, size: nat)
    requires nibble < 16 && ReadLength(nibble, input, size).Some?
    ensures var (count, rest) := ReadLength(nibble, input, size).value;
            Min(count, 15) == nibble && input == LengthBytes(count) + rest
  {
    if nibble == 15 {
      ExtendPrints(15, input, size);
    }
  }

  lemma MatchPrints(nibble: nat, literals: seq<byte>, input: seq<byte>, produced: nat, size: nat)
    requires nibble < 16 && ReadMatch(nibble, literals, input, produced, size).Some?
    ensures var (step, rest) := ReadMatch(nibble, literals, input, produced, size).value;
            && step.Match? && step.literals == literals && Fits(step, produced, true) && Nibble(step) == nibble
            && produced + StepSize(step) <= size && input == MatchBytes(step) + rest
  {
    LengthPrints(nibble, input, size);
    var tail := ReadLength(nibble, input, size).value.1;
    var (step, rest) := ReadMatch(nibble, literals, input, produced, size).value;
    assert tail == [step.distance % 256, step.distance / 256] + rest;
    Associative(LengthBytes(step.length - MinMatch), [step.distance % 256, step.distance / 256], rest);
  }

  /** `step` is what the reader may return: it fits, and the bytes after the literal count are its own. */
  ghost predicate Read(step: Step, nibble: nat, produced: nat, size: nat)
  {
    && Fits(step, produced, true) && PrintableStep(step) && Nibble(step) == nibble
    && (if step.Last? then produced + StepSize(step) == size else produced + StepSize(step) <= size)
  }

  lemma LiteralsPrint(count: nat, nibble: nat, input: seq<byte>, produced: nat, size: nat)
    requires produced < size && nibble < 16 && ReadLiterals(count, nibble, input, produced, size).Some?
    ensures var (step, rest) := ReadLiterals(count, nibble, input, produced, size).value;
            && Read(step, nibble, produced, size) && |step.literals| == count
            && input == step.literals + (MatchBytes(step) + rest)
  {
    assert input == input[..count] + input[count..];
    if produced + count < size {
      MatchPrints(nibble, input[..count], input[count..], produced, size);
    } else {
      assert [] + input[count..] == input[count..];
    }
  }

  /** What the reader returns fits, and the input was that step followed by the rest. */
  lemma StepPrints(input: seq<byte>, produced: nat, size: nat)
    requires produced < size && ReadStep(input, produced, size).Some?
    ensures var (step, rest) := ReadStep(input, produced, size).value;
            Read(step, input[0] % 16, produced, size) && input == StepBytes(step) + rest
  {
    LengthPrints(input[0] / 16, input[1..], size);
    var (count, tail) := ReadLength(input[0] / 16, input[1..], size).value;
    LiteralsPrint(count, input[0] % 16, tail, produced, size);
    var r := ReadLiterals(count, input[0] % 16, tail, produced, size).value;
    Relayout(input, r.0, r.1, tail);
  }

  lemma Relayout(input: seq<byte>, step: Step, rest: seq<byte>, tail: seq<byte>)
    requires PrintableStep(step) && input != []
    requires Min(|step.literals|, 15) == input[0] / 16 && Nibble(step) == input[0] % 16
    requires input[1..] == LengthBytes(|step.literals|) + tail && tail == step.literals + (MatchBytes(step) + rest)
    ensures input == StepBytes(step) + rest
  {
    StepLayout(step, rest);
    TokenJoins(input[0], |step.literals|);
    assert input == [input[0]] + input[1..];
  }

  // ---- the decoder ----

  lemma ApplySize(out: seq<byte>, step: Step)
    requires Fits(step, |out|, true)
    ensures |Apply(out, step)| == |out| + StepSize(step)
  {
  }

  /** Decodes the unread `input` of a block of `size` bytes of which `out` has been produced. */
  function Decode(input: seq<byte>, out: seq<byte>, size: nat): (r: Option<seq<byte>>)
    requires |out| <= size
    ensures r.Some? ==> |r.value| == size
    decreases |input|
  {
    if |out| == size then (if input == [] then Some(out) else None)
    else
      var r := ReadStep(input, |out|, size);
      if r.None? then None
      else
        StepPrints(input, |out|, size);
        ApplySize(out, r.value.0);
        if r.value.0.Match? then Decode(r.value.1, Apply(out, r.value.0), size)
        else if r.value.1 == [] then Some(Apply(out, r.value.0))
        else None
  }

  /** The decoder reads back every valid list of steps that fills the block. */
  lemma {:induction false} DecodePrinted(steps: seq<Step>, out: seq<byte>, size: nat)
    requires Valid(steps, out) && Printable(steps) && |Expand(steps, out)| == size
    ensures Decode(BlockBytes(steps), out, size) == Some(Expand(steps, out))
    decreases |steps|
  {
    if steps != [] {
      var step, rest := steps[0], steps[1..];
      ApplySize(out, step);
      if step.Last? {
        assert rest == [] && Expand(rest, Apply(out, step)) == Apply(out, step);
      }
      StepReads(step, BlockBytes(rest), |out|, size);
      if step.Match? {
        DecodePrinted(rest, Apply(out, step), size);
      }
    }
  }

  /**
   Whatever the decoder accepts is a block of the grammar: it consumes all input, fills the block and
   returns what the steps denote.
   */
  lemma {:induction false} AcceptedIsPrinted(input: seq<byte>, out: seq<byte>, size: nat) returns (steps: seq<Step>)
    requires |out| <= size && Decode(input, out, size).Some?
    ensures Valid(steps, out) && Printable(steps) && BlockBytes(steps) == input
    ensures Expand(steps, out) == Decode(input, out, size).value
    decreases |input|
  {
    if |out| == size {
      return [];
    }
    var (step, rest) := ReadStep(input, |out|, size).value;
    StepPrints(input, |out|, size);
    ApplySize(out, step);
    var more := [];
    if step.Match? {
      more := AcceptedIsPrinted(rest, Apply(out, step), size);
    } else {
      assert Expand([], Apply(out, step)) == Apply(out, step) && BlockBytes([]) == [];
    }
    steps := [step] + more;
    StepFirst(step, more, out);
  }

  lemma StepFirst(step: Step, more: seq<Step>, out: seq<byte>)
    requires Fits(step, |out|, more == []) && Valid(more, Apply(out, step)) && PrintableStep(step) && Printable(more)
    ensures var steps := [step] + more;
            && Valid(steps, out) && Printable(steps)
            && BlockBytes(steps) == StepBytes(step) + BlockBytes(more) && Expand(steps, out) == Expand(more, Apply(out, step))
  {
    assert ([step] + more)[1..] == more;
  }

  /** The decoder accepts exactly the blocks of the grammar and returns exactly what they denote. */
  lemma DecodeMeaning(input: seq<byte>, size: nat, out: seq<byte>)
    ensures Decode(input, [], size) == Some(out) <==>
            |out| == size && exists steps :: Valid(steps, []) && Printable(steps) && BlockBytes(steps) == input
                                             && Expand(steps, []) == out
  {
    if Decode(input, [], size) == Some(out) {
      var steps := AcceptedIsPrinted(input, [], size);
    }
    if |out| == size {
      forall steps | Valid(steps, []) && Printable(steps) && BlockBytes(steps) == input && Expand(steps, []) == out
        ensures Decode(input, [], size) == Some(out)
      {
        DecodePrinted(steps, [], size);
      }
    }
  }
}
