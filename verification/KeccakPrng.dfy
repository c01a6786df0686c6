/** The counter-mode generator: absorb, flip once, then squeeze bytes in pieces of any length. */
module KeccakPrng {
  import opened Evm
  import BigEndian
  import ModArith

  const MAX_COUNTER: nat := 0xFFFF_FFFF_FFFF_FFFF

  /** The number of bytes the counter can provide before its checked increment fails. */
  const STREAM_LENGTH: nat := 32 * MAX_COUNTER

  // ----- the stream -----

  /** Output block c: the hash of the seed followed by the counter. */
  function Block(keccak: Hash, seed: Bytes32, c: nat): Bytes32 {
    keccak(seed + BigEndian.BytesOf(c, 8))
  }

  /** Byte p of the stream of a seed. */
  function StreamByte(keccak: Hash, seed: Bytes32, p: nat): Byte {
    Block(keccak, seed, p / 32)[p % 32]
  }

  /** The bytes of the stream from position p on. */
  function Slice(keccak: Hash, seed: Bytes32, p: nat, length: nat): (r: seq<Byte>)
    ensures |r| == length
    ensures forall i :: 0 <= i < length ==> r[i] == StreamByte(keccak, seed, p + i)
  {
    seq<Byte>(length, i requires 0 <= i < length => StreamByte(keccak, seed, p + i))
  }

  /** The blocks of two different counters hash different inputs. */
  lemma BlockInputsDiffer(seed: Bytes32, c: nat, d: nat)
    requires c < d <= MAX_COUNTER
    ensures seed + BigEndian.BytesOf(c, 8) != seed + BigEndian.BytesOf(d, 8)
  {
    ModArith.Pow2SixtyFour();
    BigEndian.ValueOfBytes(c, 8);
    BigEndian.ValueOfBytes(d, 8);
    assert (seed + BigEndian.BytesOf(c, 8))[32..] == BigEndian.BytesOf(c, 8);
    assert (seed + BigEndian.BytesOf(d, 8))[32..] == BigEndian.BytesOf(d, 8);
  }

  /** Byte p of the stream is byte p % 32 of the hash of the seed and eight bytes with the big-endian value p / 32. */
  lemma StreamIsCounterMode(keccak: Hash, seed: Bytes32, p: nat, length: nat, i: nat, counter: seq<Byte>)
    requires i < length && |counter| == 8 && BigEndian.ValueOf(counter) == (p + i) / 32
    ensures Slice(keccak, seed, p, length)[i] == keccak(seed + counter)[(p + i) % 32]
  {
    BigEndian.BytesOfValue(counter);
  }

  // ----- calls as steps of an abstract generator -----

  datatype State = Absorbing(buffer: seq<Byte>) | Squeezing(seed: Bytes32, position: nat)

  datatype Call = Inject(input: seq<Byte>) | Flip | Extract(length: nat)

  /** The new state and the outcome of one call; a reverted call leaves the state alone. */
  function Step(keccak: Hash, s: State, call: Call): (State, Outcome<seq<Byte>>) {
    match (s, call)
    case (Absorbing(buffer), Inject(input)) => (Absorbing(buffer + input), Returned([]))
    case (Absorbing(buffer), Flip) => (Squeezing(keccak(buffer), 0), Returned([]))
    case (Squeezing(seed, p), Extract(length)) =>
      if p + length <= STREAM_LENGTH
      then (Squeezing(seed, p + length), Returned(Slice(keccak, seed, p, length)))
      else (s, Reverted)
    case _ => (s, Reverted)
  }

  class Prng {
    const keccak: Hash
    var state: Bytes32
    var counter: nat
    var buffer: seq<Byte>
    var finalized: bool
    var outBuffer: Bytes32
    var outBufferPos: nat
    var outBufferValid: bool

    /** The output buffer holds the block before the counter, if any block was generated. */
    ghost predicate BufferValid()
      reads this
    {
      && counter <= MAX_COUNTER && outBufferPos <= 32
      && (outBufferValid ==> counter >= 1 && outBuffer == Block(keccak, state, counter - 1))
      && (!outBufferValid ==> counter == 0)
    }

    ghost predicate Valid()
      reads this
    {
      BufferValid() && (outBufferValid ==> finalized)
    }

    /** How many bytes of the stream have been handed out. */
    ghost function Position(): nat
      requires BufferValid()
      reads this
    {
      if outBufferValid then 32 * (counter - 1) + outBufferPos else 0
    }

    ghost function Abstract(): State
      requires Valid()
      reads this
    {
      if finalized then Squeezing(state, Position()) else Absorbing(buffer)
    }

    constructor (keccak: Hash)
      ensures Valid() && this.keccak == keccak && Abstract() == Absorbing([])
    {
      this.keccak := keccak;
      state := seq(32, _ => 0);
      counter := 0;
      buffer := [];
      finalized := false;
      outBuffer := seq(32, _ => 0);
      outBufferPos := 0;
      outBufferValid := false;
    }

    method Inject(input: seq<Byte>) returns (r: Outcome<seq<Byte>>)
      requires Valid()
      modifies this
      ensures Valid() && (Abstract(), r) == Step(keccak, old(Abstract()), Call.Inject(input))
    {
      if finalized {
        return Reverted;
      }
      buffer := buffer + input;
      return Returned([]);
    }

    method Flip() returns (r: Outcome<seq<Byte>>)
      requires Valid()
      modifies this
      ensures Valid() && (Abstract(), r) == Step(keccak, old(Abstract()), Call.Flip)
    {
      if finalized {
        return Reverted;
      }
      state := keccak(buffer);
      finalized := true;
      outBufferPos := 0;
      outBufferValid := false;
      return Returned([]);
    }

    /** The copying loop: bytes of the current block, until it or the output is exhausted. */
    method CopyBuffered(randomBytes: array<Byte>, from: nat, ghost c: nat, ghost start: nat) returns (offset: nat)
      requires from <= randomBytes.Length && outBufferPos <= 32 && outBuffer == Block(keccak, state, c)
      requires start + from == 32 * c + outBufferPos
      requires Filled(randomBytes[..], from, start)
      modifies this`outBufferPos, randomBytes
      ensures from <= offset <= randomBytes.Length && outBufferPos <= 32
      ensures offset < randomBytes.Length ==> outBufferPos == 32
      ensures start + offset == 32 * c + outBufferPos
      ensures Filled(randomBytes[..], offset, start)
    {
      hide StreamByte, Block;
      offset := from;
      while outBufferPos < 32 && offset < randomBytes.Length
        invariant from <= offset <= randomBytes.Length && outBufferPos <= 32
        invariant start + offset == 32 * c + outBufferPos
        invariant Filled(randomBytes[..], offset, start)
        decreases randomBytes.Length - offset
      {
        ByteOfBlock(c, outBufferPos);
        randomBytes[offset] := outBuffer[outBufferPos];
        outBufferPos := outBufferPos + 1;
        offset := offset + 1;
      }
    }

    /** Generating the block of the current counter. */
    method Refill()
      requires counter <= MAX_COUNTER
      modifies this`outBuffer, this`outBufferPos, this`outBufferValid
      ensures outBuffer == Block(keccak, state, counter) && outBufferPos == 0 && outBufferValid
    {
      var counterBytes := Uint64ToBytes(counter);
      outBuffer := keccak(state + counterBytes);
      outBufferPos := 0;
      outBufferValid := true;
    }

    /** The first bytes of the output are the bytes of the stream from start on. */
    ghost predicate Filled(output: seq<Byte>, offset: nat, start: nat)
      reads this`state
    {
      offset <= |output| && forall i :: 0 <= i < offset ==> output[i] == StreamByte(keccak, state, start + i)
    }

    /** The outer loop: whole blocks, until the output is full or the counter overflows. */
    method GenerateBlocks(randomBytes: array<Byte>, from: nat, ghost start: nat) returns (ok: bool)
      requires from <= randomBytes.Length && BufferValid() && Position() == start + from
              && Filled(randomBytes[..], from, start)
      requires from < randomBytes.Length && outBufferValid ==> outBufferPos == 32
      modifies this`counter, this`outBuffer, this`outBufferPos, this`outBufferValid, randomBytes
      ensures ok <==> start + randomBytes.Length <= STREAM_LENGTH
      ensures ok ==> BufferValid() && Position() == start + randomBytes.Length && Filled(randomBytes[..],
              randomBytes.Length, start)
      ensures ok ==> outBufferValid == (old(outBufferValid) || from < randomBytes.Length)
    {
      hide StreamByte, Block;
      var offset := from;
      while offset < randomBytes.Length
        invariant from <= offset <= randomBytes.Length && BufferValid() && Position() == start + offset
        invariant offset < randomBytes.Length && outBufferValid ==> outBufferPos == 32
        invariant Filled(randomBytes[..], offset, start)
        invariant outBufferValid == (old(outBufferValid) || from < offset)
        decreases randomBytes.Length - offset
      {
        Refill();
        offset := CopyBuffered(randomBytes, offset, counter, start);
        if counter == MAX_COUNTER {
          return false;
        }
        counter := counter + 1;
      }
      return true;
    }

    method Extract(length: nat) returns (r: Outcome<seq<Byte>>)
      requires Valid()
      modifies this
      ensures Valid() && (Abstract(), r) == Step(keccak, old(Abstract()), Call.Extract(length))
    {
      if !finalized {
        return Reverted;
      }
      hide BufferValid, Step, Slice;
      ghost var start := Position();
      var savedCounter, savedBuffer, savedPos, savedValid := counter, outBuffer, outBufferPos, outBufferValid;
      var ok, output := Squeeze(length);
      StepExtract(start, length, output);
      if !ok {
        counter, outBuffer, outBufferPos, outBufferValid := savedCounter, savedBuffer, savedPos, savedValid;
        return Reverted;
      }
      return Returned(output);
    }

    /** The buffered bytes first, then whole blocks. */
    method Squeeze(length: nat) returns (ok: bool, output: seq<Byte>)
      requires BufferValid()
      modifies this`counter, this`outBuffer, this`outBufferPos, this`outBufferValid
      ensures ok <==> old(Position()) + length <= STREAM_LENGTH
      ensures ok ==> BufferValid() && Position() == old(Position()) + length
      ensures ok ==> output == Slice(keccak, state, old(Position()), length)
    {
      hide StreamByte, Block;
      var randomBytes := new Byte[length];
      var offset := 0;
      ghost var start := Position();
      if outBufferValid {
        offset := CopyBuffered(randomBytes, 0, counter - 1, start);
      }
      ok := GenerateBlocks(randomBytes, offset, start);
      output := randomBytes[..];
    }

    lemma StepExtract(start: nat, length: nat, output: seq<Byte>)
      requires start + length <= STREAM_LENGTH ==> output == Slice(keccak, state, start, length)
      ensures Step(keccak, Squeezing(state, start), Call.Extract(length))
           == if start + length <= STREAM_LENGTH then (Squeezing(state, start + length), Returned(output))
              else (Squeezing(state, start), Reverted)
    {
      hide Slice;
    }

    lemma ByteOfBlock(c: nat, i: nat)
      requires i < 32
      ensures StreamByte(keccak, state, 32 * c + i) == Block(keccak, state, c)[i]
    {
      assert (32 * c + i) / 32 == c && (32 * c + i) % 32 == i;
    }
  }

  method Uint64ToBytes(x: nat) returns (r: seq<Byte>)
    requires x <= MAX_COUNTER
    ensures r == BigEndian.BytesOf(x, 8) && BigEndian.ValueOf(r) == x
  {
    var b := new Byte[8];
    var i := 0;
    while i < 8
      invariant i <= 8
      invariant forall k :: 0 <= k < i ==> b[k] == BigEndian.BytesOf(x, 8)[k]
    {
      BigEndian.ByteAt(x, 8, i);
      b[i] := BigEndian.Shr(x, 56 - i * 8) % 256;
      i := i + 1;
    }
    ModArith.Pow2SixtyFour();
    BigEndian.ValueOfBytes(x, 8);
    r := b[..];
  }

  // ----- whole runs -----

  /** The state after a run of calls, and the bytes its successful extracts returned, joined. */
  function Run(keccak: Hash, s: State, calls: seq<Call>): (State, seq<Byte>)
    decreases |calls|
  {
    if calls == [] then (s, [])
    else
      var (mid, r) := Step(keccak, s, calls[0]);
      var (end, rest) := Run(keccak, mid, calls[1..]);
      (end, (if r.Returned? then r.value else []) + rest)
  }

  /** The bytes injected before the first flip. */
  function Absorbed(calls: seq<Call>): seq<Byte> {
    if calls == [] || calls[0].Flip? then []
    else (if calls[0].Inject? then calls[0].input else []) + Absorbed(calls[1..])
  }

  lemma SliceConcat(keccak: Hash, seed: Bytes32, p: nat, d: nat, e: nat)
    ensures Slice(keccak, seed, p, d) + Slice(keccak, seed, p + d, e) == Slice(keccak, seed, p, d + e)
  {
  }

  lemma {:induction false} RunSqueezing(keccak: Hash, seed: Bytes32, p: nat, calls: seq<Call>)
    ensures var (end, out) := Run(keccak, Squeezing(seed, p), calls);
            end == Squeezing(seed, p + |out|) && out == Slice(keccak, seed, p, |out|)
    decreases |calls|
  {
    if calls != [] {
      var (mid, r) := Step(keccak, Squeezing(seed, p), calls[0]);
      RunSqueezing(keccak, seed, mid.position, calls[1..]);
      var (end, rest) := Run(keccak, mid, calls[1..]);
      SliceConcat(keccak, seed, p, mid.position - p, |rest|);
    }
  }

  /** Whatever the calls, what comes out is a prefix of one stream, seeded by all that went in before the flip. */
  lemma {:induction false} OutputIsStreamPrefix(keccak: Hash, buffer: seq<Byte>, calls: seq<Call>)
    ensures var out := Run(keccak, Absorbing(buffer), calls).1;
            out == Slice(keccak, keccak(buffer + Absorbed(calls)), 0, |out|)
    decreases |calls|
  {
    hide Slice, StreamByte;
    if calls == [] {
      EmptySlice(keccak, keccak(buffer + Absorbed(calls)));
    } else if calls[0].Flip? {
      RunSqueezing(keccak, keccak(buffer), 0, calls[1..]);
      assert buffer + Absorbed(calls) == buffer;
      RunFlip(keccak, buffer, calls);
    } else {
      var more := if calls[0].Inject? then calls[0].input else [];
      OutputIsStreamPrefix(keccak, buffer + more, calls[1..]);
      assert buffer + Absorbed(calls) == (buffer + more) + Absorbed(calls[1..]);
      RunAbsorbing(keccak, buffer, more, calls);
    }
  }

  lemma EmptySlice(keccak: Hash, seed: Bytes32)
    ensures Slice(keccak, seed, 0, 0) == []
  {
  }

  lemma RunFlip(keccak: Hash, buffer: seq<Byte>, calls: seq<Call>)
    requires calls != [] && calls[0].Flip?
    ensures Run(keccak, Absorbing(buffer), calls).1 == Run(keccak, Squeezing(keccak(buffer), 0), calls[1..]).1
  {
    var rest := Run(keccak, Squeezing(keccak(buffer), 0), calls[1..]).1;
    assert [] + rest == rest;
  }

  /** Before the flip, injecting extends the buffer and extracting fails; nothing comes out. */
  lemma RunAbsorbing(keccak: Hash, buffer: seq<Byte>, more: seq<Byte>, calls: seq<Call>)
    requires calls != [] && !calls[0].Flip? && more == if calls[0].Inject? then calls[0].input else []
    ensures Run(keccak, Absorbing(buffer), calls).1 == Run(keccak, Absorbing(buffer + more), calls[1..]).1
  {
    assert buffer + [] == buffer;
    var rest := Run(keccak, Absorbing(buffer + more), calls[1..]).1;
    assert [] + rest == rest;
  }

  /** How the input is split into injects, and the output into extracts, makes no difference. */
  lemma SplittingIsIrrelevant(keccak: Hash, calls: seq<Call>, others: seq<Call>)
    requires Absorbed(calls) == Absorbed(others)
    ensures var out := Run(keccak, Absorbing([]), calls).1;
            var out' := Run(keccak, Absorbing([]), others).1;
            |out| <= |out'| ==> out == out'[..|out|]
  {
    OutputIsStreamPrefix(keccak, [], calls);
    OutputIsStreamPrefix(keccak, [], others);
  }
}
