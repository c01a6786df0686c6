/** The parts of the Ethereum virtual machine the model relies on. */
module Evm {
  const TWO_TO_256: nat := 0x1_0000000000000000_0000000000000000_0000000000000000_0000000000000000

  /** A 256-bit machine word. */
  type Word = x: int | 0 <= x < TWO_TO_256

  // ----- word arithmetic: add, sub, mul and shl wrap around modulo 2^256 -----

  function Add(x: Word, y: Word): (r: Word)
    ensures x + y < TWO_TO_256 ==> r == x + y
  {
    if x + y < TWO_TO_256 then x + y else x + y - TWO_TO_256
  }

  function Sub(x: Word, y: Word): (r: Word)
    ensures y <= x ==> r == x - y
  {
    if y <= x then x - y else x - y + TWO_TO_256
  }

  function Mul(x: Word, y: Word): (r: Word)
    ensures x * y < TWO_TO_256 ==> r == x * y
  {
    if x * y < TWO_TO_256 then x * y else (x * y) % TWO_TO_256
  }

  function ShlOne(x: Word): (r: Word)
    ensures 2 * x < TWO_TO_256 ==> r == 2 * x
  {
    if 2 * x < TWO_TO_256 then 2 * x else 2 * x - TWO_TO_256
  }

  function ShrOne(x: Word): (r: Word)
    ensures r == x / 2
  {
    x / 2
  }

  // ----- memory, as the 32-byte words at addresses that are multiples of 32 -----

  /** addr is the address of a word inside the memory. */
  predicate Aligned(memory: array<Word>, addr: Word) {
    addr % 32 == 0 && addr / 32 < memory.Length
  }

  function Mload(memory: array<Word>, addr: Word): Word
    requires Aligned(memory, addr)
    reads memory
  {
    memory[addr / 32]
  }

  method Mstore(memory: array<Word>, addr: Word, value: Word)
    requires Aligned(memory, addr)
    modifies memory
    ensures memory[..] == old(memory[..])[addr / 32 := value]
  {
    memory[addr / 32] := value;
  }

  /** extcodecopy of one aligned word; code past its end reads as zero. */
  method ExtCodeCopyWord(memory: array<Word>, code: seq<Word>, addr: Word, offset: Word)
    requires Aligned(memory, addr) && offset % 32 == 0
    modifies memory
    ensures memory[..] == old(memory[..])[addr / 32 := if offset / 32 < |code| then code[offset / 32] else 0]
  {
    memory[addr / 32] := if offset / 32 < |code| then code[offset / 32] else 0;
  }

  // ----- bytes -----

  type Byte = x: int | 0 <= x < 256

  type Bytes32 = b: seq<Byte> | |b| == 32 witness seq(32, _ => 0)

  /** A hash function, of which only the output length is known. */
  type Hash = seq<Byte> -> Bytes32

  /** How a call ends: with a value, or undone as a whole. */
  datatype Outcome<+T> = Returned(value: T) | Reverted
}
