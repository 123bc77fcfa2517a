/** The decode loop of the disassembler over an abstract decoder (src/disassemble.c). */
module Disassembly {
  type Byte = b: nat | b < 256

  const ADDRESS_SPACE: nat := 0x1_0000_0000_0000_0000

  datatype Decoded = NotDecoded | Decoded(length: nat, text: string)

  /** The decoder takes the address and the bytes that are left, and uses at least one of them and at most all. */
  ghost predicate Decodes(decode: (nat, seq<Byte>) -> Decoded) {
    forall addr, bytes :: decode(addr, bytes).Decoded? ==> 1 <= decode(addr, bytes).length <= |bytes|
  }

  // ----- opcode strings -----

  const DIGITS: string := "0123456789ABCDEF"

  /** One byte as "%02X " prints it. */
  function HexByte(b: Byte): (s: string)
    ensures |s| == 3
  {
    [DIGITS[b / 16], DIGITS[b % 16], ' ']
  }

  /** All the bytes printed one after the other, each with the blank behind it. */
  function HexBytes(bytes: seq<Byte>): (s: string)
    ensures |s| == 3 * |bytes|
  {
    if bytes == [] then "" else HexBytes(bytes[..|bytes| - 1]) + HexByte(bytes[|bytes| - 1])
  }

  function DigitValue(c: char): (v: int)
    ensures -1 <= v < 16
  {
    if '0' <= c <= '9' then c as int - '0' as int
    else if 'A' <= c <= 'F' then c as int - 'A' as int + 10
    else -1
  }

  /** Reading an opcode string: two digits a byte, one blank between two bytes. */
  function ParseOpcodes(s: string): seq<Byte>
    decreases |s|
  {
    if |s| < 2 then []
    else
      var hi, lo := DigitValue(s[0]), DigitValue(s[1]);
      if hi < 0 || lo < 0 then [] else [16 * hi + lo] + ParseOpcodes(if |s| < 3 then "" else s[3..])
  }

  lemma DigitsRead(v: nat)
    requires v < 16
    ensures DigitValue(DIGITS[v]) == v
  {
  }

  lemma HexFirst(bytes: seq<Byte>)
    requires bytes != []
    ensures HexBytes(bytes) == HexByte(bytes[0]) + HexBytes(bytes[1..])
  {
    if |bytes| > 1 {
      HexFirst(bytes[..|bytes| - 1]);
      assert bytes[..|bytes| - 1][1..] == bytes[1..][..|bytes| - 2];
    }
  }

  /** The opcode string of an instruction, without the last blank, reads back as its bytes. */
  lemma {:induction false} OpcodesReadBack(bytes: seq<Byte>)
    requires bytes != []
    ensures ParseOpcodes(HexBytes(bytes)[..3 * |bytes| - 1]) == bytes
  {
    hide HexByte, HexBytes, ParseOpcodes, DigitValue;
    HexFirst(bytes);
    var s := HexBytes(bytes)[..3 * |bytes| - 1];
    if |bytes| > 1 {
      OpcodesReadBack(bytes[1..]);
      var rest := HexBytes(bytes[1..])[..3 * |bytes[1..]| - 1];
      assert s == HexByte(bytes[0]) + rest;
      FirstRead(bytes[0], rest);
      assert bytes == [bytes[0]] + bytes[1..];
    } else {
      assert s == HexByte(bytes[0])[..2];
      LastRead(bytes[0]);
    }
  }

  lemma FirstRead(b: Byte, rest: string)
    ensures ParseOpcodes(HexByte(b) + rest) == [b] + ParseOpcodes(rest)
  {
    hide DigitValue;
    DigitsRead(b / 16);
    DigitsRead(b % 16);
    assert (HexByte(b) + rest)[3..] == rest;
  }

  lemma LastRead(b: Byte)
    ensures ParseOpcodes(HexByte(b)[..2]) == [b]
  {
    hide DigitValue;
    DigitsRead(b / 16);
    DigitsRead(b % 16);
    assert ParseOpcodes("") == [];
  }

  // ----- the list of instructions -----

  class Instruction {
    const addr: nat
    const opcodes: string
    const text: string
    var next: Instruction?

    constructor (addr: nat, opcodes: string, text: string)
      ensures this.addr == addr && this.opcodes == opcodes && this.text == text && next == null
    {
      this.addr, this.opcodes, this.text, next := addr, opcodes, text, null;
    }
  }

  ghost predicate Listed(nodes: seq<Instruction>)
    reads nodes
  {
    && (forall i, j :: 0 <= i < j < |nodes| ==> nodes[i] != nodes[j])
    && forall i {:trigger nodes[i].next} :: 0 <= i < |nodes| ==>
         nodes[i].next == if i + 1 < |nodes| then nodes[i + 1] else null
  }

  /** The bytes that the listed instructions stand for, read back from their opcode strings. */
  ghost function BytesOf(nodes: seq<Instruction>): seq<Byte> {
    if nodes == [] then [] else BytesOf(nodes[..|nodes| - 1]) + ParseOpcodes(nodes[|nodes| - 1].opcodes)
  }

  function Address(start: nat, offset: nat): nat {
    (start + offset) % ADDRESS_SPACE
  }

  /** Every instruction starts where the bytes of those before it end, and has the text the decoder gives there. */
  ghost predicate Consecutive(nodes: seq<Instruction>, start: nat, buffer: seq<Byte>, decode: (nat, seq<Byte>) -> Decoded) {
    forall i :: 0 <= i < |nodes| ==>
      var offset := |BytesOf(nodes[..i])|;
      && offset <= |buffer| && nodes[i].addr == Address(start, offset)
      && decode(nodes[i].addr, buffer[offset..]) == Decoded(|ParseOpcodes(nodes[i].opcodes)|, nodes[i].text)
  }

  lemma {:induction false} HexBytesAt(bytes: seq<Byte>, k: nat)
    requires k < |bytes|
    ensures var s := HexBytes(bytes);
      && s[3 * k] as int == bytes[k] / 16 + (if bytes[k] / 16 < 10 then '0' as int else 'A' as int - 10)
      && s[3 * k + 1] as int == bytes[k] % 16 + (if bytes[k] % 16 < 10 then '0' as int else 'A' as int - 10)
      && s[3 * k + 2] == ' '
  {
    if k < |bytes| - 1 {
      HexBytesAt(bytes[..|bytes| - 1], k);
    }
  }

  lemma OneByteMore(bytes: seq<Byte>, i: nat)
    requires i < |bytes|
    ensures HexBytes(bytes[..i + 1]) == HexBytes(bytes[..i]) + HexByte(bytes[i])
  {
    assert bytes[..i + 1][..i] == bytes[..i];
  }

  lemma Printed(bytes: seq<Byte>)
    requires bytes != []
    ensures var s := HexBytes(bytes)[..3 * |bytes| - 1];
      && ParseOpcodes(s) == bytes
      && forall k :: 0 <= k < |bytes| ==>
           && s[3 * k] as int == bytes[k] / 16 + (if bytes[k] / 16 < 10 then '0' as int else 'A' as int - 10)
           && s[3 * k + 1] as int == bytes[k] % 16 + (if bytes[k] % 16 < 10 then '0' as int else 'A' as int - 10)
           && (k + 1 < |bytes| ==> s[3 * k + 2] == ' ')
  {
    hide HexBytes, HexByte, ParseOpcodes;
    OpcodesReadBack(bytes);
    forall k | 0 <= k < |bytes|
      ensures var s := HexBytes(bytes)[..3 * |bytes| - 1];
        && s[3 * k] as int == bytes[k] / 16 + (if bytes[k] / 16 < 10 then '0' as int else 'A' as int - 10)
        && s[3 * k + 1] as int == bytes[k] % 16 + (if bytes[k] % 16 < 10 then '0' as int else 'A' as int - 10)
        && (k + 1 < |bytes| ==> s[3 * k + 2] == ' ')
    {
      HexBytesAt(bytes, k);
    }
  }

  /** The loop that prints the opcodes. */
  method PrintOpcodes(bytes: seq<Byte>) returns (s: string)
    requires bytes != []
    ensures ParseOpcodes(s) == bytes
    ensures |s| == 3 * |bytes| - 1
    ensures forall k :: 0 <= k < |bytes| ==>
      && s[3 * k] as int == bytes[k] / 16 + (if bytes[k] / 16 < 10 then '0' as int else 'A' as int - 10)
      && s[3 * k + 1] as int == bytes[k] % 16 + (if bytes[k] % 16 < 10 then '0' as int else 'A' as int - 10)
      && (k + 1 < |bytes| ==> s[3 * k + 2] == ' ')
  {
    hide HexByte, HexBytes, ParseOpcodes;
    s := "";
    assert HexBytes(bytes[..0]) == "";
    for i := 0 to |bytes|
      invariant s == HexBytes(bytes[..i])
    {
      OneByteMore(bytes, i);
      s := s + HexByte(bytes[i]);
    }
    assert bytes[..|bytes|] == bytes;
    s := s[..|s| - 1];
    Printed(bytes);
  }

  /** Why the loop ended. */
  datatype Stop = NoMore | Returned | OutOfMemory

  /** strncmp(text, "ret", 3) == 0. */
  predicate IsReturn(text: string) {
    "ret" <= text
  }

  lemma ReturnTexts(nodes: seq<Instruction>)
    ensures forall i :: 0 <= i < |nodes| ==>
      var text := nodes[i].text; IsReturn(text) <==> |text| >= 3 && text[0] == 'r' && text[1] == 'e' && text[2] == 't'
  {
  }

  /** Where the addresses do not wrap around, each instruction is as far behind the first as the bytes before it. */
  lemma PlainAddresses(nodes: seq<Instruction>, start: nat, buffer: seq<Byte>, decode: (nat, seq<Byte>) -> Decoded)
    requires Consecutive(nodes, start, buffer, decode) && start + |buffer| <= 0x1_0000_0000_0000_0000
    requires Decodes(decode)
    ensures forall i :: 0 <= i < |nodes| ==> nodes[i].addr == start + |BytesOf(nodes[..i])|
  {
    hide BytesOf, ParseOpcodes;
    forall i | 0 <= i < |nodes|
      ensures nodes[i].addr == start + |BytesOf(nodes[..i])|
    {
      var offset := |BytesOf(nodes[..i])|;
      assert decode(nodes[i].addr, buffer[offset..]).Decoded?;
    }
  }

  lemma NextAddress(start: nat, offset: nat, length: nat)
    ensures (Address(start, offset) + length) % ADDRESS_SPACE == Address(start, offset + length)
  {
  }

  lemma OneMoreInstruction(nodes: seq<Instruction>, node: Instruction, start: nat, buffer: seq<Byte>,
                           decode: (nat, seq<Byte>) -> Decoded, offset: nat, length: nat)
    requires Consecutive(nodes, start, buffer, decode) && offset + length <= |buffer| && BytesOf(nodes) == buffer[..offset]
    requires node.addr == Address(start, offset) && ParseOpcodes(node.opcodes) == buffer[offset..offset + length]
    requires decode(node.addr, buffer[offset..]) == Decoded(length, node.text)
    ensures Consecutive(nodes + [node], start, buffer, decode)
    ensures BytesOf(nodes + [node]) == buffer[..offset + length]
  {
    var nodes' := nodes + [node];
    assert nodes'[..|nodes|] == nodes;
    assert buffer[..offset] + buffer[offset..offset + length] == buffer[..offset + length];
    forall i | 0 <= i < |nodes|
      ensures nodes'[..i] == nodes[..i]
    {
    }
  }

  lemma NothingYet(start: nat, buffer: seq<Byte>, decode: (nat, seq<Byte>) -> Decoded)
    ensures Consecutive([], start, buffer, decode) && BytesOf([]) == buffer[..0]
    ensures start % ADDRESS_SPACE == Address(start, 0)
  {
  }

  /** A decoded instruction becomes the last one of the list. */
  method ListInstruction(decode: (nat, seq<Byte>) -> Decoded, buffer: seq<Byte>, start: nat, offset: nat, decoded: Decoded,
                         head: Instruction?, tail: Instruction?, ghost nodes: seq<Instruction>)
    returns (head': Instruction?, tail': Instruction?, node: Instruction)
    requires decoded.Decoded? && 1 <= decoded.length && offset + decoded.length <= |buffer|
    requires decoded == decode(Address(start, offset), buffer[offset..])
    requires Listed(nodes) && BytesOf(nodes) == buffer[..offset] && Consecutive(nodes, start, buffer, decode)
    requires head == (if nodes == [] then null else nodes[0])
    requires tail == (if nodes == [] then null else nodes[|nodes| - 1])
    modifies nodes
    ensures fresh(node) && node.text == decoded.text && tail' == node && head' == (nodes + [node])[0]
    ensures Listed(nodes + [node]) && BytesOf(nodes + [node]) == buffer[..offset + decoded.length]
    ensures Consecutive(nodes + [node], start, buffer, decode)
  {
    hide Consecutive, BytesOf, ParseOpcodes, Listed;
    var opcodes := PrintOpcodes(buffer[offset..offset + decoded.length]);
    node := new Instruction(Address(start, offset), opcodes, decoded.text);
    OneMoreInstruction(nodes, node, start, buffer, decode, offset, decoded.length);
    head', tail' := LinkBehind(head, tail, node, nodes);
  }

  /**
   The decode loop. The listed instructions partition the bytes consumed without gap or overlap; the loop ends where
   the decoder finds no more instruction, at the first return if a whole function was asked for, or out of memory.
   `memory` says of each allocation whether it succeeds.
   */
  method DecodeAll(decode: (nat, seq<Byte>) -> Decoded, buffer: seq<Byte>, start: nat, wholeFunction: bool,
                   memory: nat -> bool)
    returns (head: Instruction?, count: nat, offset: nat, ghost nodes: seq<Instruction>, ghost stop: Stop)
    requires Decodes(decode)
    ensures Listed(nodes) && count == |nodes| && head == (if nodes == [] then null else nodes[0])
    ensures forall i :: 0 <= i < |nodes| ==> fresh(nodes[i])
    ensures offset <= |buffer| && BytesOf(nodes) == buffer[..offset]
    ensures Consecutive(nodes, start, buffer, decode)
    ensures stop == NoMore ==> decode(Address(start, offset), buffer[offset..]) == NotDecoded
    ensures forall i :: 0 <= i < count ==> memory(i)
    ensures stop == OutOfMemory ==> !memory(count) && decode(Address(start, offset), buffer[offset..]).Decoded?
    ensures stop == Returned ==>
      && wholeFunction && nodes != []
      && var text := nodes[|nodes| - 1].text; |text| >= 3 && text[0] == 'r' && text[1] == 'e' && text[2] == 't'
    ensures wholeFunction ==> forall i :: 0 <= i < |nodes| - 1 ==>
      var text := nodes[i].text; !(|text| >= 3 && text[0] == 'r' && text[1] == 'e' && text[2] == 't')
    ensures wholeFunction && stop != Returned && nodes != [] ==>
      var text := nodes[|nodes| - 1].text; !(|text| >= 3 && text[0] == 'r' && text[1] == 'e' && text[2] == 't')
    ensures forall i :: 0 <= i < |nodes| && start + |buffer| <= 0x1_0000_0000_0000_0000 ==>
      nodes[i].addr == start + |BytesOf(nodes[..i])|
  {
    hide Consecutive, BytesOf, ParseOpcodes, Address, IsReturn;
    head, count, offset, nodes, stop := null, 0, 0, [], NoMore;
    NothingYet(start, buffer, decode);
    var tail: Instruction? := null;
    var runtimeAddress := start % ADDRESS_SPACE;
    while true
      invariant Listed(nodes) && count == |nodes| && head == (if nodes == [] then null else nodes[0])
      invariant tail == (if nodes == [] then null else nodes[|nodes| - 1])
      invariant forall i :: 0 <= i < |nodes| ==> fresh(nodes[i])
      invariant offset <= |buffer| && BytesOf(nodes) == buffer[..offset] && runtimeAddress == Address(start, offset)
      invariant Consecutive(nodes, start, buffer, decode)
      invariant forall i :: 0 <= i < count ==> memory(i)
      invariant wholeFunction ==> forall i :: 0 <= i < |nodes| ==> !IsReturn(nodes[i].text)
      decreases |buffer| - offset
    {
      var rest := buffer[offset..];
      var decoded := decode(runtimeAddress, rest);
      if decoded.NotDecoded? {
        break;
      }
      var length := decoded.length;
      if !memory(count) {
        stop := OutOfMemory;
        break;
      }
      var node;
      head, tail, node := ListInstruction(decode, buffer, start, offset, decoded, head, tail, nodes);
      nodes := nodes + [node];
      NextAddress(start, offset, length);
      offset := offset + length;
      runtimeAddress := (runtimeAddress + length) % ADDRESS_SPACE;
      count := count + 1;
      if wholeFunction && IsReturn(decoded.text) {
        stop := Returned;
        break;
      }
    }
    ReturnTexts(nodes);
    if start + |buffer| <= ADDRESS_SPACE {
      PlainAddresses(nodes, start, buffer, decode);
    }
  }

  /** A new instruction behind the last one. */
  method LinkBehind(head: Instruction?, tail: Instruction?, node: Instruction, ghost nodes: seq<Instruction>)
    returns (head': Instruction?, tail': Instruction?)
    requires Listed(nodes) && node !in nodes && node.next == null
    requires head == (if nodes == [] then null else nodes[0])
    requires tail == (if nodes == [] then null else nodes[|nodes| - 1])
    modifies nodes
    ensures Listed(nodes + [node]) && tail' == node
    ensures head' == (nodes + [node])[0]
  {
    if head == null {
      head' := node;
    } else {
      tail.next := node;
      head' := head;
    }
    tail' := node;
  }

  /**
   disassemble, from the bytes of the segment on. `requested` is the difference of the two addresses it was called
   with; zero asks for a whole function. It is kept in an int, so a multiple of 2^32 counts as zero too.
   */
  method Disassemble(decode: (nat, seq<Byte>) -> Decoded, buffer: seq<Byte>, start: nat, requested: nat,
                     memory: nat -> bool)
    returns (code: int, head: Instruction?, count: nat, ghost nodes: seq<Instruction>, ghost stop: Stop)
    requires Decodes(decode) && requested < ADDRESS_SPACE
    ensures code == 0 || code == 1
    ensures Listed(nodes) && count == |nodes| && head == (if nodes == [] then null else nodes[0])
    ensures Consecutive(nodes, start, buffer, decode) && BytesOf(nodes) <= buffer
    ensures code == 0 <==> nodes != [] || buffer == []
    ensures stop == NoMore ==>
      var offset := |BytesOf(nodes)|; decode(Address(start, offset), buffer[offset..]) == NotDecoded
    ensures forall i :: 0 <= i < count ==> memory(i)
    ensures stop == OutOfMemory ==>
      var offset := |BytesOf(nodes)|; !memory(count) && decode(Address(start, offset), buffer[offset..]).Decoded?
    ensures requested % 0x1_0000_0000 == 0 ==> forall i :: 0 <= i < |nodes| - 1 ==>
      var text := nodes[i].text; !(|text| >= 3 && text[0] == 'r' && text[1] == 'e' && text[2] == 't')
    ensures requested % 0x1_0000_0000 == 0 && stop != Returned && nodes != [] ==>
      var text := nodes[|nodes| - 1].text; !(|text| >= 3 && text[0] == 'r' && text[1] == 'e' && text[2] == 't')
    ensures stop == Returned ==>
      && requested % 0x1_0000_0000 == 0 && nodes != []
      && var text := nodes[|nodes| - 1].text; |text| >= 3 && text[0] == 'r' && text[1] == 'e' && text[2] == 't'
    ensures forall i :: 0 <= i < |nodes| && start + |buffer| <= 0x1_0000_0000_0000_0000 ==>
      nodes[i].addr == start + |BytesOf(nodes[..i])|
  {
    var isNotFunc := requested % 0x1_0000_0000 != 0;
    var offset;
    head, count, offset, nodes, stop := DecodeAll(decode, buffer, start, !isNotFunc, memory);
    if offset >= |buffer| || count > 0 {
      NothingListed(nodes, offset);
      return 0, head, count, nodes, stop;
    }
    return 1, head, count, nodes, stop;
  }

  lemma NothingListed(nodes: seq<Instruction>, offset: nat)
    requires |BytesOf(nodes)| == offset
    ensures offset > 0 ==> nodes != []
  {
  }
}
