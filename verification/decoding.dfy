/** The instruction-word layout used by `handle_instruction`: a 4-bit opcode in bits
    31..28 and either three 3-bit register fields A (8..6), B (5..3), C (2..0), or, for
    load-value, a register in bits 27..25 and a 25-bit immediate in bits 24..0. */
module Decoding {
  import opened Words

  /** Weight of the opcode field: the opcode is `w / OpcodeUnit`. */
  const OpcodeUnit: int := 0x1000_0000
  /** Weight of the load-value register field, and the bound of the immediate. */
  const ImmediateModulus: int := 0x200_0000

  /** A 3-bit register field. */
  type Reg = x: int | 0 <= x < 8

  type Immediate = x: int | 0 <= x < ImmediateModulus

  /** The thirteen opcodes that carry register fields A, B and C. */
  datatype Operator = Cmov | Sload | Sstore | Add | Mul | Div | Nand | Halt | Map | Unmap | Out | In | Loadp

  /** The opcode numbering of `um_opcode`; load-value is `LoadValueCode`. */
  function Code(op: Operator): (n: nat)
    ensures n < 13
  {
    match op
    case Cmov => 0
    case Sload => 1
    case Sstore => 2
    case Add => 3
    case Mul => 4
    case Div => 5
    case Nand => 6
    case Halt => 7
    case Map => 8
    case Unmap => 9
    case Out => 10
    case In => 11
    case Loadp => 12
  }

  const LoadValueCode: nat := 13

  /** The operator with a given number: the inverse of `Code`. */
  function OperatorOf(n: nat): (op: Operator)
    requires n < 13
    ensures Code(op) == n
  {
    if n == 0 then Cmov else if n == 1 then Sload else if n == 2 then Sstore
    else if n == 3 then Add else if n == 4 then Mul else if n == 5 then Div
    else if n == 6 then Nand else if n == 7 then Halt else if n == 8 then Map
    else if n == 9 then Unmap else if n == 10 then Out else if n == 11 then In
    else Loadp
  }

  lemma OperatorOfCode(op: Operator)
    ensures OperatorOf(Code(op)) == op
  {
  }

  /** `LoadImmediate` is the load-value form (opcode 13), which has one register field and
      an immediate instead of A, B and C. */
  datatype Instruction =
    | Standard(op: Operator, a: Reg, b: Reg, c: Reg)
    | LoadImmediate(a: Reg, value: Immediate)
    | Invalid(opcode: nat)

  /** An instruction some word decodes to: only opcodes 14 and 15 are invalid. */
  predicate WellFormed(i: Instruction)
  {
    i.Invalid? ==> 14 <= i.opcode < 16
  }

  /** The word that holds `i`, with every bit no field uses cleared. */
  function Encode(i: Instruction): (w: Word)
    requires WellFormed(i)
  {
    match i
    case Standard(op, a, b, c) => Code(op) * OpcodeUnit + a * 64 + b * 8 + c
    case LoadImmediate(a, value) => LoadValueCode * OpcodeUnit + a * ImmediateModulus + value
    case Invalid(opcode) => opcode * OpcodeUnit
  }

  /** The fields `handle_instruction` extracts with `Bitpack_getu`. */
  function Decode(w: Word): (i: Instruction)
    ensures WellFormed(i)
  {
    var opcode := w / OpcodeUnit;
    if opcode == LoadValueCode then LoadImmediate((w / ImmediateModulus) % 8, w % ImmediateModulus)
    else if opcode < 13 then Standard(OperatorOf(opcode), (w / 64) % 8, (w / 8) % 8, w % 8)
    else Invalid(opcode)
  }

  /** Decoding reads exactly the documented fields: re-encoding the result gives the
      word back, except for the bits 27..9 that a register-form instruction ignores
      and the bits 27..0 of an invalid one. */
  lemma EncodeDecode(w: Word)
    ensures Decode(w).LoadImmediate? ==> Encode(Decode(w)) == w
    ensures Decode(w).Standard? ==> Encode(Decode(w)) == w / OpcodeUnit * OpcodeUnit + w % 512
    ensures Decode(w).Invalid? ==> Encode(Decode(w)) == w / OpcodeUnit * OpcodeUnit
  {
    if w / OpcodeUnit == LoadValueCode {
      SplitImmediate(w);
    } else {
      SplitRegisters(w);
    }
  }

  /** The low nine bits of a word are its three register fields. */
  lemma SplitRegisters(w: nat)
    ensures w % 512 == (w / 64 % 8) * 64 + (w / 8 % 8) * 8 + w % 8
  {
    EighthOfEighth(w);
    EighthOfEighth(w / 8);
    assert w / 512 == w / 64 / 8;
    assert w == 8 * (w / 8) + w % 8;
    assert w / 8 == 8 * (w / 64) + w / 8 % 8;
    assert w / 64 == 8 * (w / 512) + w / 64 % 8;
  }

  lemma EighthOfEighth(w: nat)
    ensures w / 8 / 8 == w / 64
  {
  }

  /** A word is its opcode, its load-value register field and its immediate. */
  lemma SplitImmediate(w: nat)
    ensures w == (w / OpcodeUnit) * OpcodeUnit + (w / ImmediateModulus % 8) * ImmediateModulus + w % ImmediateModulus
  {
    var q := w / ImmediateModulus;
    assert w == q * ImmediateModulus + w % ImmediateModulus;
    assert q == (q / 8) * 8 + q % 8;
    assert w / OpcodeUnit == q / 8;
  }

  lemma RegisterFields(opcode: nat, a: Reg, b: Reg, c: Reg)
    requires opcode < 16
    ensures (opcode * OpcodeUnit + a * 64 + b * 8 + c) / OpcodeUnit == opcode
    ensures (opcode * OpcodeUnit + a * 64 + b * 8 + c) / 64 % 8 == a
    ensures (opcode * OpcodeUnit + a * 64 + b * 8 + c) / 8 % 8 == b
    ensures (opcode * OpcodeUnit + a * 64 + b * 8 + c) % 8 == c
  {
    var w := opcode * OpcodeUnit + a * 64 + b * 8 + c;
    assert w == 8 * (opcode * 0x200_0000 + a * 8 + b) + c;
    assert w / 8 == 8 * (opcode * 0x40_0000 + a) + b;
    assert w / 64 == 8 * (opcode * 0x8_0000) + a;
  }

  lemma ImmediateFields(a: Reg, value: Immediate)
    ensures (LoadValueCode * OpcodeUnit + a * ImmediateModulus + value) / OpcodeUnit == LoadValueCode
    ensures (LoadValueCode * OpcodeUnit + a * ImmediateModulus + value) / ImmediateModulus % 8 == a
    ensures (LoadValueCode * OpcodeUnit + a * ImmediateModulus + value) % ImmediateModulus == value
  {
  }

  /** Every instruction survives encoding and decoding. */
  lemma DecodeEncode(i: Instruction)
    requires WellFormed(i)
    ensures Decode(Encode(i)) == i
  {
    match i
    case Standard(op, a, b, c) =>
      RegisterFields(Code(op), a, b, c);
      OperatorOfCode(op);
    case LoadImmediate(a, value) =>
      ImmediateFields(a, value);
    case Invalid(opcode) =>
      RegisterFields(opcode, 0, 0, 0);
  }

  /** The opcode is the top nibble of the word. */
  lemma DecodedOpcode(w: Word)
    ensures Decode(w).Standard? ==> Code(Decode(w).op) == w / OpcodeUnit
    ensures Decode(w).LoadImmediate? <==> w / OpcodeUnit == LoadValueCode
    ensures Decode(w).Invalid? <==> w / OpcodeUnit >= 14
  {
  }
}
