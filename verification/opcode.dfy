/** The opcode manifest: operand layout, constant category and first version of every byte. */
module Opcodes {
  import opened Exprs

  /** One manifest operand field; "none" is the empty list of fields. */
  datatype Field =
    | ValueS1 | ValueS2 | IncrementS1
    | LocalU1
    | ConstantU1 | ConstantU2
    | BranchS2 | BranchS4
    | CountU1 | DimensionsU1 | AtypeU1
    | ZeroU1 | ZeroU2

  datatype Layout = Fixed(fields: seq<Field>) | TableSwitch | LookupSwitch | WidePrefix | Invalid

  datatype Category = NoConstant | FieldRef | MethodRef | InterfaceRef | AnyMethodRef | DynamicRef | ClassRef | Narrow | Double

  /** `since` is missing when the manifest does not name a version. No usable row has an end version. */
  datatype Metadata = Metadata(layout: Layout, constants: Category, since: Option<nat>)

  const WIDE: byte := 0xC4
  const TABLESWITCH: byte := 0xAA
  const LOOKUPSWITCH: byte := 0xAB
  const FIRST: nat := 45

  function Plain(fields: seq<Field>): Metadata {
    Metadata(Fixed(fields), NoConstant, Some(FIRST))
  }

  function Pooled(fields: seq<Field>, c: Category): Metadata {
    Metadata(Fixed(fields), c, Some(FIRST))
  }

  function Row(op: byte): Metadata {
    if op < 0x10 then Plain([])
    else if op == 0x10 then Plain([ValueS1])
    else if op == 0x11 then Plain([ValueS2])
    else if op == 0x12 then Pooled([ConstantU1], Narrow)
    else if op == 0x13 then Pooled([ConstantU2], Narrow)
    else if op == 0x14 then Pooled([ConstantU2], Double)
    else if op <= 0x19 then Plain([LocalU1])
    else if op <= 0x35 then Plain([])
    else if op <= 0x3A then Plain([LocalU1])
    else if op <= 0x83 then Plain([])
    else if op == 0x84 then Plain([LocalU1, IncrementS1])
    else if op <= 0x98 then Plain([])
    else if op <= 0xA8 then Plain([BranchS2])
    else if op == 0xA9 then Plain([LocalU1])
    else if op == TABLESWITCH then Metadata(TableSwitch, NoConstant, Some(FIRST))
    else if op == LOOKUPSWITCH then Metadata(LookupSwitch, NoConstant, Some(FIRST))
    else if op <= 0xB1 then Plain([])
    else if op <= 0xB5 then Pooled([ConstantU2], FieldRef)
    else if op == 0xB6 then Pooled([ConstantU2], MethodRef)
    else if op <= 0xB8 then Pooled([ConstantU2], AnyMethodRef)
    else if op == 0xB9 then Pooled([ConstantU2, CountU1, ZeroU1], InterfaceRef)
    else if op == 0xBA then Metadata(Fixed([ConstantU2, ZeroU2]), DynamicRef, Some(51))
    else if op == 0xBB then Pooled([ConstantU2], ClassRef)
    else if op == 0xBC then Plain([AtypeU1])
    else if op == 0xBD then Pooled([ConstantU2], ClassRef)
    else if op <= 0xBF then Plain([])
    else if op <= 0xC1 then Pooled([ConstantU2], ClassRef)
    else if op <= 0xC3 then Plain([])
    else if op == WIDE then Metadata(WidePrefix, NoConstant, Some(FIRST))
    else if op == 0xC5 then Pooled([ConstantU2, DimensionsU1], ClassRef)
    else if op <= 0xC7 then Plain([BranchS2])
    else if op <= 0xC9 then Plain([BranchS4])
    else if op == 0xCA || op >= 0xFE then Metadata(Fixed([]), NoConstant, None)
    else Metadata(Invalid, NoConstant, None)
  }

  /** The metadata check shared by the decoder and the encoder. */
  predicate Usable(op: byte, major: nat) {
    !Row(op).layout.Invalid? && Row(op).since.Some? && Row(op).since.value <= major
  }

  /** The opcodes that `wide` may modify. */
  predicate Widenable(op: byte) {
    Row(op).layout == Fixed([LocalU1]) || Row(op).layout == Fixed([LocalU1, IncrementS1])
  }

  /** What the instruction reader can learn about a constant-pool entry. */
  datatype Constant = Field | Method | InterfaceMethod | InvokeDynamic | Class | LongOrDouble | OtherConstant

  /** Usable entries by index; index zero and two-slot holes are absent. */
  type Pool = map<nat, Constant>

  predicate Fits(c: Constant, category: Category) {
    match category
    case FieldRef => c.Field?
    case MethodRef => c.Method?
    case InterfaceRef => c.InterfaceMethod?
    case AnyMethodRef => c.Method? || c.InterfaceMethod?
    case DynamicRef => c.InvokeDynamic?
    case ClassRef => c.Class?
    case Narrow => !c.LongOrDouble?
    case Double => c.LongOrDouble?
    case NoConstant => false
  }

  predicate InPool(pool: Pool, index: nat, category: Category) {
    index in pool && Fits(pool[index], category)
  }
}
