/**
 * The slice of the ASM tree API the bytecode steps read and change: a class node
 * with its interfaces, fields and methods, and a method node with its access flags
 * and instruction list. Reading and writing class files is not modelled.
 */
module Asm {
  import opened Wrappers
  import opened JavaStrings

  /** JVM access flags (section 4.6 of the JVM Specification, Java SE 17) as a Java `int`. */
  type Access = bv32

  const ACC_PUBLIC: Access := 0x0001
  const ACC_PRIVATE: Access := 0x0002
  const ACC_PROTECTED: Access := 0x0004
  const ACC_STATIC: Access := 0x0008
  const ACC_SUPER: Access := 0x0020
  const ACC_INTERFACE: Access := 0x0200

  const INVOKESPECIAL: int := 183
  const INVOKESTATIC: int := 184

  /** An instruction: a method call with its owner, name and descriptor, or any other instruction. */
  datatype Insn =
    | MethodInsn(opcode: int, owner: string, name: string, desc: string, isInterface: bool)
    | OtherInsn(opcode: int)

  datatype FieldNode = FieldNode(access: Access, name: string, desc: string)

  class MethodNode {
    const name: string
    const desc: string
    var access: Access
    var instructions: seq<Insn>

    constructor (name: string, desc: string, access: Access, instructions: seq<Insn>)
      ensures this.name == name && this.desc == desc
      ensures this.access == access && this.instructions == instructions
    {
      this.name := name;
      this.desc := desc;
      this.access := access;
      this.instructions := instructions;
    }
  }

  /** `name + desc`, the text the init-method selector is compared with. */
  function FullName(m: MethodNode): string {
    m.name + m.desc
  }

  class ClassNode {
    const name: string
    const access: Access
    const superName: Option<string>
    var interfaces: seq<string>
    const fields: seq<FieldNode>
    const methods: seq<MethodNode>

    constructor (name: string, access: Access, superName: Option<string>, interfaces: seq<string>,
                 fields: seq<FieldNode>, methods: seq<MethodNode>)
      ensures this.name == name && this.access == access && this.superName == superName
      ensures this.interfaces == interfaces && this.fields == fields && this.methods == methods
    {
      this.name := name;
      this.access := access;
      this.superName := superName;
      this.interfaces := interfaces;
      this.fields := fields;
      this.methods := methods;
    }
  }

  /** The field descriptor of a class type: `L ClassName ;` (section 4.3.2). */
  function ObjectDescriptor(internalName: string): string {
    "L" + internalName + ";"
  }

  /** `Type.getType(desc).getInternalName()` for an object descriptor. */
  function InternalNameOf(desc: string): string
    requires |desc| >= 2 && desc[0] == 'L' && desc[|desc| - 1] == ';'
  {
    desc[1..|desc| - 1]
  }

  /** `internalName.replace('/', '.')`: the binary name. */
  function Dotted(internalName: string): string {
    ReplaceChar(internalName, '/', '.')
  }

  /** The internal name is what the descriptor wraps. */
  lemma InternalNameOfDescriptor(n: string)
    ensures InternalNameOf(ObjectDescriptor(n)) == n
  {
  }
}
