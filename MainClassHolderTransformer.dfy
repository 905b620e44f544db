/**
 * `MainClassHolderTransformer.LoadAllHolders`: in the mod's main class, finds the
 * initialisation method and inserts a call to `RegistryHolder.loadAll()` into it,
 * after the call to the super constructor when there is one.
 */
module MainClassHolderTransformer {
  import opened Wrappers
  import opened JavaStrings
  import opened Asm

  const LOAD_ALL_METHOD_NAME: string := "loadAll"
  const LOAD_ALL_METHOD_DESC: string := "()V"
  const COMPUTE_FLAG: string := "compute"

  /** The transformer of a loader type, with the method it targets by default. */
  datatype LoadAllHolders = LoadAllHolders(defaultMethod: string)

  /** Whether a method, by `name + desc`, is the one to change. */
  predicate Selects(initMethod: string, defaultMethod: string, fullMethod: string) {
    if Lower(initMethod) == COMPUTE_FLAG then fullMethod == defaultMethod else initMethod == fullMethod
  }

  /** The index of the first selected method. */
  function FirstSelected(fulls: seq<string>, initMethod: string, defaultMethod: string): (k: Option<nat>)
    ensures k.Some? ==> k.value < |fulls| && Selects(initMethod, defaultMethod, fulls[k.value])
    ensures k.Some? ==> forall j :: 0 <= j < k.value ==> !Selects(initMethod, defaultMethod, fulls[j])
    ensures k.None? <==> forall j :: 0 <= j < |fulls| ==> !Selects(initMethod, defaultMethod, fulls[j])
  {
    if |fulls| == 0 then None
    else if Selects(initMethod, defaultMethod, fulls[0]) then Some(0)
    else match FirstSelected(fulls[1..], initMethod, defaultMethod)
      case None => None
      case Some(k) => Some(k + 1)
  }

  /** The `INVOKESTATIC <group>/RegistryHolder.loadAll()V` instruction. */
  function LoadAllCall(group: string): Insn {
    MethodInsn(INVOKESTATIC, Slashed(group) + "/RegistryHolder", LOAD_ALL_METHOD_NAME, LOAD_ALL_METHOD_DESC, true)
  }

  /** An `INVOKESPECIAL` of the superclass's `<init>`. */
  predicate IsSuperInit(i: Insn, superName: Option<string>) {
    i.MethodInsn? && i.opcode == INVOKESPECIAL && superName == Some(i.owner) && i.name == "<init>"
  }

  /** The index of the first super constructor call. */
  function FirstSuperInit(insns: seq<Insn>, superName: Option<string>): (k: Option<nat>)
    ensures k.Some? ==> k.value < |insns| && IsSuperInit(insns[k.value], superName)
    ensures k.Some? ==> forall j :: 0 <= j < k.value ==> !IsSuperInit(insns[j], superName)
    ensures k.None? <==> forall j :: 0 <= j < |insns| ==> !IsSuperInit(insns[j], superName)
  {
    if |insns| == 0 then None
    else if IsSuperInit(insns[0], superName) then Some(0)
    else match FirstSuperInit(insns[1..], superName)
      case None => None
      case Some(k) => Some(k + 1)
  }

  /** Where the call goes: right after the first super constructor call, else first. */
  function InsertionIndex(insns: seq<Insn>, superName: Option<string>): (k: nat)
    ensures k <= |insns|
  {
    match FirstSuperInit(insns, superName)
    case Some(j) => j + 1
    case None => 0
  }

  /** The instruction list with `call` inserted at the insertion index. */
  function WithCall(insns: seq<Insn>, superName: Option<string>, call: Insn): seq<Insn> {
    var k := InsertionIndex(insns, superName);
    insns[..k] + [call] + insns[k..]
  }

  /** The full names of the methods, in order. */
  function FullNames(methods: seq<MethodNode>): (fs: seq<string>)
    ensures |fs| == |methods|
    ensures forall i :: 0 <= i < |methods| ==> fs[i] == FullName(methods[i])
  {
    seq(|methods|, i requires 0 <= i < |methods| => FullName(methods[i]))
  }

  /**
   * `transform`: true exactly when some method is selected; the first selected method
   * gets the call and nothing else changes.
   */
  method Transform(t: LoadAllHolders, clazz: ClassNode, initMethod: string, group: string) returns (changed: bool)
    modifies clazz.methods
    ensures changed == FirstSelected(FullNames(clazz.methods), initMethod, t.defaultMethod).Some?
    ensures forall m :: m in clazz.methods ==> m.access == old(m.access)
    ensures changed ==>
              var target := clazz.methods[FirstSelected(FullNames(clazz.methods), initMethod, t.defaultMethod).value];
              target.instructions == WithCall(old(target.instructions), clazz.superName, LoadAllCall(group)) &&
              forall m :: m in clazz.methods && m != target ==> m.instructions == old(m.instructions)
    ensures !changed ==> forall m :: m in clazz.methods ==> m.instructions == old(m.instructions)
  {
    var selected := FirstSelected(FullNames(clazz.methods), initMethod, t.defaultMethod);
    if selected.None? {
      return false;
    }
    var mthd := clazz.methods[selected.value];
    var newInsn := LoadAllCall(group);
    var k := InsertionIndex(mthd.instructions, clazz.superName);
    mthd.instructions := mthd.instructions[..k] + [newInsn] + mthd.instructions[k..];
    changed := true;
  }

  // ---------------------------------------------------------------------------
  // Properties

  /** With the `compute` flag, in any case, the loader's default method is selected and nothing else. */
  lemma ComputeSelectsDefault(initMethod: string, defaultMethod: string, fullMethod: string)
    requires Lower(initMethod) == COMPUTE_FLAG
    ensures Selects(initMethod, defaultMethod, fullMethod) <==> fullMethod == defaultMethod
  {
  }

  /** Otherwise the selector is compared with `name + desc` exactly, case included. */
  lemma ExplicitSelectsExactly(initMethod: string, defaultMethod: string, fullMethod: string)
    requires Lower(initMethod) != COMPUTE_FLAG
    ensures Selects(initMethod, defaultMethod, fullMethod) <==> fullMethod == initMethod
  {
  }

  /** Exactly one call is inserted and nothing else is added or removed. */
  lemma {:induction false} WithCallAddsOneCall(insns: seq<Insn>, superName: Option<string>, call: Insn)
    ensures |WithCall(insns, superName, call)| == |insns| + 1
    ensures multiset(WithCall(insns, superName, call)) == multiset(insns) + multiset{call}
  {
    var k := InsertionIndex(insns, superName);
    assert insns == insns[..k] + insns[k..];
    calc {
      multiset(WithCall(insns, superName, call));
      multiset(insns[..k]) + multiset([call]) + multiset(insns[k..]);
      multiset(insns[..k] + insns[k..]) + multiset{call};
    }
  }

  /** Removing the inserted call gives back the original list, so the order is kept. */
  lemma WithCallKeepsOrder(insns: seq<Insn>, superName: Option<string>, call: Insn)
    ensures var r, k := WithCall(insns, superName, call), InsertionIndex(insns, superName);
      r[k] == call && r[..k] + r[k + 1..] == insns
  {
    var r, k := WithCall(insns, superName, call), InsertionIndex(insns, superName);
    assert r[..k] == insns[..k];
    assert r[k + 1..] == insns[k..];
  }

  /** The call follows the first super constructor call, or opens the method when there is none. */
  lemma WithCallPlacement(insns: seq<Insn>, superName: Option<string>, call: Insn)
    ensures var r := WithCall(insns, superName, call);
      match FirstSuperInit(insns, superName)
      case Some(j) =>
        IsSuperInit(r[j], superName) && r[j + 1] == call &&
        forall i :: 0 <= i < j ==> !IsSuperInit(r[i], superName)
      case None => r[0] == call && r[1..] == insns
  {
  }
}
