/**
 * `HolderScanner`: finds classes that hold a static `RegistrationProvider` field,
 * records the name the `RegistryHolder` service file lists for each, and makes each
 * class a `RegistryHolder` with public constructors.
 */
module HolderScanner {
  import opened Wrappers
  import opened JavaStrings
  import opened Asm

  const INNER_NAME: string := "RegUtils"

  const VISIBILITY: Access := ACC_PUBLIC | ACC_PRIVATE | ACC_PROTECTED

  /** `changeAccess`: public, neither private nor protected, every other flag kept. */
  function ChangeAccess(access: Access): (r: Access)
    ensures r & ACC_PUBLIC == ACC_PUBLIC
    ensures r & (ACC_PRIVATE | ACC_PROTECTED) == 0
    ensures r & !VISIBILITY == access & !VISIBILITY
  {
    (access & !(ACC_PRIVATE | ACC_PROTECTED)) | ACC_PUBLIC
  }

  /** `Modifier.isStatic` */
  predicate IsStatic(access: Access) {
    access & ACC_STATIC != 0
  }

  predicate IsInterface(access: Access) {
    access & ACC_INTERFACE != 0
  }

  /** The descriptor of `<pkg>.RegistrationProvider`. */
  function ProviderDescriptor(pkg: string): string {
    ObjectDescriptor(Slashed(pkg) + "/RegistrationProvider")
  }

  /** The internal name of `<pkg>.RegistryHolder`. */
  function HolderType(pkg: string): string {
    Slashed(pkg) + "/RegistryHolder"
  }

  /** Some field is static and has the provider descriptor. */
  predicate HasProviderField(fields: seq<FieldNode>, desc: string) {
    exists i :: 0 <= i < |fields| && fields[i].desc == desc && IsStatic(fields[i].access)
  }

  /** A class is a holder when it is not one already and has a static provider field. */
  predicate IsHolder(providerDesc: string, holderType: string, interfaces: seq<string>, fields: seq<FieldNode>) {
    holderType !in interfaces && HasProviderField(fields, providerDesc)
  }

  /** The name recorded for a holder: its `$RegUtils` inner class for an interface, itself otherwise. */
  function RecordedName(className: string, access: Access): string {
    if IsInterface(access) then Dotted(className + "$" + INNER_NAME) else Dotted(className)
  }

  /** The field loop of `processClass`, which stops at the first static provider field. */
  method FindProviderField(fields: seq<FieldNode>, desc: string) returns (found: bool)
    ensures found == HasProviderField(fields, desc)
  {
    found := false;
    var i := 0;
    while i < |fields|
      invariant 0 <= i <= |fields|
      invariant !found
      invariant forall j :: 0 <= j < i ==> !(fields[j].desc == desc && IsStatic(fields[j].access))
    {
      if fields[i].desc == desc && IsStatic(fields[i].access) {
        found := true;
        return;
      }
      i := i + 1;
    }
  }

  class Scanner {
    const registrationProvider: string
    const registryHolderType: string
    var foundClasses: set<string>

    constructor (pkg: string)
      ensures registrationProvider == ProviderDescriptor(pkg)
      ensures registryHolderType == HolderType(pkg)
      ensures foundClasses == {}
    {
      var p := Slashed(pkg);
      registrationProvider := ObjectDescriptor(p + "/RegistrationProvider");
      registryHolderType := InternalNameOf(ObjectDescriptor(p + "/RegistryHolder"));
      foundClasses := {};
    }

    /**
     * `processClass` on the class read from a file; the class node afterwards is
     * what is written back.
     */
    method ProcessClass(clazz: ClassNode) returns (found: bool)
      modifies this, clazz, clazz.methods
      ensures found == IsHolder(registrationProvider, registryHolderType, old(clazz.interfaces), clazz.fields)
      ensures foundClasses == if found then old(foundClasses) + {RecordedName(clazz.name, clazz.access)}
                              else old(foundClasses)
      ensures clazz.interfaces == if found && !IsInterface(clazz.access)
                                  then old(clazz.interfaces) + [registryHolderType]
                                  else old(clazz.interfaces)
      ensures forall m :: m in clazz.methods ==> m.instructions == old(m.instructions)
      ensures forall m :: m in clazz.methods ==>
                m.access == if found && !IsInterface(clazz.access) && m.name == "<init>"
                            then ChangeAccess(old(m.access)) else old(m.access)
    {
      if registryHolderType in clazz.interfaces {
        return false;
      }
      found := FindProviderField(clazz.fields, registrationProvider);
      if found {
        if IsInterface(clazz.access) {
          var innerName := clazz.name + "$" + INNER_NAME;
          foundClasses := foundClasses + {Dotted(innerName)};
        } else {
          foundClasses := foundClasses + {Dotted(clazz.name)};
          clazz.interfaces := clazz.interfaces + [registryHolderType];
          var i := 0;
          while i < |clazz.methods|
            invariant 0 <= i <= |clazz.methods|
            invariant foundClasses == old(foundClasses) + {Dotted(clazz.name)}
            invariant clazz.interfaces == old(clazz.interfaces) + [registryHolderType]
            invariant forall m :: m in clazz.methods ==> m.instructions == old(m.instructions)
            invariant forall m :: m in clazz.methods ==>
                        m.access == if m.name == "<init>" && m in clazz.methods[..i]
                                    then ChangeAccess(old(m.access)) else old(m.access)
          {
            var m := clazz.methods[i];
            if m.name == "<init>" {
              ChangeAccessIdempotent(old(m.access));
              m.access := ChangeAccess(m.access);
            }
            i := i + 1;
          }
        }
      }
    }
  }

  // ---------------------------------------------------------------------------
  // Properties

  /** Changing access twice is changing it once. */
  lemma ChangeAccessIdempotent(access: Access)
    ensures ChangeAccess(ChangeAccess(access)) == ChangeAccess(access)
  {
  }

  /** The descriptor the scanner looks for wraps `<pkg>/RegistrationProvider`. */
  lemma ProviderDescriptorShape(pkg: string)
    ensures InternalNameOf(ProviderDescriptor(pkg)) == Slashed(pkg) + "/RegistrationProvider"
  {
  }

  /** A recorded name is a binary name: it has no '/'. */
  lemma RecordedNameIsBinary(className: string, access: Access)
    ensures '/' !in RecordedName(className, access)
    ensures IsInterface(access) ==> EndsWith(RecordedName(className, access), "$" + INNER_NAME)
  {
    var n := if IsInterface(access) then className + "$" + INNER_NAME else className;
    assert RecordedName(className, access) == Dotted(n);
    if IsInterface(access) {
      var r := Dotted(n);
      assert r[|r| - 9..] == "$" + INNER_NAME;
    }
  }
}
