/**
 * `RegistrationUtilsExtension`: the plugin's configuration block. It holds the
 * switches `addDependencies` and `transformHolderLoading`, the group to relocate to,
 * the name of the per-project extension, and one `SubProject` per configured project
 * with its loader type, main class and init method.
 */
module RegistrationUtilsExtension {
  import opened Wrappers
  import opened JavaStrings
  import MainClassHolderTransformer

  /** `SubProject.Type` */
  datatype LoaderType = Fabric | Forge | Common

  /** `Type.toString()` */
  function TypeName(t: LoaderType): string {
    match t
    case Fabric => "fabric"
    case Forge => "forge"
    case Common => "common"
  }

  /** The holder transformer of a type, none for `COMMON`. */
  function HolderTransformer(t: LoaderType): Option<MainClassHolderTransformer.LoadAllHolders> {
    match t
    case Fabric => Some(MainClassHolderTransformer.LoadAllHolders("onInitialize()V"))
    case Forge => Some(MainClassHolderTransformer.LoadAllHolders("<init>()V"))
    case Common => None
  }

  /** The switch of `type(String)`; none stands for the IllegalArgumentException. */
  function ParseType(s: string): Option<LoaderType> {
    var l := Lower(s);
    if l == "fabric" || l == "quilt" then Some(Fabric)
    else if l == "forge" then Some(Forge)
    else if l == "common" then Some(Common)
    else None
  }

  /** A Gradle `Property`: an explicitly set value, else the convention, else no value. */
  datatype Property<T> = Property(convention: Option<T>, value: Option<T>) {
    function Get(): Option<T> {
      if value.Some? then value else convention
    }

    /** `set(v)`; setting null discards the value, so the convention applies again. */
    function Set(v: Option<T>): Property<T> {
      this.(value := v)
    }
  }

  /** A Gradle project a sub-project entry refers to. */
  datatype ProjectRef = RootProject | ProjectAt(path: string)

  /** `RegExtension.NAME` */
  const DEFAULT_EXTENSION_NAME: string := "reg"

  class Extension {
    var addDependencies: bool
    var group: Property<string>
    var extensionName: Property<string>
    var transformHolderLoading: Property<bool>

    ghost predicate Valid()
      reads this
    {
      group.convention.Some? && extensionName.convention.Some? && transformHolderLoading.convention.Some?
    }

    /** The extension of a project whose group is `projectGroup`. */
    constructor (projectGroup: string)
      ensures Valid()
      ensures addDependencies
      ensures group.Get() == Some(projectGroup)
      ensures extensionName.Get() == Some(DEFAULT_EXTENSION_NAME)
      ensures transformHolderLoading.Get() == Some(false)
    {
      addDependencies := true;
      group := Property(Some(projectGroup), None);
      extensionName := Property(Some(DEFAULT_EXTENSION_NAME), None);
      transformHolderLoading := Property(Some(false), None);
    }

    method SetAddDependencies(b: bool)
      requires Valid()
      modifies this
      ensures Valid()
      ensures addDependencies == b
      ensures group == old(group) && extensionName == old(extensionName)
      ensures transformHolderLoading == old(transformHolderLoading)
    {
      addDependencies := b;
    }

    method SetTransformHolderLoading(b: bool)
      requires Valid()
      modifies this
      ensures Valid()
      ensures transformHolderLoading.Get() == Some(b)
      ensures transformHolderLoading.convention == old(transformHolderLoading.convention)
      ensures addDependencies == old(addDependencies)
      ensures group == old(group) && extensionName == old(extensionName)
    {
      transformHolderLoading := transformHolderLoading.Set(Some(b));
    }

    /** `addDependencies()`: the same as `addDependencies(true)`. */
    method AddDependencies()
      requires Valid()
      modifies this
      ensures Valid()
      ensures addDependencies
      ensures group == old(group) && extensionName == old(extensionName)
      ensures transformHolderLoading == old(transformHolderLoading)
    {
      SetAddDependencies(true);
    }

    /** `transformHolderLoading()`: the same as `transformHolderLoading(true)`. */
    method TransformHolderLoading()
      requires Valid()
      modifies this
      ensures Valid()
      ensures transformHolderLoading.Get() == Some(true)
      ensures transformHolderLoading.convention == old(transformHolderLoading.convention)
      ensures addDependencies == old(addDependencies)
      ensures group == old(group) && extensionName == old(extensionName)
    {
      SetTransformHolderLoading(true);
    }

    method SetGroup(g: string)
      requires Valid()
      modifies this
      ensures Valid()
      ensures group.Get() == Some(g)
      ensures addDependencies == old(addDependencies) && extensionName == old(extensionName)
      ensures transformHolderLoading == old(transformHolderLoading)
    {
      group := group.Set(Some(g));
    }

    method SetExtensionName(n: string)
      requires Valid()
      modifies this
      ensures Valid()
      ensures extensionName.Get() == Some(n)
      ensures addDependencies == old(addDependencies) && group == old(group)
      ensures transformHolderLoading == old(transformHolderLoading)
    {
      extensionName := extensionName.Set(Some(n));
    }

    /** `addsDependencies()` */
    function AddsDependencies(): bool
      reads this
    {
      addDependencies
    }

    /** `transformsHolderLoading()` */
    function TransformsHolderLoading(): bool
      reads this
      requires Valid()
    {
      transformHolderLoading.Get().value
    }
  }

  /** The outcome of `type(String)`: done, or an IllegalArgumentException with its message. */
  datatype Outcome = Done | IllegalArgument(message: string)

  class SubProject {
    const name: string
    /** The project paths `findProject` knows. */
    const knownProjects: set<string>
    var loaderType: Property<LoaderType>
    var project: Property<ProjectRef>
    var mainClass: Property<string>
    var modInitMethod: Property<string>

    /** `root.findProject(path)` */
    function FindProject(path: string): Option<ProjectRef> {
      if path in knownProjects then Some(ProjectAt(path)) else None
    }

    /** The entry named `name`; a name that is a known type sets that type. */
    constructor (knownProjects: set<string>, name: string)
      ensures this.name == name && this.knownProjects == knownProjects
      ensures loaderType.Get() == Some(ParseType(name).GetOr(Common))
      ensures project.Get() == FindProject(":" + name)
      ensures mainClass.Get() == None
      ensures modInitMethod.Get() == Some(MainClassHolderTransformer.COMPUTE_FLAG)
    {
      this.name := name;
      this.knownProjects := knownProjects;
      loaderType := Property(Some(Common), None);
      project := Property(if ":" + name in knownProjects then Some(ProjectAt(":" + name)) else None, None);
      mainClass := Property(None, None);
      modInitMethod := Property(Some(MainClassHolderTransformer.COMPUTE_FLAG), None);
      new;
      var _ := SetType(name);
    }

    /** `type(String)`: an unknown name throws and leaves the type as it was. */
    method SetType(s: string) returns (r: Outcome)
      modifies this
      ensures r == if ParseType(s).Some? then Done else IllegalArgument("Unknown project type " + s)
      ensures loaderType == if ParseType(s).Some? then old(loaderType).Set(ParseType(s)) else old(loaderType)
      ensures project == old(project) && mainClass == old(mainClass) && modInitMethod == old(modInitMethod)
    {
      var l := Lower(s);
      var t: LoaderType;
      if l == "fabric" || l == "quilt" {
        t := Fabric;
      } else if l == "forge" {
        t := Forge;
      } else if l == "common" {
        t := Common;
      } else {
        return IllegalArgument("Unknown project type " + s);
      }
      loaderType := loaderType.Set(Some(t));
      r := Done;
    }

    method SetMainClass(c: string)
      modifies this
      ensures mainClass.Get() == Some(c)
      ensures loaderType == old(loaderType) && project == old(project) && modInitMethod == old(modInitMethod)
    {
      mainClass := mainClass.Set(Some(c));
    }

    method SetModInitMethod(m: string)
      modifies this
      ensures modInitMethod.Get() == Some(m)
      ensures loaderType == old(loaderType) && project == old(project) && mainClass == old(mainClass)
    {
      modInitMethod := modInitMethod.Set(Some(m));
    }

    /** `project(String)`: `root` in any case is the root project, any other name is looked up. */
    method SetProject(n: string)
      modifies this
      ensures project == old(project).Set(if Lower(n) == "root" then Some(RootProject) else FindProject(n))
      ensures loaderType == old(loaderType) && mainClass == old(mainClass) && modInitMethod == old(modInitMethod)
    {
      if Lower(n) == "root" {
        project := project.Set(Some(RootProject));
      } else {
        project := project.Set(FindProject(n));
      }
    }
  }

  // ---------------------------------------------------------------------------
  // Properties

  /** Parsing ignores case. */
  lemma ParseTypeIgnoresCase(s: string)
    ensures ParseType(s) == ParseType(Lower(s))
  {
    LowerIdempotent(s);
  }

  /** `fabric` and `quilt` give FABRIC, `forge` FORGE, `common` COMMON, and nothing else parses. */
  lemma ParseTypeCases(s: string)
    ensures ParseType(s) == Some(Fabric) <==> Lower(s) in {"fabric", "quilt"}
    ensures ParseType(s) == Some(Forge) <==> Lower(s) == "forge"
    ensures ParseType(s) == Some(Common) <==> Lower(s) == "common"
    ensures ParseType(s).None? <==> Lower(s) !in {"fabric", "quilt", "forge", "common"}
  {
  }

  /** A type's name parses back to the type. */
  lemma ParseTypeName(t: LoaderType)
    ensures ParseType(TypeName(t)) == Some(t)
  {
    match t
    case Fabric => assert Lower("fabric") == "fabric";
    case Forge => assert Lower("forge") == "forge";
    case Common => assert Lower("common") == "common";
  }

  /** A name parses as a type exactly when it spells one of the names in any case. */
  lemma ParseTypeAnyCase(s: string)
    ensures ParseType(s) == Some(Fabric) <==> SpellsIgnoringCase(s, "fabric") || SpellsIgnoringCase(s, "quilt")
    ensures ParseType(s) == Some(Forge) <==> SpellsIgnoringCase(s, "forge")
    ensures ParseType(s) == Some(Common) <==> SpellsIgnoringCase(s, "common")
  {
    LowerSpells(s, "fabric");
    LowerSpells(s, "quilt");
    LowerSpells(s, "forge");
    LowerSpells(s, "common");
  }

  /** COMMON has no transformer; FABRIC targets `onInitialize()V`, FORGE the no-argument constructor. */
  lemma HolderTransformerTargets()
    ensures HolderTransformer(Common).None?
    ensures HolderTransformer(Fabric) == Some(MainClassHolderTransformer.LoadAllHolders("onInitialize()V"))
    ensures HolderTransformer(Forge) == Some(MainClassHolderTransformer.LoadAllHolders("<init>()V"))
  {
  }

  /** `root` in any case selects the root project. */
  lemma RootInAnyCase(s: string)
    ensures Lower(s) == "root" <==> SpellsIgnoringCase(s, "root")
  {
    LowerSpells(s, "root");
  }
}
