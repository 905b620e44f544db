# RegistrationUtils build plugin, modelled in Dafny

RegistrationUtils is a library for Minecraft mods. Mods use it to register content
once for the Fabric, Forge and common code of a multi-loader project. Its Gradle plugin
does the following:

- It ships the library as zipped jars and sources, and relocates them from the package
  `com.matyrobbrt.registrationutils` into the mod's own group.
- It puts the relocated jars in a build cache and serves them to Gradle from a local
  artifact repository.
- It merges the common jar with a loader jar.
- It unpacks the library into the mod's jar.
- It scans the compiled mod classes for "holders", meaning classes with a static
  `RegistrationProvider` field. It makes each holder implement `RegistryHolder` and
  lists the holders in a service file.
- It inserts a `RegistryHolder.loadAll()` call into the mod's main class.

This project models the plugin's own rules, source file by source file. Each module has
the name of the Java class it models. All modules are verified together, by
`dafny verify --resource-limit 2000000 --verification-time-limit 0 --warn-contradictory-assumptions *.dfy`
or plain `dafny verify *.dfy`.

| module | what it models |
|---|---|
| `RegExtension` | jar and dependency naming; `copyEntries` and `joined`; the entry-rewrite loop of `maybeCreateJar`; the extract filter and the mixin-list update of `configureJarTask`; the service file name of `handleTransformation` |
| `RelocateResourceTask` | `FileData.create`, `readBytes`, `forEachEntry`, and the per-entry path and content mapping of `relocate` |
| `HolderScanner` | `changeAccess`, the descriptors built by the constructor, the decisions of `processClass`, and the `foundClasses` set |
| `MainClassHolderTransformer` | `LoadAllHolders.transform`: which method is chosen, and where the `loadAll` call is inserted |
| `RegistrationUtilsExtension` | the `Type` enum and its parsing, the Gradle property conventions, and the setters of the extension and of `SubProject` |
| `RegArtifactProvider` | `getArtifact`: the group filter, the file name, and the artifact type |
| `Utils` | `byteArray2Hex`: lower-case base16 (the alphabet of section 8 of RFC 4648, in lower case) |

Three supporting modules model the parts of the Java platform and of ASM that the rules
depend on:

- `JavaStrings` covers `startsWith`, `endsWith`, `contains`, literal `replaceAll`,
  `replace` on characters, `split("/")` (which drops trailing empty segments),
  `String.join`, `trim`, and `toLowerCase(Locale.ROOT)` on ASCII.
- `JavaIo` covers bytes, zip entries (where `isDirectory` means the name ends with `/`),
  `InputStream.read`, `ZipInputStream.getNextEntry`, a `JarOutputStream` that refuses a
  duplicate name, and an output directory in which writes to given paths fail.
- `Asm` covers class and method nodes, access flags (section 4.6 of the JVM
  Specification, Java SE 17), and field descriptors (section 4.3.2).

`Wrappers` holds `Option`.

Zips and jars are sequences of entries. Updates the source makes in place are modelled
in place:

- a method node's access and instruction list;
- a class node's interface list;
- the scanner's `foundClasses` set;
- the Gradle properties of the extension and of `SubProject`;
- the output jar stream;
- the output directory.

The source's own behaviour is kept, including these edge cases:

- `readBytes` stops at the first zero byte, not only at the end of the stream. Every text
  that `relocate` and `maybeCreateJar` rewrite is therefore cut at its first zero byte.
  `RewriteToSameGroup` shows that relocating to the same group keeps an entry only when
  its data has no zero byte. `relocate` copies `.class` entries from the same cut bytes.
  The fifth byte of a class file, the high byte of `minor_version`, is normally zero, so a
  class file is cut to its 4-byte magic number (`ClassEntryWrittenCut`). Within the plugin, `maybeCreateJar` applies `relocate` to the
  bundled `-sources.zip` archive.
- For an empty group, the service file is `META-INF/services/RegistryHolder`, while the
  scanner adds the malformed internal name `/RegistryHolder` (`ServicesFileNamesHolderType`).
- `FileData.create` throws on a name made only of slashes, such as `/`, because
  `split("/")` then returns no segment. The model returns none (`FileDataOfSlash`).
- In `relocate`, a directory is read as a dotted package and turned back into a path with
  `.` → `/`. So a directory with a `.` in it (`a.b/c`) becomes nested directories
  (`a/b/c`) even when the group does not occur (`DottedDirectorySplit`). A name with no
  occurrence of the group keeps its path only when its directory has no `.`
  (`UntouchedPathKept`).
- A name with a leading `/` splits into an empty first segment. For `/regutils.refmap.json`
  the directory is then empty, so the refmap is written at `regutils.refmap.json`
  (`RefmapWithLeadingSlash`). `RefmapKeepsPath` and `UntouchedPathKept` are stated for
  names without a leading `/`.
- For `copyEntries`, `JarFile.getEntry(name)` also finds an entry named `name/`. A loader
  file whose name is a common directory is therefore skipped too (`HasEntry`).
- `dependencyNotation(COMMON)` would name `regutils-common`, which no jar carries. The
  source never asks for it, because `loaderSpecific` handles COMMON through `common()`.
  `NotationResolvesToJarPath` therefore excludes COMMON.

## Model

| member | source | states |
|---|---|---|
| `Utils.ByteArray2Hex` | src/main/java/com/matyrobbrt/registrationutils/gradle/Utils.java:36-43 | the loop builds exactly `Hex` of the array's bytes, two characters per byte in order |
| `Utils.Unsigned` | src/main/java/com/matyrobbrt/registrationutils/gradle/Utils.java:39-40 | masking reads a signed Java byte as its unsigned value, below 256 (negative bytes plus 256) |
| `Utils.HexLength` | src/main/java/com/matyrobbrt/registrationutils/gradle/Utils.java:37-42 | the output is exactly twice as long as the input |
| `Utils.HexAlphabet` | src/main/java/com/matyrobbrt/registrationutils/gradle/Utils.java:34-40 | every output character is one of `0-9a-f` |
| `Utils.HexAt` | src/main/java/com/matyrobbrt/registrationutils/gradle/Utils.java:38-41 | characters `2i` and `2i+1` are the high and low nibble digits of byte `i` |
| `Utils.HexConcat` | src/main/java/com/matyrobbrt/registrationutils/gradle/Utils.java:38-41 | `hex(a ++ b) == hex(a) ++ hex(b)` |
| `Utils.ByteOfPairInverts` | src/main/java/com/matyrobbrt/registrationutils/gradle/Utils.java:39-40 | decoding the two digits of a byte gives back that signed byte |
| `Utils.UnhexSnoc` | src/main/java/com/matyrobbrt/registrationutils/gradle/Utils.java:38-41 | decoding a text with one more digit pair decodes one more byte at the end |
| `Utils.UnhexHex` | src/main/java/com/matyrobbrt/registrationutils/gradle/Utils.java:39-40 | decoding the output pair by pair gives back the input bytes |
| `Utils.HexInjective` | src/main/java/com/matyrobbrt/registrationutils/gradle/Utils.java:36-43 | two byte arrays with the same hex text are equal |
| `Asm.InternalNameOfDescriptor` | src/main/java/com/matyrobbrt/registrationutils/gradle/holderreg/HolderScanner.java:62-63 | the internal name of the descriptor `L<n>;` is `n` |
| `HolderScanner.ChangeAccess` | src/main/java/com/matyrobbrt/registrationutils/gradle/holderreg/HolderScanner.java:139-141 | `ACC_PUBLIC` is set, `ACC_PRIVATE` and `ACC_PROTECTED` are cleared, and every other flag is kept |
| `HolderScanner.ChangeAccessIdempotent` | src/main/java/com/matyrobbrt/registrationutils/gradle/holderreg/HolderScanner.java:139-141 | changing access twice equals changing it once |
| `HolderScanner.Scanner.constructor` | src/main/java/com/matyrobbrt/registrationutils/gradle/holderreg/HolderScanner.java:59-64 | the scanner looks for the descriptor `L<pkg>/RegistrationProvider;` and the type `<pkg>/RegistryHolder` (with `pkg` slashed); nothing is found yet |
| `HolderScanner.ProviderDescriptorShape` | src/main/java/com/matyrobbrt/registrationutils/gradle/holderreg/HolderScanner.java:61-62 | the provider descriptor wraps the internal name `<pkg>/RegistrationProvider` |
| `HolderScanner.FindProviderField` | src/main/java/com/matyrobbrt/registrationutils/gradle/holderreg/HolderScanner.java:75-80 | the field loop finds a field exactly when some field is static and has the provider descriptor |
| `HolderScanner.Scanner.ProcessClass` | src/main/java/com/matyrobbrt/registrationutils/gradle/holderreg/HolderScanner.java:67-133 | a class already implementing `RegistryHolder` gives false and nothing changes. Otherwise the result is true exactly when some field is a static provider. A holder adds exactly its recorded name to `foundClasses`, which only grows. A holder class (not an interface) gets `RegistryHolder` appended to its interfaces, and every `<init>` passes through `changeAccess`. Other methods and all instructions are kept. |
| `HolderScanner.RecordedNameIsBinary` | src/main/java/com/matyrobbrt/registrationutils/gradle/holderreg/HolderScanner.java:85-122 | a recorded name is dotted and has no `/`; for an interface it ends in `$RegUtils` |
| `MainClassHolderTransformer.FirstSelected` | src/main/java/com/matyrobbrt/registrationutils/gradle/holderreg/MainClassHolderTransformer.java:52-61 | the first method whose `name + desc` the selector accepts, with none before it; none exactly when no method is accepted |
| `MainClassHolderTransformer.FirstSuperInit` | src/main/java/com/matyrobbrt/registrationutils/gradle/holderreg/MainClassHolderTransformer.java:65-71 | the first `INVOKESPECIAL` of `superName.<init>`, with none before it; none exactly when there is none |
| `MainClassHolderTransformer.InsertionIndex` | src/main/java/com/matyrobbrt/registrationutils/gradle/holderreg/MainClassHolderTransformer.java:65-72 | the insertion point lies within the instruction list |
| `MainClassHolderTransformer.Transform` | src/main/java/com/matyrobbrt/registrationutils/gradle/holderreg/MainClassHolderTransformer.java:50-77 | true exactly when some method is selected. Only the first selected method gets the call, at the insertion point. Every other method, and every access flag, is unchanged. |
| `MainClassHolderTransformer.ComputeSelectsDefault` | src/main/java/com/matyrobbrt/registrationutils/gradle/holderreg/MainClassHolderTransformer.java:56-57 | with `compute` in any case, exactly the loader's default method is selected |
| `MainClassHolderTransformer.ExplicitSelectsExactly` | src/main/java/com/matyrobbrt/registrationutils/gradle/holderreg/MainClassHolderTransformer.java:58-59 | any other selector is compared with `name + desc` exactly, case included |
| `MainClassHolderTransformer.WithCallAddsOneCall` | src/main/java/com/matyrobbrt/registrationutils/gradle/holderreg/MainClassHolderTransformer.java:63-72 | the list grows by one, and its multiset gains exactly the `loadAll` call |
| `MainClassHolderTransformer.WithCallKeepsOrder` | src/main/java/com/matyrobbrt/registrationutils/gradle/holderreg/MainClassHolderTransformer.java:72 | removing the inserted call gives back the original list |
| `MainClassHolderTransformer.WithCallPlacement` | src/main/java/com/matyrobbrt/registrationutils/gradle/holderreg/MainClassHolderTransformer.java:65-72 | the call comes right after the first super constructor call, or first when there is none |
| `RegistrationUtilsExtension.Extension.constructor` | src/main/java/com/matyrobbrt/registrationutils/gradle/RegistrationUtilsExtension.java:48-60 | defaults: dependencies added, the project's group, extension name `reg`, holder loading not transformed |
| `RegistrationUtilsExtension.Extension.SetAddDependencies` | src/main/java/com/matyrobbrt/registrationutils/gradle/RegistrationUtilsExtension.java:70-72 | `Extension.AddsDependencies` models the getter `addsDependencies` (84-86), which reads the switch; sets the switch and keeps every other setting |
| `RegistrationUtilsExtension.Extension.AddDependencies` | src/main/java/com/matyrobbrt/registrationutils/gradle/RegistrationUtilsExtension.java:73-75 | the no-argument form turns the switch on and keeps every other setting |
| `RegistrationUtilsExtension.Extension.SetTransformHolderLoading` | src/main/java/com/matyrobbrt/registrationutils/gradle/RegistrationUtilsExtension.java:77-79 | `Extension.TransformsHolderLoading` models the getter `transformsHolderLoading` (87-89), which reads the property; the property now reads the given value; the convention and the other settings are kept |
| `RegistrationUtilsExtension.Extension.TransformHolderLoading` | src/main/java/com/matyrobbrt/registrationutils/gradle/RegistrationUtilsExtension.java:80-82 | the no-argument form makes the property read true; the convention and the other settings are kept |
| `RegistrationUtilsExtension.Extension.SetGroup` | src/main/java/com/matyrobbrt/registrationutils/gradle/RegistrationUtilsExtension.java:91-93 | the group now reads the given value; the other settings are kept |
| `RegistrationUtilsExtension.Extension.SetExtensionName` | src/main/java/com/matyrobbrt/registrationutils/gradle/RegistrationUtilsExtension.java:95-97 | the extension name now reads the given value; the other settings are kept |
| `RegistrationUtilsExtension.SubProject.constructor` | src/main/java/com/matyrobbrt/registrationutils/gradle/RegistrationUtilsExtension.java:109-120 | a name that parses as a type sets that type, any other keeps COMMON; the project defaults to `:<name>`; the init method defaults to `compute`; no main class |
| `RegistrationUtilsExtension.SubProject.SetType` | src/main/java/com/matyrobbrt/registrationutils/gradle/RegistrationUtilsExtension.java:122-129 | a known name sets its type; any other gives IllegalArgumentException (`Unknown project type …`) and leaves the type as it was |
| `RegistrationUtilsExtension.SubProject.SetMainClass` | src/main/java/com/matyrobbrt/registrationutils/gradle/RegistrationUtilsExtension.java:131-133 | the main class now reads the given value; the rest is kept |
| `RegistrationUtilsExtension.SubProject.SetModInitMethod` | src/main/java/com/matyrobbrt/registrationutils/gradle/RegistrationUtilsExtension.java:135-137 | the init method now reads the given value; the rest is kept |
| `RegistrationUtilsExtension.SubProject.SetProject` | src/main/java/com/matyrobbrt/registrationutils/gradle/RegistrationUtilsExtension.java:139-145 | `root` in any case selects the root project; any other name is looked up among the known projects |
| `RegistrationUtilsExtension.ParseTypeIgnoresCase` | src/main/java/com/matyrobbrt/registrationutils/gradle/RegistrationUtilsExtension.java:123 | parsing a name equals parsing its lower-case form |
| `RegistrationUtilsExtension.ParseTypeCases` | src/main/java/com/matyrobbrt/registrationutils/gradle/RegistrationUtilsExtension.java:123-128 | `ParseType` models the switch of `type(String)`: `fabric` and `quilt` give FABRIC, `forge` FORGE, `common` COMMON (each if and only if), and nothing else parses |
| `RegistrationUtilsExtension.ParseTypeName` | src/main/java/com/matyrobbrt/registrationutils/gradle/RegistrationUtilsExtension.java:122-171 | `TypeName` models `Type.toString` (155-171): parsing `t.toString()` gives back `t` |
| `RegistrationUtilsExtension.ParseTypeAnyCase` | src/main/java/com/matyrobbrt/registrationutils/gradle/RegistrationUtilsExtension.java:123-128 | a name gives FABRIC exactly when it spells `fabric` or `quilt` in any mix of cases, FORGE exactly for `forge`, COMMON exactly for `common` |
| `RegistrationUtilsExtension.HolderTransformerTargets` | src/main/java/com/matyrobbrt/registrationutils/gradle/RegistrationUtilsExtension.java:155-172 | COMMON has no transformer; FABRIC targets `onInitialize()V` and FORGE `<init>()V` |
| `RegistrationUtilsExtension.RootInAnyCase` | src/main/java/com/matyrobbrt/registrationutils/gradle/RegistrationUtilsExtension.java:140 | a name lowers to `root` exactly when it spells `root` in any mix of cases |
| `RegArtifactProvider.OtherGroupGetsNothing` | src/main/java/com/matyrobbrt/registrationutils/gradle/RegArtifactProvider.java:44-47 | another group gets none, whatever files exist |
| `RegArtifactProvider.ServedExactlyWhenPresent` | src/main/java/com/matyrobbrt/registrationutils/gradle/RegArtifactProvider.java:48-64 | `GetArtifact` models `getArtifact`: for the group, an artifact is served exactly when its file exists, with that file and its classified type |
| `RegArtifactProvider.FileNameShape` | src/main/java/com/matyrobbrt/registrationutils/gradle/RegArtifactProvider.java:48-53 | the file name starts with `name-version` and ends with `.ext`, and between them holds `-classifier` when there is a classifier and nothing otherwise |
| `RegArtifactProvider.SourcesBeatJar` | src/main/java/com/matyrobbrt/registrationutils/gradle/RegArtifactProvider.java:58-60 | a classifier ending in `sources` gives SOURCE, even for a `jar` |
| `RegArtifactProvider.ExtensionDecides` | src/main/java/com/matyrobbrt/registrationutils/gradle/RegArtifactProvider.java:58-62 | otherwise a `jar` gives BINARY and any other extension gives OTHER |
| `RelocateResourceTask.CreateFileData` | src/main/java/com/matyrobbrt/registrationutils/gradle/task/RelocateResourceTask.java:167-172 | a name without a trailing `/` always has file data |
| `RelocateResourceTask.FileNameHasNoSlash` | src/main/java/com/matyrobbrt/registrationutils/gradle/task/RelocateResourceTask.java:168-169 | the file name is the last segment and contains no `/` |
| `RelocateResourceTask.FileDataWithoutSlash` | src/main/java/com/matyrobbrt/registrationutils/gradle/task/RelocateResourceTask.java:170 | a name without `/` is all file name, with an empty directory |
| `RelocateResourceTask.FileDataRejoins` | src/main/java/com/matyrobbrt/registrationutils/gradle/task/RelocateResourceTask.java:167-172 | for a name with a `/` and no trailing `/`, `directory + "/" + fileName == name`, split at the last `/` |
| `RelocateResourceTask.FileDataOfSlash` | src/main/java/com/matyrobbrt/registrationutils/gradle/task/RelocateResourceTask.java:168-169 | the name `/` leaves no segment: `create` throws |
| `RelocateResourceTask.UntilZeroBounds` | src/main/java/com/matyrobbrt/registrationutils/gradle/task/RelocateResourceTask.java:142-149 | `UntilZero` models what `readBytes` collects: the collected bytes are a prefix with no zero byte, ending at the data's end or just before its first zero |
| `RelocateResourceTask.UntilZeroIs` | src/main/java/com/matyrobbrt/registrationutils/gradle/task/RelocateResourceTask.java:142-149 | any prefix with no zero byte that ends at the data's end or just before a zero byte is the collected bytes |
| `RelocateResourceTask.ReadBytes` | src/main/java/com/matyrobbrt/registrationutils/gradle/task/RelocateResourceTask.java:142-149 | the loop returns the bytes left to read up to the first zero byte or the end; the zero byte is consumed |
| `RelocateResourceTask.Calls` | src/main/java/com/matyrobbrt/registrationutils/gradle/task/RelocateResourceTask.java:131-140 | every action call names a file, never a directory |
| `RelocateResourceTask.ForEachEntry` | src/main/java/com/matyrobbrt/registrationutils/gradle/task/RelocateResourceTask.java:131-140 | the loop makes exactly the calls `Calls` lists for the entries left in the stream |
| `RelocateResourceTask.CallsConcat` | src/main/java/com/matyrobbrt/registrationutils/gradle/task/RelocateResourceTask.java:131-140 | the calls follow stream order: the calls for `a + b` are the calls for `a`, then those for `b` |
| `RelocateResourceTask.CallsOfOne` | src/main/java/com/matyrobbrt/registrationutils/gradle/task/RelocateResourceTask.java:134-137 | a directory gives no call; a file gives one call with its name and its bytes up to the first zero |
| `RelocateResourceTask.Action` | src/main/java/com/matyrobbrt/registrationutils/gradle/task/RelocateResourceTask.java:84-106 | `EntryOps` models the action body as a list of deletes and writes: the action makes exactly `EntryOps` of its entry on the output directory, stopping at a failing write |
| `RelocateResourceTask.Relocate` | src/main/java/com/matyrobbrt/registrationutils/gradle/task/RelocateResourceTask.java:81-112 | the result and the output directory are `RelocateAll` over the calls for the stream's entries |
| `RelocateResourceTask.RelocatePlain` | src/main/java/com/matyrobbrt/registrationutils/gradle/task/RelocateResourceTask.java:77-79 | the same, with the identity as the extra replace function |
| `RelocateResourceTask.ClassEntryCopied` | src/main/java/com/matyrobbrt/registrationutils/gradle/task/RelocateResourceTask.java:100-102 | the bytes the action is given for a `.class` entry are written last, under the entry's own name, unmodified |
| `RelocateResourceTask.ClassEntryWrittenCut` | src/main/java/com/matyrobbrt/registrationutils/gradle/task/RelocateResourceTask.java:99-102 | for a `.class` entry of the stream, what is written under its name is its data up to the first zero byte, which `readBytes` gives; shorter than the data whenever the data holds a zero byte |
| `RelocateResourceTask.RefmapKeepsPath` | src/main/java/com/matyrobbrt/registrationutils/gradle/task/RelocateResourceTask.java:86-90 | the refmap is written once, at its own path, with the slashed group replaced in its text |
| `RelocateResourceTask.RefmapWithLeadingSlash` | src/main/java/com/matyrobbrt/registrationutils/gradle/task/RelocateResourceTask.java:86-89 | `/regutils.refmap.json` has an empty directory, so the refmap is written at `regutils.refmap.json` |
| `RelocateResourceTask.UntouchedPathKept` | src/main/java/com/matyrobbrt/registrationutils/gradle/task/RelocateResourceTask.java:93-95 | a path with no group occurrence in its name or dotted directory, and no `.` in its directory, keeps its path |
| `RelocateResourceTask.RelocatedPathAbsent` | src/main/java/com/matyrobbrt/registrationutils/gradle/task/RelocateResourceTask.java:93-95 | `RelocatedPath` models the target path (93-95): with no group occurrence in the file name or the dotted directory, the path is the slashed directory, `/` and the file name |
| `RelocateResourceTask.DottedDirectorySplit` | src/main/java/com/matyrobbrt/registrationutils/gradle/task/RelocateResourceTask.java:93-95 | for a name with a directory and no group occurrence, the new path is the slashed directory, `/` and the file name, and it differs from the name exactly when the directory has a `.` |
| `RelocateResourceTask.FileDataOfJoin` | src/main/java/com/matyrobbrt/registrationutils/gradle/task/RelocateResourceTask.java:167-172 | a directory and a file name without `/` joined by `/` split back into exactly that directory and file name, dots included (`a.b/c` is the file `c` in the directory `a.b`) |
| `RelocateResourceTask.ApplyOpsSucceeds` | src/main/java/com/matyrobbrt/registrationutils/gradle/task/RelocateResourceTask.java:99-105 | an entry's changes all succeed when no write fails |
| `RelocateResourceTask.RelocateSucceedsWithoutIoErrors` | src/main/java/com/matyrobbrt/registrationutils/gradle/task/RelocateResourceTask.java:107-111 | with an empty set of failing paths, `relocate` returns true |
| `RelocateResourceTask.ApplyOpsFailsExactly` | src/main/java/com/matyrobbrt/registrationutils/gradle/task/RelocateResourceTask.java:84-106 | an entry's changes succeed exactly when none of its writes is to a failing path (`WritesAvoid`) |
| `RelocateResourceTask.RelocateFailsExactly` | src/main/java/com/matyrobbrt/registrationutils/gradle/task/RelocateResourceTask.java:107-111 | `relocate` returns false exactly when some entry's changes write to a failing path, that is when an IOException is thrown, and true otherwise, whatever the output directory held |
| `RegExtension.JarPathNormalizes` | src/main/java/com/matyrobbrt/registrationutils/gradle/RegExtension.java:520-523 | `JarPath` models `getJarPath` as a file name: a null type names the same jar as COMMON, and a null classifier names the same jar as an empty one |
| `RegExtension.JarPathDistinguishesTypes` | src/main/java/com/matyrobbrt/registrationutils/gradle/RegExtension.java:520-527 | for one version and classifier, different types get different jar paths |
| `RegExtension.NotationDistinguishesTypes` | src/main/java/com/matyrobbrt/registrationutils/gradle/RegExtension.java:512-518 | `DependencyNotation` models `dependencyNotation`: different types, null included, get different dependency notations |
| `RegExtension.NotationResolvesToJarPath` | src/main/java/com/matyrobbrt/registrationutils/gradle/RegExtension.java:512-527 | the notation is `group:<module>:VERSION`. With extension `jar`, the provider resolves the module to the file `getJarPath` writes. It serves that file as BINARY, or as SOURCE under the `sources` classifier, and serves nothing when the file is absent. |
| `RegExtension.JoinedNotationResolves` | src/main/java/com/matyrobbrt/registrationutils/gradle/RegExtension.java:328-333 | the joined notation resolves to the joined jar's file name |
| `RegExtension.Copied` | src/main/java/com/matyrobbrt/registrationutils/gradle/RegExtension.java:355-365 | only entries of the jar are copied, and only those the other jar lacks, even with a `/` appended |
| `RegExtension.CopyEntries` | src/main/java/com/matyrobbrt/registrationutils/gradle/RegExtension.java:355-365 | it succeeds exactly when no name would repeat, and then appends exactly the copied entries. On failure, what it wrote is a prefix of them. |
| `RegExtension.CopiedAll` | src/main/java/com/matyrobbrt/registrationutils/gradle/RegExtension.java:358 | without another jar, every entry is copied in order |
| `RegExtension.CopiedExactly` | src/main/java/com/matyrobbrt/registrationutils/gradle/RegExtension.java:357-363 | an entry is copied if and only if it is in the jar and the other jar lacks its name |
| `RegExtension.CopiedConcat` | src/main/java/com/matyrobbrt/registrationutils/gradle/RegExtension.java:356-364 | entries are copied in stream order: copying `a + b` is copying `a`, then `b` |
| `RegExtension.CopiedDistinct` | src/main/java/com/matyrobbrt/registrationutils/gradle/RegExtension.java:355-365 | copying from a duplicate-free jar writes no name twice |
| `RegExtension.CopiedAround` | src/main/java/com/matyrobbrt/registrationutils/gradle/RegExtension.java:356-364 | the entries copied from a jar are those copied before entry `i`, entry `i`'s own, then those after it |
| `RegExtension.Joined` | src/main/java/com/matyrobbrt/registrationutils/gradle/RegExtension.java:340-347 | the joined jar is `JoinedEntries`, and it is written exactly when no name repeats |
| `RegExtension.JoinedCommonWins` | src/main/java/com/matyrobbrt/registrationutils/gradle/RegExtension.java:345-346 | every common entry comes first, in order. Then come exactly the loader entries whose names common lacks, so on a clash common wins. Duplicate-free inputs give a duplicate-free jar. |
| `RegExtension.RewriteJar` | src/main/java/com/matyrobbrt/registrationutils/gradle/RegExtension.java:417-467 | `RewriteEntry` models one pass of the loop body (426-464): the loop writes each entry's rewrite, once and in order, and succeeds exactly when no rewritten name repeats |
| `RegExtension.RewriteKeepsPlainEntries` | src/main/java/com/matyrobbrt/registrationutils/gradle/RegExtension.java:429-436 | a directory, or an entry that is neither a service file nor JSON, is copied unchanged |
| `RegExtension.RewriteKeepsForeignServices` | src/main/java/com/matyrobbrt/registrationutils/gradle/RegExtension.java:438-445 | a service file whose name after the 18-character prefix lacks `inGroup` is copied unchanged |
| `RegExtension.RewriteMovesServicesAndJson` | src/main/java/com/matyrobbrt/registrationutils/gradle/RegExtension.java:438-463 | a service file naming `inGroup` stays a service file, with `group` replacing `inGroup` in its name and its text. A JSON file keeps its name and gets the dotted group replaced, then the slashed group. |
| `RegExtension.RewriteToSameGroup` | src/main/java/com/matyrobbrt/registrationutils/gradle/RegExtension.java:417-463 | relocating to the same group keeps every name and cuts rewritten data at the first zero byte; data without a zero byte is kept unchanged |
| `RegExtension.ServiceNameRewritten` | src/main/java/com/matyrobbrt/registrationutils/gradle/RegExtension.java:438-454 | the service file of `inGroup` lies under `META-INF/services/`, is no directory, names `inGroup` after that prefix, and replacing `inGroup` by `group` there gives the service file of `group` |
| `RegExtension.ServiceFileRenamed` | src/main/java/com/matyrobbrt/registrationutils/gradle/RegExtension.java:438-454 | the `RegistryHolder` service file of `inGroup` is renamed to the service file that `handleTransformation` writes for `group` |
| `RegExtension.BundledServiceFileMoves` | src/main/java/com/matyrobbrt/registrationutils/gradle/RegExtension.java:438-454 | in particular for the bundled group `com.matyrobbrt.registrationutils` |
| `RegExtension.ExtractFilterRejectsModJson` | src/main/java/com/matyrobbrt/registrationutils/gradle/RegExtension.java:210-213 | `ExtractFilter` models the predicate: a name whose trimmed form contains `mod.json` anywhere is not extracted |
| `RegExtension.ExtractFilterRejectsManifest` | src/main/java/com/matyrobbrt/registrationutils/gradle/RegExtension.java:210-213 | a name whose trimmed form ends in `MANIFEST.MF` is not extracted |
| `RegExtension.ExtractFilterAcceptsClasses` | src/main/java/com/matyrobbrt/registrationutils/gradle/RegExtension.java:210-213 | a name whose trimmed form ends in `.class` is extracted exactly when that form holds no `mod.json` |
| `RegExtension.ExtractFinds` | src/main/java/com/matyrobbrt/registrationutils/gradle/RegExtension.java:286-301 | `Extract` models `extractSubDir` on a jar: the last extracted entry with a given name decides the contents of that file |
| `RegExtension.ExtractSkips` | src/main/java/com/matyrobbrt/registrationutils/gradle/RegExtension.java:286-301 | a file that no extracted entry names keeps its contents, or stays absent |
| `RegExtension.ExtractLoaderOverrides` | src/main/java/com/matyrobbrt/registrationutils/gradle/RegExtension.java:214-217 | `ExtractFor` models the two `extractSubDir` calls: for a loader type, an extracted loader file overrides the common file of the same name |
| `RegExtension.ExtractCommonSurvives` | src/main/java/com/matyrobbrt/registrationutils/gradle/RegExtension.java:214-217 | a common file that the loader jar does not name keeps its common contents |
| `RegExtension.AddMixinConfig` | src/main/java/com/matyrobbrt/registrationutils/gradle/RegExtension.java:245-250 | an absent or null key becomes `[cfg]`; a list gets `cfg` appended; any other value becomes `[value, cfg]`; no other key changes |
| `RegExtension.AddMixinConfigAppends` | src/main/java/com/matyrobbrt/registrationutils/gradle/RegExtension.java:245-250 | `cfg` ends the list, after everything the list held before |
| `RegExtension.MixinKeysSeparate` | src/main/java/com/matyrobbrt/registrationutils/gradle/RegExtension.java:243-262 | the Fabric key `mixins` and the Quilt key `mixin` differ, so updating one keeps the other |
| `RegExtension.ServicesFileNamesHolderType` | src/main/java/com/matyrobbrt/registrationutils/gradle/RegExtension.java:549 | `ServicesFileName` models the name built here: for a group, the service file is named by the binary name of the `RegistryHolder` type that the scanner adds; without a group it is plain `RegistryHolder`, while the scanner adds `/RegistryHolder`, so the two names disagree |

## Left out

- Loader backends: the Fabric, Forge and NeoForge registration factories, the argument-type helpers, the datapack registry helpers and the entity-data serializer helper. They hand all work to host registries and event buses, which are not part of this model.
- Unsafe field patching: the `sun.misc.Unsafe` writes to static fields in the datapack registry helpers.
- The default register helpers, the test mod, and the registry data loader mixin: they only forward to host APIs.
- Gradle wiring. This covers the plugin class, the `RegExtension` constructor, repository registration, `attachSources` (the Eclipse and IDEA models), the `JarTask`, the task registration, and the copy specs. The copy specs rename or exclude `regutils.mixins.json` and `regutils.refmap.json`, and replace `regutils.refmap.json` inside the renamed mixin configuration.
- Files and zips on disk. This covers `extractSubDir`'s stream copy, `filesZip`, `deleteDir`, the walk over the compiled classes, the relocation by JarRelocator, and the cache existence and refresh checks. Jars are sequences of entries, and `Extract` stands for the effect of `extractSubDir`.
- Paths are strings. `Path.resolve` normalisation and directories are not tracked: `createDirectories` and `deleteIfExists` never fail, and no write fails for a missing parent directory. An IOException is a write to one of a given set of failing paths.
- Character sets: text is read and written one byte per character. This matches the JVM's default charset and UTF-8 for ASCII text only.
- Scanning: ASM reading and writing, and the emission of the `$RegUtils` inner class for an interface holder. Class files are records, and only the decisions are modelled.
- Hashing and randomness: `getStringFromSHA256`, which uses `MessageDigest`, and `getAlphaNumericString`, which uses `Math.random()`. This includes the random mixin configuration name.
- JSON is not parsed or generated: only the update of the parsed map is modelled, by `AddMixinConfig`.
- `AddMixinConfig`: the source mutates the parsed map and its list in place. The model computes the new map as a value. The map is written out right after, so nothing observes the difference.
- The order of the lines in the services file follows `HashSet` iteration, which is unspecified. Only the set of names is modelled.
- `RegArtifactProvider` is a record of a group and a directory. `Files.exists` there is membership in a set of existing file names.
- Regular expressions are literal, left-to-right, non-overlapping replacements. Group names are assumed to hold no regex or replacement metacharacters other than `.`.
- `toLowerCase(Locale.ROOT)` is modelled on ASCII letters only. This is exact for comparison with `fabric`, `quilt`, `forge`, `common`, `compute` and `root`, which are ASCII.
- `SubProject.project(Project)`, the overload taking a project object: it only sets the property.
- Gradle's `findProject` is lookup in a given set of project paths.
- `Relocate` and `ForEachEntry`: the model reads every entry of the stream first and then runs
  the action on each call in order. The source runs the action inside the read loop and stops
  reading at the first IOException. The result and the output directory are the same. The
  interleaving of reading and writing, and the stream's position after a failure, are not modelled.
- The concurrent serializer cache is concurrent code and outside this model.
- The version string of the plugin is a parameter; it comes from the build.
