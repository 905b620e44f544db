/**
 * `RegExtension`: the per-project extension that builds the relocated RegistrationUtils
 * jars in the build cache. It names the jars and their dependency notations, merges the
 * common jar with a loader jar, rewrites service files and JSON files to the project's
 * group, picks the files a jar task unpacks, registers the mixin configuration in the
 * mod metadata, and names the `RegistryHolder` service file.
 */
module RegExtension {
  import opened Wrappers
  import opened JavaStrings
  import opened JavaIo
  import opened RegistrationUtilsExtension
  import RelocateResourceTask
  import RegArtifactProvider
  import HolderScanner
  import Asm

  const JAR_NAME: string := "regutils"

  /** The group the bundled jars are compiled against; `maybeCreateJar` moves it to the project's group. */
  const IN_GROUP: string := "com.matyrobbrt.registrationutils"

  /** The directory of service files in a jar: 18 characters. */
  const SERVICES: string := "META-INF/services/"

  // ---------------------------------------------------------------------------
  // Naming

  /** `-classifier`, or nothing for a null or empty classifier. */
  function ClassifierSuffix(classifier: Option<string>): string {
    if classifier.None? || classifier.value == "" then "" else "-" + classifier.value
  }

  /**
   * `getJarPath(type, classifier)`, as a file name in the cache directory:
   * `regutils-VERSION[-cls].jar` for null and COMMON, `regutils-<type>-VERSION[-cls].jar` otherwise.
   */
  function JarPath(t: Option<LoaderType>, classifier: Option<string>, version: string): string {
    if t.None? || t.value == Common then JAR_NAME + "-" + version + ClassifierSuffix(classifier) + ".jar"
    else JAR_NAME + "-" + TypeName(t.value) + "-" + version + ClassifierSuffix(classifier) + ".jar"
  }

  /** `dependencyNotation(type)`: `group:regutils:VERSION`, or `group:regutils-<type>:VERSION`. */
  function DependencyNotation(group: string, version: string, t: Option<LoaderType>): string {
    if t.None? then group + ":" + JAR_NAME + ":" + version
    else group + ":" + JAR_NAME + "-" + TypeName(t.value) + ":" + version
  }

  /** The module name of a jar: `regutils`, or `regutils-<type>` for a loader jar. */
  function ModuleName(t: Option<LoaderType>): string {
    if t.None? || t.value == Common then JAR_NAME else JAR_NAME + "-" + TypeName(t.value)
  }

  /** The notation `joined()` depends on: `group:regutils-joined-<type>:VERSION`. */
  function JoinedNotation(group: string, version: string, t: LoaderType): string {
    group + ":" + JAR_NAME + "-joined-" + TypeName(t) + ":" + version
  }

  /** The file `joined()` writes in the cache directory. */
  function JoinedJarPath(version: string, t: LoaderType): string {
    JAR_NAME + "-joined-" + TypeName(t) + "-" + version + ".jar"
  }

  // ---------------------------------------------------------------------------
  // Jar assembly: `copyEntries` and `joined`

  /** `JarFile.getEntry(name)` finds an entry: of that name, or of that name with a '/' appended. */
  predicate HasEntry(jar: seq<Entry>, name: string) {
    name in Names(jar) || (!EndsWith(name, "/") && name + "/" in Names(jar))
  }

  /** The entries `copyEntries(other, jar, out)` writes: those of `jar` that `other` lacks, in order. */
  function Copied(other: Option<seq<Entry>>, jar: seq<Entry>): (r: seq<Entry>)
    ensures |r| <= |jar|
    ensures forall e :: e in r ==> e in jar
    ensures forall e :: e in r ==> other.None? || !HasEntry(other.value, e.name)
    decreases |jar|
  {
    if jar == [] then []
    else
      var last := jar[|jar| - 1];
      Copied(other, jar[..|jar| - 1]) + (if other.None? || !HasEntry(other.value, last.name) then [last] else [])
  }

  /**
   * `copyEntries`: each entry of `jar` that `other` lacks is put into `out` with its data.
   * A name `out` holds already is a ZipException, here `false`, with the entries before it written.
   */
  method CopyEntries(other: Option<seq<Entry>>, jar: seq<Entry>, out: JarOutputStream) returns (ok: bool)
    requires Distinct(Names(out.entries))
    modifies out
    ensures ok <==> Distinct(Names(old(out.entries) + Copied(other, jar)))
    ensures ok ==> out.entries == old(out.entries) + Copied(other, jar)
    ensures !ok ==> |out.entries| < |old(out.entries) + Copied(other, jar)| &&
                    out.entries == (old(out.entries) + Copied(other, jar))[..|out.entries|]
  {
    ghost var before := out.entries;
    var i := 0;
    while i < |jar|
      invariant 0 <= i <= |jar|
      invariant out.entries == before + CopiedUpTo(other, jar, i)
      invariant Distinct(Names(out.entries))
    {
      var entry := jar[i];
      if other.None? || !HasEntry(other.value, entry.name) {
        var put := out.Put(entry);
        if !put {
          CopiedUpToSlice(other, jar, i);
          CopiedClash(other, jar, i, before);
          return false;
        }
        DistinctSnoc(before + CopiedUpTo(other, jar, i), entry);
        assert CopiedUpTo(other, jar, i + 1) == CopiedUpTo(other, jar, i) + [entry];
      } else {
        assert CopiedUpTo(other, jar, i + 1) == CopiedUpTo(other, jar, i);
      }
      i := i + 1;
    }
    CopiedUpToSlice(other, jar, i);
    assert jar[..i] == jar;
    return true;
  }

  /** What the loop has written once it has gone through the first `i` entries, counted by index. */
  ghost function CopiedUpTo(other: Option<seq<Entry>>, jar: seq<Entry>, i: nat): seq<Entry>
    requires i <= |jar|
  {
    if i == 0 then []
    else CopiedUpTo(other, jar, i - 1) +
         (if other.None? || !HasEntry(other.value, jar[i - 1].name) then [jar[i - 1]] else [])
  }

  lemma {:induction false} CopiedUpToSlice(other: Option<seq<Entry>>, jar: seq<Entry>, i: nat)
    requires i <= |jar|
    ensures CopiedUpTo(other, jar, i) == Copied(other, jar[..i])
  {
    if i > 0 {
      CopiedUpToSlice(other, jar, i - 1);
      CopiedStep(other, jar, i - 1);
    }
  }

  /** One more entry of the jar adds at most that entry to what is written. */
  lemma CopiedStep(other: Option<seq<Entry>>, jar: seq<Entry>, i: nat)
    requires i < |jar|
    ensures Copied(other, jar[..i + 1]) ==
            Copied(other, jar[..i]) + (if other.None? || !HasEntry(other.value, jar[i].name) then [jar[i]] else [])
  {
    assert jar[..i + 1][..i] == jar[..i];
  }

  /** A copied entry splits what is written into the part before it, itself and the part after it. */
  lemma CopiedAround(other: Option<seq<Entry>>, jar: seq<Entry>, i: nat)
    requires i < |jar| && (other.None? || !HasEntry(other.value, jar[i].name))
    ensures Copied(other, jar) == Copied(other, jar[..i]) + [jar[i]] + Copied(other, jar[i + 1..])
  {
    var front, back := jar[..i + 1], jar[i + 1..];
    assert front + back == jar;
    calc {
      Copied(other, jar);
      Copied(other, front + back);
      { CopiedConcat(other, front, back); }
      Copied(other, front) + Copied(other, back);
      { CopiedStep(other, jar, i); }
      Copied(other, jar[..i]) + [jar[i]] + Copied(other, back);
    }
  }

  /** An entry whose name was written already makes the whole output repeat a name. */
  lemma CopiedClash(other: Option<seq<Entry>>, jar: seq<Entry>, i: nat, before: seq<Entry>)
    requires i < |jar| && (other.None? || !HasEntry(other.value, jar[i].name))
    requires jar[i].name in Names(before + Copied(other, jar[..i]))
    ensures var w := before + Copied(other, jar[..i]);
      var all := before + Copied(other, jar);
      |w| < |all| && w == all[..|w|] && !Distinct(Names(all))
  {
    var w := before + Copied(other, jar[..i]);
    var all := before + Copied(other, jar);
    var rest := Copied(other, jar[i + 1..]);
    CopiedAround(other, jar, i);
    assert all == w + ([jar[i]] + rest);
    RepeatedName(w, jar[i], rest);
    assert all[..|w|] == w;
  }

  /** What the joined jar holds: every common entry, then the loader entries common lacks. */
  function JoinedEntries(common: seq<Entry>, loader: seq<Entry>): seq<Entry> {
    common + Copied(Some(common), loader)
  }

  /**
   * `joined()`: `copyEntries(null, common, out)` then `copyEntries(common, loader, out)`
   * into a fresh jar; none when a name repeats.
   */
  method Joined(common: seq<Entry>, loader: seq<Entry>) returns (r: Option<seq<Entry>>)
    ensures r.Some? <==> Distinct(Names(JoinedEntries(common, loader)))
    ensures r.Some? ==> r.value == JoinedEntries(common, loader)
  {
    var out := new JarOutputStream();
    JoinedStart(common);
    var ok := CopyEntries(None, common, out);
    if !ok {
      JoinedFailsEarly(common, loader);
      return None;
    }
    assert out.entries == common;
    ok := CopyEntries(Some(common), loader, out);
    if !ok {
      return None;
    }
    return Some(out.entries);
  }

  /** A fresh jar has no names, and copying the common jar into it writes the common jar. */
  lemma JoinedStart(common: seq<Entry>)
    ensures Distinct(Names([])) && [] + Copied(None, common) == common
  {
    CopiedAll(common);
  }

  /** When the common jar repeats a name, so does the joined jar. */
  lemma JoinedFailsEarly(common: seq<Entry>, loader: seq<Entry>)
    requires !Distinct(Names([] + Copied(None, common)))
    ensures !Distinct(Names(JoinedEntries(common, loader)))
  {
    JoinedStart(common);
    if Distinct(Names(JoinedEntries(common, loader))) {
      DistinctPrefix(common, Copied(Some(common), loader));
    }
  }

  // ---------------------------------------------------------------------------
  // Jar assembly: the entry-rewrite loop of `maybeCreateJar`

  /**
   * One entry of the relocated jar as `maybeCreateJar` writes it. A directory, or an entry
   * that is neither a service file nor JSON, is copied. A service file whose name holds
   * `inGroup` is renamed and its text rewritten; other service files are copied. A JSON
   * file keeps its name, and its text has the dotted, then the slashed, group replaced.
   * Text is what `readBytes` collects: the bytes before the first zero byte.
   */
  function RewriteEntry(e: Entry, inGroup: string, group: string): Entry {
    var isService := StartsWith(e.name, SERVICES);
    var isJson := EndsWith(e.name, ".json");
    if !(isService || isJson) || IsDirectory(e) then e
    else if isService then
      var serviceName := e.name[|SERVICES|..];
      if !Contains(serviceName, inGroup) then e
      else Entry(SERVICES + ReplaceAll(serviceName, inGroup, group),
                 Encode(ReplaceAll(Decode(RelocateResourceTask.UntilZero(e.data)), inGroup, group)))
    else
      var content := ReplaceAll(Decode(RelocateResourceTask.UntilZero(e.data)), inGroup, group);
      Entry(e.name, Encode(ReplaceAll(content, Slashed(inGroup), Slashed(group))))
  }

  /** The entries of the relocated jar, one per input entry, in order. */
  function Rewritten(jar: seq<Entry>, inGroup: string, group: string): (r: seq<Entry>)
    ensures |r| == |jar|
    ensures forall i :: 0 <= i < |jar| ==> r[i] == RewriteEntry(jar[i], inGroup, group)
  {
    seq(|jar|, i requires 0 <= i < |jar| => RewriteEntry(jar[i], inGroup, group))
  }

  /**
   * The loop of `maybeCreateJar` over the relocated jar, writing into a fresh jar;
   * none when two rewritten entries share a name (the ZipException).
   */
  method RewriteJar(jar: seq<Entry>, inGroup: string, group: string) returns (r: Option<seq<Entry>>)
    ensures r.Some? <==> Distinct(Names(Rewritten(jar, inGroup, group)))
    ensures r.Some? ==> r.value == Rewritten(jar, inGroup, group)
  {
    ghost var all := Rewritten(jar, inGroup, group);
    var out := new JarOutputStream();
    var i := 0;
    while i < |jar|
      invariant 0 <= i <= |jar|
      invariant out.entries == all[..i]
      invariant Distinct(Names(out.entries))
    {
      var entry := RewriteEntry(jar[i], inGroup, group);
      var ok := out.Put(entry);
      if !ok {
        ghost var j :| 0 <= j < i && Names(all[..i])[j] == entry.name;
        assert Names(all)[j] == Names(all)[i];
        return None;
      }
      assert all[..i + 1] == all[..i] + [entry];
      DistinctSnoc(all[..i], entry);
      i := i + 1;
    }
    assert all[..i] == all;
    return Some(out.entries);
  }

  // ---------------------------------------------------------------------------
  // `configureJarTask`: extraction and the mixin configuration

  /** The predicate of `configureJarTask`: after trimming, no manifest and no `mod.json`. */
  predicate ExtractFilter(name: string) {
    var f := Trim(name);
    !EndsWith(f, "MANIFEST.MF") && !Contains(f, "mod.json")
  }

  /** An entry `extractSubDir` unpacks: the predicate accepts it and it is no directory. */
  predicate Extracted(e: Entry) {
    ExtractFilter(e.name) && !IsDirectory(e)
  }

  /** `extractSubDir(jar, dir, pred)`: every extracted entry is written to the directory, in order. */
  function Extract(dir: map<string, Bytes>, jar: seq<Entry>): map<string, Bytes>
    decreases |jar|
  {
    if jar == [] then dir
    else
      var d := Extract(dir, jar[..|jar| - 1]);
      var e := jar[|jar| - 1];
      if Extracted(e) then d[e.name := e.data] else d
  }

  /** The `doFirst` action: the common jar, then, unless the type is COMMON, the loader jar over it. */
  function ExtractFor(t: LoaderType, dir: map<string, Bytes>, commonJar: seq<Entry>, loaderJar: seq<Entry>)
    : map<string, Bytes>
  {
    var d := Extract(dir, commonJar);
    if t == Common then d else Extract(d, loaderJar)
  }

  /** JSON values as Groovy's JSON parser yields them: maps, lists, strings and scalars. */
  datatype Json =
    | JNull
    | JBool(b: bool)
    | JNumber(literal: string)
    | JString(s: string)
    | JArray(items: seq<Json>)
    | JObject(members: map<string, Json>)

  /** The key listing mixin configurations in `fabric.mod.json`. */
  const FABRIC_MIXINS_KEY: string := "mixins"

  /** The key listing mixin configurations in `quilt.mod.json`. */
  const QUILT_MIXINS_KEY: string := "mixin"

  /**
   * The update of a mod metadata map: `computeIfAbsent(key, new list)` (an absent key or a
   * null value gets an empty list), then `cfg` is appended to a list, and any other
   * value is replaced by the list `[value, cfg]`.
   */
  function AddMixinConfig(m: map<string, Json>, key: string, cfg: string): (r: map<string, Json>)
    ensures r.Keys == m.Keys + {key}
    ensures forall k :: k in m && k != key ==> r[k] == m[k]
    ensures (key !in m || m[key] == JNull) ==> r[key] == JArray([JString(cfg)])
    ensures key in m && m[key].JArray? ==> r[key] == JArray(m[key].items + [JString(cfg)])
    ensures key in m && m[key] != JNull && !m[key].JArray? ==> r[key] == JArray([m[key], JString(cfg)])
  {
    if key !in m || m[key] == JNull then m[key := JArray([JString(cfg)])]
    else if m[key].JArray? then m[key := JArray(m[key].items + [JString(cfg)])]
    else m[key := JArray([m[key], JString(cfg)])]
  }

  // ---------------------------------------------------------------------------
  // `handleTransformation`

  /** The service file listing the holders: `META-INF/services/<group>.RegistryHolder`. */
  function ServicesFileName(group: string): string {
    SERVICES + (if |group| < 1 then "" else group + ".") + "RegistryHolder"
  }

  // ---------------------------------------------------------------------------
  // Properties: naming

  /** A null type names the same jar as COMMON, and a null classifier the same as an empty one. */
  lemma JarPathNormalizes(t: Option<LoaderType>, classifier: Option<string>, version: string)
    ensures JarPath(None, classifier, version) == JarPath(Some(Common), classifier, version)
    ensures JarPath(t, None, version) == JarPath(t, Some(""), version)
  {
  }

  /** `a + x + c == a + y + c` gives `x == y`. */
  lemma MiddleEqual(a: string, x: string, y: string, c: string)
    requires a + x + c == a + y + c
    ensures x == y
  {
    assert |x| == |y|;
    assert (a + x + c)[|a|..|a| + |x|] == x;
    assert (a + y + c)[|a|..|a| + |y|] == y;
  }

  /** For one version and classifier, jar paths tell the types apart (null and COMMON being one jar). */
  lemma JarPathDistinguishesTypes(t1: LoaderType, t2: LoaderType, classifier: Option<string>, version: string)
    requires JarPath(Some(t1), classifier, version) == JarPath(Some(t2), classifier, version)
    ensures t1 == t2
  {
    var tail := version + ClassifierSuffix(classifier) + ".jar";
    JarPathAround(t1, classifier, version);
    JarPathAround(t2, classifier, version);
    MiddleEqual(JAR_NAME + "-", JarInfix(t1), JarInfix(t2), tail);
    JarInfixInjective(t1, t2);
  }

  /** What a loader type puts into a jar's file name: nothing for COMMON, else `<type>-`. */
  function JarInfix(t: LoaderType): string {
    if t == Common then "" else TypeName(t) + "-"
  }

  lemma JarPathAround(t: LoaderType, classifier: Option<string>, version: string)
    ensures JarPath(Some(t), classifier, version) ==
            JAR_NAME + "-" + JarInfix(t) + (version + ClassifierSuffix(classifier) + ".jar")
  {
    var head, suffix := JAR_NAME + "-", ClassifierSuffix(classifier);
    Rebracket(head, JarInfix(t), version, suffix);
    if t == Common {
      assert head + JarInfix(t) == head;
    } else {
      assert head + TypeName(t) + "-" == head + JarInfix(t);
    }
  }

  /** Re-bracketing a jar name around its infix. */
  lemma Rebracket(head: string, infix: string, version: string, suffix: string)
    ensures head + infix + (version + suffix + ".jar") == head + infix + version + suffix + ".jar"
  {
  }

  lemma JarInfixInjective(t1: LoaderType, t2: LoaderType)
    requires JarInfix(t1) == JarInfix(t2)
    ensures t1 == t2
  {
    assert |JarInfix(Fabric)| != |JarInfix(Forge)|;
  }

  /** Dependency notations tell the types apart, null included. */
  lemma NotationDistinguishesTypes(group: string, version: string, t1: Option<LoaderType>, t2: Option<LoaderType>)
    requires DependencyNotation(group, version, t1) == DependencyNotation(group, version, t2)
    ensures t1 == t2
  {
    NotationAround(group, version, t1);
    NotationAround(group, version, t2);
    MiddleEqual(group + ":" + JAR_NAME, NotationInfix(t1), NotationInfix(t2), ":" + version);
    NotationInfixInjective(t1, t2);
  }

  /** What a type puts into a notation's module name: nothing for null, else `-<type>`. */
  function NotationInfix(t: Option<LoaderType>): string {
    if t.None? then "" else "-" + TypeName(t.value)
  }

  lemma NotationAround(group: string, version: string, t: Option<LoaderType>)
    ensures DependencyNotation(group, version, t) == group + ":" + JAR_NAME + NotationInfix(t) + (":" + version)
  {
  }

  lemma NotationInfixInjective(t1: Option<LoaderType>, t2: Option<LoaderType>)
    requires NotationInfix(t1) == NotationInfix(t2)
    ensures t1 == t2
  {
    assert |NotationInfix(Some(Fabric))| != |NotationInfix(Some(Forge))|;
    assert NotationInfix(Some(Fabric))[1] != NotationInfix(Some(Common))[1];
  }

  /**
   * The notation names the module the repository serves, and the provider resolves it,
   * with extension `jar`, to the file `getJarPath` wrote: as a binary, or as sources
   * under the `sources` classifier. (`dependencyNotation` is never asked for COMMON.)
   */
  lemma NotationResolvesToJarPath(group: string, version: string, t: Option<LoaderType>,
                                  classifier: Option<string>, existing: set<string>)
    requires t != Some(Common)
    requires classifier != Some("")
    ensures DependencyNotation(group, version, t) == group + ":" + ModuleName(t) + ":" + version
    ensures
      var info := RegArtifactProvider.ArtifactIdentifier(group, ModuleName(t), version, classifier, "jar");
      RegArtifactProvider.FileName(info) == JarPath(t, classifier, version) &&
      RegArtifactProvider.GetArtifact(group, existing, info) ==
        if JarPath(t, classifier, version) !in existing then None
        else Some(RegArtifactProvider.Artifact(info,
               if classifier.Some? && EndsWith(classifier.value, "sources") then RegArtifactProvider.Source
               else RegArtifactProvider.Binary,
               JarPath(t, classifier, version)))
  {
    NotationOfModule(group, version, t);
    ArtifactFileIsJarPath(group, version, t, classifier);
  }

  lemma NotationOfModule(group: string, version: string, t: Option<LoaderType>)
    requires t != Some(Common)
    ensures DependencyNotation(group, version, t) == group + ":" + ModuleName(t) + ":" + version
  {
    if t.Some? {
      assert ModuleName(t) + ":" + version == JAR_NAME + "-" + TypeName(t.value) + ":" + version;
    }
  }

  lemma ArtifactFileIsJarPath(group: string, version: string, t: Option<LoaderType>, classifier: Option<string>)
    requires classifier != Some("")
    ensures var info := RegArtifactProvider.ArtifactIdentifier(group, ModuleName(t), version, classifier, "jar");
      RegArtifactProvider.FileName(info) == JarPath(t, classifier, version)
  {
    var info := RegArtifactProvider.ArtifactIdentifier(group, ModuleName(t), version, classifier, "jar");
    JarPathOfModule(t, classifier, version);
    var stem := ModuleName(t) + "-" + version + ClassifierSuffix(classifier);
    match classifier
    case None =>
      assert RegArtifactProvider.FileName(info) == stem + "." + "jar";
    case Some(c) =>
      assert RegArtifactProvider.FileName(info) == stem + "." + "jar";
    Concat3(stem, ".", "jar");
  }

  /** A jar path is its module name, the version, the classifier suffix and `.jar`. */
  lemma JarPathOfModule(t: Option<LoaderType>, classifier: Option<string>, version: string)
    ensures JarPath(t, classifier, version) == ModuleName(t) + "-" + version + ClassifierSuffix(classifier) + ".jar"
  {
  }

  /** The joined notation, resolved with extension `jar` and no classifier, names the joined jar. */
  lemma JoinedNotationResolves(group: string, version: string, t: LoaderType)
    ensures
      var info := RegArtifactProvider.ArtifactIdentifier(group, JAR_NAME + "-joined-" + TypeName(t), version, None, "jar");
      JoinedNotation(group, version, t) == group + ":" + info.name + ":" + version &&
      RegArtifactProvider.FileName(info) == JoinedJarPath(version, t)
  {
    var name := JAR_NAME + "-joined-" + TypeName(t);
    assert JoinedNotation(group, version, t) == group + ":" + name + ":" + version;
    assert JoinedJarPath(version, t) == name + "-" + version + "." + "jar";
  }

  // ---------------------------------------------------------------------------
  // Properties: jar assembly

  /** The entries written distribute over concatenation. */
  lemma {:induction false} CopiedConcat(other: Option<seq<Entry>>, a: seq<Entry>, b: seq<Entry>)
    ensures Copied(other, a + b) == Copied(other, a) + Copied(other, b)
    decreases |b|
  {
    if |b| == 0 {
      assert a + b == a;
    } else {
      var n := |b| - 1;
      assert (a + b)[..|a + b| - 1] == a + b[..n];
      assert (a + b)[|a + b| - 1] == b[n];
      CopiedConcat(other, a, b[..n]);
    }
  }

  /** Without another jar every entry is copied. */
  lemma {:induction false} CopiedAll(jar: seq<Entry>)
    ensures Copied(None, jar) == jar
    decreases |jar|
  {
    if jar != [] {
      CopiedAll(jar[..|jar| - 1]);
    }
  }

  /** An entry is copied exactly when it is in the jar and the other jar lacks its name. */
  lemma {:induction false} CopiedExactly(other: seq<Entry>, jar: seq<Entry>, e: Entry)
    ensures e in Copied(Some(other), jar) <==> e in jar && !HasEntry(other, e.name)
    decreases |jar|
  {
    if jar != [] {
      var init := jar[..|jar| - 1];
      CopiedExactly(other, init, e);
      assert jar == init + [jar[|jar| - 1]];
    }
  }

  /** Copying from a duplicate-free jar writes no name twice. */
  lemma {:induction false} CopiedDistinct(other: Option<seq<Entry>>, jar: seq<Entry>)
    requires Distinct(Names(jar))
    ensures Distinct(Names(Copied(other, jar)))
    decreases |jar|
  {
    if jar != [] {
      var init := jar[..|jar| - 1];
      var last := jar[|jar| - 1];
      assert jar == init + [last];
      DistinctPrefix(init, [last]);
      CopiedDistinct(other, init);
      if other.None? || !HasEntry(other.value, last.name) {
        forall k | 0 <= k < |Copied(other, init)|
          ensures Names(Copied(other, init))[k] != last.name
        {
          var e := Copied(other, init)[k];
          assert e in init;
          var j :| 0 <= j < |init| && init[j] == e;
          assert Names(jar)[j] == e.name && Names(jar)[|jar| - 1] == last.name;
        }
        DistinctSnoc(Copied(other, init), last);
      }
    }
  }

  /**
   * The joined jar begins with the common jar; every later entry is a loader entry
   * whose name common lacks, so on a clash common wins; and from duplicate-free
   * inputs no name repeats.
   */
  lemma JoinedCommonWins(common: seq<Entry>, loader: seq<Entry>)
    ensures JoinedEntries(common, loader)[..|common|] == common
    ensures forall e :: e in JoinedEntries(common, loader) <==>
                          e in common || (e in loader && !HasEntry(common, e.name))
    ensures Distinct(Names(common)) && Distinct(Names(loader)) ==> Distinct(Names(JoinedEntries(common, loader)))
  {
    var joined := JoinedEntries(common, loader);
    var rest := Copied(Some(common), loader);
    forall e
      ensures e in joined <==> e in common || (e in loader && !HasEntry(common, e.name))
    {
      CopiedExactly(common, loader, e);
    }
    if Distinct(Names(common)) && Distinct(Names(loader)) {
      CopiedDistinct(Some(common), loader);
      forall i, j | 0 <= i < j < |joined|
        ensures Names(joined)[i] != Names(joined)[j]
      {
        if j < |common| {
          assert Names(common)[i] == Names(joined)[i] && Names(common)[j] == Names(joined)[j];
        } else if i < |common| {
          assert joined[j] == rest[j - |common|] && rest[j - |common|] in rest;
          assert Names(common)[i] == joined[i].name;
        } else {
          assert Names(rest)[i - |common|] == Names(joined)[i] && Names(rest)[j - |common|] == Names(joined)[j];
        }
      }
    }
  }

  /** Directories, and entries neither under `META-INF/services/` nor JSON, are copied unchanged. */
  lemma RewriteKeepsPlainEntries(e: Entry, inGroup: string, group: string)
    requires IsDirectory(e) || (!StartsWith(e.name, SERVICES) && !EndsWith(e.name, ".json"))
    ensures RewriteEntry(e, inGroup, group) == e
  {
  }

  /** A service file whose name after `META-INF/services/` lacks `inGroup` is copied unchanged. */
  lemma RewriteKeepsForeignServices(e: Entry, inGroup: string, group: string)
    requires StartsWith(e.name, SERVICES) && !Contains(e.name[|SERVICES|..], inGroup)
    ensures RewriteEntry(e, inGroup, group) == e
  {
  }

  /**
   * A service file naming `inGroup` stays under `META-INF/services/` with `group` in
   * its name and its text; a JSON file keeps its name.
   */
  lemma RewriteMovesServicesAndJson(e: Entry, inGroup: string, group: string)
    requires !IsDirectory(e) && Latin1(group)
    ensures StartsWith(e.name, SERVICES) && Contains(e.name[|SERVICES|..], inGroup) ==>
      var r := RewriteEntry(e, inGroup, group);
      StartsWith(r.name, SERVICES) && r.name[|SERVICES|..] == ReplaceAll(e.name[|SERVICES|..], inGroup, group) &&
      Decode(r.data) == ReplaceAll(Decode(RelocateResourceTask.UntilZero(e.data)), inGroup, group)
    ensures !StartsWith(e.name, SERVICES) && EndsWith(e.name, ".json") ==>
      var r := RewriteEntry(e, inGroup, group);
      r.name == e.name &&
      Decode(r.data) == ReplaceAll(ReplaceAll(Decode(RelocateResourceTask.UntilZero(e.data)), inGroup, group),
                                   Slashed(inGroup), Slashed(group))
  {
    if StartsWith(e.name, SERVICES) && Contains(e.name[|SERVICES|..], inGroup) {
      var r := RewriteEntry(e, inGroup, group);
      assert r.name == SERVICES + ReplaceAll(e.name[|SERVICES|..], inGroup, group);
      assert r.name[..|SERVICES|] == SERVICES;
      var text := Decode(RelocateResourceTask.UntilZero(e.data));
      EncodeDecode(RelocateResourceTask.UntilZero(e.data));
      ReplaceAllFrom(text, inGroup, group);
      DecodeEncode(ReplaceAll(text, inGroup, group));
    } else if !StartsWith(e.name, SERVICES) && EndsWith(e.name, ".json") {
      var text := Decode(RelocateResourceTask.UntilZero(e.data));
      EncodeDecode(RelocateResourceTask.UntilZero(e.data));
      ReplaceAllFrom(text, inGroup, group);
      var moved := ReplaceAll(text, inGroup, group);
      ReplaceAllFrom(moved, Slashed(inGroup), Slashed(group));
      assert Latin1(Slashed(group)) by {
        forall c | c in Slashed(group)
          ensures c as int < 256
        {
          var k :| 0 <= k < |Slashed(group)| && Slashed(group)[k] == c;
          assert group[k] in group;
        }
      }
      DecodeEncode(ReplaceAll(moved, Slashed(inGroup), Slashed(group)));
    }
  }

  /** readBytes keeps bytes without a zero as they are. */
  lemma {:induction false} UntilZeroWithoutZero(b: Bytes)
    requires 0 !in b
    ensures RelocateResourceTask.UntilZero(b) == b
    decreases |b|
  {
    if |b| > 0 {
      assert b == [b[0]] + b[1..];
      UntilZeroWithoutZero(b[1..]);
    }
  }

  /**
   * Relocating to the group itself keeps every name; the text of a rewritten entry is cut
   * at its first zero byte, so only entries without a zero byte come through unchanged.
   */
  lemma RewriteToSameGroup(e: Entry, group: string)
    requires |group| > 0
    ensures RewriteEntry(e, group, group).name == e.name
    ensures RewriteEntry(e, group, group).data in {e.data, RelocateResourceTask.UntilZero(e.data)}
    ensures 0 !in e.data ==> RewriteEntry(e, group, group) == e
  {
    var text := Decode(RelocateResourceTask.UntilZero(e.data));
    ReplaceAllSelf(text, group);
    assert |Slashed(group)| == |group|;
    ReplaceAllSelf(text, Slashed(group));
    EncodeDecode(RelocateResourceTask.UntilZero(e.data));
    if StartsWith(e.name, SERVICES) && Contains(e.name[|SERVICES|..], group) && !IsDirectory(e) {
      ReplaceAllSelf(e.name[|SERVICES|..], group);
      assert e.name == SERVICES + e.name[|SERVICES|..];
    }
    if 0 !in e.data {
      UntilZeroWithoutZero(e.data);
    }
  }

  /** No string is found in a shorter one. */
  lemma {:induction false} ContainsNotInShorter(s: string, p: string)
    requires |s| < |p|
    ensures !Contains(s, p)
    decreases |s|
  {
    if |s| > 0 {
      ContainsNotInShorter(s[1..], p);
    }
  }

  /**
   * The `RegistryHolder` service file of a group longer than `.RegistryHolder` comes out of
   * the rewrite under the name `handleTransformation` writes for the new group.
   */
  lemma ServiceFileRenamed(inGroup: string, group: string, data: Bytes)
    requires |inGroup| > |".RegistryHolder"| && |group| > 0
    ensures RewriteEntry(Entry(ServicesFileName(inGroup), data), inGroup, group).name == ServicesFileName(group)
  {
    ServiceNameRewritten(inGroup, group);
  }

  /** The service file's name, taken apart as the rewrite loop reads it. */
  lemma ServiceNameRewritten(inGroup: string, group: string)
    requires |inGroup| > |".RegistryHolder"| && |group| > 0
    ensures var name := ServicesFileName(inGroup);
      StartsWith(name, SERVICES) && !EndsWith(name, "/") && Contains(name[|SERVICES|..], inGroup) &&
      SERVICES + ReplaceAll(name[|SERVICES|..], inGroup, group) == ServicesFileName(group)
  {
    ServicesFileNameOf(inGroup);
    ServicesFileNameOf(group);
    ServicesFileNameShape(inGroup);
    ContainsNotInShorter(".RegistryHolder", inGroup);
    ReplaceLeadingGroup(inGroup, ".RegistryHolder", group);
  }

  /** For a group, the service file is `META-INF/services/<group>.RegistryHolder`. */
  lemma ServicesFileNameOf(group: string)
    requires |group| > 0
    ensures ServicesFileName(group) == SERVICES + (group + ".RegistryHolder")
  {
    assert group + "." + "RegistryHolder" == group + ".RegistryHolder";
  }

  /** The name lies under `META-INF/services/`, after which comes the service's name. */
  lemma ServicesFileNameShape(group: string)
    requires |group| > 0
    ensures var name := SERVICES + (group + ".RegistryHolder");
      StartsWith(name, SERVICES) && name[|SERVICES|..] == group + ".RegistryHolder" && !EndsWith(name, "/")
  {
    var name := SERVICES + (group + ".RegistryHolder");
    assert name[..|SERVICES|] == SERVICES;
    assert name[|name| - 1..] == "r";
  }

  /** A name made of the group and a tail without it: only the leading group is replaced. */
  lemma ReplaceLeadingGroup(g: string, tail: string, group: string)
    requires |g| > 0 && !Contains(tail, g)
    ensures Contains(g + tail, g) && ReplaceAll(g + tail, g, group) == group + tail
  {
    var s := g + tail;
    assert s[..|g|] == g && s[|g|..] == tail;
    ContainsAt(s, g, 0);
    ReplaceAllAbsent(tail, g, group);
  }

  /** In particular the bundled jars' service file moves to the project's group. */
  lemma BundledServiceFileMoves(data: Bytes, group: string)
    requires |group| > 0
    ensures RewriteEntry(Entry(ServicesFileName(IN_GROUP), data), IN_GROUP, group).name == ServicesFileName(group)
  {
    ServiceFileRenamed(IN_GROUP, group, data);
  }

  // ---------------------------------------------------------------------------
  // Properties: extraction and mixins

  /** A name whose trimmed form holds `mod.json` anywhere is not extracted. */
  lemma ExtractFilterRejectsModJson(name: string, i: nat)
    requires OccursAt(Trim(name), "mod.json", i)
    ensures !ExtractFilter(name)
  {
    ContainsAt(Trim(name), "mod.json", i);
  }

  /** A name whose trimmed form ends in `MANIFEST.MF` is not extracted. */
  lemma ExtractFilterRejectsManifest(name: string)
    requires EndsWith(Trim(name), "MANIFEST.MF")
    ensures !ExtractFilter(name)
  {
  }

  /** A class file is extracted unless its trimmed name holds `mod.json`. */
  lemma ExtractFilterAcceptsClasses(name: string)
    requires EndsWith(Trim(name), ".class")
    ensures ExtractFilter(name) <==> !Contains(Trim(name), "mod.json")
  {
    var t := Trim(name);
    assert t[|t| - 1] == 's';
  }

  /** The last extracted entry of a name decides that file's contents. */
  lemma {:induction false} ExtractFinds(dir: map<string, Bytes>, jar: seq<Entry>, i: nat)
    requires i < |jar| && Extracted(jar[i])
    requires forall j :: i < j < |jar| && Extracted(jar[j]) ==> jar[j].name != jar[i].name
    ensures jar[i].name in Extract(dir, jar) && Extract(dir, jar)[jar[i].name] == jar[i].data
    decreases |jar|
  {
    if i < |jar| - 1 {
      ExtractFinds(dir, jar[..|jar| - 1], i);
    }
  }

  /** A file no extracted entry names keeps its contents, or stays absent. */
  lemma {:induction false} ExtractSkips(dir: map<string, Bytes>, jar: seq<Entry>, name: string)
    requires forall j :: 0 <= j < |jar| && Extracted(jar[j]) ==> jar[j].name != name
    ensures name in Extract(dir, jar) <==> name in dir
    ensures name in dir ==> Extract(dir, jar)[name] == dir[name]
    decreases |jar|
  {
    if jar != [] {
      ExtractSkips(dir, jar[..|jar| - 1], name);
    }
  }

  /** For a loader type, an extracted loader file overrides the common file of that name. */
  lemma ExtractLoaderOverrides(t: LoaderType, dir: map<string, Bytes>, commonJar: seq<Entry>,
                               loaderJar: seq<Entry>, i: nat)
    requires t != Common
    requires i < |loaderJar| && Extracted(loaderJar[i])
    requires forall j :: i < j < |loaderJar| && Extracted(loaderJar[j]) ==> loaderJar[j].name != loaderJar[i].name
    ensures loaderJar[i].name in ExtractFor(t, dir, commonJar, loaderJar) &&
            ExtractFor(t, dir, commonJar, loaderJar)[loaderJar[i].name] == loaderJar[i].data
  {
    ExtractFinds(Extract(dir, commonJar), loaderJar, i);
  }

  /** A common file the loader jar does not name survives the loader extraction. */
  lemma ExtractCommonSurvives(t: LoaderType, dir: map<string, Bytes>, commonJar: seq<Entry>,
                              loaderJar: seq<Entry>, i: nat)
    requires i < |commonJar| && Extracted(commonJar[i])
    requires forall j :: i < j < |commonJar| && Extracted(commonJar[j]) ==> commonJar[j].name != commonJar[i].name
    requires forall j :: 0 <= j < |loaderJar| && Extracted(loaderJar[j]) ==> loaderJar[j].name != commonJar[i].name
    ensures commonJar[i].name in ExtractFor(t, dir, commonJar, loaderJar) &&
            ExtractFor(t, dir, commonJar, loaderJar)[commonJar[i].name] == commonJar[i].data
  {
    ExtractFinds(dir, commonJar, i);
    ExtractSkips(Extract(dir, commonJar), loaderJar, commonJar[i].name);
  }

  /** The configuration is always the last element of the updated list, after all it held before. */
  lemma AddMixinConfigAppends(m: map<string, Json>, key: string, cfg: string)
    ensures var r := AddMixinConfig(m, key, cfg);
      r[key].JArray? && |r[key].items| > 0 && r[key].items[|r[key].items| - 1] == JString(cfg) &&
      (key in m && m[key].JArray? ==> r[key].items[..|r[key].items| - 1] == m[key].items)
  {
    var r := AddMixinConfig(m, key, cfg);
    if key in m && m[key].JArray? {
      assert r[key].items == m[key].items + [JString(cfg)];
    }
  }

  /** Fabric and Quilt metadata are updated under separate keys, so each keeps the other's list. */
  lemma MixinKeysSeparate(m: map<string, Json>, cfg: string)
    ensures FABRIC_MIXINS_KEY != QUILT_MIXINS_KEY
    ensures QUILT_MIXINS_KEY in m ==> AddMixinConfig(m, FABRIC_MIXINS_KEY, cfg)[QUILT_MIXINS_KEY] == m[QUILT_MIXINS_KEY]
  {
    assert |FABRIC_MIXINS_KEY| != |QUILT_MIXINS_KEY|;
  }

  // ---------------------------------------------------------------------------
  // Properties: the service file

  /**
   * For a group, the service file is named by the binary name of the `RegistryHolder`
   * type the scanner adds to holders. Without a group the two disagree: the service file is
   * plain `RegistryHolder`, while the scanner adds the internal name `/RegistryHolder`.
   */
  lemma ServicesFileNamesHolderType(group: string)
    ensures |group| > 0 && '/' !in group ==>
      ServicesFileName(group) == SERVICES + Asm.Dotted(HolderScanner.HolderType(group))
    ensures |group| == 0 ==> ServicesFileName(group) == SERVICES + "RegistryHolder" &&
                             HolderScanner.HolderType(group) == "/RegistryHolder" &&
                             ServicesFileName(group) != SERVICES + Asm.Dotted(HolderScanner.HolderType(group))
  {
    if |group| > 0 && '/' !in group {
      var internal := HolderScanner.HolderType(group);
      ReplaceCharBack(group, '.', '/');
      var dotted := Asm.Dotted(internal);
      assert internal == Slashed(group) + "/RegistryHolder";
      assert dotted == group + ".RegistryHolder";
    } else if |group| == 0 {
      var dotted := Asm.Dotted(HolderScanner.HolderType(group));
      assert dotted[0] == '.';
      assert (SERVICES + dotted)[|SERVICES|] != ServicesFileName(group)[|SERVICES|];
    }
  }
}
