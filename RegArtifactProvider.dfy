/**
 * `RegArtifactProvider`: serves the generated jars to Gradle from the plugin's cache
 * directory, for requests of the configured group only.
 */
module RegArtifactProvider {
  import opened Wrappers
  import opened JavaStrings

  /** An artifact request; a null classifier is none. */
  datatype ArtifactIdentifier = ArtifactIdentifier(
    group: string, name: string, version: string, classifier: Option<string>, extension: string)

  datatype ArtifactType = Binary | Source | Other

  /** A served artifact: the request, its type and the file in the cache directory. */
  datatype Artifact = Artifact(info: ArtifactIdentifier, kind: ArtifactType, file: string)

  /** `name-version.ext`, or `name-version-classifier.ext` with a classifier. */
  function FileName(info: ArtifactIdentifier): string {
    match info.classifier
    case None => info.name + "-" + info.version + "." + info.extension
    case Some(c) => info.name + "-" + info.version + "-" + c + "." + info.extension
  }

  /** SOURCE for a classifier ending in `sources`, else BINARY for a `jar`, else OTHER. */
  function Classify(info: ArtifactIdentifier): ArtifactType {
    if info.classifier.Some? && EndsWith(info.classifier.value, "sources") then Source
    else if info.extension == "jar" then Binary
    else Other
  }

  /**
   * `getArtifact` of the provider for `group` over a cache directory holding the files
   * named in `existing`; none stands for `Artifact.none()`.
   */
  function GetArtifact(group: string, existing: set<string>, info: ArtifactIdentifier): Option<Artifact> {
    if info.group != group then None
    else
      var file := FileName(info);
      if file !in existing then None
      else Some(Artifact(info, Classify(info), file))
  }

  // ---------------------------------------------------------------------------
  // Properties

  /** A request for another group gets nothing, whatever files exist. */
  lemma OtherGroupGetsNothing(group: string, existing: set<string>, info: ArtifactIdentifier)
    requires info.group != group
    ensures GetArtifact(group, existing, info).None?
  {
  }

  /** A request of the group gets its file exactly when the file exists. */
  lemma ServedExactlyWhenPresent(group: string, existing: set<string>, info: ArtifactIdentifier)
    requires info.group == group
    ensures GetArtifact(group, existing, info).Some? <==> FileName(info) in existing
    ensures GetArtifact(group, existing, info).Some? ==>
              GetArtifact(group, existing, info).value == Artifact(info, Classify(info), FileName(info))
  {
  }

  /**
   * The file name starts with name and version, ends with the extension, and between them
   * holds `-classifier` when there is a classifier and nothing otherwise.
   */
  lemma FileNameShape(info: ArtifactIdentifier)
    ensures StartsWith(FileName(info), info.name + "-" + info.version)
    ensures EndsWith(FileName(info), "." + info.extension)
    ensures |info.name + "-" + info.version| <= |FileName(info)| - |"." + info.extension|
    ensures FileName(info)[|info.name + "-" + info.version|..|FileName(info)| - |"." + info.extension|] ==
            if info.classifier.Some? then "-" + info.classifier.value else ""
  {
    var f := FileName(info);
    var head := info.name + "-" + info.version;
    var tail := "." + info.extension;
    var middle := if info.classifier.Some? then "-" + info.classifier.value else "";
    match info.classifier
    case None =>
      assert f == head + tail;
    case Some(c) =>
      assert f == head + middle + tail;
    assert f == head + middle + tail;
    assert f[..|head|] == head;
    assert f[|f| - |tail|..] == tail;
    assert f[|head|..|f| - |tail|] == middle;
  }

  /** A sources classifier wins over the `jar` extension. */
  lemma SourcesBeatJar(info: ArtifactIdentifier)
    requires info.classifier.Some? && EndsWith(info.classifier.value, "sources")
    ensures Classify(info) == Source
  {
  }

  /** Without a sources classifier, `jar` is BINARY and any other extension OTHER. */
  lemma ExtensionDecides(info: ArtifactIdentifier)
    requires !(info.classifier.Some? && EndsWith(info.classifier.value, "sources"))
    ensures Classify(info) == (if info.extension == "jar" then Binary else Other)
  {
  }
}
