/** What a comparison reads about one build point, crates/core/src/diff.rs. The kernel
    fragments and the file manifest stay abstract. */
module BuildFacts {
  import opened Wrappers

  datatype KernelFacts = KernelFacts(
    id: string, flavor: Option<string>, source: Option<string>,
    reference: Option<string>, commit: Option<string>, package: Option<string>)

  datatype PatchAxis = PatchAxis(axis: string, series: seq<string>, reference: Option<string>, commit: Option<string>)

  datatype SourcePin = SourcePin(axis: string, reference: Option<string>, commit: Option<string>)

  function PatchAxisName(p: PatchAxis): string {
    p.axis
  }

  function SourceAxisName(s: SourcePin): string {
    s.axis
  }

  datatype BlobFacts = BlobFacts(atf: string, tpl: string, bl32: Option<string>)

  /** One entry of a builder's archive map. */
  datatype Archive = Archive(mirror: string, release: string)

  datatype BuilderFacts = BuilderFacts(
    version: string, commit: Option<string>, dirty: bool, configCommit: Option<string>, configDirty: bool,
    ferrodayCage: string, hostArch: string, targetArch: string, crossCompile: string, archives: seq<Archive>)

  datatype Package = Package(name: string, version: string, architecture: string, sha256: string)

  /** None means that the document does not say. */
  datatype Side<K, F> = Side(
    title: string,
    kernel: Option<KernelFacts>,
    patches: seq<PatchAxis>,
    sources: seq<SourcePin>,
    blobs: Option<BlobFacts>,
    packages: Option<seq<Package>>,
    kconfig: Option<K>,
    builder: Option<BuilderFacts>,
    files: Option<F>)
}
