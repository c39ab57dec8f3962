/** The records that travel between the client, the server and the indexes. */
module RegistryTypes {
  import opened Wrappers
  import opened Bytes
  import opened SemVer

  type Checksum = s: seq<Byte> | |s| == 32 witness seq(32, _ => 0)

  /** A version requirement, as its canonical text. */
  type VersionReq = string

  datatype DependencyKind = Normal | Dev | Build

  /** A dependency as cargo publishes it: `name` is the package, `explicitNameInToml` its alias. */
  datatype PublishDependency = PublishDependency(
    name: string, versionReq: VersionReq, features: seq<string>, optional: bool, defaultFeatures: bool,
    target: Option<string>, kind: DependencyKind, registry: Option<string>, explicitNameInToml: Option<string>)

  datatype Publish = Publish(
    name: string, vers: Version, deps: seq<PublishDependency>, features: map<string, seq<string>>,
    description: Option<string>, documentation: Option<string>, homepage: Option<string>,
    repository: Option<string>, keywords: seq<string>, categories: seq<string>, links: Option<string>)

  /** A dependency as the index serves it: `name` is the alias, `package` the renamed package. */
  datatype Dependency = Dependency(
    name: string, req: VersionReq, features: seq<string>, optional: bool, defaultFeatures: bool,
    target: Option<string>, kind: DependencyKind, registry: Option<string>, package: Option<string>)

  datatype CrateVersion = CrateVersion(
    name: string, vers: Version, deps: seq<Dependency>, cksum: Checksum, features: map<string, seq<string>>,
    yanked: bool, links: Option<string>, v: nat, features2: map<string, seq<string>>)
}
