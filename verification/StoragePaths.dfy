/** The object keys a tarball is stored under (`construct_paths`). */
module StoragePaths {
  import opened Bytes
  import opened RegistryTypes
  import opened SemVer
  import opened Strings
  import opened Wrappers

  predicate IsNameChar(c: char) {
    'a' <= c <= 'z' || 'A' <= c <= 'Z' || '0' <= c <= '9' || c == '-' || c == '_'
  }

  predicate IsCrateName(name: string) {
    forall i | 0 <= i < |name| :: IsNameChar(name[i])
  }

  /** The part the two paths share: `{name}-{version}`. */
  function Stem(name: string, version: string): string {
    name + ['-'] + version
  }

  function OldPath(name: string, version: string): string {
    "crates/" + Stem(name, version) + ".crate"
  }

  function NewPath(name: string, version: string, cksum: Checksum): string {
    "crates/" + Stem(name, version) + ("_" + HexEncode(cksum) + ".tar.gz")
  }

  /** A stem has one reading, although names, pre-releases and build fields may all hold hyphens:
      the first dot ends the major number, and the last hyphen before it ends the name. */
  lemma StemInjective(name: string, v: Version, name': string, v': Version)
    requires IsCrateName(name) && IsCrateName(name') && WellFormed(v) && WellFormed(v')
    requires Stem(name, Print(v)) == Stem(name', Print(v'))
    ensures name == name' && v == v'
  {
    StemParts(name, v);
    StemParts(name', v');
    assert Print(v) == Stem(name, Print(v))[|name| + 1..];
    assert Print(v') == Stem(name', Print(v'))[|name'| + 1..];
    PrintInjective(v, v');
  }

  lemma StemParts(name: string, v: Version)
    requires IsCrateName(name)
    ensures var dot := SplitFirst(Stem(name, Print(v)), '.');
            dot.Some? && SplitLast(dot.value.0, '-') == Some((name, Decimal(v.major)))
  {
    var head := name + ['-'] + Decimal(v.major);
    var tail := Decimal(v.minor) + ['.'] + Decimal(v.patch) +
                (if v.pre == "" then "" else ['-'] + v.pre) + (if v.build == "" then "" else ['+'] + v.build);
    assert Stem(name, Print(v)) == head + ['.'] + tail;
    SplitFirstJoined(head, '.', tail);
    SplitLastJoined(name, '-', Decimal(v.major));
  }

  lemma OldPathInjective(name: string, v: Version, name': string, v': Version)
    requires IsCrateName(name) && IsCrateName(name') && WellFormed(v) && WellFormed(v')
    requires OldPath(name, Print(v)) == OldPath(name', Print(v'))
    ensures name == name' && v == v'
  {
    Enclosed("crates/", Stem(name, Print(v)), ".crate");
    Enclosed("crates/", Stem(name', Print(v')), ".crate");
    StemInjective(name, v, name', v');
  }

  lemma NewPathInjective(name: string, v: Version, cksum: Checksum, name': string, v': Version, cksum': Checksum)
    requires IsCrateName(name) && IsCrateName(name') && WellFormed(v) && WellFormed(v')
    requires NewPath(name, Print(v), cksum) == NewPath(name', Print(v'), cksum')
    ensures name == name' && v == v' && cksum == cksum'
  {
    var tail, tail' := "_" + HexEncode(cksum) + ".tar.gz", "_" + HexEncode(cksum') + ".tar.gz";
    Enclosed("crates/", Stem(name, Print(v)), tail);
    Enclosed("crates/", Stem(name', Print(v')), tail');
    StemInjective(name, v, name', v');
    assert HexEncode(cksum) == tail[1..65] && HexEncode(cksum') == tail'[1..65];
    HexRoundTrip(cksum);
    HexRoundTrip(cksum');
  }

  lemma Enclosed(front: string, middle: string, back: string)
    ensures var s := front + middle + back;
            middle == s[|front|..|s| - |back|] && back == s[|s| - |back|..]
  {
  }

  /** Deleting an object at an old-style path never touches a new-style one. */
  lemma OldPathIsNeverNew(name: string, version: string, name': string, version': string, cksum: Checksum)
    ensures OldPath(name, version) != NewPath(name', version', cksum)
  {
    var oldPath, newPath := OldPath(name, version), NewPath(name', version', cksum);
    assert oldPath[|oldPath| - 1] == 'e';
    assert newPath[|newPath| - 1] == 'z';
  }

  /** The two keys of a tarball, spelled out. */
  lemma PathTexts(name: string, version: string, cksum: Checksum)
    ensures OldPath(name, version) == "crates/" + name + "-" + version + ".crate"
    ensures NewPath(name, version, cksum) == "crates/" + name + "-" + version + "_" + HexEncode(cksum) + ".tar.gz"
  {
    assert OldPath(name, version) == "crates/" + name + "-" + version + ".crate";
    assert NewPath(name, version, cksum) == "crates/" + name + "-" + version + "_" + HexEncode(cksum) + ".tar.gz";
  }

  /** The alphabet of crate names. */
  lemma NameCharExactly(c: char)
    ensures IsNameChar(c) <==> c in LOWER + UPPER + DIGITS + "-_"
  {
    InAlphabet(c);
  }
}
