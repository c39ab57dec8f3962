/** Where a crate's metadata lives: the server's file path, the client's URL prefix, and the name read back
    from a URL. */
module CratePaths {
  import opened Strings
  import opened Wrappers

  function ToLowerChar(c: char): char {
    if 'A' <= c <= 'Z' then 'a' + (c - 'A') else c
  }

  /** `to_ascii_lowercase`. */
  function ToLower(s: string): (r: string)
    ensures |r| == |s|
    ensures forall i | 0 <= i < |s| :: r[i] == ToLowerChar(s[i])
  {
    seq(|s|, i requires 0 <= i < |s| => ToLowerChar(s[i]))
  }

  predicate IsFileNameChar(c: char) {
    'a' <= c <= 'z' || '0' <= c <= '9' || c == '-' || c == '_'
  }

  /** The lower-case names the file system index accepts. */
  predicate IsIndexName(name: string) {
    1 <= |name| <= 64 && forall i | 0 <= i < |name| :: IsFileNameChar(name[i])
  }

  /** The client's `crate_prefix`, for the non-empty names it may be asked about. */
  function CratePrefix(name: string): string
    requires name != ""
  {
    if |name| == 1 then "1"
    else if |name| == 2 then "2"
    else if |name| == 3 then "3/" + name[..1]
    else name[..2] + "/" + name[2..][..2]
  }

  /** The path part of the URL `fetch_index` asks for. */
  function IndexUrl(name: string): string
    requires name != ""
  {
    CratePrefix(name) + ['/'] + name
  }

  /** The client's URL, by the length of the name. */
  lemma ClientUrlText(name: string)
    requires name != ""
    ensures IndexUrl(name) ==
            if |name| == 1 then "1/" + name
            else if |name| == 2 then "2/" + name
            else if |name| == 3 then "3/" + [name[0]] + "/" + name
            else [name[0], name[1]] + "/" + [name[2], name[3]] + "/" + name
  {
    if |name| == 3 {
      assert name[..1] == [name[0]];
    } else if |name| > 3 {
      assert name[..2] == [name[0], name[1]] && name[2..][..2] == [name[2], name[3]];
    }
  }

  /** `crate_meta_file_rel_path`: the file of a lower-case crate name, or None for a name not allowed. */
  function MetaPath(name: string): Option<string> {
    if IsIndexName(name) then Some("index/" + IndexUrl(name)) else None
  }

  /** The server builds the path piece by piece. */
  method CrateMetaFileRelPath(lcCrateName: string) returns (path: Option<string>)
    ensures path == MetaPath(lcCrateName)
    ensures path.Some? ==> |path.value| <= |lcCrateName| + 12
  {
    if |lcCrateName| > 64 {
      return None;
    }
    var i := 0;
    while i < |lcCrateName|
      invariant 0 <= i <= |lcCrateName|
      invariant forall j | 0 <= j < i :: IsFileNameChar(lcCrateName[j])
    {
      if !IsFileNameChar(lcCrateName[i]) {
        return None;
      }
      i := i + 1;
    }
    var buffer := "index/";
    if |lcCrateName| >= 4 {
      var prefix := lcCrateName[..4];
      buffer := buffer + prefix[..2];
      buffer := buffer + ['/'];
      buffer := buffer + prefix[2..];
      assert prefix[..2] == lcCrateName[..2] && prefix[2..] == lcCrateName[2..][..2];
    } else if |lcCrateName| == 1 {
      buffer := buffer + "1";
    } else if |lcCrateName| == 2 {
      buffer := buffer + "2";
    } else if |lcCrateName| == 3 {
      buffer := buffer + "3/";
      buffer := buffer + lcCrateName[..1];
    } else {
      return None;
    }
    assert buffer == "index/" + CratePrefix(lcCrateName);
    buffer := buffer + ['/'];
    buffer := buffer + lcCrateName;
    assert buffer == "index/" + IndexUrl(lcCrateName);
    return Some(buffer);
  }

  /** `get_sparse_meta` finds the name after the last slash of the URL the client built, and the same cut
      of the file path gives the same name. */
  lemma NameAfterLastSlash(name: string)
    requires IsIndexName(name)
    ensures SplitLast(IndexUrl(name), '/') == Some((CratePrefix(name), name))
    ensures SplitLast(MetaPath(name).value, '/') == Some(("index/" + CratePrefix(name), name))
  {
    SplitLastJoined(CratePrefix(name), '/', name);
    SplitLastJoined("index/" + CratePrefix(name), '/', name);
    assert MetaPath(name).value == "index/" + CratePrefix(name) + ['/'] + name;
  }

  /** Lock keys and files correspond one to one. */
  lemma MetaPathInjective(name: string, name': string)
    requires MetaPath(name).Some? && MetaPath(name) == MetaPath(name')
    ensures name == name'
  {
    NameAfterLastSlash(name);
    NameAfterLastSlash(name');
  }

  /** The names the index accepts are lower-case. */
  lemma IndexNameIsLower(name: string)
    requires IsIndexName(name)
    ensures ToLower(name) == name
  {
    assert forall i | 0 <= i < |name| :: IsFileNameChar(name[i]) && ToLower(name)[i] == name[i];
  }

  // ---- Letters ----

  /** Both are the same letter of the alphabet. */
  predicate IsCase(small: char, capital: char) {
    'a' <= small <= 'z' && 'A' <= capital <= 'Z' && small - 'a' == capital - 'A'
  }

  /** The same character, or one letter in its two cases. */
  predicate SameLetter(c: char, d: char) {
    c == d || IsCase(c, d) || IsCase(d, c)
  }

  /** Each upper-case letter goes to the lower-case one at its place in the alphabet, anything else stays. */
  lemma ToLowerLetters(s: string, i: nat)
    requires i < |s|
    ensures forall k | 0 <= k < 26 :: s[i] == UPPER[k] ==> ToLower(s)[i] == LOWER[k]
    ensures s[i] !in UPPER ==> ToLower(s)[i] == s[i]
  {
    AlphabetsInOrder();
    InAlphabet(s[i]);
  }

  lemma LettersAt(k: nat)
    requires k < 26
    ensures LOWER[k] == 'a' + k as char && UPPER[k] == 'A' + k as char
  {
    AlphabetsInOrder();
  }

  /** The capital of a letter stands at its place in the other alphabet. */
  lemma CasesExactly(k: nat, c: char)
    requires k < 26
    ensures IsCase(LOWER[k], c) <==> c == UPPER[k]
    ensures IsCase(c, UPPER[k]) <==> c == LOWER[k]
  {
    LettersAt(k);
  }

  lemma SameLowerExactly(c: char, d: char)
    ensures ToLowerChar(c) == ToLowerChar(d) <==> SameLetter(c, d)
  {
  }

  /** Two names share a lock and a file exactly if they differ in the case of letters at most. */
  lemma ToLowerExactly(a: string, b: string)
    ensures ToLower(a) == ToLower(b) <==> |a| == |b| && forall i | 0 <= i < |a| :: SameLetter(a[i], b[i])
  {
    if |a| == |b| {
      forall i | 0 <= i < |a| ensures ToLower(a)[i] == ToLower(b)[i] <==> SameLetter(a[i], b[i]) {
        SameLowerExactly(a[i], b[i]);
      }
    }
  }

  lemma FileNameCharExactly(c: char)
    ensures IsFileNameChar(c) <==> c in LOWER + DIGITS + "-_"
    ensures IsFileNameChar(ToLowerChar(c)) <==> c in LOWER + UPPER + DIGITS + "-_"
  {
    InAlphabet(c);
  }

  /** The lower-case names that have a file. */
  lemma MetaPathNames(name: string)
    ensures MetaPath(name).Some? <==>
            1 <= |name| <= 64 && forall i | 0 <= i < |name| :: name[i] in LOWER + DIGITS + "-_"
  {
    forall i | 0 <= i < |name| ensures IsFileNameChar(name[i]) <==> name[i] in LOWER + DIGITS + "-_" {
      FileNameCharExactly(name[i]);
    }
  }

  /** The file of a lower-case name, by its length. */
  lemma MetaPathText(name: string)
    requires MetaPath(name).Some?
    ensures MetaPath(name).value ==
            "index/" + if |name| == 1 then "1/" + name
                       else if |name| == 2 then "2/" + name
                       else if |name| == 3 then "3/" + [name[0]] + "/" + name
                       else [name[0], name[1]] + "/" + [name[2], name[3]] + "/" + name
  {
    ClientUrlText(name);
  }

  /** The index accepts names of 1 to 64 letters, digits, hyphens and underscores, in either case. */
  lemma AcceptedNamesExactly(name: string)
    ensures MetaPath(ToLower(name)).Some? <==>
            1 <= |name| <= 64 && forall i | 0 <= i < |name| :: name[i] in LOWER + UPPER + DIGITS + "-_"
  {
    forall i | 0 <= i < |name|
      ensures IsFileNameChar(ToLower(name)[i]) <==> name[i] in LOWER + UPPER + DIGITS + "-_"
    {
      FileNameCharExactly(name[i]);
    }
  }
}
