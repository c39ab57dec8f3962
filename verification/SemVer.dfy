/** Semantic versions (items 2, 9 and 10 of Semantic Versioning 2.0.0), their text and its parser. */
module SemVer {
  import opened Wrappers
  import opened Strings

  datatype Version = Version(major: nat, minor: nat, patch: nat, pre: string, build: string)

  predicate IsDigit(c: char) { '0' <= c <= '9' }

  /** A character of a pre-release or build field; dots separate their identifiers. */
  predicate IsFieldChar(c: char) {
    IsDigit(c) || 'A' <= c <= 'Z' || 'a' <= c <= 'z' || c == '-' || c == '.'
  }

  /** Holds of every version the standard admits: only the alphabet of the two fields matters here. */
  predicate WellFormed(v: Version) {
    (forall i | 0 <= i < |v.pre| :: IsFieldChar(v.pre[i])) &&
    (forall i | 0 <= i < |v.build| :: IsFieldChar(v.build[i]))
  }

  function Decimal(n: nat): (s: string)
    ensures s != ""
    ensures forall i | 0 <= i < |s| :: IsDigit(s[i])
  {
    if n < 10 then [("0123456789")[n]] else Decimal(n / 10) + [("0123456789")[n % 10]]
  }

  function ParseDecimal(s: string): Option<nat> {
    if s == "" then None
    else
      var c := s[|s| - 1];
      if !IsDigit(c) then None
      else if |s| == 1 then Some((c - '0') as nat)
      else
        var high := ParseDecimal(s[..|s| - 1]);
        if high.None? then None else Some(10 * high.value + (c - '0') as nat)
  }

  lemma {:induction false} DecimalRoundTrip(n: nat)
    ensures ParseDecimal(Decimal(n)) == Some(n)
  {
    if n < 10 {
    } else {
      DecimalRoundTrip(n / 10);
      assert Decimal(n)[..|Decimal(n)| - 1] == Decimal(n / 10);
    }
  }

  function Core(v: Version): string {
    Decimal(v.major) + ['.'] + (Decimal(v.minor) + ['.'] + Decimal(v.patch))
  }

  /** `Version::to_string`. */
  function Print(v: Version): string {
    Core(v) + (if v.pre == "" then "" else ['-'] + v.pre) + (if v.build == "" then "" else ['+'] + v.build)
  }

  function ParseCore(s: string): Option<(nat, nat, nat)> {
    var first := SplitFirst(s, '.');
    if first.None? then None else
    var second := SplitFirst(first.value.1, '.');
    if second.None? then None else
    var major, minor, patch :=
      ParseDecimal(first.value.0), ParseDecimal(second.value.0), ParseDecimal(second.value.1);
    if major.None? || minor.None? || patch.None? then None
    else Some((major.value, minor.value, patch.value))
  }

  /** `Version::parse`: cut at the first `+`, then at the first `-`, then at the dots. */
  function Parse(s: string): Option<Version> {
    var build := SplitFirst(s, '+');
    var front := if build.None? then s else build.value.0;
    var pre := SplitFirst(front, '-');
    var core := ParseCore(if pre.None? then front else pre.value.0);
    if core.None? then None
    else
      var v := Version(core.value.0, core.value.1, core.value.2,
                       if pre.None? then "" else pre.value.1,
                       if build.None? then "" else build.value.1);
      if WellFormed(v) then Some(v) else None
  }

  lemma DecimalHasOnlyDigits(n: nat)
    ensures '.' !in Decimal(n) && '-' !in Decimal(n) && '+' !in Decimal(n)
  {
  }

  lemma CoreRoundTrip(v: Version)
    ensures ParseCore(Core(v)) == Some((v.major, v.minor, v.patch))
    ensures '-' !in Core(v) && '+' !in Core(v)
  {
    DecimalHasOnlyDigits(v.major);
    DecimalHasOnlyDigits(v.minor);
    DecimalHasOnlyDigits(v.patch);
    var tail := Decimal(v.minor) + ['.'] + Decimal(v.patch);
    SplitFirstJoined(Decimal(v.major), '.', tail);
    SplitFirstJoined(Decimal(v.minor), '.', Decimal(v.patch));
    DecimalRoundTrip(v.major);
    DecimalRoundTrip(v.minor);
    DecimalRoundTrip(v.patch);
  }

  /** Reading back a printed version gives the version, so no two versions print alike. */
  lemma PrintRoundTrip(v: Version)
    requires WellFormed(v)
    ensures Parse(Print(v)) == Some(v)
  {
    CoreRoundTrip(v);
    var front := Core(v) + (if v.pre == "" then "" else ['-'] + v.pre);
    assert '+' !in front;
    if v.build == "" {
      assert Print(v) == front;
      SplitFirstAbsent(front, '+');
    } else {
      assert Print(v) == front + ['+'] + v.build;
      SplitFirstJoined(front, '+', v.build);
    }
    if v.pre == "" {
      assert front == Core(v);
      SplitFirstAbsent(front, '-');
    } else {
      assert front == Core(v) + ['-'] + v.pre;
      SplitFirstJoined(Core(v), '-', v.pre);
    }
  }

  lemma PrintInjective(v: Version, w: Version)
    requires WellFormed(v) && WellFormed(w) && Print(v) == Print(w)
    ensures v == w
  {
    PrintRoundTrip(v);
    PrintRoundTrip(w);
  }

  /** The alphabet of the two fields. */
  lemma FieldCharExactly(c: char)
    ensures IsFieldChar(c) <==> c in DIGITS + UPPER + LOWER + "-."
  {
    InAlphabet(c);
  }

  /** The decimal digits of a number, the last one last, and no leading zero. */
  lemma DecimalDigits(n: nat)
    ensures Decimal(n)[|Decimal(n)| - 1] == "0123456789"[n % 10]
    ensures n >= 10 ==> Decimal(n)[..|Decimal(n)| - 1] == Decimal(n / 10)
    ensures n < 10 ==> |Decimal(n)| == 1
    ensures n > 0 ==> Decimal(n)[0] != '0'
  {
    if n >= 10 {
      DecimalDigits(n / 10);
    }
  }

  /** A version with and without its optional fields. */
  lemma PrintText(major: nat, minor: nat, patch: nat, pre: string, build: string)
    requires pre != "" && build != ""
    ensures var core := Decimal(major) + "." + Decimal(minor) + "." + Decimal(patch);
            Print(Version(major, minor, patch, "", "")) == core &&
            Print(Version(major, minor, patch, pre, "")) == core + "-" + pre &&
            Print(Version(major, minor, patch, "", build)) == core + "+" + build &&
            Print(Version(major, minor, patch, pre, build)) == core + "-" + pre + "+" + build
  {
    var core := Decimal(major) + "." + Decimal(minor) + "." + Decimal(patch);
    assert Core(Version(major, minor, patch, pre, build)) == core;
    assert Core(Version(major, minor, patch, "", "")) == core;
    assert Core(Version(major, minor, patch, pre, "")) == core;
    assert Core(Version(major, minor, patch, "", build)) == core;
  }
}
