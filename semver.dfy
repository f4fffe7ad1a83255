/**
 * `semver.inc`, restricted to plain `X.Y.Z` versions: three dot-separated
 * decimal numbers without leading zeros. Any other input yields `None`,
 * the `null` that `inc` returns for a version it cannot parse.
 */
module SemVer {
  import opened Wrappers
  import opened Text

  datatype Version = Version(major: nat, minor: nat, patch: nat)

  /** The bump kinds the release command accepts. */
  datatype ReleaseType = Patch | Minor | Major

  predicate IsDigit(c: char) {
    '0' <= c <= '9'
  }

  /** A decimal numeral as semver writes it: digits only, no leading zero. */
  predicate Canonical(s: string) {
    |s| > 0 && (forall k :: 0 <= k < |s| ==> IsDigit(s[k])) && (s[0] != '0' || |s| == 1)
  }

  function Digit(d: nat): (c: char)
    requires d < 10
    ensures IsDigit(c)
  {
    ('0' as int + d) as char
  }

  /** The value of a string of decimal digits. */
  function DigitsValue(s: string): nat
    requires forall k :: 0 <= k < |s| ==> IsDigit(s[k])
  {
    if s == [] then 0
    else
      assert IsDigit(s[|s| - 1]);
      DigitsValue(s[..|s| - 1]) * 10 + (s[|s| - 1] as int - '0' as int)
  }

  /** The decimal numeral of `n`. */
  function NatToString(n: nat): (s: string)
    ensures Canonical(s)
  {
    if n < 10 then [Digit(n)]
    else
      var init := NatToString(n / 10);
      assert n / 10 > 0;
      init + [Digit(n % 10)]
  }

  /** The numeral written for `n` reads back as `n`. */
  lemma {:induction false} ValueOfNatToString(n: nat)
    ensures DigitsValue(NatToString(n)) == n
  {
    if n >= 10 {
      var s := NatToString(n);
      ValueOfNatToString(n / 10);
      assert s[..|s| - 1] == NatToString(n / 10);
    }
  }

  lemma {:induction false} LeadingDigitPositive(s: string)
    requires |s| > 0 && (forall k :: 0 <= k < |s| ==> IsDigit(s[k])) && s[0] != '0'
    ensures DigitsValue(s) > 0
    decreases |s|
  {
    if |s| > 1 {
      LeadingDigitPositive(s[..|s| - 1]);
    }
  }

  lemma {:induction false} NatToStringOfValue(s: string)
    requires Canonical(s)
    ensures NatToString(DigitsValue(s)) == s
    decreases |s|
  {
    if |s| > 1 {
      var init := s[..|s| - 1];
      LeadingDigitPositive(init);
      NatToStringOfValue(init);
      assert s == init + [s[|s| - 1]];
    }
  }

  /** `X.Y.Z` for the version `(X, Y, Z)`. */
  function Format(v: Version): string {
    NatToString(v.major) + "." + NatToString(v.minor) + "." + NatToString(v.patch)
  }

  /** Reads `X.Y.Z`; anything else is not a version. */
  function Parse(s: string): Option<Version> {
    var parts := Split(s, '.');
    if |parts| == 3 && Canonical(parts[0]) && Canonical(parts[1]) && Canonical(parts[2]) then
      Some(Version(DigitsValue(parts[0]), DigitsValue(parts[1]), DigitsValue(parts[2])))
    else None
  }

  lemma NoDotInNumeral(n: nat)
    ensures '.' !in NatToString(n)
  {
  }

  /** A version's text holds only digits and dots. */
  lemma FormatDigitsAndDots(v: Version)
    ensures forall k :: 0 <= k < |Format(v)| ==> IsDigit(Format(v)[k]) || Format(v)[k] == '.'
  {
    var a, b, c := NatToString(v.major), NatToString(v.minor), NatToString(v.patch);
    assert Format(v) == a + "." + b + "." + c;
  }

  /** Every version is read back from its text. */
  lemma FormatThenParse(v: Version)
    ensures Parse(Format(v)) == Some(v)
  {
    var a, b, c := NatToString(v.major), NatToString(v.minor), NatToString(v.patch);
    NoDotInNumeral(v.major);
    NoDotInNumeral(v.minor);
    NoDotInNumeral(v.patch);
    assert Join([a, b, c], '.') == Format(v) by {
      assert [a, b, c][1..] == [b, c];
      assert [b, c][1..] == [c];
      assert Join([b, c], '.') == b + ['.'] + c;
      assert Join([a, b, c], '.') == a + ['.'] + (b + ['.'] + c);
    }
    SplitJoin([a, b, c], '.');
    ValueOfNatToString(v.major);
    ValueOfNatToString(v.minor);
    ValueOfNatToString(v.patch);
  }

  /** A text that reads as a version is exactly that version's text. */
  lemma ParseThenFormat(s: string)
    requires Parse(s).Some?
    ensures Format(Parse(s).value) == s
  {
    var parts := Split(s, '.');
    NatToStringOfValue(parts[0]);
    NatToStringOfValue(parts[1]);
    NatToStringOfValue(parts[2]);
    assert Join(parts, '.') == parts[0] + "." + (parts[1] + "." + parts[2]) by {
      assert parts[1..][1..] == [parts[2]];
      assert Join(parts[1..], '.') == parts[1] + ['.'] + parts[2];
    }
  }

  /** The total order of versions (major, then minor, then patch). */
  predicate Less(v: Version, w: Version) {
    v.major < w.major
    || (v.major == w.major && v.minor < w.minor)
    || (v.major == w.major && v.minor == w.minor && v.patch < w.patch)
  }

  /**
   * The increment rule: `patch` raises the patch number, `minor` raises the
   * minor number and resets the patch number, `major` raises the major
   * number and resets the other two. The result is the least version above
   * `v` whose components right of the bumped one are zero.
   */
  function Bump(v: Version, kind: ReleaseType): (r: Version)
    ensures Less(v, r) && ResetBelow(r, kind)
    ensures forall w :: Less(v, w) && ResetBelow(w, kind) ==> !Less(w, r)
  {
    match kind
    case Patch => Version(v.major, v.minor, v.patch + 1)
    case Minor => Version(v.major, v.minor + 1, 0)
    case Major => Version(v.major + 1, 0, 0)
  }

  /** The components of `w` right of the one `kind` bumps are zero. */
  predicate ResetBelow(w: Version, kind: ReleaseType) {
    match kind
    case Patch => true
    case Minor => w.patch == 0
    case Major => w.minor == 0 && w.patch == 0
  }

  /** `semver.inc(s, kind)` on plain `X.Y.Z` versions; `None` stands for `null`. */
  function Inc(s: string, kind: ReleaseType): Option<string> {
    match Parse(s)
    case Some(v) => Some(Format(Bump(v, kind)))
    case None => None
  }

  /** `inc` succeeds exactly on versions, and its result reads as the bumped version. */
  lemma IncParses(s: string, kind: ReleaseType)
    ensures Inc(s, kind).Some? <==> Parse(s).Some?
    ensures Inc(s, kind).Some? ==> Parse(Inc(s, kind).value) == Some(Bump(Parse(s).value, kind))
    ensures Inc(s, kind).Some? ==> Less(Parse(s).value, Parse(Inc(s, kind).value).value)
  {
    if Parse(s).Some? {
      FormatThenParse(Bump(Parse(s).value, kind));
    }
  }

  /** The examples of the increment rule on `1.2.3`. */
  lemma IncExamples()
    ensures Inc("1.2.3", Patch) == Some("1.2.4")
    ensures Inc("1.2.3", Minor) == Some("1.3.0")
    ensures Inc("1.2.3", Major) == Some("2.0.0")
  {
    var v := Version(1, 2, 3);
    assert Format(v) == "1.2.3";
    FormatThenParse(v);
    assert Format(Version(1, 2, 4)) == "1.2.4";
    assert Format(Version(1, 3, 0)) == "1.3.0";
    assert Format(Version(2, 0, 0)) == "2.0.0";
  }

  /** Two components are not a version. */
  lemma IncRejects()
    ensures Inc("1.2", Patch) == None
  {
    assert Split("1.2", '.') == ["1", "2"] by {
      SplitJoin(["1", "2"], '.');
      assert Join(["1", "2"], '.') == "1.2";
    }
  }

  /** The empty string is not a version. */
  lemma ParseEmpty()
    ensures Parse("") == None
  {
    assert Split("", '.') == [""];
  }
}
