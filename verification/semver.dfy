/** Semantic versions as the folder resolver uses them: the node-semver
    `compare` ordering (Semantic Versioning 2.0.0, section 11) and a
    simplified `parse`. Build metadata is accepted by the parser and dropped,
    so it never takes part in precedence. */
module SemVer {
  import opened Wrappers
  import opened Text

  /** A pre-release identifier: all-digit identifiers are numeric. */
  datatype Identifier = Num(n: nat) | Alpha(s: string)

  datatype SemVer = SemVer(major: nat, minor: nat, patch: nat, pre: seq<Identifier>)

  /** The version `0.0.0`, used for the bare folder and for unparsable suffixes. */
  const Zero := SemVer(0, 0, 0, [])

  // ---------------------------------------------------------------------
  // Precedence

  function CompareNat(a: nat, b: nat): (c: int)
    ensures c < 0 <==> a < b
    ensures c == 0 <==> a == b
    ensures -1 <= c <= 1
  {
    if a < b then -1 else if a > b then 1 else 0
  }

  /** Lexical order by code point, a proper prefix first. It agrees with
      JavaScript's code-unit `<` on the ASCII text identifiers are made of. */
  function CompareText(a: string, b: string): (c: int)
    ensures -1 <= c <= 1
    ensures |a| < |b| && a == b[..|a|] ==> c == -1
  {
    if |a| == 0 && |b| == 0 then 0
    else if |a| == 0 then -1
    else if |b| == 0 then 1
    else if a[0] < b[0] then -1
    else if a[0] > b[0] then 1
    else CompareText(a[1..], b[1..])
  }

  /** Sections 11.4.1 to 11.4.3 of SemVer 2.0.0: numeric identifiers compare numerically, are
      lower than alphanumeric ones, and alphanumeric ones compare lexically. */
  function CompareIdentifier(a: Identifier, b: Identifier): (c: int)
    ensures -1 <= c <= 1
    ensures a.Num? && b.Num? ==> (c < 0 <==> a.n < b.n) && (c == 0 <==> a.n == b.n)
    ensures a.Num? && b.Alpha? ==> c == -1
    ensures a.Alpha? && b.Num? ==> c == 1
  {
    match (a, b)
    case (Num(x), Num(y)) => CompareNat(x, y)
    case (Num(_), Alpha(_)) => -1
    case (Alpha(_), Num(_)) => 1
    case (Alpha(x), Alpha(y)) => CompareText(x, y)
  }

  /** Field-by-field comparison of two non-empty pre-release lists; when one
      runs out first, the longer list has the higher precedence (section 11.4.4 of SemVer 2.0.0). */
  function CompareIdentifiers(a: seq<Identifier>, b: seq<Identifier>): (c: int)
    ensures -1 <= c <= 1
    ensures |a| < |b| && a == b[..|a|] ==> c == -1
  {
    if |a| == 0 && |b| == 0 then 0
    else if |b| == 0 then 1
    else if |a| == 0 then -1
    else if a[0] == b[0] then CompareIdentifiers(a[1..], b[1..])
    else CompareIdentifier(a[0], b[0])
  }

  /** Section 11.3 of SemVer 2.0.0: a version without pre-release outranks one with. */
  function ComparePre(a: seq<Identifier>, b: seq<Identifier>): (c: int)
    ensures -1 <= c <= 1
    ensures |a| > 0 && |b| == 0 ==> c == -1
    ensures |a| == 0 && |b| > 0 ==> c == 1
    ensures |a| == 0 && |b| == 0 ==> c == 0
  {
    if |a| > 0 && |b| == 0 then -1
    else if |a| == 0 && |b| > 0 then 1
    else if |a| == 0 && |b| == 0 then 0
    else CompareIdentifiers(a, b)
  }

  /** `a.compare(b)`: -1, 0 or 1 as `a` has lower, equal or higher precedence. */
  function Compare(a: SemVer, b: SemVer): (c: int)
    ensures -1 <= c <= 1
    ensures a.major != b.major ==> (c < 0 <==> a.major < b.major)
    ensures a.major == b.major && a.minor != b.minor ==> (c < 0 <==> a.minor < b.minor)
    ensures a.major == b.major && a.minor == b.minor && a.patch != b.patch ==> (c < 0 <==> a.patch < b.patch)
    ensures c == 0 ==> a.major == b.major && a.minor == b.minor && a.patch == b.patch
    ensures a.major == b.major && a.minor == b.minor && a.patch == b.patch ==> c == ComparePre(a.pre, b.pre)
  {
    if a.major != b.major then CompareNat(a.major, b.major)
    else if a.minor != b.minor then CompareNat(a.minor, b.minor)
    else if a.patch != b.patch then CompareNat(a.patch, b.patch)
    else ComparePre(a.pre, b.pre)
  }

  predicate Less(a: SemVer, b: SemVer)
  {
    Compare(a, b) < 0
  }

  predicate LessEq(a: SemVer, b: SemVer)
  {
    Compare(a, b) <= 0
  }

  /** Section 11.4.2 of SemVer 2.0.0: alphanumeric identifiers compare lexically, so the
      first position where two texts differ decides. */
  lemma {:induction false} CompareTextFirstDifference(a: string, b: string, k: nat)
    requires k < |a| && k < |b| && a[..k] == b[..k] && a[k] != b[k]
    ensures CompareText(a, b) < 0 <==> a[k] < b[k]
    ensures CompareText(a, b) != 0
    decreases k
  {
    if k > 0 {
      assert a[0] == a[..k][0] == b[..k][0] == b[0];
      assert a[1..][..k - 1] == a[..k][1..] == b[..k][1..] == b[1..][..k - 1];
      CompareTextFirstDifference(a[1..], b[1..], k - 1);
    }
  }

  /** Section 11.4 of SemVer 2.0.0: the first position where two identifier lists differ decides. */
  lemma {:induction false} CompareIdentifiersFirstDifference(a: seq<Identifier>, b: seq<Identifier>, k: nat)
    requires k < |a| && k < |b| && a[..k] == b[..k] && a[k] != b[k]
    ensures CompareIdentifiers(a, b) == CompareIdentifier(a[k], b[k])
    decreases k
  {
    if k > 0 {
      assert a[0] == a[..k][0] == b[..k][0] == b[0];
      assert a[1..][..k - 1] == a[..k][1..] == b[..k][1..] == b[1..][..k - 1];
      CompareIdentifiersFirstDifference(a[1..], b[1..], k - 1);
    }
  }

  /** Section 11.3 of SemVer 2.0.0: a pre-release has lower precedence than its release. */
  lemma PreReleaseBelowRelease(major: nat, minor: nat, patch: nat, pre: seq<Identifier>)
    requires |pre| > 0
    ensures Less(SemVer(major, minor, patch, pre), SemVer(major, minor, patch, []))
  {
  }

  // --- ordering laws -----------------------------------------------------

  lemma {:induction false} CompareTextAntisymmetric(a: string, b: string)
    ensures CompareText(a, b) == -CompareText(b, a)
    decreases |a|
  {
    if |a| > 0 && |b| > 0 && a[0] == b[0] {
      CompareTextAntisymmetric(a[1..], b[1..]);
    }
  }

  lemma {:induction false} CompareTextZero(a: string, b: string)
    ensures CompareText(a, b) == 0 <==> a == b
    decreases |a|
  {
    if |a| > 0 && |b| > 0 && a[0] == b[0] {
      CompareTextZero(a[1..], b[1..]);
      assert a == [a[0]] + a[1..];
      assert b == [b[0]] + b[1..];
    }
  }

  lemma {:induction false} CompareTextTransitive(a: string, b: string, c: string)
    requires CompareText(a, b) < 0 && CompareText(b, c) < 0
    ensures CompareText(a, c) < 0
    decreases |a|
  {
    if |a| > 0 && |b| > 0 && |c| > 0 && a[0] == b[0] == c[0] {
      CompareTextTransitive(a[1..], b[1..], c[1..]);
    }
  }

  lemma CompareIdentifierAntisymmetric(a: Identifier, b: Identifier)
    ensures CompareIdentifier(a, b) == -CompareIdentifier(b, a)
  {
    if a.Alpha? && b.Alpha? {
      CompareTextAntisymmetric(a.s, b.s);
    }
  }

  lemma CompareIdentifierZero(a: Identifier, b: Identifier)
    ensures CompareIdentifier(a, b) == 0 <==> a == b
  {
    if a.Alpha? && b.Alpha? {
      CompareTextZero(a.s, b.s);
    }
  }

  lemma CompareIdentifierTransitive(a: Identifier, b: Identifier, c: Identifier)
    requires CompareIdentifier(a, b) < 0 && CompareIdentifier(b, c) < 0
    ensures CompareIdentifier(a, c) < 0
  {
    if a.Alpha? && b.Alpha? && c.Alpha? {
      CompareTextTransitive(a.s, b.s, c.s);
    }
  }

  lemma {:induction false} CompareIdentifiersAntisymmetric(a: seq<Identifier>, b: seq<Identifier>)
    ensures CompareIdentifiers(a, b) == -CompareIdentifiers(b, a)
    decreases |a|
  {
    if |a| > 0 && |b| > 0 {
      if a[0] == b[0] {
        CompareIdentifiersAntisymmetric(a[1..], b[1..]);
      } else {
        CompareIdentifierAntisymmetric(a[0], b[0]);
      }
    }
  }

  lemma {:induction false} CompareIdentifiersZero(a: seq<Identifier>, b: seq<Identifier>)
    ensures CompareIdentifiers(a, b) == 0 <==> a == b
    decreases |a|
  {
    if |a| > 0 && |b| > 0 {
      if a[0] == b[0] {
        CompareIdentifiersZero(a[1..], b[1..]);
        assert a == [a[0]] + a[1..];
        assert b == [b[0]] + b[1..];
      } else {
        CompareIdentifierZero(a[0], b[0]);
      }
    }
  }

  lemma {:induction false} CompareIdentifiersTransitive(a: seq<Identifier>, b: seq<Identifier>, c: seq<Identifier>)
    requires CompareIdentifiers(a, b) < 0 && CompareIdentifiers(b, c) < 0
    ensures CompareIdentifiers(a, c) < 0
    decreases |a|
  {
    if |a| > 0 && |b| > 0 && |c| > 0 {
      CompareIdentifierZero(a[0], b[0]);
      CompareIdentifierZero(b[0], c[0]);
      CompareIdentifierZero(a[0], c[0]);
      if a[0] == b[0] && b[0] == c[0] {
        CompareIdentifiersTransitive(a[1..], b[1..], c[1..]);
      } else if a[0] == b[0] {
      } else if b[0] == c[0] {
      } else {
        CompareIdentifierTransitive(a[0], b[0], c[0]);
      }
    }
  }

  /** Swapping the arguments negates the comparison. */
  lemma CompareAntisymmetric(a: SemVer, b: SemVer)
    ensures Compare(a, b) == -Compare(b, a)
  {
    CompareIdentifiersAntisymmetric(a.pre, b.pre);
  }

  /** Two versions compare equal exactly when they are the same version. */
  lemma CompareZeroIsEquality(a: SemVer, b: SemVer)
    ensures Compare(a, b) == 0 <==> a == b
  {
    CompareIdentifiersZero(a.pre, b.pre);
  }

  lemma CompareTransitive(a: SemVer, b: SemVer, c: SemVer)
    requires Less(a, b) && Less(b, c)
    ensures Less(a, c)
  {
    if a.major == b.major == c.major && a.minor == b.minor == c.minor && a.patch == b.patch == c.patch {
      if |a.pre| > 0 && |b.pre| > 0 && |c.pre| > 0 {
        CompareIdentifiersTransitive(a.pre, b.pre, c.pre);
      }
    }
  }

  /** Precedence is a total order: `LessEq` is transitive. */
  lemma LessEqTransitive(a: SemVer, b: SemVer, c: SemVer)
    requires LessEq(a, b) && LessEq(b, c)
    ensures LessEq(a, c)
  {
    CompareZeroIsEquality(a, b);
    CompareZeroIsEquality(b, c);
    if a != b && b != c {
      CompareTransitive(a, b, c);
    }
  }

  /** ... and total: of any two versions, one is at most the other. */
  lemma LessEqTotal(a: SemVer, b: SemVer)
    ensures LessEq(a, b) || LessEq(b, a)
    ensures !LessEq(a, b) <==> Less(b, a)
  {
    CompareAntisymmetric(a, b);
  }

  /** `0.0.0` is lowest among release versions, but every `0.0.0-x` is below it. */
  lemma ZeroIsLowestRelease(v: SemVer)
    ensures |v.pre| == 0 ==> LessEq(Zero, v)
    ensures v.major == 0 && v.minor == 0 && v.patch == 0 && |v.pre| > 0 ==> Less(v, Zero)
  {
  }

  // ---------------------------------------------------------------------
  // Parsing and formatting

  predicate IsIdentifierChar(ch: char)
  {
    IsDigit(ch) || ('a' <= ch <= 'z') || ('A' <= ch <= 'Z') || ch == '-'
  }

  /** A non-empty run of `[0-9A-Za-z-]`, the alphabet of pre-release and build identifiers. */
  predicate IsIdentifierText(s: string)
  {
    |s| > 0 && forall i :: 0 <= i < |s| ==> IsIdentifierChar(s[i])
  }

  /** A pre-release identifier; an all-digit one is numeric. With node-semver's
      `loose` option off, a numeric identifier may not have a leading zero. */
  function ParseIdentifier(s: string, loose: bool): (r: Option<Identifier>)
    ensures r.Some? <==> IsIdentifierText(s) && (loose || !AllDigits(s) || !LeadingZero(s))
    ensures r.Some? ==> (r.value.Num? <==> AllDigits(s))
  {
    if !IsIdentifierText(s) then None
    else if AllDigits(s) then
      if !loose && LeadingZero(s) then None else Some(Num(ParseDigits(s)))
    else Some(Alpha(s))
  }

  function ParseIdentifierList(parts: seq<string>, loose: bool): (r: Option<seq<Identifier>>)
    ensures r.Some? ==> |r.value| == |parts|
    ensures r.Some? ==> forall i :: 0 <= i < |r.value| ==> WellFormedIdentifier(r.value[i])
  {
    if |parts| == 0 then Some([])
    else
      match (ParseIdentifier(parts[0], loose), ParseIdentifierList(parts[1..], loose))
      case (Some(head), Some(tail)) => Some([head] + tail)
      case _ => None
  }

  /** A numeric field: one or more digits, without a leading zero unless `loose`. */
  function ParseNumber(s: string, loose: bool): Option<nat>
  {
    if |s| > 0 && AllDigits(s) && (loose || !LeadingZero(s)) then Some(ParseDigits(s)) else None
  }

  /** Build metadata: dot-separated non-empty identifiers, in either mode. */
  predicate ValidBuild(s: string)
  {
    forall b <- Split(s, '.') :: IsIdentifierText(b)
  }

  /** `MAJOR.MINOR.PATCH`, each one or more decimal digits. */
  function ParseCore(s: string, loose: bool): Option<(nat, nat, nat)>
  {
    var parts := Split(s, '.');
    if |parts| != 3 then None
    else
      match (ParseNumber(parts[0], loose), ParseNumber(parts[1], loose), ParseNumber(parts[2], loose))
      case (Some(major), Some(minor), Some(patch)) => Some((major, minor, patch))
      case _ => None
  }

  /** The part before any `+`: a core, then optionally `-` and pre-release identifiers. */
  function ParseMain(s: string, loose: bool): (r: Option<SemVer>)
    ensures r.Some? ==> WellFormed(r.value)
  {
    var dash := FindChar(s, '-');
    var pre := if dash == |s| then Some([]) else ParseIdentifierList(Split(s[dash + 1..], '.'), loose);
    match (ParseCore(s[..dash], loose), pre)
    case (Some((major, minor, patch)), Some(ids)) => Some(SemVer(major, minor, patch, ids))
    case _ => None
  }

  /** A simplified `new SemVer(s, { loose })`: `MAJOR.MINOR.PATCH`, then an
      optional `-` and dot-separated pre-release identifiers, then an optional
      `+` and dot-separated build identifiers, which are checked and dropped.
      `semver.parse(s, true)` is `Parse(s, true)`; `new SemVer('0.0.0')` and
      the strings it compares against use `Parse(s, false)`. */
  function Parse(s: string, loose: bool): (r: Option<SemVer>)
    ensures r.Some? ==> WellFormed(r.value)
    ensures r.Some? ==> |s| > 0
  {
    var plus := FindChar(s, '+');
    if plus < |s| && !ValidBuild(s[plus + 1..]) then None
    else ParseMain(s[..plus], loose)
  }

  /** The empty string is no version. */
  lemma ParseEmpty(loose: bool)
    ensures Parse("", loose).None?
  {
    assert Split("", '.') == [""];
  }

  /** Every text the parser accepts has a canonical form, `Format`, that
      parses back to the same version. */
  lemma ParseCanonical(s: string, loose: bool)
    requires Parse(s, loose).Some?
    ensures Parse(Format(Parse(s, loose).value), loose) == Parse(s, loose)
  {
    ParseFormat(Parse(s, loose).value, loose);
  }

  // --- strict and loose --------------------------------------------------

  lemma {:induction false} StrictIdentifiersAreLoose(parts: seq<string>)
    requires ParseIdentifierList(parts, false).Some?
    ensures ParseIdentifierList(parts, true) == ParseIdentifierList(parts, false)
    decreases |parts|
  {
    if |parts| > 0 {
      StrictIdentifiersAreLoose(parts[1..]);
    }
  }

  /** Whatever the strict parser accepts, the loose one accepts with the same
      meaning: the loose option only widens the grammar. */
  lemma StrictParseIsLoose(s: string)
    requires Parse(s, false).Some?
    ensures Parse(s, true) == Parse(s, false)
  {
    var main := s[..FindChar(s, '+')];
    var dash := FindChar(main, '-');
    if dash < |main| {
      StrictIdentifiersAreLoose(Split(main[dash + 1..], '.'));
    }
  }

  /** The two modes differ on a numeric field with a leading zero: only the
      loose one accepts it, with its decimal value. */
  lemma LeadingZeroIsLooseOnly(s: string)
    requires AllDigits(s) && LeadingZero(s)
    ensures ParseNumber(s, false) == None
    ensures ParseNumber(s, true) == Some(ParseDigits(s))
  {
  }

  /** A version text `MAJOR.MINOR.PATCH` with a zero-padded field, such as
      `0.5.01`, is rejected strictly and parsed loosely to its numeric value. */
  lemma ZeroPaddedVersionIsLooseOnly(major: string, minor: string, patch: string)
    requires |major| > 0 && |minor| > 0 && |patch| > 0
    requires AllDigits(major) && AllDigits(minor) && AllDigits(patch)
    requires LeadingZero(major) || LeadingZero(minor) || LeadingZero(patch)
    ensures Parse(Join([major, minor, patch], '.'), false).None?
    ensures Parse(Join([major, minor, patch], '.'), true)
      == Some(SemVer(ParseDigits(major), ParseDigits(minor), ParseDigits(patch), []))
  {
    var nums := [major, minor, patch];
    var s := Join(nums, '.');
    DigitsExclude(major, '.');
    DigitsExclude(minor, '.');
    DigitsExclude(patch, '.');
    DigitsExclude(major, '-');
    DigitsExclude(minor, '-');
    DigitsExclude(patch, '-');
    DigitsExclude(major, '+');
    DigitsExclude(minor, '+');
    DigitsExclude(patch, '+');
    JoinChars(nums, '.', '-');
    JoinChars(nums, '.', '+');
    SplitJoin(nums, '.');
    FindCharAbsent(s, '+');
    FindCharAbsent(s, '-');
    assert s[..|s|] == s;
  }

  // --- formatting --------------------------------------------------------

  /** An identifier the parser can produce: alphanumeric identifiers are
      non-empty `[0-9A-Za-z-]` text that is not all digits. */
  predicate WellFormedIdentifier(id: Identifier)
  {
    id.Alpha? ==> IsIdentifierText(id.s) && !AllDigits(id.s)
  }

  predicate WellFormed(v: SemVer)
  {
    forall i :: 0 <= i < |v.pre| ==> WellFormedIdentifier(v.pre[i])
  }

  function FormatIdentifier(id: Identifier): string
  {
    match id
    case Num(n) => NatToDigits(n)
    case Alpha(s) => s
  }

  function FormatIdentifiers(ids: seq<Identifier>): (parts: seq<string>)
    ensures |parts| == |ids|
    ensures forall i :: 0 <= i < |ids| ==> parts[i] == FormatIdentifier(ids[i])
  {
    if |ids| == 0 then [] else [FormatIdentifier(ids[0])] + FormatIdentifiers(ids[1..])
  }

  function FormatCore(v: SemVer): string
  {
    Join([NatToDigits(v.major), NatToDigits(v.minor), NatToDigits(v.patch)], '.')
  }

  /** The canonical text of a version, `version.format()` in node-semver. */
  function Format(v: SemVer): string
  {
    if |v.pre| == 0 then FormatCore(v)
    else FormatCore(v) + "-" + Join(FormatIdentifiers(v.pre), '.')
  }

  lemma DigitsExclude(s: string, ch: char)
    requires AllDigits(s) && !IsDigit(ch)
    ensures ch !in s
  {
  }

  lemma ParseFormatIdentifier(id: Identifier, loose: bool)
    requires WellFormedIdentifier(id)
    ensures ParseIdentifier(FormatIdentifier(id), loose) == Some(id)
  {
    if id.Num? {
      DigitsRoundTrip(id.n);
      NatToDigitsCanonical(id.n);
    }
  }

  lemma ParseIdentifierListCons(parts: seq<string>, loose: bool, head: Identifier, tail: seq<Identifier>)
    requires |parts| > 0
    requires ParseIdentifier(parts[0], loose) == Some(head)
    requires ParseIdentifierList(parts[1..], loose) == Some(tail)
    ensures ParseIdentifierList(parts, loose) == Some([head] + tail)
  {
  }

  lemma {:induction false} ParseFormatIdentifiers(ids: seq<Identifier>, loose: bool)
    requires forall i :: 0 <= i < |ids| ==> WellFormedIdentifier(ids[i])
    ensures ParseIdentifierList(FormatIdentifiers(ids), loose) == Some(ids)
    decreases |ids|
  {
    if |ids| > 0 {
      var parts := FormatIdentifiers(ids);
      assert parts[1..] == FormatIdentifiers(ids[1..]);
      ParseFormatIdentifiers(ids[1..], loose);
      ParseFormatIdentifier(ids[0], loose);
      ParseIdentifierListCons(parts, loose, ids[0], ids[1..]);
      assert ids == [ids[0]] + ids[1..];
    }
  }

  lemma FormattedIdentifiersExclude(ids: seq<Identifier>, ch: char)
    requires forall i :: 0 <= i < |ids| ==> WellFormedIdentifier(ids[i])
    requires !IsIdentifierChar(ch)
    ensures forall k :: 0 <= k < |ids| ==> ch !in FormatIdentifiers(ids)[k]
  {
  }

  lemma ParseFormatCore(v: SemVer, loose: bool)
    ensures ParseCore(FormatCore(v), loose) == Some((v.major, v.minor, v.patch))
    ensures '-' !in FormatCore(v) && '+' !in FormatCore(v)
  {
    var nums := [NatToDigits(v.major), NatToDigits(v.minor), NatToDigits(v.patch)];
    DigitsExclude(nums[0], '.');
    DigitsExclude(nums[1], '.');
    DigitsExclude(nums[2], '.');
    DigitsExclude(nums[0], '-');
    DigitsExclude(nums[1], '-');
    DigitsExclude(nums[2], '-');
    DigitsExclude(nums[0], '+');
    DigitsExclude(nums[1], '+');
    DigitsExclude(nums[2], '+');
    JoinChars(nums, '.', '-');
    JoinChars(nums, '.', '+');
    SplitJoin(nums, '.');
    DigitsRoundTrip(v.major);
    DigitsRoundTrip(v.minor);
    DigitsRoundTrip(v.patch);
    NatToDigitsCanonical(v.major);
    NatToDigitsCanonical(v.minor);
    NatToDigitsCanonical(v.patch);
  }

  lemma ParseMainFormat(v: SemVer, loose: bool)
    requires WellFormed(v)
    ensures ParseMain(Format(v), loose) == Some(v)
    ensures '+' !in Format(v)
  {
    var core := FormatCore(v);
    ParseFormatCore(v, loose);
    var s := Format(v);
    if |v.pre| == 0 {
      FindCharAbsent(s, '-');
      assert s[..|s|] == core;
    } else {
      var parts := FormatIdentifiers(v.pre);
      var tail := Join(parts, '.');
      FormattedIdentifiersExclude(v.pre, '.');
      FormattedIdentifiersExclude(v.pre, '+');
      JoinChars(parts, '.', '+');
      assert s == core + "-" + tail;
      FindCharAfter(core, '-', tail);
      assert s[..|core|] == core;
      assert s[|core| + 1..] == tail;
      SplitJoin(parts, '.');
      ParseFormatIdentifiers(v.pre, loose);
    }
  }

  /** Parsing the canonical text of a well-formed version gives it back, in
      either mode: the canonical text has no leading zeros. */
  lemma ParseFormat(v: SemVer, loose: bool)
    requires WellFormed(v)
    ensures Parse(Format(v), loose) == Some(v)
  {
    var s := Format(v);
    ParseMainFormat(v, loose);
    FindCharAbsent(s, '+');
    assert s[..|s|] == s;
  }

  // --- characters of parsable text ---------------------------------------

  lemma {:induction false} ParsedIdentifierTexts(parts: seq<string>, loose: bool)
    requires ParseIdentifierList(parts, loose).Some?
    ensures forall k :: 0 <= k < |parts| ==> IsIdentifierText(parts[k])
    decreases |parts|
  {
    if |parts| > 0 {
      ParsedIdentifierTexts(parts[1..], loose);
      assert forall k :: 1 <= k < |parts| ==> parts[k] == parts[1..][k - 1];
    }
  }

  lemma IdentifierTextsExclude(parts: seq<string>, x: char)
    requires forall k :: 0 <= k < |parts| ==> IsIdentifierText(parts[k])
    requires !IsIdentifierChar(x) && x != '.'
    ensures x !in Join(parts, '.')
  {
    JoinChars(parts, '.', x);
  }

  lemma ParsedCoreCharacters(s: string, loose: bool, x: char)
    requires ParseCore(s, loose).Some?
    requires !IsDigit(x) && x != '.'
    ensures x !in s
  {
    var parts := Split(s, '.');
    assert ParseNumber(parts[0], loose).Some? && ParseNumber(parts[1], loose).Some? && ParseNumber(parts[2], loose).Some?;
    JoinChars(parts, '.', x);
  }

  lemma ParsedMainCharacters(s: string, loose: bool, x: char)
    requires ParseMain(s, loose).Some?
    requires !IsIdentifierChar(x) && x != '.'
    ensures x !in s
  {
    var dash := FindChar(s, '-');
    assert ParseCore(s[..dash], loose).Some?;
    ParsedCoreCharacters(s[..dash], loose, x);
    if dash < |s| {
      var preParts := Split(s[dash + 1..], '.');
      assert ParseIdentifierList(preParts, loose).Some?;
      ParsedIdentifierTexts(preParts, loose);
      IdentifierTextsExclude(preParts, x);
      AbsentAroundIndex(s, dash, x);
    } else {
      assert s[..dash] == s;
    }
  }

  lemma BuildCharacters(s: string, x: char)
    requires ValidBuild(s)
    requires !IsIdentifierChar(x) && x != '.'
    ensures x !in s
  {
    var parts := Split(s, '.');
    forall k | 0 <= k < |parts|
      ensures IsIdentifierText(parts[k])
    {
      assert parts[k] in parts;
    }
    IdentifierTextsExclude(parts, x);
  }

  lemma ParsedParts(s: string, loose: bool)
    requires Parse(s, loose).Some?
    ensures ParseMain(s[..FindChar(s, '+')], loose).Some?
    ensures FindChar(s, '+') < |s| ==> ValidBuild(s[FindChar(s, '+') + 1..])
  {
  }

  /** Text that parses as a version holds nothing but identifier characters,
      dots and plus signs; in particular it never contains a path separator. */
  lemma ParsedTextCharacters(s: string, loose: bool, x: char)
    requires Parse(s, loose).Some?
    requires !IsIdentifierChar(x) && x != '.' && x != '+'
    ensures x !in s
  {
    var plus := FindChar(s, '+');
    ParsedParts(s, loose);
    ParsedMainCharacters(s[..plus], loose, x);
    if plus < |s| {
      BuildCharacters(s[plus + 1..], x);
      AbsentAroundIndex(s, plus, x);
    } else {
      assert s[..plus] == s;
    }
  }
}
