/** Character-level helpers: searching, splitting on a separator, path
    basenames, UTF-16 code units and decimal digits. */
module Text {
  import opened Wrappers

  /** Index of the first `c` in `s`, or `|s|` when `s` has none. */
  function FindChar(s: string, c: char): (i: nat)
    ensures i <= |s|
    ensures i < |s| ==> s[i] == c
    ensures forall j :: 0 <= j < i ==> s[j] != c
  {
    if |s| == 0 then 0
    else if s[0] == c then 0
    else 1 + FindChar(s[1..], c)
  }

  lemma FindCharAbsent(s: string, c: char)
    requires c !in s
    ensures FindChar(s, c) == |s|
  {
  }

  lemma FindCharAfter(a: string, c: char, b: string)
    requires c !in a
    ensures FindChar(a + [c] + b, c) == |a|
  {
    var s := a + [c] + b;
    assert s[|a|] == c;
  }

  /** Joins `parts` with the separator `c` between consecutive parts. */
  function Join(parts: seq<string>, c: char): string
  {
    if |parts| == 0 then []
    else if |parts| == 1 then parts[0]
    else parts[0] + [c] + Join(parts[1..], c)
  }

  /** Splits `s` at every occurrence of `c`, like JavaScript's `split`. */
  function Split(s: string, c: char): (parts: seq<string>)
    ensures |parts| >= 1
    ensures forall k :: 0 <= k < |parts| ==> c !in parts[k]
    ensures Join(parts, c) == s
    decreases |s|
  {
    var i := FindChar(s, c);
    if i == |s| then
      [s]
    else
      var rest := Split(s[i + 1..], c);
      assert s == s[..i] + [c] + s[i + 1..];
      [s[..i]] + rest
  }

  /** Splitting undoes joining, as long as no part contains the separator. */
  lemma {:induction false} SplitJoin(parts: seq<string>, c: char)
    requires |parts| >= 1
    requires forall k :: 0 <= k < |parts| ==> c !in parts[k]
    ensures Split(Join(parts, c), c) == parts
    decreases |parts|
  {
    if |parts| == 1 {
      FindCharAbsent(parts[0], c);
    } else {
      var s := Join(parts, c);
      var tail := Join(parts[1..], c);
      assert s == parts[0] + [c] + tail;
      FindCharAfter(parts[0], c, tail);
      assert s[..|parts[0]|] == parts[0];
      assert s[|parts[0]| + 1..] == tail;
      SplitJoin(parts[1..], c);
      assert parts == [parts[0]] + parts[1..];
    }
  }

  /** Every character of a joined string is a separator or a character of some part. */
  lemma {:induction false} JoinChars(parts: seq<string>, c: char, x: char)
    requires x != c
    requires forall k :: 0 <= k < |parts| ==> x !in parts[k]
    ensures x !in Join(parts, c)
    decreases |parts|
  {
    if |parts| > 1 {
      JoinChars(parts[1..], c, x);
    }
  }

  predicate StartsWith(s: string, prefix: string)
  {
    |prefix| <= |s| && s[..|prefix|] == prefix
  }

  /** The text after the last `/` of `p` (all of `p` when it has no `/`). */
  function Basename(p: string): (r: string)
    ensures '/' !in r
    ensures |r| <= |p| && r == p[|p| - |r|..]
    ensures |r| < |p| ==> p[|p| - |r| - 1] == '/'
  {
    if |p| == 0 then p
    else if p[|p| - 1] == '/' then []
    else
      var r := Basename(p[..|p| - 1]) + [p[|p| - 1]];
      assert p[..|p| - 1][|p| - |r|..] + [p[|p| - 1]] == p[|p| - |r|..];
      r
  }

  /** A path without `/` is its own basename. */
  lemma {:induction false} BasenameOfName(p: string)
    requires '/' !in p
    ensures Basename(p) == p
  {
    var r := Basename(p);
    if |r| < |p| {
      assert false;
    }
  }

  /** The basename of `dir + "/" + name` is `name` when `name` has no `/`. */
  lemma {:induction false} BasenameOfChild(dir: string, name: string)
    requires '/' !in name
    ensures Basename(dir + "/" + name) == name
    decreases |name|
  {
    var p := dir + "/" + name;
    if |name| > 0 {
      var init := name[..|name| - 1];
      assert p[..|p| - 1] == dir + "/" + init;
      assert '/' !in init by {
        assert forall i :: 0 <= i < |init| ==> init[i] == name[i];
      }
      BasenameOfChild(dir, init);
      assert init + [name[|name| - 1]] == name;
    }
  }

  /** A character absent from both sides of position `i` and not at `i` is absent. */
  lemma AbsentAroundIndex(s: string, i: nat, x: char)
    requires i < |s| && x !in s[..i] && s[i] != x && x !in s[i + 1..]
    ensures x !in s
  {
    assert s == s[..i] + [s[i]] + s[i + 1..];
  }

  // ---------------------------------------------------------------------
  // UTF-16 code units

  /** A `char` is a Unicode scalar value; JavaScript strings hold UTF-16 code
      units, one for a scalar in the Basic Multilingual Plane and a surrogate
      pair for any other. */
  predicate IsBmp(ch: char)
  {
    ch as int < 0x1_0000
  }

  function Utf16Width(ch: char): nat
  {
    if IsBmp(ch) then 1 else 2
  }

  /** JavaScript's `s.length`. */
  function Utf16Length(s: string): nat
  {
    if |s| == 0 then 0 else Utf16Width(s[0]) + Utf16Length(s[1..])
  }

  lemma {:induction false} BmpLength(s: string)
    requires forall i :: 0 <= i < |s| ==> IsBmp(s[i])
    ensures Utf16Length(s) == |s|
    decreases |s|
  {
    if |s| > 0 {
      BmpLength(s[1..]);
    }
  }

  /** JavaScript's `s.substring(n)`: drops the first `n` code units, and gives
      the empty string when `n` is past the end. `None` stands for a cut inside
      a surrogate pair, where the JavaScript result starts with a lone low
      surrogate that no `char` can hold. */
  function DropCodeUnits(s: string, n: nat): (r: Option<string>)
    ensures r.Some? ==> |r.value| <= |s| && r.value == s[|s| - |r.value|..]
  {
    if n == 0 || |s| == 0 then Some(s)
    else if Utf16Width(s[0]) <= n then DropCodeUnits(s[1..], n - Utf16Width(s[0]))
    else None
  }

  /** `substring(n)` removes exactly `n` code units, or all of them when there
      are fewer; it can only cut a pair strictly inside the string. */
  lemma {:induction false} DropCodeUnitsLength(s: string, n: nat)
    ensures DropCodeUnits(s, n).Some? ==>
      Utf16Length(DropCodeUnits(s, n).value) == if n <= Utf16Length(s) then Utf16Length(s) - n else 0
    ensures DropCodeUnits(s, n).None? ==> 0 < n < Utf16Length(s)
    decreases |s|
  {
    if n > 0 && |s| > 0 && Utf16Width(s[0]) <= n {
      DropCodeUnitsLength(s[1..], n - Utf16Width(s[0]));
    }
  }

  /** Below the Basic Multilingual Plane's end, code units and characters
      coincide: dropping `|p|` units drops exactly `p`. */
  lemma {:induction false} DropBmpPrefix(p: string, rest: string, n: nat)
    requires forall i :: 0 <= i < |p| ==> IsBmp(p[i])
    ensures DropCodeUnits(p + rest, |p| + n) == DropCodeUnits(rest, n)
    decreases |p|
  {
    if |p| == 0 {
      assert p + rest == rest;
    } else {
      var s := p + rest;
      var t := p[1..] + rest;
      assert s[0] == p[0];
      assert s[1..] == t;
      DropFirstBmp(s, |p| + n);
      DropBmpPrefix(p[1..], rest, n);
      assert |p[1..]| + n == |p| + n - 1;
    }
  }

  lemma DropFirstBmp(s: string, n: nat)
    requires |s| > 0 && IsBmp(s[0]) && n > 0
    ensures DropCodeUnits(s, n) == DropCodeUnits(s[1..], n - 1)
  {
  }

  /** Cutting a string that starts with a BMP-only prefix past that prefix is
      cutting what follows it. */
  lemma DropPastBmpPrefix(s: string, p: string, n: nat)
    requires StartsWith(s, p)
    requires forall i :: 0 <= i < |p| ==> IsBmp(p[i])
    ensures DropCodeUnits(s, |p| + n) == DropCodeUnits(s[|p|..], n)
  {
    assert s == p + s[|p|..];
    DropBmpPrefix(p, s[|p|..], n);
  }

  /** Cutting a BMP-only prefix and one more code unit: the empty string when
      nothing follows the prefix, what follows its next character when that
      character is in the BMP, and a split surrogate pair otherwise. */
  lemma DropPrefixAndOne(s: string, p: string)
    requires StartsWith(s, p)
    requires forall i :: 0 <= i < |p| ==> IsBmp(p[i])
    ensures |s| == |p| ==> DropCodeUnits(s, |p| + 1) == Some([])
    ensures |s| > |p| && IsBmp(s[|p|]) ==> DropCodeUnits(s, |p| + 1) == Some(s[|p| + 1..])
    ensures |s| > |p| && !IsBmp(s[|p|]) ==> DropCodeUnits(s, |p| + 1) == None
  {
    DropPastBmpPrefix(s, p, 1);
    if |s| > |p| {
      assert s[|p|..] == [s[|p|]] + s[|p| + 1..];
      DropOneUnit(s[|p|], s[|p| + 1..]);
    }
  }

  /** Dropping one code unit drops a BMP character and cuts any other in half. */
  lemma DropOneUnit(ch: char, rest: string)
    ensures DropCodeUnits([ch] + rest, 1) == if IsBmp(ch) then Some(rest) else None
  {
    assert ([ch] + rest)[1..] == rest;
  }

  // ---------------------------------------------------------------------
  // Decimal digits

  predicate IsDigit(ch: char)
  {
    '0' <= ch <= '9'
  }

  predicate AllDigits(s: string)
  {
    forall i :: 0 <= i < |s| ==> IsDigit(s[i])
  }

  function DigitValue(ch: char): (d: nat)
    requires IsDigit(ch)
    ensures d < 10
  {
    ch as int - '0' as int
  }

  function DigitChar(d: nat): (ch: char)
    requires d < 10
    ensures IsDigit(ch) && DigitValue(ch) == d
  {
    ('0' as int + d) as char
  }

  /** The value of a string of decimal digits (leading zeros allowed). */
  function ParseDigits(s: string): nat
    requires AllDigits(s)
  {
    if |s| == 0 then 0
    else ParseDigits(s[..|s| - 1]) * 10 + DigitValue(s[|s| - 1])
  }

  /** More than one digit, the first of them `0`. */
  predicate LeadingZero(s: string)
  {
    |s| > 1 && s[0] == '0'
  }

  /** The shortest decimal spelling of `n`. */
  function NatToDigits(n: nat): (r: string)
    ensures |r| >= 1 && AllDigits(r)
  {
    if n < 10 then [DigitChar(n)]
    else NatToDigits(n / 10) + [DigitChar(n % 10)]
  }

  lemma {:induction false} DigitsRoundTrip(n: nat)
    ensures ParseDigits(NatToDigits(n)) == n
  {
    if n >= 10 {
      DigitsRoundTrip(n / 10);
      var s := NatToDigits(n);
      assert s[..|s| - 1] == NatToDigits(n / 10);
    }
  }

  /** The spelling of `n` has no leading zero, and starts with a non-zero digit
      unless `n` is zero. */
  lemma {:induction false} NatToDigitsCanonical(n: nat)
    ensures n > 0 ==> NatToDigits(n)[0] != '0'
    ensures !LeadingZero(NatToDigits(n))
  {
    if n >= 10 {
      NatToDigitsCanonical(n / 10);
      assert NatToDigits(n)[0] == NatToDigits(n / 10)[0];
    } else if n > 0 {
      assert DigitValue(NatToDigits(n)[0]) == n;
    }
  }
}
