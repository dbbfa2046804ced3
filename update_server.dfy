/**
 * The version helpers of the update server example (examples/update_server.rs):
 * the list of published versions, the parsing of "major.minor.patch" strings,
 * their comparison, and the list of versions newer than a given one.
 *
 * Parsing follows the Rust standard library: the string is split at every
 * '.', each piece is trimmed of Unicode white space, and each piece is read as
 * a `u64`. Where the Rust code panics (not exactly three pieces, a piece that
 * is not a `u64`), `SplitVersion` returns `None`.
 */
module UpdateServer {
  import opened Utilities

  type Version = (u64, u64, u64)

  /** The published versions, oldest first. */
  const VERSIONS: seq<string> := ["1.0.0", "1.0.1", "1.1.0", "1.1.1", "1.2.0", "2.0.0"]

  /** The download of each published version, at the same index. */
  const UPDATE_DATA: seq<string> := [
    "Download data for v1.0.0",
    "Download data for v1.0.1",
    "Download data for v1.1.0",
    "Download data for v1.1.1",
    "Download data for v1.2.0",
    "Download data for v2.0.0"
  ]

  /*
   * `str::split` on one character.
   */

  /** Glues `pieces` back together with `sep` between neighbours. */
  function Join(pieces: seq<string>, sep: char): string
    requires |pieces| >= 1
  {
    if |pieces| == 1 then pieces[0] else pieces[0] + [sep] + Join(pieces[1..], sep)
  }

  /** The pieces of `s` between occurrences of `sep`, in order; there is always at least one. */
  function Split(s: string, sep: char): (r: seq<string>)
    ensures |r| >= 1
    decreases |s|
  {
    if s == [] then [""]
    else if s[0] == sep then [""] + Split(s[1..], sep)
    else
      var rest := Split(s[1..], sep);
      [[s[0]] + rest[0]] + rest[1..]
  }

  /** No piece contains `sep`, and joined back with `sep` the pieces give `s`. */
  lemma {:induction false} SplitJoinsBack(s: string, sep: char)
    ensures forall i | 0 <= i < |Split(s, sep)| :: sep !in Split(s, sep)[i]
    ensures Join(Split(s, sep), sep) == s
    decreases |s|
  {
    if s != [] {
      SplitJoinsBack(s[1..], sep);
      var rest := Split(s[1..], sep);
      if s[0] == sep {
        assert ([""] + rest)[1..] == rest;
      } else {
        var r := [[s[0]] + rest[0]] + rest[1..];
        assert r[1..] == rest[1..];
        assert s == [s[0]] + s[1..];
      }
    }
  }

  /** A string without `sep` is a single piece. */
  lemma {:induction false} SplitWithout(a: string, sep: char)
    requires sep !in a
    ensures Split(a, sep) == [a]
    decreases |a|
  {
    if a != [] {
      SplitWithout(a[1..], sep);
      assert [a[0]] + a[1..] == a;
    }
  }

  /** A piece without `sep`, then `sep`: the piece comes off the front of the split. */
  lemma {:induction false} SplitFront(a: string, sep: char, rest: string)
    requires sep !in a
    ensures Split(a + [sep] + rest, sep) == [a] + Split(rest, sep)
    decreases |a|
  {
    var s := a + [sep] + rest;
    if a == [] {
      assert s[0] == sep && s[1..] == rest;
    } else {
      assert s[0] == a[0] && s[1..] == a[1..] + [sep] + rest;
      SplitFront(a[1..], sep, rest);
      assert [a[0]] + a[1..] == a;
    }
  }

  /** Splitting undoes joining, when no piece contains the separator. */
  lemma {:induction false} SplitJoin(pieces: seq<string>, sep: char)
    requires |pieces| >= 1
    requires forall i | 0 <= i < |pieces| :: sep !in pieces[i]
    ensures Split(Join(pieces, sep), sep) == pieces
    decreases |pieces|
  {
    if |pieces| == 1 {
      SplitWithout(pieces[0], sep);
    } else {
      SplitJoin(pieces[1..], sep);
      SplitFront(pieces[0], sep, Join(pieces[1..], sep));
      assert [pieces[0]] + pieces[1..] == pieces;
    }
  }

  /*
   * `str::trim`: white space is Unicode's White_Space property.
   */

  predicate IsWhitespace(ch: char) {
    ('\t' <= ch <= '\r') || ch == ' ' || ch == '\U{0085}' || ch == '\U{00A0}' || ch == '\U{1680}'
    || ('\U{2000}' <= ch <= '\U{200A}') || ch == '\U{2028}' || ch == '\U{2029}' || ch == '\U{202F}'
    || ch == '\U{205F}' || ch == '\U{3000}'
  }

  /** `s` without its leading white space. */
  function TrimStart(s: string): (r: string) {
    if s != [] && IsWhitespace(s[0]) then TrimStart(s[1..]) else s
  }

  /** `s` without its trailing white space. */
  function TrimEnd(s: string): (r: string) {
    if s != [] && IsWhitespace(s[|s| - 1]) then TrimEnd(s[..|s| - 1]) else s
  }

  /** `TrimStart` drops a prefix of white space only, up to the first other character. */
  lemma {:induction false} TrimStartSpec(s: string)
    ensures |TrimStart(s)| <= |s| && TrimStart(s) == s[|s| - |TrimStart(s)|..]
    ensures forall i | 0 <= i < |s| - |TrimStart(s)| :: IsWhitespace(s[i])
    ensures TrimStart(s) == [] || !IsWhitespace(TrimStart(s)[0])
  {
    if s != [] && IsWhitespace(s[0]) {
      var t := TrimStart(s[1..]);
      TrimStartSpec(s[1..]);
      assert TrimStart(s) == t;
      assert s[1..][|s| - 1 - |t|..] == s[|s| - |t|..];
      forall i | 1 <= i < |s| - |t|
        ensures IsWhitespace(s[i])
      {
        assert s[i] == s[1..][i - 1];
      }
    }
  }

  /** `TrimEnd` drops a suffix of white space only, back to the last other character. */
  lemma {:induction false} TrimEndSpec(s: string)
    ensures |TrimEnd(s)| <= |s| && TrimEnd(s) == s[..|TrimEnd(s)|]
    ensures forall i | |TrimEnd(s)| <= i < |s| :: IsWhitespace(s[i])
    ensures TrimEnd(s) == [] || !IsWhitespace(TrimEnd(s)[|TrimEnd(s)| - 1])
  {
    if s != [] && IsWhitespace(s[|s| - 1]) {
      var t := TrimEnd(s[..|s| - 1]);
      TrimEndSpec(s[..|s| - 1]);
      assert TrimEnd(s) == t;
      assert s[..|s| - 1][..|t|] == s[..|t|];
      forall i | |t| <= i < |s| - 1
        ensures IsWhitespace(s[i])
      {
        assert s[i] == s[..|s| - 1][i];
      }
    }
  }

  /** `s` without leading and trailing white space. */
  function Trim(s: string): (r: string) {
    TrimEnd(TrimStart(s))
  }

  /** Trimming leaves a string alone that neither starts nor ends with white space. */
  lemma TrimUnchanged(s: string)
    requires s == [] || (!IsWhitespace(s[0]) && !IsWhitespace(s[|s| - 1]))
    ensures Trim(s) == s
  {
  }

  /** Leading white space makes no difference to `TrimStart`. */
  lemma {:induction false} TrimStartSkips(pre: string, rest: string)
    requires forall i | 0 <= i < |pre| :: IsWhitespace(pre[i])
    ensures TrimStart(pre + rest) == TrimStart(rest)
    decreases |pre|
  {
    if pre != [] {
      assert (pre + rest)[0] == pre[0];
      assert (pre + rest)[1..] == pre[1..] + rest;
      TrimStartSkips(pre[1..], rest);
    } else {
      assert pre + rest == rest;
    }
  }

  /** Trailing white space makes no difference to `TrimEnd`. */
  lemma {:induction false} TrimEndSkips(rest: string, post: string)
    requires forall i | 0 <= i < |post| :: IsWhitespace(post[i])
    ensures TrimEnd(rest + post) == TrimEnd(rest)
    decreases |post|
  {
    if post != [] {
      var shorter := post[..|post| - 1];
      assert (rest + post)[|rest + post| - 1] == post[|post| - 1];
      assert (rest + post)[..|rest + post| - 1] == rest + shorter;
      TrimEndSkips(rest, shorter);
    } else {
      assert rest + post == rest;
    }
  }

  /** Trimming takes off exactly the white space around the text and nothing else. */
  lemma TrimAround(pre: string, s: string, post: string)
    requires forall i | 0 <= i < |pre| :: IsWhitespace(pre[i])
    requires forall i | 0 <= i < |post| :: IsWhitespace(post[i])
    requires s != [] && !IsWhitespace(s[0]) && !IsWhitespace(s[|s| - 1])
    ensures Trim(pre + s + post) == s
  {
    assert pre + s + post == pre + (s + post);
    TrimStartSkips(pre, s + post);
    assert (s + post)[0] == s[0];
    TrimEndSkips(s, post);
  }

  /*
   * `str::parse::<u64>`.
   */

  predicate IsDigit(ch: char) {
    '0' <= ch <= '9'
  }

  predicate AllDigits(s: string) {
    forall i | 0 <= i < |s| :: IsDigit(s[i])
  }

  /** The value of a string of decimal digits, most significant first. */
  function DigitsValue(s: string): nat
    requires AllDigits(s)
  {
    if s == [] then 0 else DigitsValue(s[..|s| - 1]) * 10 + (s[|s| - 1] as int - '0' as int)
  }

  /**
   * The number a string denotes as a `u64`: an optional single '+' followed by
   * at least one decimal digit, with a value that fits in 64 bits. Leading
   * zeros are allowed; a '-' sign, white space or any other character is not.
   */
  function ParseU64(s: string): (r: Option<u64>) {
    var digits := if |s| > 0 && s[0] == '+' then s[1..] else s;
    if digits == [] || !AllDigits(digits) then None
    else if DigitsValue(digits) > U64_MAX as int then None
    else Some(DigitsValue(digits) as u64)
  }

  /**
   * What `ParseU64` refuses: the empty string, a lone sign, a '-' sign, and
   * any character other than a digit (and one leading '+').
   */
  lemma ParseRejects(s: string)
    ensures s == [] || s == "+" ==> ParseU64(s) == None
    ensures |s| > 0 && s[0] == '-' ==> ParseU64(s) == None
    ensures ParseU64(s).Some? ==> forall i | 0 <= i < |s| :: IsDigit(s[i]) || (i == 0 && s[i] == '+')
  {
    if ParseU64(s).Some? && |s| > 0 && s[0] == '+' {
      forall i | 1 <= i < |s|
        ensures IsDigit(s[i])
      {
        assert s[i] == s[1..][i - 1];
      }
    }
  }

  /** The decimal digits of `n`, without leading zeros. */
  function FormatNat(n: nat): (r: string)
    ensures |r| >= 1 && AllDigits(r)
    ensures |r| > 1 ==> r[0] != '0'
    ensures DigitsValue(r) == n
  {
    if n < 10 then
      [('0' as int + n) as char]
    else
      var r := FormatNat(n / 10) + [('0' as int + n % 10) as char];
      assert r[..|r| - 1] == FormatNat(n / 10);
      r
  }

  function FormatU64(n: u64): (r: string) {
    FormatNat(n as nat)
  }

  /** Reading the decimal form of a `u64` gives the number back. */
  lemma ParseFormat(n: u64)
    ensures ParseU64(FormatU64(n)) == Some(n)
    ensures ParseU64("+" + FormatU64(n)) == Some(n)
  {
    var s := FormatU64(n);
    assert ("+" + s)[1..] == s;
  }

  /**
   * A number above `u64::MAX`, written in decimal, is refused with or without
   * a '+', so a version whose major number is that large does not parse.
   */
  lemma ParseRefusesTooLarge(n: nat)
    requires n > U64_MAX as int
    ensures ParseU64(FormatNat(n)) == None && ParseU64("+" + FormatNat(n)) == None
    ensures !Parses(Join([FormatNat(n), "0", "0"], '.'))
  {
    assert ("+" + FormatNat(n))[1..] == FormatNat(n);
    SplitJoin([FormatNat(n), "0", "0"], '.');
    TrimUnchanged(FormatNat(n));
  }

  /*
   * Versions.
   */

  /**
   * `split_version_string`: the three numbers of "major.minor.patch", with
   * white space allowed around each number; `None` where the Rust function
   * panics (not exactly three pieces, or a piece that is not a `u64`).
   */
  function SplitVersion(version: string): (r: Option<Version>)
  {
    var chunks := Split(version, '.');
    if |chunks| != 3 then None
    else
      var major := ParseU64(Trim(chunks[0]));
      var minor := ParseU64(Trim(chunks[1]));
      var patch := ParseU64(Trim(chunks[2]));
      if major.Some? && minor.Some? && patch.Some? then Some((major.value, minor.value, patch.value))
      else None
  }

  /** True when `split_version_string` does not panic on `version`. */
  predicate Parses(version: string) {
    SplitVersion(version).Some?
  }

  /** The canonical "major.minor.patch" form of a version. */
  function FormatVersion(v: Version): string {
    Join([FormatU64(v.0), FormatU64(v.1), FormatU64(v.2)], '.')
  }

  /**
   * The converse of `SplitVersionOf`: a version that parses has exactly
   * three pieces, and each trimmed piece reads as its number.
   */
  lemma SplitVersionParsed(version: string)
    requires Parses(version)
    ensures |Split(version, '.')| == 3
    ensures ParseU64(Trim(Split(version, '.')[0])) == Some(SplitVersion(version).value.0)
    ensures ParseU64(Trim(Split(version, '.')[1])) == Some(SplitVersion(version).value.1)
    ensures ParseU64(Trim(Split(version, '.')[2])) == Some(SplitVersion(version).value.2)
  {
  }

  /** `SplitVersion` on a string whose three pieces read as the numbers of `v`. */
  lemma SplitVersionOf(version: string, v: Version)
    requires |Split(version, '.')| == 3
    requires ParseU64(Trim(Split(version, '.')[0])) == Some(v.0)
    requires ParseU64(Trim(Split(version, '.')[1])) == Some(v.1)
    requires ParseU64(Trim(Split(version, '.')[2])) == Some(v.2)
    ensures SplitVersion(version) == Some(v)
  {
  }

  /** The decimal form of a number contains no '.' and nothing for `trim` to take off. */
  lemma FormatIsPlain(n: u64)
    ensures '.' !in FormatU64(n)
    ensures Trim(FormatU64(n)) == FormatU64(n)
  {
    var f := FormatU64(n);
    assert IsDigit(f[0]) && IsDigit(f[|f| - 1]);
    TrimUnchanged(f);
  }

  /** Parsing the canonical form of a version gives the version back. */
  lemma SplitFormat(v: Version)
    ensures SplitVersion(FormatVersion(v)) == Some(v)
  {
    var pieces := [FormatU64(v.0), FormatU64(v.1), FormatU64(v.2)];
    FormatIsPlain(v.0);
    FormatIsPlain(v.1);
    FormatIsPlain(v.2);
    SplitJoin(pieces, '.');
    ParseFormat(v.0);
    ParseFormat(v.1);
    ParseFormat(v.2);
    SplitVersionOf(FormatVersion(v), v);
  }

  /** A piece made of white space, a number's decimal form and white space. */
  lemma PaddedPiece(pre: string, n: u64, post: string)
    requires forall k | 0 <= k < |pre| :: IsWhitespace(pre[k])
    requires forall k | 0 <= k < |post| :: IsWhitespace(post[k])
    ensures '.' !in pre + FormatU64(n) + post
    ensures ParseU64(Trim(pre + FormatU64(n) + post)) == Some(n)
  {
    var f := FormatU64(n);
    var piece := pre + f + post;
    forall k | 0 <= k < |piece|
      ensures piece[k] != '.'
    {
      if k < |pre| {
        assert piece[k] == pre[k];
      } else if k < |pre| + |f| {
        assert piece[k] == f[k - |pre|];
      } else {
        assert piece[k] == post[k - |pre| - |f|];
      }
    }
    assert IsDigit(f[0]) && IsDigit(f[|f| - 1]);
    TrimAround(pre, f, post);
    ParseFormat(n);
  }

  /**
   * Surrounding each number with white space changes nothing: `trim` takes it
   * off before the number is read.
   */
  lemma SplitPadded(v: Version, pads: seq<(string, string)>)
    requires |pads| == 3
    requires forall i, k | 0 <= i < 3 && 0 <= k < |pads[i].0| :: IsWhitespace(pads[i].0[k])
    requires forall i, k | 0 <= i < 3 && 0 <= k < |pads[i].1| :: IsWhitespace(pads[i].1[k])
    ensures SplitVersion(Join([pads[0].0 + FormatU64(v.0) + pads[0].1,
                               pads[1].0 + FormatU64(v.1) + pads[1].1,
                               pads[2].0 + FormatU64(v.2) + pads[2].1], '.')) == Some(v)
  {
    var pieces := [pads[0].0 + FormatU64(v.0) + pads[0].1,
                   pads[1].0 + FormatU64(v.1) + pads[1].1,
                   pads[2].0 + FormatU64(v.2) + pads[2].1];
    PaddedPiece(pads[0].0, v.0, pads[0].1);
    PaddedPiece(pads[1].0, v.1, pads[1].1);
    PaddedPiece(pads[2].0, v.2, pads[2].1);
    SplitJoin(pieces, '.');
    SplitVersionOf(Join(pieces, '.'), v);
  }

  /** A version that does not have exactly three pieces is rejected. */
  lemma WrongPieceCountRejected(version: string)
    requires |Split(version, '.')| != 3
    ensures !Parses(version)
  {
  }

  /** A version with a piece that starts with '-' after trimming is rejected. */
  lemma NegativePieceRejected(version: string, k: nat)
    requires |Split(version, '.')| == 3 && k < 3
    requires |Trim(Split(version, '.')[k])| > 0 && Trim(Split(version, '.')[k])[0] == '-'
    ensures !Parses(version)
  {
    var chunks := Split(version, '.');
    ParseRejects(Trim(chunks[k]));
    if k == 0 {
      assert ParseU64(Trim(chunks[0])) == None;
    } else if k == 1 {
      assert ParseU64(Trim(chunks[1])) == None;
    } else {
      assert ParseU64(Trim(chunks[2])) == None;
    }
  }

  /** A version with a piece that is empty after trimming is rejected. */
  lemma EmptyPieceRejected(version: string, k: nat)
    requires |Split(version, '.')| == 3 && k < 3
    requires Trim(Split(version, '.')[k]) == ""
    ensures !Parses(version)
  {
    ParseRejects("");
  }

  /** `split_version_string` rejects "1.2" and "1.2.3.4". */
  lemma WrongPieceCount()
    ensures !Parses("1.2") && !Parses("1.2.3.4")
  {
    SplitJoin(["1", "2"], '.');
    assert Join(["1", "2", "3", "4"], '.') == "1.2.3.4";
    SplitJoin(["1", "2", "3", "4"], '.');
  }

  /** `split_version_string` rejects "1.-2.3". */
  lemma NegativeNumber()
    ensures !Parses("1.-2.3")
  {
    assert Join(["1", "-2", "3"], '.') == "1.-2.3";
    SplitJoin(["1", "-2", "3"], '.');
    var minor := "-2";
    TrimUnchanged(minor);
    ParseRejects(minor);
    assert ParseU64(Trim(Split("1.-2.3", '.')[1])) == None;
  }

  /** `split_version_string` rejects "1..2". */
  lemma MissingNumber()
    ensures !Parses("1..2")
  {
    assert Join(["1", "", "2"], '.') == "1..2";
    SplitJoin(["1", "", "2"], '.');
    assert Trim("") == "";
    ParseRejects("");
  }

  /**
   * A version read as one number: `major`, then `minor`, then `patch`, each
   * weighing more than every value of the next.
   */
  function Rank(v: Version): int {
    (v.0 as int * 0x1_0000_0000_0000_0000 + v.1 as int) * 0x1_0000_0000_0000_0000 + v.2 as int
  }

  /** With `a < b`, `b * base` is at least one `base` above `a * base`. */
  lemma {:induction false} MulLess(a: int, b: int, base: int)
    requires a < b && base > 0
    ensures a * base + base <= b * base
    decreases b - a
  {
    assert b * base == (b - 1) * base + base;
    if a < b - 1 {
      MulLess(a, b - 1, base);
    }
  }

  /** With `0 <= lo < base`, `hi * base + lo` orders pairs by `hi`, then by `lo`. */
  lemma PairRank(hi1: int, lo1: int, hi2: int, lo2: int, base: int)
    requires 0 <= lo1 < base && 0 <= lo2 < base
    ensures hi1 * base + lo1 < hi2 * base + lo2 <==> hi1 < hi2 || (hi1 == hi2 && lo1 < lo2)
  {
    if hi1 < hi2 {
      MulLess(hi1, hi2, base);
    } else if hi2 < hi1 {
      MulLess(hi2, hi1, base);
    }
  }

  /** Two versions rank in lexicographic order of (major, minor, patch). */
  lemma RankOrder(a: Version, b: Version)
    ensures Rank(a) < Rank(b) <==> a.0 < b.0 || (a.0 == b.0 && (a.1 < b.1 || (a.1 == b.1 && a.2 < b.2)))
    ensures Rank(a) == Rank(b) <==> a == b
  {
    var base := 0x1_0000_0000_0000_0000;
    var ha := a.0 as int * base + a.1 as int;
    var hb := b.0 as int * base + b.1 as int;
    PairRank(a.0 as int, a.1 as int, b.0 as int, b.1 as int, base);
    PairRank(b.0 as int, b.1 as int, a.0 as int, a.1 as int, base);
    PairRank(ha, a.2 as int, hb, b.2 as int, base);
    PairRank(hb, b.2 as int, ha, a.2 as int, base);
  }

  /**
   * `compare_versions`: whether `toCheck` is strictly newer than `current`,
   * comparing major, then minor, then patch numbers. Both strings must parse
   * (the Rust function panics otherwise).
   */
  function CompareVersions(current: string, toCheck: string): (r: bool)
    requires Parses(current) && Parses(toCheck)
    ensures r <==> Rank(SplitVersion(current).value) < Rank(SplitVersion(toCheck).value)
  {
    var c := SplitVersion(current).value;
    var t := SplitVersion(toCheck).value;
    RankOrder(c, t);
    if t.0 < c.0 then false
    else if t.0 > c.0 then true
    else if t.1 < c.1 then false
    else if t.1 > c.1 then true
    else t.2 > c.2
  }

  /** No version is newer than itself, and newer-than is transitive. */
  lemma CompareIsStrictOrder(a: string, b: string, c: string)
    requires Parses(a) && Parses(b) && Parses(c)
    ensures !CompareVersions(a, a)
    ensures CompareVersions(a, b) ==> !CompareVersions(b, a)
    ensures CompareVersions(a, b) && CompareVersions(b, c) ==> CompareVersions(a, c)
  {
  }

  /**
   * Of two parsed versions that are not the same version, exactly one is
   * newer than the other ("1.2.0" and "01.2.0" are the same version).
   */
  lemma CompareIsTotal(a: string, b: string)
    requires Parses(a) && Parses(b)
    ensures CompareVersions(a, b) || CompareVersions(b, a) || SplitVersion(a) == SplitVersion(b)
  {
    RankOrder(SplitVersion(a).value, SplitVersion(b).value);
  }

  predicate AllParse(vs: seq<string>) {
    forall i | 0 <= i < |vs| :: Parses(vs[i])
  }

  /** The tail of `xs` from its first element satisfying `p` on; empty when there is none. */
  function DropUntil<T>(p: T -> bool, xs: seq<T>): (r: seq<T>)
    ensures |r| <= |xs|
  {
    if xs == [] || p(xs[0]) then xs else DropUntil(p, xs[1..])
  }

  /**
   * `DropUntil` keeps a tail of `xs` that starts at an element satisfying
   * `p`, and none of the elements it drops satisfies `p`.
   */
  lemma {:induction false} DropUntilSpec<T>(p: T -> bool, xs: seq<T>)
    ensures var r := DropUntil(p, xs);
            r == xs[|xs| - |r|..] &&
            (r != [] ==> p(r[0])) &&
            forall i | 0 <= i < |xs| - |r| :: !p(xs[i])
  {
    if xs != [] && !p(xs[0]) {
      DropUntilSpec(p, xs[1..]);
      var r := DropUntil(p, xs[1..]);
      assert xs[1..][|xs| - 1 - |r|..] == xs[|xs| - |r|..];
      forall i | 1 <= i < |xs| - |r|
        ensures !p(xs[i])
      {
        assert xs[i] == xs[1..][i - 1];
      }
    }
  }

  /**
   * When `p` stays true along `xs` once it holds, `DropUntil` keeps exactly
   * the elements of `xs` that satisfy `p`.
   */
  lemma DropUntilKeeps<T>(p: T -> bool, xs: seq<T>)
    requires forall i, j | 0 <= i < j < |xs| :: p(xs[i]) ==> p(xs[j])
    ensures forall x :: x in DropUntil(p, xs) <==> x in xs && p(x)
  {
    var r := DropUntil(p, xs);
    var k := |xs| - |r|;
    DropUntilSpec(p, xs);
    forall x | x in xs && p(x)
      ensures x in r
    {
      var i :| 0 <= i < |xs| && xs[i] == x;
      assert r[i - k] == x;
    }
    forall x | x in r
      ensures x in xs && p(x)
    {
      var i :| 0 <= i < |r| && r[i] == x;
      assert xs[k + i] == x;
      if i > 0 {
        assert p(xs[k]);
      }
    }
  }

  /** When `p` holds exactly from index `k` on, `DropUntil` keeps `xs[k..]`. */
  lemma DropUntilAt<T>(p: T -> bool, xs: seq<T>, k: nat)
    requires k <= |xs|
    requires forall i | 0 <= i < |xs| :: p(xs[i]) <==> k <= i
    ensures DropUntil(p, xs) == xs[k..]
  {
    DropUntilSpec(p, xs);
    var r := DropUntil(p, xs);
    var start := |xs| - |r|;
    assert r != [] ==> r[0] == xs[start] && k <= start;
    assert k < |xs| ==> p(xs[k]) && k >= start;
  }

  /** The test `compare_versions(current, v)` as a predicate on `v`. */
  function NewerThan(current: string): string -> bool {
    v => Parses(current) && Parses(v) && CompareVersions(current, v)
  }

  /** The versions of `vs` are in strictly increasing order. */
  predicate Ascending(vs: seq<string>)
    requires AllParse(vs)
  {
    forall i, j | 0 <= i < j < |vs| :: CompareVersions(vs[i], vs[j])
  }

  /** Along an ascending list, once a version is newer than `current`, so are all later ones. */
  lemma NewerThanStays(current: string, vs: seq<string>)
    requires Parses(current) && AllParse(vs) && Ascending(vs)
    ensures forall i, j | 0 <= i < j < |vs| :: NewerThan(current)(vs[i]) ==> NewerThan(current)(vs[j])
  {
    forall i, j | 0 <= i < j < |vs| && NewerThan(current)(vs[i])
      ensures NewerThan(current)(vs[j])
    {
      CompareIsStrictOrder(current, vs[i], vs[j]);
    }
  }

  /** The numbers of the published versions, in the same order. */
  ghost const VERSION_NUMBERS: seq<Version> := [(1, 0, 0), (1, 0, 1), (1, 1, 0), (1, 1, 1), (1, 2, 0), (2, 0, 0)]

  /** Every published version parses, to the numbers it spells. */
  lemma VersionsParse()
    ensures |VERSIONS| == |UPDATE_DATA| == 6
    ensures forall i | 0 <= i < |VERSIONS| :: SplitVersion(VERSIONS[i]) == Some(VERSION_NUMBERS[i])
    ensures AllParse(VERSIONS)
  {
    forall i | 0 <= i < |VERSIONS|
      ensures SplitVersion(VERSIONS[i]) == Some(VERSION_NUMBERS[i])
    {
      var v := VERSION_NUMBERS[i];
      assert FormatVersion(v) == VERSIONS[i] by {
        assert FormatU64(0) == "0" && FormatU64(1) == "1" && FormatU64(2) == "2";
      }
      SplitFormat(v);
    }
  }

  /** The numbers of the published versions rank in increasing order. */
  lemma NumbersAscending()
    ensures forall i, j | 0 <= i < j < |VERSION_NUMBERS| :: Rank(VERSION_NUMBERS[i]) < Rank(VERSION_NUMBERS[j])
  {
  }

  /** The published versions are listed oldest first, without repeats. */
  lemma VersionsAscending()
    ensures AllParse(VERSIONS) && Ascending(VERSIONS)
  {
    VersionsParse();
    NumbersAscending();
    forall i, j | 0 <= i < j < |VERSIONS|
      ensures CompareVersions(VERSIONS[i], VERSIONS[j])
    {
      assert SplitVersion(VERSIONS[i]).value == VERSION_NUMBERS[i];
      assert SplitVersion(VERSIONS[j]).value == VERSION_NUMBERS[j];
    }
  }

  /**
   * What `get_available_updates` returns: `VERSIONS` from its first version
   * newer than `currentVersion` on.
   */
  function AvailableUpdates(currentVersion: string): (r: seq<string>)
    ensures |r| <= |VERSIONS| && r == VERSIONS[|VERSIONS| - |r|..]
    ensures r != [] ==> NewerThan(currentVersion)(r[0])
    ensures forall i | 0 <= i < |VERSIONS| - |r| :: !NewerThan(currentVersion)(VERSIONS[i])
  {
    DropUntilSpec(NewerThan(currentVersion), VERSIONS);
    DropUntil(NewerThan(currentVersion), VERSIONS)
  }

  /** The available updates are exactly the published versions newer than the current one. */
  lemma AvailableUpdatesAreNewer(currentVersion: string)
    requires Parses(currentVersion)
    ensures AllParse(VERSIONS)
    ensures forall v :: v in AvailableUpdates(currentVersion) <==> v in VERSIONS && CompareVersions(currentVersion, v)
  {
    VersionsAscending();
    NewerThanStays(currentVersion, VERSIONS);
    DropUntilKeeps(NewerThan(currentVersion), VERSIONS);
  }

  /**
   * `get_available_updates`: skips the published versions that are not
   * newer than `currentVersion`; what is left is a tail of `VERSIONS`
   * holding exactly the newer ones.
   */
  method GetAvailableUpdates(currentVersion: string) returns (newerVersions: seq<string>)
    requires Parses(currentVersion)
    ensures newerVersions == AvailableUpdates(currentVersion)
    ensures AllParse(VERSIONS)
    ensures forall v :: v in newerVersions <==> v in VERSIONS && CompareVersions(currentVersion, v)
  {
    VersionsParse();
    ghost var newer := NewerThan(currentVersion);
    newerVersions := VERSIONS;
    while newerVersions != [] && !CompareVersions(currentVersion, newerVersions[0])
      invariant AllParse(newerVersions)
      invariant DropUntil(newer, newerVersions) == AvailableUpdates(currentVersion)
      decreases |newerVersions|
    {
      newerVersions := newerVersions[1..];
    }
    AvailableUpdatesAreNewer(currentVersion);
  }
}

/**
 * The update server decider of examples/update_server.rs: a client connects,
 * asks which versions are newer than its own, then downloads one of them.
 */
module UpdateDecider {
  import opened Utilities
  import opened Deciders
  import opened UpdateServer

  datatype Command = QueryForUpdate(currentVersion: string) | DownloadUpdate(desiredVersion: string)

  datatype State =
    | NewConnection
    | UpdateAvailable(newVersions: seq<string>)
    | UnknownVersion(version: string)
    | NoNewUpdate
    | DownloadReady(updateData: string)
    | DownloadUnavailable

  datatype Event =
    | UpdateAvailable(newVersions: seq<string>)
    | UnknownVersionQueried(version: string)
    | AlreadyUpToDate
    | GotUpdateData(updateData: string)
    | InvalidVersion

  /** The index of the first occurrence of `x` in `xs`, if any (`Iterator::find` on an enumeration). */
  function FirstIndex<T(==)>(xs: seq<T>, x: T): (r: Option<nat>)
    ensures r.Some? ==> r.value < |xs| && xs[r.value] == x && forall j | 0 <= j < r.value :: xs[j] != x
    ensures r.None? <==> x !in xs
  {
    if xs == [] then None
    else if xs[0] == x then Some(0)
    else match FirstIndex(xs[1..], x)
      case None => None
      case Some(i) => Some(i + 1)
  }

  function Decide(c: Command, s: State): (events: seq<Event>)
    ensures |events| <= 1
  {
    match (s, c)
    case (NewConnection, QueryForUpdate(current)) =>
      if current !in VERSIONS then [UnknownVersionQueried(current)]
      else
        var newer := AvailableUpdates(current);
        if newer == [] then [AlreadyUpToDate] else [Event.UpdateAvailable(newer)]
    case (UpdateAvailable(newVersions), DownloadUpdate(desired)) =>
      if desired !in newVersions then [InvalidVersion]
      else
        assert |VERSIONS| == |UPDATE_DATA|;
        (match FirstIndex(VERSIONS, desired)
         case Some(i) => [GotUpdateData(UPDATE_DATA[i])]
         case None => [InvalidVersion])
    case _ => []
  }

  function Evolve(s: State, e: Event): (r: State)
    ensures s.NewConnection? && e.UpdateAvailable? ==> r == State.UpdateAvailable(e.newVersions)
    ensures s.NewConnection? && e.UnknownVersionQueried? ==> r == UnknownVersion(e.version)
    ensures s.NewConnection? && e.AlreadyUpToDate? ==> r == NoNewUpdate
    ensures s.NewConnection? && (e.GotUpdateData? || e.InvalidVersion?) ==> r == s
    ensures s.UpdateAvailable? && e.GotUpdateData? ==> r == DownloadReady(e.updateData)
    ensures s.UpdateAvailable? && e.InvalidVersion? ==> r == DownloadUnavailable
    ensures s.UpdateAvailable? && !e.GotUpdateData? && !e.InvalidVersion? ==> r == s
    ensures !s.NewConnection? && !s.UpdateAvailable? ==> r == s
  {
    match (s, e)
    case (NewConnection, UpdateAvailable(newVersions)) => State.UpdateAvailable(newVersions)
    case (NewConnection, UnknownVersionQueried(version)) => UnknownVersion(version)
    case (NewConnection, AlreadyUpToDate) => NoNewUpdate
    case (UpdateAvailable(_), GotUpdateData(updateData)) => DownloadReady(updateData)
    case (UpdateAvailable(_), InvalidVersion) => DownloadUnavailable
    case _ => s
  }

  /** A session is over once there is nothing to offer or the download is settled. */
  function IsTerminal(s: State): (r: bool)
    ensures r <==> s.NoNewUpdate? || s.DownloadReady? || s.DownloadUnavailable?
  {
    match s
    case NoNewUpdate | DownloadReady(_) | DownloadUnavailable => true
    case _ => false
  }

  /** The `UpdateServer` decider. */
  const Server: Decider<Command, Event, State, State> := Decider(Decide, Evolve, NewConnection, IsTerminal)

  /** A query for a version that is not published is answered as such. */
  lemma QueryUnknown(current: string)
    requires current !in VERSIONS
    ensures Decide(QueryForUpdate(current), NewConnection) == [UnknownVersionQueried(current)]
  {
  }

  /**
   * A client on a published version is told it is up to date exactly when no
   * published version is newer than its own.
   */
  lemma QueryUpToDate(current: string)
    requires current in VERSIONS
    ensures AllParse(VERSIONS)
    ensures Decide(QueryForUpdate(current), NewConnection) == [AlreadyUpToDate] <==>
            forall v | v in VERSIONS :: !CompareVersions(current, v)
  {
    VersionsParse();
    AvailableUpdatesAreNewer(current);
    var newer := AvailableUpdates(current);
    if newer != [] {
      assert newer[0] in newer;
    }
  }

  /**
   * Otherwise it is offered a tail of `VERSIONS` that holds exactly the
   * published versions newer than its own.
   */
  lemma QueryOffers(current: string)
    requires current in VERSIONS
    requires Decide(QueryForUpdate(current), NewConnection) != [AlreadyUpToDate]
    ensures AllParse(VERSIONS)
    ensures var events := Decide(QueryForUpdate(current), NewConnection);
            |events| == 1 && events[0].UpdateAvailable? &&
            var offered := events[0].newVersions;
            offered != [] && offered == VERSIONS[|VERSIONS| - |offered|..] &&
            forall v :: v in offered <==> v in VERSIONS && CompareVersions(current, v)
  {
    VersionsParse();
    DropUntilSpec(NewerThan(current), VERSIONS);
    AvailableUpdatesAreNewer(current);
  }

  /** The published versions are all different. */
  lemma VersionsDistinct()
    ensures forall i, j | 0 <= i < j < |VERSIONS| :: VERSIONS[i] != VERSIONS[j]
  {
  }

  /** Downloading an offered, published version yields that version's data. */
  lemma DownloadOffered(newVersions: seq<string>, i: nat)
    requires i < |VERSIONS| && VERSIONS[i] in newVersions
    ensures i < |UPDATE_DATA|
    ensures Decide(DownloadUpdate(VERSIONS[i]), State.UpdateAvailable(newVersions)) == [GotUpdateData(UPDATE_DATA[i])]
  {
    VersionsDistinct();
    var found := FirstIndex(VERSIONS, VERSIONS[i]);
    assert found == Some(i);
  }

  /** Downloading a version that was not offered, or is not published, is refused. */
  lemma DownloadRefused(newVersions: seq<string>, desired: string)
    requires desired !in newVersions || desired !in VERSIONS
    ensures Decide(DownloadUpdate(desired), State.UpdateAvailable(newVersions)) == [InvalidVersion]
  {
  }

  /** Every other state/command pair decides nothing. */
  lemma OtherPairsDecideNothing(c: Command, s: State)
    requires !(s.NewConnection? && c.QueryForUpdate?) && !(s.UpdateAvailable? && c.DownloadUpdate?)
    ensures Decide(c, s) == []
  {
  }

  /** A terminal state decides nothing and no event changes it. */
  lemma TerminalIsFinal(c: Command, s: State, e: Event)
    requires IsTerminal(s)
    ensures Decide(c, s) == [] && Evolve(s, e) == s
  {
  }

  /**
   * After an unknown version is queried the session is stuck: nothing is
   * decided and nothing changes, yet the state is not terminal.
   */
  lemma UnknownVersionIsStuck(c: Command, version: string, e: Event)
    ensures Decide(c, UnknownVersion(version)) == [] && Evolve(UnknownVersion(version), e) == UnknownVersion(version)
    ensures !IsTerminal(UnknownVersion(version))
  {
  }

  /** An offer lists published versions only, and at least one. */
  predicate Consistent(s: State) {
    s.UpdateAvailable? ==> s.newVersions != [] && forall v | v in s.newVersions :: v in VERSIONS
  }

  /** The state after one decided command: its events folded into the state. */
  function Step(c: Command, s: State): State {
    Fold(Server, s, Decide(c, s))
  }

  /** A command decides at most one event, so a step evolves the state at most once. */
  lemma StepByOne(c: Command, s: State)
    ensures Step(c, s) == if Decide(c, s) == [] then s else Evolve(s, Decide(c, s)[0])
  {
    var events := Decide(c, s);
    if events != [] {
      assert Fold(Server, s, events) == Fold(Server, Evolve(s, events[0]), []);
    }
  }

  /** The state a query for a published version leads to. */
  lemma QueryKnownStep(current: string)
    requires current in VERSIONS
    ensures Step(QueryForUpdate(current), NewConnection) ==
      if AvailableUpdates(current) == [] then NoNewUpdate else State.UpdateAvailable(AvailableUpdates(current))
  {
    StepByOne(QueryForUpdate(current), NewConnection);
  }

  /** An offer made for a published version is consistent. */
  lemma OfferConsistent(current: string)
    requires current in VERSIONS
    ensures AvailableUpdates(current) != [] ==> Consistent(State.UpdateAvailable(AvailableUpdates(current)))
  {
    VersionsParse();
    AvailableUpdatesAreNewer(current);
  }

  /** Deciding a command and folding its events in keeps a state consistent. */
  lemma DecideKeepsConsistent(c: Command, s: State)
    requires Consistent(s)
    ensures Consistent(Step(c, s))
  {
    if s.NewConnection? && c.QueryForUpdate? && c.currentVersion in VERSIONS {
      QueryKnownStep(c.currentVersion);
      OfferConsistent(c.currentVersion);
    } else if s.NewConnection? && c.QueryForUpdate? {
      QueryUnknown(c.currentVersion);
      StepByOne(c, s);
    } else if s.UpdateAvailable? && c.DownloadUpdate? {
      StepByOne(c, s);
    } else {
      OtherPairsDecideNothing(c, s);
      StepByOne(c, s);
    }
  }

  /** In a consistent state, downloading any offered version succeeds. */
  lemma OfferedVersionDownloads(newVersions: seq<string>, desired: string)
    requires Consistent(State.UpdateAvailable(newVersions)) && desired in newVersions
    ensures exists i | 0 <= i < |VERSIONS| && i < |UPDATE_DATA| ::
      VERSIONS[i] == desired && Decide(DownloadUpdate(desired), State.UpdateAvailable(newVersions)) == [GotUpdateData(UPDATE_DATA[i])]
  {
    var i :| 0 <= i < |VERSIONS| && VERSIONS[i] == desired;
    DownloadOffered(newVersions, i);
  }

  /** Downloading an offered, published version leaves that version's data ready. */
  lemma DownloadDelivers(newVersions: seq<string>, i: nat)
    requires i < |VERSIONS| && VERSIONS[i] in newVersions
    ensures i < |UPDATE_DATA|
    ensures Step(DownloadUpdate(VERSIONS[i]), State.UpdateAvailable(newVersions)) == DownloadReady(UPDATE_DATA[i])
  {
    DownloadOffered(newVersions, i);
    StepByOne(DownloadUpdate(VERSIONS[i]), State.UpdateAvailable(newVersions));
  }

  /** A download request on an offer settles the session, one way or the other. */
  lemma DownloadSettles(newVersions: seq<string>, desired: string)
    ensures IsTerminal(Step(DownloadUpdate(desired), State.UpdateAvailable(newVersions)))
  {
    if desired in newVersions && desired in VERSIONS {
      var i :| 0 <= i < |VERSIONS| && VERSIONS[i] == desired;
      DownloadOffered(newVersions, i);
    } else {
      DownloadRefused(newVersions, desired);
    }
    StepByOne(DownloadUpdate(desired), State.UpdateAvailable(newVersions));
  }

  /**
   * A session of a query followed by a download ends in a terminal state, or
   * is stuck on an unknown version.
   */
  lemma QueryThenDownload(current: string, desired: string)
    ensures var s := Step(QueryForUpdate(current), NewConnection);
            IsTerminal(Step(DownloadUpdate(desired), s)) || Step(DownloadUpdate(desired), s) == UnknownVersion(current)
  {
    var s := Step(QueryForUpdate(current), NewConnection);
    if current in VERSIONS {
      QueryKnownStep(current);
    } else {
      QueryUnknown(current);
      StepByOne(QueryForUpdate(current), NewConnection);
    }
    if s.UpdateAvailable? {
      DownloadSettles(s.newVersions, desired);
    } else {
      OtherPairsDecideNothing(DownloadUpdate(desired), s);
      StepByOne(DownloadUpdate(desired), s);
    }
  }

  /** A published version is older than exactly the versions listed after it. */
  lemma NewerThanPublished(k: nat)
    requires k < |VERSIONS|
    ensures AllParse(VERSIONS)
    ensures forall i | 0 <= i < |VERSIONS| :: CompareVersions(VERSIONS[k], VERSIONS[i]) <==> k < i
  {
    VersionsAscending();
    forall i | 0 <= i < |VERSIONS|
      ensures CompareVersions(VERSIONS[k], VERSIONS[i]) <==> k < i
    {
      if i < k {
        CompareIsStrictOrder(VERSIONS[i], VERSIONS[k], VERSIONS[k]);
      } else if i == k {
        CompareIsStrictOrder(VERSIONS[k], VERSIONS[k], VERSIONS[k]);
      }
    }
  }

  /** The updates offered to a client on a published version are the versions listed after it. */
  lemma AvailableUpdatesOfPublished(k: nat)
    requires k < |VERSIONS|
    ensures AvailableUpdates(VERSIONS[k]) == VERSIONS[k + 1..]
  {
    NewerThanPublished(k);
    var newer := NewerThan(VERSIONS[k]);
    assert forall i | 0 <= i < |VERSIONS| :: newer(VERSIONS[i]) <==> k + 1 <= i;
    DropUntilAt(newer, VERSIONS, k + 1);
  }

  /** A client on 1.1.0 is offered 1.1.1, 1.2.0 and 2.0.0, and gets the 2.0.0 download. */
  lemma ExampleSession()
    ensures Decide(QueryForUpdate("1.1.0"), NewConnection) == [Event.UpdateAvailable(["1.1.1", "1.2.0", "2.0.0"])]
    ensures Decide(DownloadUpdate("2.0.0"), State.UpdateAvailable(["1.1.1", "1.2.0", "2.0.0"]))
         == [GotUpdateData("Download data for v2.0.0")]
  {
    AvailableUpdatesOfPublished(2);
    DownloadOffered(["1.1.1", "1.2.0", "2.0.0"], 5);
  }

  /** A client on 2.0.0 is up to date, and one on 3.0.0 is on an unknown version. */
  lemma ExampleQueries()
    ensures Decide(QueryForUpdate("2.0.0"), NewConnection) == [AlreadyUpToDate]
    ensures Decide(QueryForUpdate("3.0.0"), NewConnection) == [UnknownVersionQueried("3.0.0")]
  {
    AvailableUpdatesOfPublished(5);
  }
}
