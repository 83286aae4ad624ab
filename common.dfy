/** Vocabulary shared by every module: optional values, bytes, and the few
    pieces of the Rust standard library the converter leans on (ASCII
    lower-casing, decimal printing and parsing of unsigned integers,
    `str::replace`, and the file-name parts of `Path`). */
module Common {

  datatype Option<+T> = None | Some(value: T) {
    function GetOr(default: T): T {
      match this
      case Some(v) => v
      case None => default
    }
  }

  /** An 8-bit unsigned integer (`u8`). */
  type byte = b: int | 0 <= b < 256

  const U8Max: nat := 255
  const U32Max: nat := 0xFFFF_FFFF
  /** `usize` on the 64-bit targets the application is built for. */
  const UsizeMax: nat := 0xFFFF_FFFF_FFFF_FFFF

  function Min(a: nat, b: nat): (r: nat)
    ensures r <= a && r <= b && (r == a || r == b)
  {
    if a <= b then a else b
  }

  predicate StartsWith<T(==)>(s: seq<T>, prefix: seq<T>) {
    |prefix| <= |s| && s[..|prefix|] == prefix
  }

  // ---------------------------------------------------------------- ASCII

  function LowerChar(c: char): char {
    if 'A' <= c <= 'Z' then (c as int + 32) as char else c
  }

  /** `to_lowercase`, restricted to ASCII letters. */
  function AsciiLower(s: string): (r: string)
    ensures |r| == |s|
    ensures forall i :: 0 <= i < |r| ==> !('A' <= r[i] <= 'Z')
    ensures forall i :: 0 <= i < |s| && !('A' <= s[i] <= 'Z') ==> r[i] == s[i]
    ensures forall i :: 0 <= i < |s| && 'A' <= s[i] <= 'Z' ==> r[i] as int == s[i] as int + 32
  {
    seq(|s|, i requires 0 <= i < |s| => LowerChar(s[i]))
  }

  predicate IsDigit(c: char) {
    '0' <= c <= '9'
  }

  predicate AllDigits(s: string) {
    forall i :: 0 <= i < |s| ==> IsDigit(s[i])
  }

  // ------------------------------------------------- decimal print / parse

  function DigitChar(d: nat): (c: char)
    requires d < 10
    ensures IsDigit(c) && c as int - '0' as int == d
  {
    (d + '0' as int) as char
  }

  function DigitValue(c: char): (d: nat)
    requires IsDigit(c)
    ensures d < 10
  {
    c as int - '0' as int
  }

  /** Decimal rendering of an unsigned integer, as `to_string` and `{}` print it:
      no sign, no leading zero. */
  function NatToString(n: nat): (s: string)
    ensures 1 <= |s| && AllDigits(s)
    ensures s[0] == '0' ==> n == 0
  {
    if n < 10 then [DigitChar(n)] else NatToString(n / 10) + [DigitChar(n % 10)]
  }

  /** The value of a string of decimal digits, most significant first. */
  function DigitsValue(s: string): nat
    requires AllDigits(s)
  {
    if s == [] then 0 else DigitsValue(s[..|s| - 1]) * 10 + DigitValue(s[|s| - 1])
  }

  /** `<uN as FromStr>::from_str` for an unsigned type whose largest value is
      `max`: an optional leading `+`, then at least one decimal digit, and a
      value that fits. Anything else is an error (`None`). */
  function ParseUnsigned(s: string, max: nat): (r: Option<nat>)
    ensures r.Some? ==> r.value <= max
    ensures r.Some? ==> 1 <= |s|
  {
    var digits := if 1 <= |s| && s[0] == '+' then s[1..] else s;
    if digits == [] || !AllDigits(digits) then None
    else if DigitsValue(digits) <= max then Some(DigitsValue(digits))
    else None
  }

  lemma {:induction false} DigitsValueOfNatToString(n: nat)
    ensures DigitsValue(NatToString(n)) == n
  {
    if n >= 10 {
      DigitsValueOfNatToString(n / 10);
      var s := NatToString(n);
      assert s[..|s| - 1] == NatToString(n / 10);
    }
  }

  /** Printing a number and parsing it back yields the number, whenever it fits
      the target type. */
  lemma ParseNatToString(n: nat, max: nat)
    requires n <= max
    ensures ParseUnsigned(NatToString(n), max) == Some(n)
  {
    DigitsValueOfNatToString(n);
  }

  lemma NatToStringInjective(a: nat, b: nat)
    requires NatToString(a) == NatToString(b)
    ensures a == b
  {
    DigitsValueOfNatToString(a);
    DigitsValueOfNatToString(b);
  }

  /** The texts `from_str` refuses for an unsigned type whose largest value
      is `max`: the empty text, a lone `+`, a first character that is neither
      `+` nor a digit, a non-digit after the first character, and a numeral,
      signed or not, whose value exceeds `max`. */
  predicate NotUnsignedText(s: string, max: nat) {
    || s == [] || s == "+"
    || (s[0] != '+' && !IsDigit(s[0]))
    || (exists i :: 1 <= i < |s| && !IsDigit(s[i]))
    || (AllDigits(s) && DigitsValue(s) > max)
    || (s[0] == '+' && AllDigits(s[1..]) && DigitsValue(s[1..]) > max)
  }

  /** A text fails to parse exactly when it is one of the refused texts. */
  lemma ParseRejectsNonNumbers(s: string, max: nat)
    ensures ParseUnsigned(s, max) == None <==> NotUnsignedText(s, max)
  {
  }

  // --------------------------------------------------------- str::replace

  /** `s.replace(pat, rep)`: every non-overlapping occurrence of `pat`, found
      left to right, is replaced by `rep`. */
  function ReplaceAll(s: string, pat: string, rep: string): (r: string)
    requires pat != []
    ensures |rep| == |pat| ==> |r| == |s|
    ensures |s| < |pat| ==> r == s
    decreases |s|
  {
    if |s| < |pat| then s
    else if s[..|pat|] == pat then rep + ReplaceAll(s[|pat|..], pat, rep)
    else [s[0]] + ReplaceAll(s[1..], pat, rep)
  }

  predicate OccursAt(s: string, pat: string, i: nat) {
    i + |pat| <= |s| && s[i..i + |pat|] == pat
  }

  /** A string in which the pattern does not occur is left as it is. */
  lemma {:induction false} ReplaceAllWithoutOccurrence(s: string, pat: string, rep: string)
    requires pat != []
    requires forall i: nat :: !OccursAt(s, pat, i)
    ensures ReplaceAll(s, pat, rep) == s
    decreases |s|
  {
    if |s| >= |pat| {
      assert !OccursAt(s, pat, 0);
      assert s[..|pat|] != pat;
      forall i: nat ensures !OccursAt(s[1..], pat, i) {
        assert !OccursAt(s, pat, i + 1);
        if i + |pat| <= |s[1..]| {
          assert s[1..][i..i + |pat|] == s[i + 1..i + 1 + |pat|];
        }
      }
      ReplaceAllWithoutOccurrence(s[1..], pat, rep);
      assert [s[0]] + s[1..] == s;
    }
  }

  /** Replacing a pattern by itself changes nothing. */
  lemma {:induction false} ReplaceAllByItself(s: string, pat: string)
    requires pat != []
    ensures ReplaceAll(s, pat, pat) == s
    decreases |s|
  {
    if |s| >= |pat| {
      if s[..|pat|] == pat {
        ReplaceAllByItself(s[|pat|..], pat);
        assert s[..|pat|] + s[|pat|..] == s;
      } else {
        ReplaceAllByItself(s[1..], pat);
        assert [s[0]] + s[1..] == s;
      }
    }
  }

  // ---------------------------------------------------------------- paths

  /** A file-system path, reduced to what the converter asks of it: the parent
      directory (`Path::parent`, `None` for a root) and the final component
      (`Path::file_name`, empty when there is none). */
  datatype FilePath = FilePath(parent: Option<string>, fileName: string)

  /** `dir.join(name)`. */
  function Join(dir: string, name: string): FilePath {
    FilePath(Some(dir), name)
  }

  /** Index of the last '.' in `name`, if any. */
  function LastDot(name: string): (r: Option<nat>)
    ensures r.Some? ==> r.value < |name| && name[r.value] == '.'
    ensures r.Some? ==> forall j :: r.value < j < |name| ==> name[j] != '.'
    ensures r.None? ==> forall j :: 0 <= j < |name| ==> name[j] != '.'
  {
    if name == [] then None
    else if name[|name| - 1] == '.' then Some(|name| - 1)
    else LastDot(name[..|name| - 1])
  }

  /** `Path::file_stem`: the file name up to its last '.', unless that dot is
      the first character; `unwrap_or_default` makes a missing name empty. */
  function FileStem(p: FilePath): (r: string)
    ensures r <= p.fileName
    ensures r != p.fileName ==> p.fileName[|r|] == '.' && |r| > 0
  {
    var name := p.fileName;
    match LastDot(name)
    case Some(k) => if k == 0 then name else name[..k]
    case None => name
  }

  /** `Path::extension`: what follows the last '.', when that dot is not the
      first character of the file name; `unwrap_or_default` gives "" otherwise. */
  function Extension(p: FilePath): (r: string)
    ensures |r| <= |p.fileName| && r == p.fileName[|p.fileName| - |r|..]
    ensures forall j :: 0 <= j < |r| ==> r[j] != '.'
  {
    var name := p.fileName;
    match LastDot(name)
    case Some(k) => if k == 0 then "" else name[k + 1..]
    case None => ""
  }

  /** Stem, dot and extension put back together give the file name. */
  lemma StemDotExtension(p: FilePath)
    requires LastDot(p.fileName).Some? && LastDot(p.fileName).value > 0
    ensures FileStem(p) + "." + Extension(p) == p.fileName
  {
    var k := LastDot(p.fileName).value;
    assert p.fileName == p.fileName[..k] + [p.fileName[k]] + p.fileName[k + 1..];
  }

  // ------------------------------------------------ sequence helpers

  /** How many elements of `xs` satisfy `p`. */
  function CountWhere<T>(xs: seq<T>, p: T -> bool): (c: nat)
    ensures c <= |xs|
  {
    if xs == [] then 0
    else CountWhere(xs[..|xs| - 1], p) + (if p(xs[|xs| - 1]) then 1 else 0)
  }

  lemma CountWhereExtend<T>(xs: seq<T>, p: T -> bool, i: nat)
    requires i < |xs|
    ensures CountWhere(xs[..i + 1], p) == CountWhere(xs[..i], p) + (if p(xs[i]) then 1 else 0)
  {
    assert xs[..i + 1][..i] == xs[..i];
  }

  /** The count is zero exactly when no element satisfies `p`. */
  lemma {:induction false} CountWhereZeroIff<T>(xs: seq<T>, p: T -> bool)
    ensures CountWhere(xs, p) == 0 <==> forall k :: 0 <= k < |xs| ==> !p(xs[k])
  {
    if xs != [] {
      var init := xs[..|xs| - 1];
      CountWhereZeroIff(init, p);
      assert forall k :: 0 <= k < |init| ==> init[k] == xs[k];
    }
  }

  /** Replacing one element changes the count by what the old and the new
      element contribute. */
  lemma {:induction false} CountWhereUpdate<T>(xs: seq<T>, p: T -> bool, k: nat, v: T)
    requires k < |xs|
    ensures CountWhere(xs[k := v], p) == CountWhere(xs, p) - (if p(xs[k]) then 1 else 0) + (if p(v) then 1 else 0)
  {
    var n := |xs| - 1;
    var ys := xs[k := v];
    if k == n {
      assert ys[..n] == xs[..n];
    } else {
      assert ys[..n] == xs[..n][k := v];
      CountWhereUpdate(xs[..n], p, k, v);
    }
  }

  /** Every element is counted exactly when every element satisfies `p`. */
  lemma {:induction false} CountWhereAll<T>(xs: seq<T>, p: T -> bool)
    ensures CountWhere(xs, p) == |xs| <==> forall k :: 0 <= k < |xs| ==> p(xs[k])
  {
    if xs != [] {
      var init := xs[..|xs| - 1];
      CountWhereAll(init, p);
      assert forall k :: 0 <= k < |init| ==> init[k] == xs[k];
    }
  }

  /** The count over `xs` is the count over its first `i` elements plus the
      count over the rest. */
  lemma {:induction false} CountWhereSplit<T>(xs: seq<T>, p: T -> bool, i: nat)
    requires i <= |xs|
    ensures CountWhere(xs, p) == CountWhere(xs[..i], p) + CountWhere(xs[i..], p)
  {
    if i < |xs| {
      var n := |xs| - 1;
      CountWhereSplit(xs[..n], p, i);
      assert xs[..n][..i] == xs[..i];
      assert xs[i..][..|xs[i..]| - 1] == xs[..n][i..];
    } else {
      assert xs[..i] == xs;
    }
  }

  /** Each element satisfies exactly one of `p` and `q`, so the two counts
      add up to the length. */
  lemma {:induction false} CountWhereComplement<T>(xs: seq<T>, p: T -> bool, q: T -> bool)
    requires forall k :: 0 <= k < |xs| ==> p(xs[k]) != q(xs[k])
    ensures CountWhere(xs, p) + CountWhere(xs, q) == |xs|
  {
    if xs != [] {
      var init := xs[..|xs| - 1];
      assert forall k :: 0 <= k < |init| ==> init[k] == xs[k];
      CountWhereComplement(init, p, q);
    }
  }

  /** `f` applied to each element and its index, in order. */
  function MapIndexed<T, U>(xs: seq<T>, f: (nat, T) -> U): (r: seq<U>)
    ensures |r| == |xs|
    ensures forall i :: 0 <= i < |xs| ==> r[i] == f(i, xs[i])
  {
    if xs == [] then []
    else
      var n := |xs| - 1;
      assert forall i :: 0 <= i < n ==> xs[..n][i] == xs[i];
      MapIndexed(xs[..n], f) + [f(n, xs[n])]
  }

  lemma MapIndexedExtend<T, U>(xs: seq<T>, f: (nat, T) -> U, i: nat)
    requires i < |xs|
    ensures MapIndexed(xs[..i + 1], f) == MapIndexed(xs[..i], f) + [f(i, xs[i])]
  {
    assert xs[..i + 1][..i] == xs[..i];
  }

  /** Adjacent slices join into one. */
  lemma SlicesJoin<T>(s: seq<T>, i: nat, j: nat, k: nat)
    requires i <= j <= k <= |s|
    ensures s[i..j] + s[j..k] == s[i..k]
  {
  }
}
