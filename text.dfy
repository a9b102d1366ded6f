/**
 * The string helpers the command layer relies on: joining a list with a
 * separator (strings.Join), rendering an integer the way `%v` does, and
 * replacing the first occurrence of a placeholder (strings.Replace with n = 1).
 * Each comes with the inverse or characterisation that pins it down.
 */
module Text {

  datatype Option<T> = None | Some(value: T)

  // ---------------------------------------------------------------- Join

  /** The parts separated by `sep`; no separator before the first or after the last. */
  function Join(parts: seq<string>, sep: string): string
    decreases |parts|
  {
    if |parts| == 0 then ""
    else if |parts| == 1 then parts[0]
    else parts[0] + sep + Join(parts[1..], sep)
  }

  /** A character found in neither the parts nor the separator is not in the joined string. */
  lemma {:induction false} JoinWithout(parts: seq<string>, sep: string, c: char)
    requires c !in sep
    requires forall i :: 0 <= i < |parts| ==> c !in parts[i]
    ensures c !in Join(parts, sep)
    decreases |parts|
  {
    if |parts| > 1 {
      JoinWithout(parts[1..], sep, c);
    }
  }

  /**
   * Cutting `s` at every occurrence of the character `c`: the reference
   * inverse of Join for single-character separators. Like strings.Split,
   * the empty string gives one empty part.
   */
  function Split(s: string, c: char): (parts: seq<string>)
    ensures |parts| >= 1
    decreases |s|
  {
    if s == [] then [""]
    else if s[0] == c then [""] + Split(s[1..], c)
    else
      var rest := Split(s[1..], c);
      [[s[0]] + rest[0]] + rest[1..]
  }

  /** A string free of `c` is not cut. */
  lemma {:induction false} SplitWithout(s: string, c: char)
    requires c !in s
    ensures Split(s, c) == [s]
    decreases |s|
  {
    if s != [] {
      assert c !in s[1..];
      SplitWithout(s[1..], c);
      assert [s[0]] + s[1..] == s;
    }
  }

  /** The first cut of `x + [c] + t` falls right after `x` when `x` is free of `c`. */
  lemma {:induction false} SplitAfter(x: string, c: char, t: string)
    requires c !in x
    ensures Split(x + [c] + t, c) == [x] + Split(t, c)
    decreases |x|
  {
    var s := x + [c] + t;
    if x == [] {
      assert s[0] == c && s[1..] == t;
    } else {
      assert s[0] == x[0] && s[1..] == x[1..] + [c] + t;
      assert c !in x[1..];
      SplitAfter(x[1..], c, t);
      assert [x[0]] + x[1..] == x;
    }
  }

  /** Join with a one-character separator is undone by Split, when no part holds the separator. */
  lemma {:induction false} SplitJoin(parts: seq<string>, c: char)
    requires |parts| >= 1
    requires forall i :: 0 <= i < |parts| ==> c !in parts[i]
    ensures Split(Join(parts, [c]), c) == parts
    decreases |parts|
  {
    if |parts| == 1 {
      SplitWithout(parts[0], c);
    } else {
      SplitAfter(parts[0], c, Join(parts[1..], [c]));
      SplitJoin(parts[1..], c);
      assert [parts[0]] + parts[1..] == parts;
    }
  }

  // ------------------------------------------------- decimal rendering (%v)

  predicate IsDigit(c: char) { '0' <= c <= '9' }

  function DigitChar(d: nat): (c: char)
    requires d < 10
    ensures IsDigit(c)
  {
    ('0' as int + d) as char
  }

  function DigitValue(c: char): (d: nat)
    requires IsDigit(c)
    ensures d < 10 && DigitChar(d) == c
  {
    (c as int - '0' as int) as nat
  }

  /** The decimal digits of `n`, most significant first, without leading zeros. */
  function NatDigits(n: nat): (s: string)
    ensures |s| >= 1
    ensures forall i :: 0 <= i < |s| ==> IsDigit(s[i])
    ensures |s| > 1 ==> s[0] != '0'
    decreases n
  {
    if n < 10 then [DigitChar(n)] else NatDigits(n / 10) + [DigitChar(n % 10)]
  }

  /** `%v` of an integer: its decimal digits, preceded by '-' when it is negative. */
  function Decimal(n: int): string
  {
    if n < 0 then "-" + NatDigits(-n) else NatDigits(n)
  }

  /** Reads a non-empty run of decimal digits. */
  function ParseNat(s: string): Option<nat>
    decreases |s|
  {
    if s == [] || !IsDigit(s[|s| - 1]) then None
    else if |s| == 1 then Some(DigitValue(s[0]))
    else match ParseNat(s[..|s| - 1])
      case None => None
      case Some(v) => Some(v * 10 + DigitValue(s[|s| - 1]))
  }

  /** Reads an optionally negative decimal integer: the inverse of Decimal. */
  function ParseDecimal(s: string): Option<int>
  {
    if |s| > 0 && s[0] == '-' then
      match ParseNat(s[1..])
      case None => None
      case Some(v) => Some(-(v as int))
    else
      match ParseNat(s)
      case None => None
      case Some(v) => Some(v)
  }

  lemma {:induction false} ParseNatDigits(n: nat)
    ensures ParseNat(NatDigits(n)) == Some(n)
    decreases n
  {
    var s := NatDigits(n);
    if n >= 10 {
      assert s[..|s| - 1] == NatDigits(n / 10);
      ParseNatDigits(n / 10);
    }
  }

  /** Rendering an integer loses nothing: it can be read back. */
  lemma DecimalRoundTrip(n: int)
    ensures ParseDecimal(Decimal(n)) == Some(n)
  {
    var s := Decimal(n);
    if n < 0 {
      assert s[0] == '-' && s[1..] == NatDigits(-n);
      ParseNatDigits(-n);
    } else {
      assert IsDigit(s[0]);
      ParseNatDigits(n);
    }
  }

  // --------------------------------------------- strings.Replace(s, p, r, 1)

  /** `pat` occurs in `s` starting at index `j`. */
  predicate OccursAt(s: string, pat: string, j: int)
  {
    0 <= j && j + |pat| <= |s| && s[j..j + |pat|] == pat
  }

  /** An occurrence after the first character is an occurrence in the tail. */
  lemma OccursInTail(s: string, pat: string)
    requires |s| > 0
    ensures forall j {:trigger OccursAt(s, pat, j)} :: 1 <= j ==>
      (OccursAt(s, pat, j) <==> OccursAt(s[1..], pat, j - 1))
  {
    forall j | 1 <= j
      ensures OccursAt(s, pat, j) <==> OccursAt(s[1..], pat, j - 1)
    {
      if j + |pat| <= |s| {
        var a, b := s[j..j + |pat|], s[1..][j - 1..j - 1 + |pat|];
        assert |a| == |b|;
        forall k | 0 <= k < |pat| ensures a[k] == b[k] { }
        assert a == b;
      }
    }
  }

  /** The index of the first occurrence of `pat` in `s`, if any. */
  function FindFirst(s: string, pat: string): (r: Option<nat>)
    ensures r.Some? ==> OccursAt(s, pat, r.value)
    ensures r.Some? ==> forall j :: 0 <= j < r.value ==> !OccursAt(s, pat, j)
    ensures r.None? ==> forall j :: 0 <= j ==> !OccursAt(s, pat, j)
    decreases |s|
  {
    if |pat| > |s| then None
    else if s[..|pat|] == pat then Some(0)
    else
      OccursInTail(s, pat);
      match FindFirst(s[1..], pat)
      case None => None
      case Some(i) => Some(i + 1)
  }

  /**
   * strings.Replace with n = 1: the first occurrence of `pat` becomes `rep`,
   * any later one stays. An empty `pat` matches at the start.
   */
  function ReplaceFirst(s: string, pat: string, rep: string): (r: string)
    ensures (forall j :: 0 <= j ==> !OccursAt(s, pat, j)) ==> r == s
    ensures forall i :: OccursAt(s, pat, i) && (forall j :: 0 <= j < i ==> !OccursAt(s, pat, j)) ==>
      r == s[..i] + rep + s[i + |pat|..]
  {
    match FindFirst(s, pat)
    case None => s
    case Some(i) => s[..i] + rep + s[i + |pat|..]
  }

  /**
   * When the text before a placeholder cannot start a match (it lacks the
   * placeholder's first character), exactly that placeholder is replaced and
   * everything after it, later placeholders included, is kept.
   */
  lemma ReplaceFirstAt(prefix: string, pat: string, rest: string, rep: string)
    requires |pat| > 0 && pat[0] !in prefix
    ensures ReplaceFirst(prefix + pat + rest, pat, rep) == prefix + rep + rest
  {
    var s := prefix + pat + rest;
    assert s[|prefix|..|prefix| + |pat|] == pat;
    assert OccursAt(s, pat, |prefix|);
    assert s[..|prefix|] == prefix;
    assert s[|prefix| + |pat|..] == rest;
  }
}
