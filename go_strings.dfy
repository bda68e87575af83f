/**
 * The pieces of Go's `strings` and `strconv` packages that the tools call:
 * `strings.Join`, `strings.Split` with a one-character separator,
 * `strings.TrimPrefix`, decimal formatting of a non-negative integer (`%d`)
 * and `strconv.Atoi`.
 */
module GoStrings {
  import opened Wrappers

  const MinInt64: int := -0x8000_0000_0000_0000
  const MaxInt64: int := 0x7fff_ffff_ffff_ffff

  /** `strings.Join(parts, sep)`: the parts in order, with `sep` between neighbours. */
  function Join(parts: seq<string>, sep: string): (r: string)
    ensures parts == [] ==> r == ""
    ensures |parts| > 0 ==> parts[0] <= r
    ensures |parts| > 1 ==> parts[0] + sep <= r
    ensures forall i :: 0 <= i < |parts| ==> |parts[i]| <= |r|
  {
    if |parts| == 0 then ""
    else if |parts| == 1 then parts[0]
    else parts[0] + sep + Join(parts[1..], sep)
  }

  /** `strings.Split(s, string(sep))`: the pieces between separators; never empty. */
  function Split(s: string, sep: char): (r: seq<string>)
    ensures |r| >= 1
    ensures forall i :: 0 <= i < |r| ==> sep !in r[i]
  {
    if s == [] then [""]
    else
      var rest := Split(s[1..], sep);
      if s[0] == sep then [""] + rest
      else [[s[0]] + rest[0]] + rest[1..]
  }

  lemma JoinConsHead(c: char, parts: seq<string>, sep: string)
    requires |parts| >= 1
    ensures Join([[c] + parts[0]] + parts[1..], sep) == [c] + Join(parts, sep)
  {
    var q := [[c] + parts[0]] + parts[1..];
    assert q[1..] == parts[1..];
  }

  /** Joining the pieces of a split with the separator restores the string. */
  lemma {:induction false} JoinSplit(s: string, sep: char)
    ensures Join(Split(s, sep), [sep]) == s
  {
    if s != [] {
      var rest := Split(s[1..], sep);
      JoinSplit(s[1..], sep);
      if s[0] == sep {
        var q := [""] + rest;
        assert q[1..] == rest;
        assert Join(q, [sep]) == "" + [sep] + Join(rest, [sep]);
      } else {
        JoinConsHead(s[0], rest, [sep]);
      }
      assert s == [s[0]] + s[1..];
    }
  }

  lemma {:induction false} SplitPiece(p: string, t: string, sep: char)
    requires sep !in p
    ensures Split(p + [sep] + t, sep) == [p] + Split(t, sep)
  {
    if p == [] {
      assert ([] + [sep] + t)[1..] == t;
    } else {
      var s := p + [sep] + t;
      assert s[0] == p[0] && s[1..] == p[1..] + [sep] + t;
      SplitPiece(p[1..], t, sep);
      assert [p[0]] + p[1..] == p;
    }
  }

  lemma {:induction false} SplitLast(p: string, sep: char)
    requires sep !in p
    ensures Split(p, sep) == [p]
  {
    if p != [] {
      SplitLast(p[1..], sep);
      assert [p[0]] + p[1..] == p;
    }
  }

  /** Splitting a join of separator-free pieces gives the pieces back. */
  lemma {:induction false} SplitJoin(parts: seq<string>, sep: char)
    requires |parts| >= 1
    requires forall i :: 0 <= i < |parts| ==> sep !in parts[i]
    ensures Split(Join(parts, [sep]), sep) == parts
  {
    if |parts| == 1 {
      SplitLast(parts[0], sep);
    } else {
      SplitJoin(parts[1..], sep);
      SplitPiece(parts[0], Join(parts[1..], [sep]), sep);
      assert [parts[0]] + parts[1..] == parts;
    }
  }

  /** `strings.TrimPrefix`: removes one leading occurrence of `prefix`, if there is one. */
  function TrimPrefix(s: string, prefix: string): (r: string)
    ensures prefix <= s ==> prefix + r == s
    ensures !(prefix <= s) ==> r == s
  {
    if prefix <= s then s[|prefix|..] else s
  }

  lemma TrimAddedPrefix(prefix: string, p: string)
    ensures TrimPrefix(prefix + p, prefix) == p
  {
    assert prefix <= prefix + p;
    assert (prefix + p)[|prefix|..] == p;
  }

  /** The first index of `c` in `s`, if any. */
  function IndexOf(s: string, c: char): (r: Option<nat>)
    ensures r.None? <==> c !in s
    ensures r.Some? ==> r.value < |s| && s[r.value] == c && c !in s[..r.value]
  {
    if s == [] then None
    else if s[0] == c then Some(0)
    else
      match IndexOf(s[1..], c)
      case None => None
      case Some(i) =>
        assert s[..i + 1] == [s[0]] + s[1..][..i];
        Some(i + 1)
  }

  lemma IndexOfAt(s: string, c: char, i: nat)
    requires i < |s| && s[i] == c && c !in s[..i]
    ensures IndexOf(s, c) == Some(i)
  {
    var r := IndexOf(s, c);
    assert s[i] in s;
  }

  predicate IsDigit(c: char)
  {
    '0' <= c <= '9'
  }

  predicate AllDigits(s: string)
  {
    forall i :: 0 <= i < |s| ==> IsDigit(s[i])
  }

  function DigitChar(d: nat): (c: char)
    requires d < 10
    ensures IsDigit(c)
  {
    (('0' as int) + d) as char
  }

  function DigitValue(c: char): (d: nat)
    requires IsDigit(c)
    ensures d < 10
  {
    (c as int) - ('0' as int)
  }

  /** The number a string of decimal digits denotes. */
  function DigitsValue(s: string): nat
    requires AllDigits(s)
  {
    if s == [] then 0 else DigitsValue(s[..|s| - 1]) * 10 + DigitValue(s[|s| - 1])
  }

  /** `%d` of a non-negative integer: its shortest decimal representation. */
  function DecimalString(n: nat): (r: string)
    ensures |r| >= 1 && AllDigits(r)
    ensures DigitsValue(r) == n
    ensures r[0] == '0' ==> n == 0
    ensures |r| > 1 ==> r[0] != '0'
    ensures n == 0 ==> r == "0"
  {
    if n < 10 then [DigitChar(n)]
    else
      var high := DecimalString(n / 10);
      var r := high + [DigitChar(n % 10)];
      assert r[..|r| - 1] == high;
      r
  }

  /**
   * `strconv.Atoi`: an optional sign followed by at least one decimal digit,
   * whose value lies in the 64-bit signed range; anything else is an error.
   */
  function Atoi(s: string): (r: Option<int>)
    ensures r.Some? ==> s != "" && MinInt64 <= r.value <= MaxInt64
  {
    if s == "" then None
    else
      var digits := if s[0] == '+' || s[0] == '-' then s[1..] else s;
      if digits == "" || !AllDigits(digits) then None
      else
        var magnitude := DigitsValue(digits);
        var v: int := if s[0] == '-' then -(magnitude as int) else magnitude;
        if MinInt64 <= v <= MaxInt64 then Some(v) else None
  }

  /**
   * What Atoi accepts: an optional sign and then at least one digit. With
   * `AtoiSigned` this characterises success and the value completely.
   */
  lemma AtoiAccepts(s: string)
    requires Atoi(s).Some?
    ensures s[0] == '+' || s[0] == '-' || IsDigit(s[0])
    ensures !IsDigit(s[0]) ==> |s| >= 2
    ensures AllDigits(s[1..])
  {
  }

  /** On a sign and a digit string, Atoi gives the signed value exactly when it is in range. */
  lemma AtoiSigned(sign: string, d: string)
    requires sign == "" || sign == "+" || sign == "-"
    requires d != "" && AllDigits(d)
    ensures var v: int := if sign == "-" then -(DigitsValue(d) as int) else DigitsValue(d);
      Atoi(sign + d) == if MinInt64 <= v <= MaxInt64 then Some(v) else None
  {
    var s := sign + d;
    if sign == "" {
      assert s == d;
      assert IsDigit(s[0]);
    } else {
      assert s[1..] == d;
    }
  }

  /** Atoi reads back what `%d` prints, for every value in range. */
  lemma AtoiDecimal(n: nat)
    requires n <= MaxInt64
    ensures Atoi(DecimalString(n)) == Some(n)
  {
    var s := DecimalString(n);
    assert IsDigit(s[0]);
  }

  lemma AtoiNegative(n: nat)
    requires 1 <= n <= -MinInt64
    ensures Atoi("-" + DecimalString(n)) == Some(-(n as int))
  {
    var s := "-" + DecimalString(n);
    assert s[1..] == DecimalString(n);
  }
}
