/**
  The JavaScript string primitives the timeline parser, the ASCII renderer and the
  explanation renderer rely on: whitespace, `trim`, `split`, `join`, `repeat`
  and the decimal rendering of integers.
 */
module Text {

  /** The characters `String.prototype.trim` strips and the regular expression
      class `\s` matches: the WhiteSpace and LineTerminator code points of
      section 12.2 and 12.3 of ECMA-262. */
  predicate IsJsSpace(c: char)
  {
    var n := c as int;
    || n == 0x09 || n == 0x0A || n == 0x0B || n == 0x0C || n == 0x0D || n == 0x20
    || n == 0xA0 || n == 0x1680 || (0x2000 <= n <= 0x200A) || n == 0x2028 || n == 0x2029
    || n == 0x202F || n == 0x205F || n == 0x3000 || n == 0xFEFF
  }

  function TrimStart(s: string): (r: string)
    ensures |r| <= |s| && r == s[|s| - |r|..]
    ensures forall k :: 0 <= k < |s| - |r| ==> IsJsSpace(s[k])
    ensures |r| > 0 ==> !IsJsSpace(r[0])
  {
    if |s| > 0 && IsJsSpace(s[0]) then TrimStart(s[1..]) else s
  }

  function TrimEnd(s: string): (r: string)
    ensures |r| <= |s| && r == s[..|r|]
    ensures forall k :: |r| <= k < |s| ==> IsJsSpace(s[k])
    ensures |r| > 0 ==> !IsJsSpace(r[|r| - 1])
  {
    if |s| > 0 && IsJsSpace(s[|s| - 1]) then TrimEnd(s[..|s| - 1]) else s
  }

  /** `r` is `s` from position `a` on, with only whitespace cut off on either side. */
  ghost predicate SliceWithinSpace(s: string, a: int, r: string)
  {
    && 0 <= a && a + |r| <= |s| && r == s[a..a + |r|]
    && (forall k :: 0 <= k < a ==> IsJsSpace(s[k]))
    && (forall k :: a + |r| <= k < |s| ==> IsJsSpace(s[k]))
  }

  /** `String.prototype.trim`: the slice of `s` left after removing leading and
      trailing whitespace. */
  function Trim(s: string): (r: string)
    ensures exists a :: SliceWithinSpace(s, a, r)
    ensures |r| > 0 ==> !IsJsSpace(r[0]) && !IsJsSpace(r[|r| - 1])
  {
    var t := TrimStart(s);
    var r := TrimEnd(t);
    var a := |s| - |t|;
    assert SliceWithinSpace(s, a, r);
    r
  }

  /** `Array.prototype.join(sep)`. */
  function JoinWith(parts: seq<string>, sep: string): string
  {
    if |parts| == 0 then ""
    else if |parts| == 1 then parts[0]
    else parts[0] + sep + JoinWith(parts[1..], sep)
  }

  /** The position of the first `c` in `s`, if any. */
  function FindChar(s: string, c: char): (r: int)
    ensures -1 <= r < |s|
    ensures r == -1 ==> c !in s
    ensures r >= 0 ==> s[r] == c && c !in s[..r]
  {
    if |s| == 0 then -1
    else if s[0] == c then 0
    else
      var k := FindChar(s[1..], c);
      if k == -1 then -1 else k + 1
  }

  /** The first separator of `x + [sep] + y` is the one after `x` when `x` has none. */
  lemma FirstSeparatorAfter(x: string, sep: char, y: string)
    requires sep !in x
    ensures FindChar(x + [sep] + y, sep) == |x|
  {
    var k := x + [sep] + y;
    assert k[|x|] == sep;
    forall j | 0 <= j < |x|
      ensures k[j] != sep
    {
      assert k[j] == x[j];
    }
  }

  /** A join starts with its first piece. */
  lemma {:induction false} JoinStartsWithFirst(parts: seq<string>, sep: string)
    requires |parts| > 0
    ensures |JoinWith(parts, sep)| >= |parts[0]| && JoinWith(parts, sep)[..|parts[0]|] == parts[0]
  {
  }

  /** Joining is injective on non-empty pieces free of a one-character separator. */
  lemma {:induction false} JoinInjective(a: seq<string>, b: seq<string>, sep: char)
    requires forall i :: 0 <= i < |a| ==> |a[i]| > 0 && sep !in a[i]
    requires forall i :: 0 <= i < |b| ==> |b[i]| > 0 && sep !in b[i]
    requires JoinWith(a, [sep]) == JoinWith(b, [sep])
    ensures a == b
    decreases |a|
  {
    var s := JoinWith(a, [sep]);
    if |a| == 0 || |b| == 0 {
      if |a| > 0 {
        JoinStartsWithFirst(a, [sep]);
      }
      if |b| > 0 {
        JoinStartsWithFirst(b, [sep]);
      }
    } else {
      if |a| > 1 {
        FirstSeparatorAfter(a[0], sep, JoinWith(a[1..], [sep]));
      }
      if |b| > 1 {
        FirstSeparatorAfter(b[0], sep, JoinWith(b[1..], [sep]));
      }
      var ka := FindChar(s, sep);
      if |a| > 1 && |b| > 1 {
        assert a[0] == s[..ka] == b[0];
        assert JoinWith(a[1..], [sep]) == s[ka + 1..] == JoinWith(b[1..], [sep]);
        JoinInjective(a[1..], b[1..], sep);
      }
    }
  }

  /** `String.prototype.split` with a one-character separator: the text before
      the first separator, then the split of the rest (see `SplitSpec`). */
  function Split(s: string, sep: char): (r: seq<string>)
    ensures |r| >= 1
    decreases |s|
  {
    var k := FindChar(s, sep);
    if k == -1 then [s] else [s[..k]] + Split(s[k + 1..], sep)
  }

  /** No piece holds the separator, and joining the pieces back gives `s`. */
  lemma {:induction false} SplitSpec(s: string, sep: char)
    ensures forall i :: 0 <= i < |Split(s, sep)| ==> sep !in Split(s, sep)[i]
    ensures JoinWith(Split(s, sep), [sep]) == s
    decreases |s|
  {
    var k := FindChar(s, sep);
    if k != -1 {
      var rest := Split(s[k + 1..], sep);
      SplitSpec(s[k + 1..], sep);
      var r := [s[..k]] + rest;
      assert r[1..] == rest;
      assert s == s[..k] + [sep] + s[k + 1..];
      forall i | 1 <= i < |r|
        ensures sep !in r[i]
      {
        assert r[i] == rest[i - 1];
      }
    }
  }

  /** Splitting a join recovers the pieces when none holds the separator. */
  lemma {:induction false} SplitJoin(parts: seq<string>, sep: char)
    requires |parts| >= 1
    requires forall i :: 0 <= i < |parts| ==> sep !in parts[i]
    ensures Split(JoinWith(parts, [sep]), sep) == parts
  {
    if |parts| > 1 {
      var s := JoinWith(parts, [sep]);
      var tail := JoinWith(parts[1..], [sep]);
      assert s == parts[0] + [sep] + tail;
      FirstSeparatorAfter(parts[0], sep, tail);
      assert s[..|parts[0]|] == parts[0];
      assert s[|parts[0]| + 1..] == tail;
      SplitJoin(parts[1..], sep);
      assert Split(s, sep) == [parts[0]] + Split(tail, sep);
      assert [parts[0]] + parts[1..] == parts;
    } else {
      assert FindChar(parts[0], sep) == -1;
    }
  }

  /** `"-".repeat(n)` for a count JavaScript accepts. */
  function Repeat(c: char, n: nat): (r: string)
    ensures |r| == n && forall k :: 0 <= k < n ==> r[k] == c
  {
    seq(n, _ => c)
  }

  predicate IsDigit(c: char)
  {
    '0' <= c <= '9'
  }

  function DigitChar(d: nat): (c: char)
    requires d < 10
    ensures IsDigit(c) && DigitValue(c) == d
  {
    ['0', '1', '2', '3', '4', '5', '6', '7', '8', '9'][d]
  }

  /** Decimal digits of `n`, most significant first, with no leading zero. */
  function NatToString(n: nat): (r: string)
    ensures |r| > 0 && forall k :: 0 <= k < |r| ==> IsDigit(r[k])
    ensures |r| > 1 ==> r[0] != '0'
    ensures n < 10 <==> |r| == 1
  {
    if n < 10 then [DigitChar(n)] else NatToString(n / 10) + [DigitChar(n % 10)]
  }

  /** `${n}` for an integer below 10^21 in magnitude, which JavaScript spells
      in plain decimal digits. */
  function IntToString(n: int): (r: string)
    ensures |r| > 0
    ensures n >= 0 ==> r == NatToString(n)
    ensures n < 0 ==> r == "-" + NatToString(-n)
  {
    if n < 0 then "-" + NatToString(-n) else NatToString(n)
  }

  function DigitValue(c: char): nat
    requires IsDigit(c)
  {
    (c as int) - ('0' as int)
  }

  /** The value of a digit string, read most significant digit first. */
  function DigitsValue(s: string): nat
    requires forall k :: 0 <= k < |s| ==> IsDigit(s[k])
  {
    if |s| == 0 then 0 else 10 * DigitsValue(s[..|s| - 1]) + DigitValue(s[|s| - 1])
  }

  /** Reading the digits back gives the number rendered. */
  lemma {:induction false} NatToStringRoundTrip(n: nat)
    ensures DigitsValue(NatToString(n)) == n
  {
    if n >= 10 {
      NatToStringRoundTrip(n / 10);
      var r := NatToString(n);
      assert r[..|r| - 1] == NatToString(n / 10);
    }
  }
}
