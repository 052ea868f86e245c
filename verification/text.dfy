/** The Python `str` operations the MegaCLI parser is built from:
    `startswith`, `in`, `count`, `split(sep)` with an explicit one-character
    separator, and `int()` on a decimal literal.
 */
module Text {
  import opened Results

  // ---------------------------------------------------------------------------
  // Prefix, substring and occurrence count
  // ---------------------------------------------------------------------------

  /** `s.startswith(p)` */
  predicate StartsWith(s: string, p: string) {
    |p| <= |s| && s[..|p|] == p
  }

  /** A line that starts with `p` agrees with `p` at every position of `p`. */
  lemma StartsWithAt(s: string, p: string, k: nat)
    requires StartsWith(s, p) && k < |p|
    ensures k < |s| && s[k] == p[k]
  {
    assert s[..|p|][k] == s[k];
  }

  /** `p in s`: `p` occurs in `s` at some position. */
  predicate Contains(s: string, p: string)
    decreases |s|
  {
    StartsWith(s, p) || (|s| > 0 && Contains(s[1..], p))
  }

  /** `startswith` agrees with its pointwise reading: `p` is no longer than
      `s` and `s` holds `p`'s character at every position of `p`. */
  lemma StartsWithIffAgrees(s: string, p: string)
    ensures StartsWith(s, p) <==> |p| <= |s| && forall k :: 0 <= k < |p| ==> s[k] == p[k]
  {
    if |p| <= |s| && forall k :: 0 <= k < |p| ==> s[k] == p[k] {
      assert s[..|p|] == p;
    }
  }

  /** `in` agrees with its positional reading: `p` occurs in `s` exactly when
      some suffix of `s` starts with `p`. */
  lemma {:induction false} ContainsIffOccurs(s: string, p: string)
    ensures Contains(s, p) <==> exists i :: 0 <= i <= |s| && StartsWith(s[i..], p)
    decreases |s|
  {
    assert s[0..] == s;
    if |s| > 0 {
      ContainsIffOccurs(s[1..], p);
      if exists i :: 0 <= i <= |s| && StartsWith(s[i..], p) {
        var i :| 0 <= i <= |s| && StartsWith(s[i..], p);
        if i > 0 {
          assert s[1..][i - 1..] == s[i..];
        }
      }
      if exists i :: 0 <= i <= |s| - 1 && StartsWith(s[1..][i..], p) {
        var i :| 0 <= i <= |s| - 1 && StartsWith(s[1..][i..], p);
        assert s[1..][i..] == s[i + 1..];
      }
    }
  }

  /** `s.count(p)`: the number of non-overlapping occurrences of `p` in `s`,
      scanning left to right; for the empty pattern Python answers `len(s) + 1`.
      A non-zero count is exactly an occurrence, so `s.count(p) < 1` tests
      `p not in s`. */
  function Count(s: string, p: string): (n: nat)
    ensures n > 0 <==> Contains(s, p)
    decreases |s|
  {
    if |p| == 0 then assert StartsWith(s, p); |s| + 1
    else if |s| == 0 then 0
    else if StartsWith(s, p) then 1 + Count(s[|p|..], p)
    else Count(s[1..], p)
  }

  /** Two prefixes that differ at position `k` cannot both start `s`. */
  lemma PrefixesExclusive(s: string, p: string, q: string, k: nat)
    requires k < |p| && k < |q| && p[k] != q[k]
    ensures !(StartsWith(s, p) && StartsWith(s, q))
  {
    if StartsWith(s, p) {
      StartsWithAt(s, p, k);
      if StartsWith(s, q) {
        StartsWithAt(s, q, k);
      }
    }
  }

  // ---------------------------------------------------------------------------
  // `s.split(c)`
  // ---------------------------------------------------------------------------

  /** `s.split(c)` for a one-character separator: the pieces between
      consecutive separators, keeping empty pieces, always at least one. */
  function Split(s: string, c: char): (parts: seq<string>)
    ensures |parts| >= 1
    ensures forall i :: 0 <= i < |parts| ==> c !in parts[i]
    decreases |s|
  {
    if |s| == 0 then [""]
    else
      var rest := Split(s[1..], c);
      if s[0] == c then [""] + rest
      else [[s[0]] + rest[0]] + rest[1..]
  }

  /** `c.join(parts)` */
  function Join(parts: seq<string>, c: char): string
    decreases |parts|
  {
    if |parts| == 0 then ""
    else if |parts| == 1 then parts[0]
    else parts[0] + [c] + Join(parts[1..], c)
  }

  /** `parts[i]` of `s.split(c)`, or the `IndexError` Python raises. */
  function Token(s: string, c: char, i: nat): (r: Result<string>)
    ensures r.Success? <==> i < |Split(s, c)|
    ensures r.Success? ==> c !in r.value
    ensures r.Failure? ==> r.error == IndexError
  {
    var parts := Split(s, c);
    if i < |parts| then Success(parts[i]) else Failure(IndexError)
  }

  /** A leading run without the separator is glued onto the first piece. */
  lemma {:induction false} SplitGlue(p: string, s: string, c: char)
    requires c !in p
    ensures Split(p + s, c) == [p + Split(s, c)[0]] + Split(s, c)[1..]
    decreases |p|
  {
    if |p| > 0 {
      assert (p + s)[1..] == p[1..] + s;
      assert (p + s)[0] == p[0];
      SplitGlue(p[1..], s, c);
      assert [p[0]] + (p[1..] + Split(s, c)[0]) == p + Split(s, c)[0];
    } else {
      assert p + s == s;
      assert p + Split(s, c)[0] == Split(s, c)[0];
      assert Split(s, c) == [Split(s, c)[0]] + Split(s, c)[1..];
    }
  }

  /** `(p + c + s).split(c)` is `[p] + s.split(c)` when `p` holds no `c`. */
  lemma SplitAtFirst(p: string, s: string, c: char)
    requires c !in p
    ensures Split(p + [c] + s, c) == [p] + Split(s, c)
  {
    assert p + [c] + s == p + ([c] + s);
    SplitGlue(p, [c] + s, c);
    assert ([c] + s)[0] == c && ([c] + s)[1..] == s;
    assert Split([c] + s, c) == [""] + Split(s, c);
    assert p + "" == p;
  }

  /** A text without the separator splits into itself. */
  lemma SplitNoSeparator(s: string, c: char)
    requires c !in s
    ensures Split(s, c) == [s]
  {
    SplitGlue(s, "", c);
    assert s + "" == s;
  }

  /** `s.split(c)` has a second piece exactly when `c` occurs in `s`. */
  lemma SeparatorIffTwoPieces(s: string, c: char)
    ensures |Split(s, c)| >= 2 <==> c in s
  {
    if c in s {
      var i := FirstIndex(s, c);
      assert s == s[..i] + [c] + s[i + 1..];
      SplitAtFirst(s[..i], s[i + 1..], c);
    } else {
      SplitNoSeparator(s, c);
    }
  }

  /** Splitting then joining gives the text back. */
  lemma {:induction false} JoinSplit(s: string, c: char)
    ensures Join(Split(s, c), c) == s
    decreases |s|
  {
    if c !in s {
      SplitNoSeparator(s, c);
    } else {
      var k :| 0 <= k < |s| && s[k] == c;
      var i := FirstIndex(s, c);
      var p, rest := s[..i], s[i + 1..];
      assert s == p + [c] + rest;
      SplitAtFirst(p, rest, c);
      JoinSplit(rest, c);
      assert Split(s, c)[1..] == Split(rest, c);
    }
  }

  /** The position of the first `c` in `s`. */
  function FirstIndex(s: string, c: char): (i: nat)
    requires c in s
    ensures i < |s| && s[i] == c && c !in s[..i]
  {
    if s[0] == c then 0 else
      assert c in s[1..] by {
        var k :| 0 <= k < |s| && s[k] == c;
        assert s[1..][k - 1] == c;
      }
      var j := FirstIndex(s[1..], c);
      assert s[..j + 1] == [s[0]] + s[1..][..j];
      j + 1
  }

  /** Joining pieces free of the separator and splitting gives the pieces back. */
  lemma {:induction false} SplitJoin(parts: seq<string>, c: char)
    requires |parts| >= 1
    requires forall i :: 0 <= i < |parts| ==> c !in parts[i]
    ensures Split(Join(parts, c), c) == parts
    decreases |parts|
  {
    if |parts| == 1 {
      SplitNoSeparator(parts[0], c);
    } else {
      SplitJoin(parts[1..], c);
      SplitAtFirst(parts[0], Join(parts[1..], c), c);
      assert [parts[0]] + parts[1..] == parts;
    }
  }

  lemma {:induction false} JoinSnoc(parts: seq<string>, last: string, c: char)
    requires |parts| >= 1
    ensures Join(parts + [last], c) == Join(parts, c) + [c] + last
    decreases |parts|
  {
    if |parts| == 1 {
      assert (parts + [last])[1..] == [last];
    } else {
      assert (parts + [last])[1..] == parts[1..] + [last];
      JoinSnoc(parts[1..], last, c);
    }
  }

  /** Appending a separator and a separator-free word appends one piece. */
  lemma SplitSnoc(s: string, w: string, c: char)
    requires c !in w
    ensures Split(s + [c] + w, c) == Split(s, c) + [w]
  {
    var parts := Split(s, c);
    JoinSplit(s, c);
    JoinSnoc(parts, w, c);
    SplitJoin(parts + [w], c);
  }

  // ---------------------------------------------------------------------------
  // `int(s)` on a decimal literal
  // ---------------------------------------------------------------------------

  /** The white space `int()` skips around a byte-string literal: the space
      and the five control characters from tab to carriage return. */
  predicate IsSpace(ch: char) {
    ch == ' ' || ('\t' <= ch <= '\r')
  }

  predicate IsDigit(ch: char) {
    '0' <= ch <= '9'
  }

  predicate AllSpaces(s: string) {
    forall i :: 0 <= i < |s| ==> IsSpace(s[i])
  }

  predicate AllDigits(s: string) {
    forall i :: 0 <= i < |s| ==> IsDigit(s[i])
  }

  /** Drops leading white space. */
  function TrimStart(s: string): (r: string)
    ensures |r| <= |s| && r == s[|s| - |r|..]
    ensures AllSpaces(s[..|s| - |r|])
    ensures |r| == 0 || !IsSpace(r[0])
    decreases |s|
  {
    if |s| > 0 && IsSpace(s[0]) then TrimStart(s[1..]) else s
  }

  /** Drops trailing white space. */
  function TrimEnd(s: string): (r: string)
    ensures |r| <= |s| && r == s[..|r|]
    ensures AllSpaces(s[|r|..])
    ensures |r| == 0 || !IsSpace(r[|r| - 1])
    decreases |s|
  {
    if |s| > 0 && IsSpace(s[|s| - 1]) then TrimEnd(s[..|s| - 1]) else s
  }

  /** `s.strip()` as `int()` applies it. */
  function Strip(s: string): string {
    TrimEnd(TrimStart(s))
  }

  /** The value of a digit string, most significant digit first. */
  function DecimalValue(ds: string): nat
    requires AllDigits(ds)
    decreases |ds|
  {
    if |ds| == 0 then 0
    else DecimalValue(ds[..|ds| - 1]) * 10 + (ds[|ds| - 1] as int - '0' as int)
  }

  /** What follows an optional sign and the white space after it: `int()`
      reads the sign before its digit conversion skips white space again, so
      `int('- 3')` is -3. */
  function Unsigned(t: string): string {
    if |t| > 0 && (t[0] == '+' || t[0] == '-') then TrimStart(t[1..]) else t
  }

  /** A text `int()` accepts once stripped: an optional sign, then one or
      more digits; white space may separate the sign from the digits. */
  predicate IsIntLiteral(t: string) {
    |Unsigned(t)| > 0 && AllDigits(Unsigned(t))
  }

  function LiteralValue(t: string): int
    requires IsIntLiteral(t)
  {
    var m: int := DecimalValue(Unsigned(t));
    if t[0] == '-' then -m else m
  }

  /** `int(token)` on a Python 2 byte string: white space around the literal
      and after its sign is ignored; anything else that is not a signed
      decimal literal raises `ValueError`. */
  function ParseInt(token: string): (r: Result<int>)
    ensures r.Success? <==> IsIntLiteral(Strip(token))
    ensures r.Failure? ==> r.error == ValueError
  {
    var t := Strip(token);
    if IsIntLiteral(t) then Success(LiteralValue(t)) else Failure(ValueError)
  }

  function DigitChar(d: nat): (ch: char)
    requires d < 10
    ensures IsDigit(ch) && ch as int - '0' as int == d
  {
    ('0' as int + d) as char
  }

  /** `str(n)` for a natural number: its decimal digits, no leading zero. */
  function ShowNat(n: nat): (s: string)
    ensures |s| > 0 && AllDigits(s)
    decreases n
  {
    if n < 10 then [DigitChar(n)] else ShowNat(n / 10) + [DigitChar(n % 10)]
  }

  /** `str(n)` for an integer. */
  function Show(n: int): (s: string)
    ensures |s| > 0 && !IsSpace(s[0]) && !IsSpace(s[|s| - 1])
    ensures forall i :: 0 <= i < |s| ==> IsDigit(s[i]) || s[i] == '-'
  {
    if n < 0 then "-" + ShowNat(-n) else ShowNat(n)
  }

  /** Reading back the digits `str` wrote gives the number. */
  lemma {:induction false} DecimalValueShowNat(n: nat)
    ensures DecimalValue(ShowNat(n)) == n
    decreases n
  {
    if n >= 10 {
      DecimalValueShowNat(n / 10);
      var s := ShowNat(n);
      assert s[..|s| - 1] == ShowNat(n / 10);
    }
  }

  lemma {:induction false} TrimStartSpaces(ws: string, s: string)
    requires AllSpaces(ws)
    requires |s| > 0 && !IsSpace(s[0])
    ensures TrimStart(ws + s) == s
    decreases |ws|
  {
    if |ws| == 0 {
      assert ws + s == s;
    } else {
      assert (ws + s)[1..] == ws[1..] + s;
      TrimStartSpaces(ws[1..], s);
    }
  }

  lemma {:induction false} TrimEndSpaces(s: string, ws: string)
    requires AllSpaces(ws)
    requires |s| > 0 && !IsSpace(s[|s| - 1])
    ensures TrimEnd(s + ws) == s
    decreases |ws|
  {
    if |ws| == 0 {
      assert s + ws == s;
    } else {
      assert (s + ws)[..|s + ws| - 1] == s + ws[..|ws| - 1];
      TrimEndSpaces(s, ws[..|ws| - 1]);
    }
  }

  lemma StripAround(before: string, s: string, after: string)
    requires AllSpaces(before) && AllSpaces(after)
    requires |s| > 0 && !IsSpace(s[0]) && !IsSpace(s[|s| - 1])
    ensures Strip(before + s + after) == s
  {
    assert before + s + after == before + (s + after);
    TrimStartSpaces(before, s + after);
    TrimEndSpaces(s, after);
  }

  /** `int(str(n))` gives back `n`, also with white space around the literal. */
  lemma ParseIntShow(before: string, n: int, after: string)
    requires AllSpaces(before) && AllSpaces(after)
    ensures ParseInt(before + Show(n) + after) == Success(n)
  {
    StripAround(before, Show(n), after);
    ParseIntStripped(before + Show(n) + after, n);
  }

  /** `str(n)` holds only digits and `-`. */
  lemma ShowAvoids(n: int, c: char)
    requires c != '-' && !IsDigit(c)
    ensures c !in Show(n)
  {
    var s := Show(n);
    forall i | 0 <= i < |s| ensures s[i] != c {
      assert IsDigit(s[i]) || s[i] == '-';
    }
  }

  lemma ParseIntShowBare(n: int)
    ensures ParseInt(Show(n)) == Success(n)
  {
    ParseIntShow("", n, "");
    assert "" + Show(n) + "" == Show(n);
  }

  lemma ParseIntStripped(token: string, n: int)
    requires Strip(token) == Show(n)
    ensures ParseInt(token) == Success(n)
  {
    var s := Show(n);
    if n < 0 {
      assert s[1..] == ShowNat(-n);
      assert Unsigned(s) == ShowNat(-n);
      DecimalValueShowNat(-n);
    } else {
      assert Unsigned(s) == ShowNat(n);
      DecimalValueShowNat(n);
    }
  }

  /** White space between the sign and the digits is skipped: `int('- 3')`
      is -3 and `int('+\t3')` is 3. */
  lemma {:induction false} ParseIntSpaceAfterSign(sign: char, ws: string, n: nat)
    requires sign == '+' || sign == '-'
    requires AllSpaces(ws)
    ensures ParseInt([sign] + ws + ShowNat(n)) == Success(if sign == '-' then -(n as int) else n)
  {
    var ds := ShowNat(n);
    var t := [sign] + ws + ds;
    assert TrimStart(t) == t by {
      assert t[0] == sign;
    }
    assert TrimEnd(t) == t by {
      assert t[|t| - 1] == ds[|ds| - 1];
    }
    assert t[1..] == ws + ds;
    TrimStartSpaces(ws, ds);
    DecimalValueShowNat(n);
  }
}
