/** Character and string operations the downloader borrows from Python's
    `str` type and `os.path`: decimal rendering and parsing of integers,
    `zfill`, `strip`, `split`, `replace`, `splitext` and `join`. */
module Text {

  datatype Option<+T> = None | Some(value: T)

  /** A byte of a downloaded segment. */
  type byte = b: int | 0 <= b < 256

  predicate IsDigit(c: char) { '0' <= c <= '9' }

  predicate AllDigits(s: string) { forall k :: 0 <= k < |s| ==> IsDigit(s[k]) }

  /** The characters Python's `str.isspace` accepts, which `str.strip()` removes. */
  predicate IsSpace(c: char)
  {
    c == ' ' || ('\t' <= c <= '\r') || ('\U{1c}' <= c <= '\U{1f}')
    || c == '\U{85}' || c == '\U{a0}' || c == '\U{1680}'
    || ('\U{2000}' <= c <= '\U{200a}') || c == '\U{2028}' || c == '\U{2029}'
    || c == '\U{202f}' || c == '\U{205f}' || c == '\U{3000}'
  }

  function Repeat(c: char, n: nat): (r: string)
    ensures |r| == n && forall k :: 0 <= k < n ==> r[k] == c
  {
    if n == 0 then [] else [c] + Repeat(c, n - 1)
  }

  // ---------------------------------------------------------------------
  // Decimal rendering (`str(n)`) and its inverse

  function DigitChar(d: nat): (c: char)
    requires d < 10
    ensures IsDigit(c) && c as int - '0' as int == d
  {
    ('0' as int + d) as char
  }

  /** The value of a string of decimal digits; leading zeros contribute nothing. */
  function DigitsValue(s: string): nat
    requires AllDigits(s)
  {
    if s == [] then 0 else DigitsValue(s[..|s| - 1]) * 10 + (s[|s| - 1] as int - '0' as int)
  }

  /** `str(n)` for a non-negative integer: no sign, no leading zero. */
  function NatToString(n: nat): (s: string)
    ensures |s| >= 1 && AllDigits(s)
    ensures |s| > 1 ==> s[0] != '0'
  {
    if n < 10 then [DigitChar(n)] else NatToString(n / 10) + [DigitChar(n % 10)]
  }

  lemma {:induction false} NatToStringRoundTrip(n: nat)
    ensures DigitsValue(NatToString(n)) == n
  {
    if n >= 10 {
      NatToStringRoundTrip(n / 10);
      var s := NatToString(n);
      assert s[..|s| - 1] == NatToString(n / 10);
    }
  }

  /** Leading zeros do not change the value of a digit string. */
  lemma {:induction false} ZerosValue(z: string, s: string)
    requires forall k :: 0 <= k < |z| ==> z[k] == '0'
    requires AllDigits(s)
    ensures AllDigits(z + s) && DigitsValue(z + s) == DigitsValue(s)
  {
    if s == [] {
      assert z + s == z;
      if z != [] {
        ZerosValue(z[..|z| - 1], []);
        assert z[..|z| - 1] + [] == z[..|z| - 1];
      }
    } else {
      ZerosValue(z, s[..|s| - 1]);
      assert (z + s)[..|z + s| - 1] == z + s[..|s| - 1];
    }
  }

  /** `str(n).zfill(width)` for a non-negative `n`: the decimal digits of `n`
      with zeros added on the left up to `width` characters. */
  function ZFill(n: nat, width: int): (r: string)
    ensures AllDigits(r) && DigitsValue(r) == n
    ensures |r| == if width > |NatToString(n)| then width else |NatToString(n)|
    ensures r[|r| - |NatToString(n)|..] == NatToString(n)
  {
    var digits := NatToString(n);
    var pad := if width > |digits| then width - |digits| else 0;
    ZerosValue(Repeat('0', pad), digits);
    NatToStringRoundTrip(n);
    Repeat('0', pad) + digits
  }

  lemma ZFillInjective(m: nat, n: nat, width: int)
    requires ZFill(m, width) == ZFill(n, width)
    ensures m == n
  {
  }

  /** `str(i)` for any integer. */
  function IntToString(i: int): (s: string)
    ensures |s| >= 1 && (s[0] == '-' || IsDigit(s[0])) && IsDigit(s[|s| - 1])
    ensures forall k :: 1 <= k < |s| ==> IsDigit(s[k])
  {
    if i < 0 then "-" + NatToString(-i) else NatToString(i)
  }

  // ---------------------------------------------------------------------
  // strip

  function StripLeft(s: string): (r: string)
    ensures r == [] || !IsSpace(r[0])
  {
    if s != [] && IsSpace(s[0]) then StripLeft(s[1..]) else s
  }

  function StripRight(s: string): (r: string)
    ensures r == [] || !IsSpace(r[|r| - 1])
  {
    if s != [] && IsSpace(s[|s| - 1]) then StripRight(s[..|s| - 1]) else s
  }

  /** `lstrip` keeps a suffix of its input. */
  lemma {:induction false} StripLeftSuffix(s: string)
    ensures |StripLeft(s)| <= |s| && StripLeft(s) == s[|s| - |StripLeft(s)|..]
  {
    if s != [] && IsSpace(s[0]) {
      StripLeftSuffix(s[1..]);
    }
  }

  /** `rstrip` keeps a prefix of its input. */
  lemma {:induction false} StripRightPrefix(s: string)
    ensures |StripRight(s)| <= |s| && StripRight(s) == s[..|StripRight(s)|]
  {
    if s != [] && IsSpace(s[|s| - 1]) {
      StripRightPrefix(s[..|s| - 1]);
    }
  }

  /** `str.strip()`: whitespace removed from both ends. */
  function Strip(s: string): (r: string)
    ensures r == [] || (!IsSpace(r[0]) && !IsSpace(r[|r| - 1]))
  {
    StripRightPrefix(StripLeft(s));
    StripRight(StripLeft(s))
  }

  predicate AllSpace(s: string) { forall k :: 0 <= k < |s| ==> IsSpace(s[k]) }

  lemma {:induction false} StripLeftSpaces(sp: string, x: string)
    requires AllSpace(sp)
    requires x == [] || !IsSpace(x[0])
    ensures StripLeft(sp + x) == x
  {
    if sp != [] {
      assert (sp + x)[1..] == sp[1..] + x;
      StripLeftSpaces(sp[1..], x);
    }
  }

  lemma {:induction false} StripRightSpaces(x: string, sp: string)
    requires AllSpace(sp)
    requires x == [] || !IsSpace(x[|x| - 1])
    ensures StripRight(x + sp) == x
  {
    if sp != [] {
      assert (x + sp)[..|x + sp| - 1] == x + sp[..|sp| - 1];
      StripRightSpaces(x, sp[..|sp| - 1]);
    }
  }

  /** Stripping a string padded with whitespace gives back its core. */
  lemma StripPadded(left: string, x: string, right: string)
    requires AllSpace(left) && AllSpace(right)
    requires x != [] && !IsSpace(x[0]) && !IsSpace(x[|x| - 1])
    ensures Strip(left + x + right) == x
  {
    assert left + x + right == left + (x + right);
    StripLeftSpaces(left, x + right);
    StripRightSpaces(x, right);
  }

  lemma StripNonBlank(s: string)
    requires s != [] && !IsSpace(s[0]) && !IsSpace(s[|s| - 1])
    ensures Strip(s) == s
  {
    StripPadded([], s, []);
    assert [] + s + [] == s;
  }

  // ---------------------------------------------------------------------
  // int()

  /** Python's `int(s)` on a string, restricted to ASCII: surrounding
      whitespace is ignored, then an optional sign and one or more ASCII
      digits; anything else is modelled as a `ValueError` (`None`). Python
      also accepts single underscores between digits and non-ASCII decimal
      digits; this model does not. */
  function ParseInt(s: string): (r: Option<int>)
    ensures r.Some? ==> Strip(s) != []
  {
    ParseSigned(Strip(s))
  }

  /** An optional sign followed by one or more ASCII digits. */
  function ParseSigned(t: string): (r: Option<int>)
    ensures r.Some? ==> t != []
  {
    if |t| > 1 && t[0] == '-' && AllDigits(t[1..]) then Some(0 - DigitsValue(t[1..]))
    else if |t| > 1 && t[0] == '+' && AllDigits(t[1..]) then Some(DigitsValue(t[1..]))
    else if t != [] && AllDigits(t) then Some(DigitsValue(t))
    else None
  }

  lemma ParseIntRoundTrip(i: int)
    ensures ParseInt(IntToString(i)) == Some(i)
  {
    var s := IntToString(i);
    assert !IsSpace(s[0]) && !IsSpace(s[|s| - 1]);
    StripNonBlank(s);
    if i < 0 {
      ParseNegative(-i);
    } else {
      ParseUnsigned(i);
    }
  }

  lemma ParseNegative(n: nat)
    requires n > 0
    ensures ParseSigned("-" + NatToString(n)) == Some(-(n as int))
  {
    var t := "-" + NatToString(n);
    assert t[1..] == NatToString(n);
    NatToStringRoundTrip(n);
  }

  lemma ParseUnsigned(n: nat)
    ensures ParseSigned(NatToString(n)) == Some(n)
  {
    NatToStringRoundTrip(n);
    var t := NatToString(n);
    assert IsDigit(t[0]);
  }

  // ---------------------------------------------------------------------
  // Searching, splitting and replacing

  predicate StartsWith(s: string, prefix: string)
  {
    |prefix| <= |s| && s[..|prefix|] == prefix
  }

  predicate EndsWith(s: string, suffix: string)
  {
    |suffix| <= |s| && s[|s| - |suffix|..] == suffix
  }

  /** Python's `t in s` for strings. */
  predicate Contains(s: string, t: string)
    decreases |s|
  {
    StartsWith(s, t) || (s != [] && Contains(s[1..], t))
  }

  lemma ContainsPrefix(s: string, t: string, u: string)
    ensures Contains(t + u + s, t)
  {
    assert (t + u + s)[..|t|] == t;
  }

  /** Python's `s.find(c)`: the first position of `c`, or -1. */
  function Find(s: string, c: char): (r: int)
    ensures -1 <= r < |s|
    ensures r >= 0 ==> s[r] == c
    ensures forall k :: 0 <= k < |s| && (r < 0 || k < r) ==> s[k] != c
  {
    if s == [] then -1
    else if s[0] == c then 0
    else
      var r := Find(s[1..], c);
      if r < 0 then -1 else r + 1
  }

  /** Python's `s.split(sep)` with a one-character separator: the pieces
      between occurrences of `sep`, always at least one. */
  function Split(s: string, sep: char): (parts: seq<string>)
    ensures |parts| >= 1
  {
    if s == [] then [""]
    else if s[0] == sep then [""] + Split(s[1..], sep)
    else
      var rest := Split(s[1..], sep);
      [[s[0]] + rest[0]] + rest[1..]
  }

  /** No piece holds the separator. */
  lemma {:induction false} SplitPiecesFree(s: string, sep: char)
    ensures forall k :: 0 <= k < |Split(s, sep)| ==> sep !in Split(s, sep)[k]
  {
    if s != [] {
      SplitPiecesFree(s[1..], sep);
    }
  }

  lemma {:induction false} SplitNoSep(s: string, sep: char)
    requires sep !in s
    ensures Split(s, sep) == [s]
  {
    if s != [] {
      SplitNoSep(s[1..], sep);
      assert [s[0]] + s[1..] == s;
    }
  }

  /** Splitting at the first separator: the piece before it, then the split
      of everything after it. */
  lemma {:induction false} SplitAtFirst(a: string, sep: char, b: string)
    requires sep !in a
    ensures Split(a + [sep] + b, sep) == [a] + Split(b, sep)
  {
    if a == [] {
      assert a + [sep] + b == [sep] + b;
      assert ([sep] + b)[1..] == b;
    } else {
      assert (a + [sep] + b)[1..] == a[1..] + [sep] + b;
      SplitAtFirst(a[1..], sep, b);
      assert [a[0]] + a[1..] == a;
    }
  }

  /** Python's `s.replace(pat, rep)` for a non-empty `pat`: every
      non-overlapping occurrence, scanning from the left. */
  function Replace(s: string, pat: string, rep: string): (r: string)
    requires pat != []
    decreases |s|
  {
    if s == [] then []
    else if StartsWith(s, pat) then rep + Replace(s[|pat|..], pat, rep)
    else [s[0]] + Replace(s[1..], pat, rep)
  }

  /** Replacing a character by another removes every occurrence of it. */
  lemma {:induction false} ReplaceCharRemoves(s: string, c: char, d: char)
    requires c != d
    ensures c !in Replace(s, [c], [d])
    ensures forall x :: x in Replace(s, [c], [d]) ==> x in s || x == d
    decreases |s|
  {
    if s != [] {
      ReplaceCharRemoves(s[|[c]|..], c, d);
      ReplaceCharRemoves(s[1..], c, d);
    }
  }

  /** Replacing a character by another, position by position. */
  lemma {:induction false} ReplaceCharPointwise(s: string, c: char, d: char)
    ensures |Replace(s, [c], [d])| == |s|
    ensures forall k :: 0 <= k < |s| ==> Replace(s, [c], [d])[k] == if s[k] == c then d else s[k]
    decreases |s|
  {
    if s != [] {
      assert StartsWith(s, [c]) <==> s[0] == c by {
        assert s[..1] == [s[0]];
      }
      ReplaceCharPointwise(s[1..], c, d);
    }
  }

  /** Replacing a pattern by itself changes nothing. */
  lemma {:induction false} ReplaceSelf(s: string, pat: string)
    requires pat != []
    ensures Replace(s, pat, pat) == s
    decreases |s|
  {
    if s != [] {
      if StartsWith(s, pat) {
        ReplaceSelf(s[|pat|..], pat);
        assert s[..|pat|] + s[|pat|..] == s;
      } else {
        ReplaceSelf(s[1..], pat);
        assert [s[0]] + s[1..] == s;
      }
    }
  }

  /** A string shorter than the pattern holds no occurrence of it. */
  lemma {:induction false} ReplaceShort(s: string, pat: string, rep: string)
    requires pat != [] && |s| < |pat|
    ensures Replace(s, pat, rep) == s
    decreases |s|
  {
    if s != [] {
      ReplaceShort(s[1..], pat, rep);
      assert [s[0]] + s[1..] == s;
    }
  }

  /** A one-character pattern that does not occur changes nothing. */
  lemma {:induction false} ReplaceMissing(s: string, c: char, rep: string)
    requires c !in s
    ensures Replace(s, [c], rep) == s
    decreases |s|
  {
    if s != [] {
      assert s[..1] == [s[0]] && s[0] != c;
      ReplaceMissing(s[1..], c, rep);
      assert [s[0]] + s[1..] == s;
    }
  }

  // ---------------------------------------------------------------------
  // os.path (POSIX flavour: separator '/', extension separator '.')

  /** The position of the last `c` in `s`, or -1. */
  function LastIndexOf(s: string, c: char): (r: int)
    ensures -1 <= r < |s|
    ensures r >= 0 ==> s[r] == c
    ensures forall k :: r < k < |s| ==> s[k] != c
  {
    if s == [] then -1
    else if s[|s| - 1] == c then |s| - 1
    else LastIndexOf(s[..|s| - 1], c)
  }

  /** `os.path.splitext(p)`: the extension starts at the last '.' of the last
      path component, unless everything before that dot in the component is
      dots too (".bashrc" and ".." have no extension). */
  function SplitExt(p: string): (r: (string, string))
    ensures r.0 + r.1 == p
    ensures r.0 == [] <==> p == []
    ensures r.1 == [] || (r.1[0] == '.' && '.' !in r.1[1..] && '/' !in r.1)
  {
    var sepIndex := LastIndexOf(p, '/');
    var dotIndex := LastIndexOf(p, '.');
    if dotIndex > sepIndex && exists j :: sepIndex < j < dotIndex && p[j] != '.' then
      assert p[..dotIndex] + p[dotIndex..] == p;
      (p[..dotIndex], p[dotIndex..])
    else (p, [])
  }

  /** `os.path.join(a, b)`: an absolute `b` wins, otherwise a '/' is inserted
      between the two when `a` is non-empty and does not end with one. */
  function Join(a: string, b: string): (r: string)
    ensures EndsWith(r, b)
  {
    if StartsWith(b, "/") then b
    else if a == [] || EndsWith(a, "/") then a + b
    else a + "/" + b
  }
}
