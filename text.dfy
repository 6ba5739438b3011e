/**
 * The Qt and C string operations the core relies on, over `seq<char>`:
 * splitting and joining (`QString::split`, keep-empty-parts), trimming
 * (`QString::trimmed`), ASCII case mapping, substring and affix tests,
 * decimal rendering (`QString::number`, `%1` arguments) and decimal
 * parsing (`QString::toLongLong` / `toInt` with an `ok` flag).
 */
module Text {
  import opened Wrappers

  const Int64Min: int := -0x8000_0000_0000_0000
  const Int64Max: int := 0x7FFF_FFFF_FFFF_FFFF

  // ---------------------------------------------------------------------
  // Characters

  /** The characters `QString::trimmed` removes (ASCII whitespace). */
  predicate IsSpace(c: char) {
    c == ' ' || c == '\t' || c == '\n' || c == '\r' || c as int == 11 || c as int == 12
  }

  predicate IsDigit(c: char) { '0' <= c <= '9' }

  predicate IsUpper(c: char) { 'A' <= c <= 'Z' }

  function LowerChar(c: char): (r: char)
    ensures IsUpper(c) ==> r as int == c as int + 32
    ensures !IsUpper(c) ==> r == c
  {
    if IsUpper(c) then (c as int + 32) as char else c
  }

  function UpperChar(c: char): (r: char)
    ensures 'a' <= c <= 'z' ==> r as int == c as int - 32
    ensures !('a' <= c <= 'z') ==> r == c
  {
    if 'a' <= c <= 'z' then (c as int - 32) as char else c
  }

  /** `toLower()` restricted to ASCII letters. */
  function Lower(s: string): (r: string)
    ensures |r| == |s|
    ensures forall i :: 0 <= i < |s| ==> r[i] == LowerChar(s[i])
  {
    seq(|s|, i requires 0 <= i < |s| => LowerChar(s[i]))
  }

  function Upper(s: string): (r: string)
    ensures |r| == |s|
    ensures forall i :: 0 <= i < |s| ==> r[i] == UpperChar(s[i])
  {
    seq(|s|, i requires 0 <= i < |s| => UpperChar(s[i]))
  }

  // ---------------------------------------------------------------------
  // Affixes and substrings

  predicate StartsWith(s: string, prefix: string) { prefix <= s }

  predicate EndsWith(s: string, suffix: string) {
    |suffix| <= |s| && s[|s| - |suffix|..] == suffix
  }

  /** `endsWith(suffix, Qt::CaseInsensitive)`, ASCII case folding. */
  predicate EndsWithIgnoreCase(s: string, suffix: string) {
    EndsWith(Lower(s), Lower(suffix))
  }

  /** `sub` occurs in `s` starting at position `i`. */
  predicate OccursAt(s: string, sub: string, i: int) {
    0 <= i && i + |sub| <= |s| && s[i..i + |sub|] == sub
  }

  predicate Contains(s: string, sub: string) {
    exists i | 0 <= i <= |s| - |sub| :: OccursAt(s, sub, i)
  }

  /** `contains(sub, Qt::CaseInsensitive)`, ASCII case folding. */
  predicate ContainsIgnoreCase(s: string, sub: string) {
    Contains(Lower(s), Lower(sub))
  }

  /** Position of the first `c` in `s`, or -1 (`indexOf`). */
  function IndexOf(s: string, c: char): (r: int)
    ensures -1 <= r < |s|
    ensures r >= 0 ==> s[r] == c
    ensures forall j :: 0 <= j < |s| && (r < 0 || j < r) ==> s[j] != c
  {
    if |s| == 0 then -1
    else if s[0] == c then 0
    else
      var k := IndexOf(s[1..], c);
      if k < 0 then -1 else k + 1
  }

  /** Position of the last `c` in `s`, or -1 (`lastIndexOf`). */
  function LastIndexOf(s: string, c: char): (r: int)
    ensures -1 <= r < |s|
    ensures r >= 0 ==> s[r] == c
  {
    if |s| == 0 then -1
    else if s[|s| - 1] == c then |s| - 1
    else LastIndexOf(s[..|s| - 1], c)
  }

  /** The index found is the last: no `c` comes after it. */
  lemma {:induction false} LastIndexOfIsLast(s: string, c: char)
    ensures forall j :: LastIndexOf(s, c) < j < |s| ==> s[j] != c
  {
    if |s| > 0 && s[|s| - 1] != c {
      var init := s[..|s| - 1];
      LastIndexOfIsLast(init, c);
      assert forall j :: 0 <= j < |init| ==> init[j] == s[j];
    }
  }

  // ---------------------------------------------------------------------
  // Trimming

  function TrimStart(s: string): (r: string)
    ensures |r| <= |s| && r == s[|s| - |r|..]
    ensures |r| == 0 || !IsSpace(r[0])
    ensures forall i :: 0 <= i < |s| - |r| ==> IsSpace(s[i])
  {
    if |s| > 0 && IsSpace(s[0]) then TrimStart(s[1..]) else s
  }

  function TrimEnd(s: string): (r: string)
    ensures |r| <= |s| && r == s[..|r|]
    ensures |r| == 0 || !IsSpace(r[|r| - 1])
    ensures forall i :: |r| <= i < |s| ==> IsSpace(s[i])
  {
    if |s| > 0 && IsSpace(s[|s| - 1]) then TrimEnd(s[..|s| - 1]) else s
  }

  /**
   * `QString::trimmed`: whitespace removed from both ends. The result is
   * a slice of `s`; everything cut before and after it is whitespace.
   */
  function Trim(s: string): (r: string)
    ensures |r| == 0 || (!IsSpace(r[0]) && !IsSpace(r[|r| - 1]))
    ensures |r| <= |TrimStart(s)| <= |s|
    ensures r == s[|s| - |TrimStart(s)|..|s| - |TrimStart(s)| + |r|]
    ensures forall i :: 0 <= i < |s| - |TrimStart(s)| ==> IsSpace(s[i])
    ensures forall i :: |s| - |TrimStart(s)| + |r| <= i < |s| ==> IsSpace(s[i])
  {
    TrimEnd(TrimStart(s))
  }

  /** A string without leading or trailing whitespace is its own trim. */
  lemma TrimIdentity(s: string)
    requires |s| == 0 || (!IsSpace(s[0]) && !IsSpace(s[|s| - 1]))
    ensures Trim(s) == s
  {
  }

  // ---------------------------------------------------------------------
  // Splitting (QString::split with Qt::KeepEmptyParts)

  /**
   * The pieces of `s` between non-overlapping occurrences of `sep`,
   * scanned from the left; an empty `s` gives one empty piece.
   */
  function Split(s: string, sep: string): (parts: seq<string>)
    requires |sep| > 0
    ensures |parts| >= 1
    decreases |s|
  {
    if |s| == 0 then [""]
    else if sep <= s then [""] + Split(s[|sep|..], sep)
    else
      var rest := Split(s[1..], sep);
      [[s[0]] + rest[0]] + rest[1..]
  }

  function Join(parts: seq<string>, sep: string): string {
    if |parts| == 0 then ""
    else if |parts| == 1 then parts[0]
    else parts[0] + sep + Join(parts[1..], sep)
  }

  lemma JoinCons(a: string, p: seq<string>, sep: string)
    requires |p| >= 1
    ensures Join([a] + p, sep) == a + sep + Join(p, sep)
  {
    assert ([a] + p)[1..] == p;
  }

  lemma JoinExtendHead(c: char, p: seq<string>, sep: string)
    requires |p| >= 1
    ensures Join([[c] + p[0]] + p[1..], sep) == [c] + Join(p, sep)
  {
    var q := [[c] + p[0]] + p[1..];
    if |p| > 1 {
      assert q[1..] == p[1..];
      assert p == [p[0]] + p[1..];
      JoinCons(p[0], p[1..], sep);
    }
  }

  /** Splitting loses nothing: joining the pieces with the separator gives `s` back. */
  lemma {:induction false} JoinSplit(s: string, sep: string)
    requires |sep| > 0
    ensures Join(Split(s, sep), sep) == s
    decreases |s|
  {
    if |s| == 0 {
    } else if sep <= s {
      var p := Split(s[|sep|..], sep);
      JoinSplit(s[|sep|..], sep);
      SplitAtSeparator(s, sep);
      JoinCons("", p, sep);
      PrefixAndRest(s, sep);
      assert "" + sep == sep;
    } else {
      var rest := Split(s[1..], sep);
      JoinSplit(s[1..], sep);
      SplitAtChar(s, sep);
      JoinExtendHead(s[0], rest, sep);
      assert Join(Split(s, sep), sep) == [s[0]] + s[1..];
    }
  }

  lemma PrefixAndRest(s: string, pre: string)
    requires pre <= s
    ensures s == pre + s[|pre|..]
  {
    assert s[..|pre|] == pre;
    assert s == s[..|pre|] + s[|pre|..];
  }

  lemma SplitAtSeparator(s: string, sep: string)
    requires |sep| > 0 && |s| > 0 && sep <= s
    ensures Split(s, sep) == [""] + Split(s[|sep|..], sep)
  {
  }

  lemma SplitAtChar(s: string, sep: string)
    requires |sep| > 0 && |s| > 0 && !(sep <= s)
    ensures Split(s, sep) == [[s[0]] + Split(s[1..], sep)[0]] + Split(s[1..], sep)[1..]
  {
  }

  lemma PieceIsPrefix(parts: seq<string>, sep: string)
    requires |parts| >= 1
    ensures parts[0] <= Join(parts, sep)
  {
  }

  /** A prefix of `s` that does not reach an occurrence of `sep` further in. */
  lemma HeadAvoidsSeparator(s: string, sep: string, tail: string)
    requires |sep| > 0 && |s| > 0 && !(sep <= s)
    requires tail <= s[1..] && !Contains(tail, sep)
    ensures !Contains([s[0]] + tail, sep)
  {
    var head := [s[0]] + tail;
    forall i | 0 <= i <= |head| - |sep|
      ensures !OccursAt(head, sep, i)
    {
      if i == 0 {
        assert head[..|sep|] == s[..|sep|];
      } else {
        assert head[i..i + |sep|] == tail[i - 1..i - 1 + |sep|];
        assert !OccursAt(tail, sep, i - 1);
      }
    }
  }

  /** No piece contains the separator. */
  lemma {:induction false} SplitPiecesAvoidSeparator(s: string, sep: string)
    requires |sep| > 0
    ensures forall k :: 0 <= k < |Split(s, sep)| ==> !Contains(Split(s, sep)[k], sep)
    decreases |s|
  {
    if |s| == 0 {
    } else if sep <= s {
      SplitPiecesAvoidSeparator(s[|sep|..], sep);
      var p := Split(s[|sep|..], sep);
      assert Split(s, sep) == [""] + p;
    } else {
      var rest := Split(s[1..], sep);
      SplitPiecesAvoidSeparator(s[1..], sep);
      JoinSplit(s[1..], sep);
      PieceIsPrefix(rest, sep);
      HeadAvoidsSeparator(s, sep, rest[0]);
      assert Split(s, sep) == [[s[0]] + rest[0]] + rest[1..];
    }
  }

  /** A piece free of the separator comes out whole at the front. */
  lemma {:induction false} SplitFirstPiece(a: string, sep: string, rest: string)
    requires |sep| > 0
    requires forall i :: 0 <= i < |a| ==> !OccursAt(a + sep + rest, sep, i)
    ensures Split(a + sep + rest, sep) == [a] + Split(rest, sep)
    decreases |a|
  {
    var s := a + sep + rest;
    if |a| == 0 {
      assert s == sep + rest;
      assert sep <= s;
      assert s[|sep|..] == rest;
    } else {
      assert !OccursAt(s, sep, 0);
      assert s[1..] == a[1..] + sep + rest;
      forall i | 0 <= i < |a| - 1
        ensures !OccursAt(a[1..] + sep + rest, sep, i)
      {
        assert !OccursAt(s, sep, i + 1);
        assert s[i + 1..i + 1 + |sep|] == s[1..][i..i + |sep|];
      }
      SplitFirstPiece(a[1..], sep, rest);
      assert a == [a[0]] + a[1..];
    }
  }

  /** A string free of the separator splits into itself alone. */
  lemma {:induction false} SplitWhole(a: string, sep: string)
    requires |sep| > 0
    requires forall i :: 0 <= i < |a| ==> !OccursAt(a, sep, i)
    ensures Split(a, sep) == [a]
    decreases |a|
  {
    if |a| > 0 {
      assert !OccursAt(a, sep, 0);
      forall i | 0 <= i < |a| - 1
        ensures !OccursAt(a[1..], sep, i)
      {
        assert !OccursAt(a, sep, i + 1);
        if i + |sep| <= |a| - 1 {
          var t := a[1..];
          assert forall j :: 0 <= j < |t| ==> t[j] == a[j + 1];
          assert t[i..i + |sep|] == a[i + 1..i + 1 + |sep|];
        }
      }
      SplitWhole(a[1..], sep);
      assert a == [a[0]] + a[1..];
    }
  }

  /** No occurrence of `sep` starts at a character other than its first. */
  lemma NoOccurrenceWithoutHead(s: string, sep: string, i: int)
    requires |sep| > 0 && 0 <= i < |s| && s[i] != sep[0]
    ensures !OccursAt(s, sep, i)
  {
    if i + |sep| <= |s| {
      assert s[i..i + |sep|][0] == s[i];
    }
  }

  /** A string that lacks the separator's first character splits into itself alone. */
  lemma SplitWithoutHead(a: string, sep: string)
    requires |sep| > 0 && sep[0] !in a
    ensures Split(a, sep) == [a]
  {
    forall i | 0 <= i < |a|
      ensures !OccursAt(a, sep, i)
    {
      assert a[i] in a;
      NoOccurrenceWithoutHead(a, sep, i);
    }
    SplitWhole(a, sep);
  }

  /** Splitting at the first separator when the piece before it lacks the separator's first character. */
  lemma SplitBeforeHead(a: string, sep: string, rest: string)
    requires |sep| > 0 && sep[0] !in a
    ensures Split(a + sep + rest, sep) == [a] + Split(rest, sep)
  {
    var s := a + sep + rest;
    forall i | 0 <= i < |a|
      ensures !OccursAt(s, sep, i)
    {
      assert a[i] in a;
      assert s[i] == a[i];
      NoOccurrenceWithoutHead(s, sep, i);
    }
    SplitFirstPiece(a, sep, rest);
  }

  /** Text framed by the same prefix and suffix is the same text exactly when what it frames is. */
  lemma FramedEqual(pre: string, x: string, y: string, suf: string)
    ensures pre + x + suf == pre + y + suf <==> x == y
  {
    if pre + x + suf == pre + y + suf {
      assert x == (pre + x + suf)[|pre|..|pre| + |x|];
      assert y == (pre + y + suf)[|pre|..|pre| + |y|];
    }
  }

  lemma StartsWithConcat(a: string, b: string)
    ensures StartsWith(a + b, a)
  {
    assert (a + b)[..|a|] == a;
  }

  lemma EndsWithConcat(a: string, b: string)
    ensures EndsWith(a + b, b)
  {
    assert (a + b)[|a|..] == b;
  }

  /** Case folding is idempotent. */
  lemma LowerIdempotent(s: string)
    ensures Lower(Lower(s)) == Lower(s)
  {
  }

  /** Case folding neither creates nor removes whitespace. */
  lemma LowerKeepsSpaces(s: string)
    ensures forall i :: 0 <= i < |s| ==> (IsSpace(Lower(s)[i]) <==> IsSpace(s[i]))
  {
  }

  // ---------------------------------------------------------------------
  // Decimal numbers

  function DigitChar(d: nat): (c: char)
    requires d < 10
    ensures IsDigit(c)
  {
    ('0' as int + d) as char
  }

  function DigitValue(c: char): (d: nat)
    requires IsDigit(c)
    ensures d < 10
  {
    c as int - '0' as int
  }

  predicate AllDigits(s: string) {
    forall i :: 0 <= i < |s| ==> IsDigit(s[i])
  }

  /** The number a run of decimal digits denotes. */
  function DigitsValue(s: string): nat
    requires AllDigits(s)
  {
    if |s| == 0 then 0 else DigitsValue(s[..|s| - 1]) * 10 + DigitValue(s[|s| - 1])
  }

  /** `QString::number` for a non-negative integer: shortest decimal digits. */
  function NatToString(n: nat): (r: string)
    ensures |r| >= 1 && AllDigits(r)
    ensures |r| > 1 ==> r[0] != '0'
  {
    if n < 10 then [DigitChar(n)] else NatToString(n / 10) + [DigitChar(n % 10)]
  }

  function IntToString(i: int): (r: string)
    ensures |r| >= 1
  {
    if i < 0 then "-" + NatToString(-i) else NatToString(i)
  }

  /** Reading back the digits of `NatToString(n)` gives `n`. */
  lemma {:induction false} NatToStringValue(n: nat)
    ensures DigitsValue(NatToString(n)) == n
  {
    if n >= 10 {
      NatToStringValue(n / 10);
      var r := NatToString(n);
      assert r[..|r| - 1] == NatToString(n / 10);
    }
  }

  /**
   * `QString::toLongLong(&ok)` in base 10: surrounding whitespace is
   * skipped, an optional sign is followed by at least one digit, and
   * a value outside the signed 64-bit range fails.
   */
  function ParseInt64(s: string): (r: Option<int>)
    ensures r.Some? ==> Int64Min <= r.value <= Int64Max
  {
    ParseSigned(Trim(s))
  }

  /** The sign-and-digits reading of already trimmed text. */
  function ParseSigned(t: string): (r: Option<int>)
    ensures r.Some? ==> Int64Min <= r.value <= Int64Max
  {
    if |t| == 0 then None
    else
      var negative := t[0] == '-';
      var digits := if t[0] == '-' || t[0] == '+' then t[1..] else t;
      if |digits| == 0 || !AllDigits(digits) then None
      else
        var magnitude: int := DigitsValue(digits);
        var v := if negative then 0 - magnitude else magnitude;
        if Int64Min <= v <= Int64Max then Some(v) else None
  }

  /** Parsing what `IntToString` renders gives the number back. */
  lemma ParseIntToString(i: int)
    requires Int64Min <= i <= Int64Max
    ensures ParseInt64(IntToString(i)) == Some(i)
  {
    var m: nat := if i < 0 then -i else i;
    var d := NatToString(m);
    NatToStringValue(m);
    if i < 0 {
      ParseSignedDigits(d, i);
    } else {
      ParseUnsignedDigits(d, i);
    }
  }

  lemma ParseSignedDigits(d: string, i: int)
    requires |d| >= 1 && AllDigits(d) && i < 0 && DigitsValue(d) == -i && Int64Min <= i
    ensures ParseInt64("-" + d) == Some(i)
  {
    var s := "-" + d;
    assert !IsSpace(s[|s| - 1]) by { assert s[|s| - 1] == d[|d| - 1]; }
    TrimIdentity(s);
    assert s[0] == '-' && s[1..] == d;
    ParseSignedNegative(s, d);
  }

  /** A '-' followed by digits reads as the negated digit value, when that fits. */
  lemma ParseSignedNegative(t: string, d: string)
    requires |t| >= 1 && t[0] == '-' && t[1..] == d && |d| >= 1 && AllDigits(d)
    ensures ParseSigned(t) == if Int64Min <= 0 - DigitsValue(d) then Some(0 - DigitsValue(d)) else None
  {
  }

  lemma ParseUnsignedDigits(d: string, i: int)
    requires |d| >= 1 && AllDigits(d) && i >= 0 && DigitsValue(d) == i && i <= Int64Max
    ensures ParseInt64(d) == Some(i)
  {
    assert !IsSpace(d[0]) && !IsSpace(d[|d| - 1]);
    TrimIdentity(d);
    assert ParseSigned(d) == Some(i);
  }

  /** The empty string does not parse. */
  lemma ParseEmpty()
    ensures ParseInt64("").None?
  {
    TrimIdentity("");
  }

  /** A string with no digit at all never parses. */
  lemma ParseNeedsDigit(s: string)
    requires forall i :: 0 <= i < |s| ==> !IsDigit(s[i])
    ensures ParseInt64(s).None?
  {
    var t := Trim(s);
    if |t| > 0 {
      var digits := if t[0] == '-' || t[0] == '+' then t[1..] else t;
      if |digits| > 0 {
        assert digits[0] == t[|t| - |digits|];
      }
    }
  }

  // ---------------------------------------------------------------------
  // Ordering

  /**
   * `std::string`'s `operator<` (and `QString`'s): lexicographic by
   * character code, a proper prefix first.
   */
  predicate StringLess(a: string, b: string)
    decreases |a|
  {
    if |a| == 0 then |b| > 0
    else if |b| == 0 then false
    else if a[0] == b[0] then StringLess(a[1..], b[1..])
    else a[0] < b[0]
  }

  /** The ordering is strict and total: exactly one of `a < b`, `a == b`, `b < a`. */
  lemma {:induction false} StringLessTrichotomy(a: string, b: string)
    decreases |a|
    ensures !StringLess(a, a)
    ensures StringLess(a, b) ==> !StringLess(b, a)
    ensures a != b ==> StringLess(a, b) || StringLess(b, a)
  {
    if |a| > 0 && |b| > 0 && a[0] == b[0] {
      StringLessTrichotomy(a[1..], b[1..]);
      assert a == [a[0]] + a[1..] && b == [b[0]] + b[1..];
    } else if |a| > 0 {
      StringLessTrichotomy(a[1..], a[1..]);
    }
  }

  lemma {:induction false} StringLessTransitive(a: string, b: string, c: string)
    decreases |a|
    requires StringLess(a, b) && StringLess(b, c)
    ensures StringLess(a, c)
  {
    if |a| > 0 && a[0] == b[0] && b[0] == c[0] {
      StringLessTransitive(a[1..], b[1..], c[1..]);
    }
  }

  /** `k` comes first in `keys` under the order of `std::string`: where a `QMap` or `std::map` starts. */
  predicate IsFirstKey(keys: set<string>, k: string) {
    k in keys && forall j :: j in keys ==> !StringLess(j, k)
  }

  lemma {:induction false} FirstKeyExists(keys: set<string>)
    requires keys != {}
    ensures exists k :: IsFirstKey(keys, k)
    decreases |keys|
  {
    var x :| x in keys;
    var rest := keys - {x};
    if rest == {} {
      assert keys == {x};
      StringLessTrichotomy(x, x);
      assert IsFirstKey(keys, x);
    } else {
      FirstKeyExists(rest);
      var m :| IsFirstKey(rest, m);
      StringLessTrichotomy(x, m);
      if StringLess(x, m) {
        forall j | j in keys
          ensures !StringLess(j, x)
        {
          StringLessTrichotomy(j, x);
          if j != x && StringLess(j, x) {
            StringLessTransitive(j, x, m);
          }
        }
        assert IsFirstKey(keys, x);
      } else {
        assert IsFirstKey(keys, m);
      }
    }
  }

  lemma FirstKeyUnique(keys: set<string>, a: string, b: string)
    requires IsFirstKey(keys, a) && IsFirstKey(keys, b)
    ensures a == b
  {
    StringLessTrichotomy(a, b);
  }

  /** `QMap::firstKey`: the least key of a non-empty map. */
  function FirstKey(keys: set<string>): (k: string)
    requires keys != {}
    ensures IsFirstKey(keys, k)
  {
    FirstKeyExists(keys);
    assert forall a, b :: IsFirstKey(keys, a) && IsFirstKey(keys, b) ==> a == b by {
      forall a, b | IsFirstKey(keys, a) && IsFirstKey(keys, b)
        ensures a == b
      {
        FirstKeyUnique(keys, a, b);
      }
    }
    var k :| IsFirstKey(keys, k);
    k
  }
}
