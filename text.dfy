/** Option and Result, the wrapper types the model needs. */
module Wrappers {
  datatype Option<+T> = None | Some(value: T)
  datatype Result<+T, +E> = Success(value: T) | Failure(error: E)
}

/**
 * The JavaScript string operations the site relies on, written out over
 * `seq<char>`: `startsWith`, `endsWith`, `indexOf`, `split` with a string
 * separator, `toLowerCase` (ASCII letters), `parseInt(s, 10)`, decimal
 * rendering of numbers, and the UTF-8 byte length that `Buffer.from(s, "utf8")`
 * produces.
 */
module Text {
  import opened Wrappers

  predicate StartsWith(s: string, prefix: string) {
    prefix <= s
  }

  predicate EndsWith(s: string, suffix: string) {
    |suffix| <= |s| && s[|s| - |suffix|..] == suffix
  }

  /** `sep` occurs in `s` starting at index `i`. */
  predicate OccursAt(s: string, sep: string, i: nat) {
    i + |sep| <= |s| && s[i..i + |sep|] == sep
  }

  lemma OccursAtTail(s: string, sep: string, i: nat)
    requires |s| > 0
    ensures OccursAt(s[1..], sep, i) <==> OccursAt(s, sep, i + 1)
  {
    if i + |sep| <= |s[1..]| {
      assert s[1..][i..i + |sep|] == s[i + 1..i + 1 + |sep|];
    }
  }

  lemma OccursAtPrefix(s: string, sep: string, n: nat, i: nat)
    requires n <= |s|
    ensures OccursAt(s[..n], sep, i) <==> (i + |sep| <= n && OccursAt(s, sep, i))
  {
    if i + |sep| <= n {
      assert s[..n][i..i + |sep|] == s[i..i + |sep|];
    }
  }

  /** `s.indexOf(sep)` for a non-empty separator: the first occurrence, if any. */
  function IndexOf(s: string, sep: string): (r: Option<nat>)
    requires |sep| > 0
    ensures r.Some? ==> OccursAt(s, sep, r.value)
    decreases |s|
  {
    if |s| < |sep| then None
    else if s[..|sep|] == sep then Some(0)
    else
      match IndexOf(s[1..], sep)
      case None => None
      case Some(j) =>
        assert OccursAt(s, sep, j + 1) by { OccursAtTail(s, sep, j); }
        Some(j + 1)
  }

  /** Every occurrence of `sep` is found, and none is found before the one reported. */
  lemma {:induction false} IndexOfFirst(s: string, sep: string, i: nat)
    requires |sep| > 0
    requires OccursAt(s, sep, i)
    ensures IndexOf(s, sep).Some? && IndexOf(s, sep).value <= i
    decreases |s|
  {
    if s[..|sep|] != sep {
      assert i > 0;
      OccursAtTail(s, sep, i - 1);
      IndexOfFirst(s[1..], sep, i - 1);
    }
  }

  predicate Contains(s: string, sep: string)
    requires |sep| > 0
  {
    IndexOf(s, sep).Some?
  }

  /** `s.split(sep)` for a non-empty string separator. */
  function Split(s: string, sep: string): (parts: seq<string>)
    requires |sep| > 0
    ensures |parts| >= 1
    decreases |s|
  {
    match IndexOf(s, sep)
    case None => [s]
    case Some(i) => [s[..i]] + Split(s[i + |sep|..], sep)
  }

  /** `parts.join(sep)`, the inverse of `Split`. */
  function Join(parts: seq<string>, sep: string): string
    decreases |parts|
  {
    if |parts| == 0 then ""
    else if |parts| == 1 then parts[0]
    else parts[0] + sep + Join(parts[1..], sep)
  }

  /** Splitting and joining again gives back the original string. */
  lemma {:induction false} JoinSplit(s: string, sep: string)
    requires |sep| > 0
    ensures Join(Split(s, sep), sep) == s
    decreases |s|
  {
    match IndexOf(s, sep)
    case None =>
    case Some(i) =>
      var rest := s[i + |sep|..];
      JoinSplit(rest, sep);
      JoinAroundFirst(s, sep, i, Split(rest, sep));
  }

  /** Joining the part before an occurrence of `sep` with parts that join to the text after it gives `s`. */
  lemma JoinAroundFirst(s: string, sep: string, i: nat, tail: seq<string>)
    requires OccursAt(s, sep, i) && |tail| >= 1
    requires Join(tail, sep) == s[i + |sep|..]
    ensures Join([s[..i]] + tail, sep) == s
  {
    JoinCons(s[..i], tail, sep);
    Reassemble(s, i, sep);
  }

  lemma JoinCons(x: string, tail: seq<string>, sep: string)
    requires |tail| >= 1
    ensures Join([x] + tail, sep) == x + sep + Join(tail, sep)
  {
    assert ([x] + tail)[1..] == tail;
  }

  lemma Reassemble(s: string, i: nat, sep: string)
    requires OccursAt(s, sep, i)
    ensures s == s[..i] + sep + s[i + |sep|..]
  {
    assert s[i..i + |sep|] == sep;
    assert s == s[..i] + s[i..i + |sep|] + s[i + |sep|..];
  }

  /** No part produced by `Split` contains the separator. */
  lemma {:induction false} SplitPartsAvoidSeparator(s: string, sep: string)
    requires |sep| > 0
    ensures forall k :: 0 <= k < |Split(s, sep)| ==> IndexOf(Split(s, sep)[k], sep).None?
    decreases |s|
  {
    match IndexOf(s, sep)
    case None =>
    case Some(i) =>
      var rest := s[i + |sep|..];
      SplitPartsAvoidSeparator(rest, sep);
      PrefixBeforeFirstAvoidsSeparator(s, sep, i);
  }

  /** The text before the first occurrence of `sep` does not contain it. */
  lemma PrefixBeforeFirstAvoidsSeparator(s: string, sep: string, i: nat)
    requires |sep| > 0
    requires IndexOf(s, sep) == Some(i)
    ensures IndexOf(s[..i], sep).None?
  {
    var r := IndexOf(s[..i], sep);
    if r.Some? {
      OccursAtPrefix(s, sep, i, r.value);
      IndexOfFirst(s, sep, r.value);
      assert false;
    }
  }

  /** Splitting a string that does not contain the separator yields it alone. */
  lemma SplitWithoutSeparator(s: string, sep: string)
    requires |sep| > 0
    requires IndexOf(s, sep).None?
    ensures Split(s, sep) == [s]
  {
  }

  /** `a + sep + b` with a one-character separator not found in `a` splits into `a` followed by the parts of `b`. */
  lemma SplitAfterFirst(a: string, sep: string, b: string)
    requires |sep| == 1
    requires IndexOf(a, sep).None?
    ensures Split(a + sep + b, sep) == [a] + Split(b, sep)
  {
    var s := a + sep + b;
    assert s[..|a|] == a;
    assert s[|a| + |sep|..] == b;
    assert s[|a|..|a| + |sep|] == sep;
    assert OccursAt(s, sep, |a|);
    IndexOfFirst(s, sep, |a|);
    var j := IndexOf(s, sep).value;
    if j < |a| {
      OccursAtPrefix(s, sep, |a|, j);
      IndexOfFirst(a, sep, j);
      assert false;
    }
  }

  /** `a + sep + b` with a one-character separator found in neither `a` nor `b` splits into exactly `[a, b]`. */
  lemma SplitAroundOne(a: string, sep: string, b: string)
    requires |sep| == 1
    requires IndexOf(a, sep).None? && IndexOf(b, sep).None?
    ensures Split(a + sep + b, sep) == [a, b]
  {
    SplitAfterFirst(a, sep, b);
    SplitWithoutSeparator(b, sep);
  }

  /** A string in which `[c]` is not found does not contain the character `c`. */
  lemma NotFoundAbsentChar(s: string, c: char)
    requires IndexOf(s, [c]).None?
    ensures forall i :: 0 <= i < |s| ==> s[i] != c
  {
    forall i: nat | i < |s| ensures s[i] != c {
      if s[i] == c {
        IndexOfFirst(s, [c], i);
      }
    }
  }

  /** The last part of `s` is the last part of the text after the first `sep`. */
  lemma {:induction false} SplitLastAfterFirst(s: string, sep: string, i: nat)
    requires |sep| > 0 && IndexOf(s, sep) == Some(i)
    ensures var parts := Split(s, sep);
            var tail := Split(s[i + |sep|..], sep);
            parts[|parts| - 1] == tail[|tail| - 1]
  {
    var tail := Split(s[i + |sep|..], sep);
    SplitAtFound(s, sep, i);
    LastOfCons(s[..i], tail);
  }

  lemma {:induction false} SplitAtFound(s: string, sep: string, i: nat)
    requires |sep| > 0 && IndexOf(s, sep) == Some(i)
    ensures Split(s, sep) == [s[..i]] + Split(s[i + |sep|..], sep)
  {
  }

  lemma LastOfCons(x: string, tail: seq<string>)
    requires |tail| > 0
    ensures ([x] + tail)[|tail|] == tail[|tail| - 1]
  {
  }

  /** A string without the character `c` contains no occurrence of `[c]`. */
  lemma AbsentCharNotFound(s: string, c: char)
    requires forall i :: 0 <= i < |s| ==> s[i] != c
    ensures IndexOf(s, [c]).None?
  {
    forall i: nat | i < |s| ensures !OccursAt(s, [c], i) {
      assert s[i..i + 1] == [s[i]];
    }
  }

  /** ASCII case mapping used for `toLowerCase`. */
  function LowerChar(c: char): char {
    if 'A' <= c <= 'Z' then (c as int - 'A' as int + 'a' as int) as char else c
  }

  function ToLower(s: string): (r: string)
    ensures |r| == |s|
    ensures forall i :: 0 <= i < |s| ==> r[i] == LowerChar(s[i])
  {
    seq(|s|, i requires 0 <= i < |s| => LowerChar(s[i]))
  }

  predicate IsDigit(c: char) {
    '0' <= c <= '9'
  }

  function DigitChar(d: nat): (c: char)
    requires d < 10
    ensures IsDigit(c)
  {
    ('0' as int + d) as char
  }

  function DigitValue(c: char): (d: nat)
    requires IsDigit(c)
    ensures d < 10
  {
    c as int - '0' as int
  }

  /** `String(n)` for a non-negative integer. */
  function NatToString(n: nat): (s: string)
    ensures |s| >= 1
    decreases n
  {
    if n < 10 then [DigitChar(n)] else NatToString(n / 10) + [DigitChar(n % 10)]
  }

  predicate AllDigits(s: string) {
    forall i :: 0 <= i < |s| ==> IsDigit(s[i])
  }

  /** The value of a string of decimal digits. */
  function DecimalValue(s: string): nat
    requires AllDigits(s)
    decreases |s|
  {
    if |s| == 0 then 0 else DecimalValue(s[..|s| - 1]) * 10 + DigitValue(s[|s| - 1])
  }

  /** Reading back a rendered number gives the number. */
  lemma {:induction false} NatToStringRoundTrip(n: nat)
    ensures AllDigits(NatToString(n))
    ensures DecimalValue(NatToString(n)) == n
    decreases n
  {
    var s := NatToString(n);
    if n >= 10 {
      NatToStringRoundTrip(n / 10);
      assert s[..|s| - 1] == NatToString(n / 10);
    }
  }

  /** The characters JavaScript's `parseInt` skips before the number. */
  predicate IsJsSpace(c: char) {
    // tab, line feed, vertical tab, form feed, carriage return, byte order mark
    || c == '\t' || c == '\n' || c == '\U{000B}' || c == '\U{000C}' || c == '\r' || c == '\U{FEFF}'
    // line and paragraph separators
    || c == '\U{2028}' || c == '\U{2029}'
    // the space separators (Unicode category Zs)
    || c == ' ' || c == '\U{00A0}' || c == '\U{1680}' || ('\U{2000}' <= c <= '\U{200A}')
    || c == '\U{202F}' || c == '\U{205F}' || c == '\U{3000}'
  }

  function TrimStart(s: string): (r: string)
    ensures |r| <= |s| && r == s[|s| - |r|..]
    ensures |r| > 0 ==> !IsJsSpace(r[0])
    decreases |s|
  {
    if |s| > 0 && IsJsSpace(s[0]) then TrimStart(s[1..]) else s
  }

  /** The longest prefix of `s` made of decimal digits. */
  function DigitPrefix(s: string): (r: string)
    ensures r <= s && AllDigits(r)
    ensures |r| < |s| ==> !IsDigit(s[|r|])
    decreases |s|
  {
    if |s| > 0 && IsDigit(s[0]) then [s[0]] + DigitPrefix(s[1..]) else []
  }

  /** `parseInt(s, 10)`: `None` stands for `NaN` (no digits after the optional sign). */
  function ParseInt(s: string): Option<int> {
    ParseSigned(TrimStart(s))
  }

  /** `parseInt` after the white space: an optional sign, then the leading digits. */
  function ParseSigned(t: string): Option<int> {
    var negative := |t| > 0 && t[0] == '-';
    var body := if |t| > 0 && (t[0] == '-' || t[0] == '+') then t[1..] else t;
    var digits := DigitPrefix(body);
    if |digits| == 0 then None
    else
      var magnitude: int := DecimalValue(digits);
      Some(if negative then -magnitude else magnitude)
  }

  lemma {:induction false} DigitPrefixOfDigits(s: string)
    requires AllDigits(s)
    ensures DigitPrefix(s) == s
    decreases |s|
  {
    if |s| > 0 {
      DigitPrefixOfDigits(s[1..]);
    }
  }

  /** `parseInt(String(n), 10) == n`. */
  lemma ParseIntOfNatToString(n: nat)
    ensures ParseInt(NatToString(n)) == Some(n)
  {
    var s := NatToString(n);
    NatToStringRoundTrip(n);
    assert !IsJsSpace(s[0]) && s[0] != '-' && s[0] != '+';
    assert TrimStart(s) == s;
    DigitPrefixOfDigits(s);
  }

  /** White space in front of the number does not change what `parseInt` reads. */
  lemma LeadingSpaceSkipped(c: char, s: string)
    requires IsJsSpace(c)
    ensures ParseInt([c] + s) == ParseInt(s)
  {
    assert ([c] + s)[1..] == s;
    assert TrimStart([c] + s) == TrimStart(s);
  }

  /** A leading ideographic space is skipped like any other JavaScript white space. */
  lemma IdeographicSpaceSkipped()
    ensures ParseInt("\U{3000}5") == Some(5)
  {
    LeadingSpaceSkipped('\U{3000}', "5");
    assert "\U{3000}5" == ['\U{3000}'] + "5";
    assert NatToString(5) == "5";
    ParseIntOfNatToString(5);
  }

  /** The number of bytes `Buffer.from(s, "utf8")` holds. */
  function Utf8Length(s: string): nat
    decreases |s|
  {
    if |s| == 0 then 0
    else
      var c := s[0] as int;
      (if c < 0x80 then 1 else if c < 0x800 then 2 else if c < 0x10000 then 3 else 4)
      + Utf8Length(s[1..])
  }

  /** `s.length` in JavaScript: UTF-16 code units, two for a character outside the Basic Multilingual Plane. */
  function Utf16Length(s: string): (n: nat)
    ensures |s| <= n <= 2 * |s|
    decreases |s|
  {
    if |s| == 0 then 0
    else (if s[0] as int < 0x10000 then 1 else 2) + Utf16Length(s[1..])
  }
}
