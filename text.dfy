/**
  String helpers shared by the scanner, the detector and the processor:
  ASCII lower-casing, substring search, splitting and joining on a separator,
  decimal rendering of naturals, and the code-point ordering Python uses to
  compare `str` values.
 */
module Text {

  // ---------------------------------------------------------------------------
  // Case and search

  /** Python's `str.lower` restricted to ASCII letters. */
  function LowerChar(c: char): (r: char)
    ensures 'A' <= c <= 'Z' ==> r as int == c as int + 32
    ensures !('A' <= c <= 'Z') ==> r == c
  {
    if 'A' <= c <= 'Z' then (c as int + 32) as char else c
  }

  function Lower(s: string): (r: string)
    ensures |r| == |s|
  {
    if s == [] then [] else [LowerChar(s[0])] + Lower(s[1..])
  }

  /** Lower-casing works character by character. */
  lemma {:induction false} LowerAt(s: string)
    ensures forall i :: 0 <= i < |s| ==> Lower(s)[i] == LowerChar(s[i])
  {
    if s != [] {
      LowerAt(s[1..]);
    }
  }

  /** `pat in s` for Python strings: `pat` occurs in `s` at some offset. */
  predicate IsSubstring(pat: string, s: string) {
    exists i | 0 <= i <= |s| - |pat| :: OccursAt(pat, s, i)
  }

  predicate OccursAt(pat: string, s: string, i: nat)
    requires i + |pat| <= |s|
  {
    s[i..i + |pat|] == pat
  }

  /** The index of the last occurrence of `c` in `s`, or -1 (Python's `str.rfind`). */
  function LastIndexOf(s: string, c: char): (i: int)
    ensures -1 <= i < |s|
    ensures i >= 0 ==> s[i] == c
    ensures forall j :: i < j < |s| ==> s[j] != c
  {
    if s == [] then -1
    else if s[|s| - 1] == c then |s| - 1
    else LastIndexOf(s[..|s| - 1], c)
  }

  /** The index of the first occurrence of `c` in `s`, which must occur. */
  function IndexOf(s: string, c: char): (i: nat)
    requires c in s
    ensures i < |s| && s[i] == c && c !in s[..i]
  {
    if s[0] == c then 0 else 1 + IndexOf(s[1..], c)
  }

  // ---------------------------------------------------------------------------
  // Splitting and joining

  /** Python's `s.split(c)` (and JavaScript's) for a one-character separator. */
  function Split(s: string, c: char): (fields: seq<string>)
    ensures |fields| >= 1
    decreases |s|
  {
    if c !in s then [s]
    else
      var i := IndexOf(s, c);
      [s[..i]] + Split(s[i + 1..], c)
  }

  /** Python's `sep.join(parts)`. */
  function Join(parts: seq<string>, sep: string): string {
    if |parts| == 0 then ""
    else if |parts| == 1 then parts[0]
    else parts[0] + sep + Join(parts[1..], sep)
  }

  /** A field free of the separator splits off exactly at the separator that follows it. */
  lemma {:induction false} SplitAfterField(a: string, c: char, b: string)
    requires c !in a
    ensures Split(a + [c] + b, c) == [a] + Split(b, c)
  {
    var s := a + [c] + b;
    assert s[|a|] == c;
    var i := IndexOf(s, c);
    assert s[..|a|] == a;
    assert i == |a|;
    assert s[..i] == a;
    assert s[i + 1..] == b;
  }

  /** Three separator-free fields joined by the separator split back into those three. */
  lemma SplitThree(a: string, b: string, d: string, c: char)
    requires c !in a && c !in b && c !in d
    ensures Split(a + [c] + b + [c] + d, c) == [a, b, d]
  {
    var rest := b + [c] + d;
    assert a + [c] + b + [c] + d == a + [c] + rest;
    SplitAfterField(b, c, d);
    assert Split(d, c) == [d];
    SplitAfterField(a, c, rest);
  }

  /** No field of `Split(s, c)` contains `c`. */
  lemma {:induction false} SplitFieldsFree(s: string, c: char)
    ensures forall k :: 0 <= k < |Split(s, c)| ==> c !in Split(s, c)[k]
    decreases |s|
  {
    if c in s {
      var i := IndexOf(s, c);
      SplitFieldsFree(s[i + 1..], c);
    }
  }

  /** No part contains the character `c`. */
  predicate NoneContain(parts: seq<string>, c: char) {
    forall k :: 0 <= k < |parts| ==> c !in parts[k]
  }

  /**
    Splitting `u + Join(parts, [c] + t)` on `c` gives back the parts: the first
    preceded by `u`, every other one by `t`.
   */
  lemma {:induction false} SplitJoinAfter(u: string, parts: seq<string>, c: char, t: string)
    requires |parts| >= 1 && NoneContain(parts, c)
    requires c !in t && c !in u
    ensures |Split(u + Join(parts, [c] + t), c)| == |parts|
    ensures Split(u + Join(parts, [c] + t), c)[0] == u + parts[0]
    ensures forall k :: 1 <= k < |parts| ==> Split(u + Join(parts, [c] + t), c)[k] == t + parts[k]
    decreases |parts|
  {
    var s := u + Join(parts, [c] + t);
    assert c !in u + parts[0] by {
      assert c !in parts[0];
      assert forall x :: x in u + parts[0] ==> x in u || x in parts[0];
    }
    if |parts| == 1 {
      assert s == u + parts[0];
    } else {
      var rest := parts[1..];
      var tail := Join(rest, [c] + t);
      assert s == (u + parts[0]) + [c] + (t + tail);
      SplitAfterField(u + parts[0], c, t + tail);
      assert NoneContain(rest, c) by {
        forall k | 0 <= k < |rest| ensures c !in rest[k] { assert rest[k] == parts[k + 1]; }
      }
      SplitJoinAfter(t, rest, c, t);
      FieldsAfterFirst(Split(s, c), u + parts[0], Split(t + tail, c), parts, t);
    }
  }

  /** One field followed by the fields of the remaining parts, each after `t`. */
  lemma FieldsAfterFirst(f: seq<string>, x: string, g: seq<string>, parts: seq<string>, t: string)
    requires |parts| >= 2 && f == [x] + g
    requires |g| == |parts| - 1 && g[0] == t + parts[1..][0]
    requires forall k :: 1 <= k < |parts| - 1 ==> g[k] == t + parts[1..][k]
    ensures |f| == |parts| && f[0] == x
    ensures forall k :: 1 <= k < |parts| ==> f[k] == t + parts[k]
  {
    forall k | 1 <= k < |parts| ensures f[k] == t + parts[k] {
      assert f[k] == g[k - 1];
      assert parts[1..][k - 1] == parts[k];
    }
  }

  /** The fields of `Join(parts, [c] + t)` split on `c` are the parts, each but the first preceded by `t`. */
  lemma SplitJoin(parts: seq<string>, c: char, t: string)
    requires |parts| >= 1 && NoneContain(parts, c)
    requires c !in t
    ensures |Split(Join(parts, [c] + t), c)| == |parts|
    ensures Split(Join(parts, [c] + t), c)[0] == parts[0]
    ensures forall k :: 1 <= k < |parts| ==> Split(Join(parts, [c] + t), c)[k] == t + parts[k]
  {
    SplitJoinAfter("", parts, c, t);
    assert "" + Join(parts, [c] + t) == Join(parts, [c] + t);
    assert "" + parts[0] == parts[0];
  }

  // ---------------------------------------------------------------------------
  // Trimming (JavaScript's `String.prototype.trim`)

  /** The characters `trim` removes: ECMAScript's WhiteSpace (tab, vertical tab, form feed, no-break space, byte-order mark and every Unicode space separator) and LineTerminator code points. */
  predicate IsTrimSpace(c: char) {
    || c == '\t' || c == '\n' || c == '\U{000B}' || c == '\U{000C}' || c == '\r'
    || c == ' ' || c == '\U{00A0}' || c == '\U{1680}' || '\U{2000}' <= c <= '\U{200A}'
    || c == '\U{2028}' || c == '\U{2029}' || c == '\U{202F}' || c == '\U{205F}' || c == '\U{3000}'
    || c == '\U{FEFF}'
  }

  function TrimStart(s: string): (r: string)
    ensures |r| <= |s| && r == s[|s| - |r|..]
    ensures r == [] || !IsTrimSpace(r[0])
  {
    if |s| > 0 && IsTrimSpace(s[0]) then TrimStart(s[1..]) else s
  }

  function TrimEnd(s: string): (r: string)
    ensures |r| <= |s| && r == s[..|r|]
    ensures r == [] || !IsTrimSpace(r[|r| - 1])
  {
    if |s| > 0 && IsTrimSpace(s[|s| - 1]) then TrimEnd(s[..|s| - 1]) else s
  }

  /** JavaScript's `s.trim()`: what is left is empty or trimmed. */
  function Trim(s: string): (r: string)
    ensures r == [] || Trimmed(r)
  {
    var t := TrimStart(s);
    var r := TrimEnd(t);
    assert r != [] ==> r[0] == t[0];
    r
  }

  /** Trimming only removes characters: what is left is made of characters of `s`. */
  lemma TrimChars(s: string)
    ensures forall x :: x in Trim(s) ==> x in s
  {
    var t := TrimStart(s);
    assert forall x :: x in Trim(s) ==> x in t;
  }

  /** A non-empty string with no `trim` whitespace at either end. */
  predicate Trimmed(s: string) {
    |s| > 0 && !IsTrimSpace(s[0]) && !IsTrimSpace(s[|s| - 1])
  }

  /** Trimming leaves a trimmed string alone and removes one leading space before it. */
  lemma TrimAfterSpace(s: string)
    requires Trimmed(s)
    ensures Trim(s) == s
    ensures Trim(" " + s) == s
  {
    assert (" " + s)[1..] == s;
  }

  // ---------------------------------------------------------------------------
  // Decimal digits

  predicate IsDigit(c: char) {
    '0' <= c <= '9'
  }

  function DigitChar(d: nat): (c: char)
    requires d < 10
    ensures IsDigit(c)
  {
    ('0' as int + d) as char
  }

  function DigitValue(c: char): nat
    requires IsDigit(c)
  {
    c as int - '0' as int
  }

  predicate AllDigits(s: string) {
    forall i :: 0 <= i < |s| ==> IsDigit(s[i])
  }

  /** The value of a string of decimal digits, most significant first. */
  function DigitsValue(s: string): nat
    requires AllDigits(s)
  {
    if |s| == 0 then 0 else 10 * DigitsValue(s[..|s| - 1]) + DigitValue(s[|s| - 1])
  }

  /** Python's `int(x)` on a float: truncation toward zero. */
  function Truncate(x: real): (n: int)
    ensures x >= 0.0 ==> n as real <= x < n as real + 1.0
    ensures x < 0.0 ==> n as real - 1.0 < x <= n as real
  {
    if x >= 0.0 then x.Floor else -((-x).Floor)
  }

  /** `str(n)` / `"%d" % n` for a natural: no leading zeros, "0" for zero. */
  function NatStr(n: nat): (s: string)
    ensures 1 <= |s| && AllDigits(s)
    ensures |s| == 1 <==> n < 10
  {
    if n < 10 then [DigitChar(n)] else NatStr(n / 10) + [DigitChar(n % 10)]
  }

  /** `"%02d" % n` for n below 100. */
  function Pad2(n: nat): (s: string)
    requires n < 100
    ensures |s| == 2 && AllDigits(s)
  {
    [DigitChar(n / 10), DigitChar(n % 10)]
  }

  lemma {:induction false} NatStrValue(n: nat)
    ensures DigitsValue(NatStr(n)) == n
  {
    var s := NatStr(n);
    if n >= 10 {
      NatStrValue(n / 10);
      assert s[..|s| - 1] == NatStr(n / 10);
    }
  }

  lemma Pad2Value(n: nat)
    requires n < 100
    ensures DigitsValue(Pad2(n)) == n
  {
    var s := Pad2(n);
    assert s[..1] == [DigitChar(n / 10)];
    assert s[..1][..0] == [];
    assert DigitsValue(s[..1]) == n / 10;
  }

  lemma DigitsHaveNo(s: string, c: char)
    requires AllDigits(s) && !IsDigit(c)
    ensures c !in s
  {
  }

  // ---------------------------------------------------------------------------
  // Order-preserving selection

  /** `a` can be obtained from `b` by deleting elements, keeping the order of the rest. */
  predicate Subsequence<T(==)>(a: seq<T>, b: seq<T>)
    decreases |b|
  {
    if a == [] then true
    else if b == [] then false
    else if a[|a| - 1] == b[|b| - 1] then Subsequence(a[..|a| - 1], b[..|b| - 1])
    else Subsequence(a, b[..|b| - 1])
  }

  lemma {:induction false} SubsequenceEmpty<T>(b: seq<T>)
    ensures Subsequence([], b)
  {
  }

  /** Appending to `b` keeps `a` a subsequence of it. */
  lemma {:induction false} SubsequenceExtend<T>(a: seq<T>, b: seq<T>, x: T)
    requires Subsequence(a, b)
    ensures Subsequence(a, b + [x])
    decreases |b|, 1
  {
    var bx := b + [x];
    assert bx[..|bx| - 1] == b;
    if a != [] && a[|a| - 1] == x {
      SubsequenceInit(a, b);
    }
  }

  /** Dropping the last element of `a` keeps it a subsequence of `b`. */
  lemma {:induction false} SubsequenceInit<T>(a: seq<T>, b: seq<T>)
    requires a != [] && Subsequence(a, b)
    ensures Subsequence(a[..|a| - 1], b)
    decreases |b|, 0
  {
    var b' := b[..|b| - 1];
    assert b' + [b[|b| - 1]] == b;
    if a[|a| - 1] == b[|b| - 1] {
      SubsequenceExtend(a[..|a| - 1], b', b[|b| - 1]);
    } else {
      SubsequenceInit(a, b');
      SubsequenceExtend(a[..|a| - 1], b', b[|b| - 1]);
    }
  }

  // ---------------------------------------------------------------------------
  // Python's ordering of `str` values: lexicographic by code point, a proper prefix first

  predicate Less(a: string, b: string) {
    if |a| == 0 then |b| > 0
    else if |b| == 0 then false
    else if a[0] != b[0] then a[0] < b[0]
    else Less(a[1..], b[1..])
  }

  lemma {:induction false} LessIrreflexive(a: string)
    ensures !Less(a, a)
  {
    if |a| > 0 {
      LessIrreflexive(a[1..]);
    }
  }

  lemma {:induction false} LessTransitive(a: string, b: string, c: string)
    requires Less(a, b) && Less(b, c)
    ensures Less(a, c)
  {
    if |a| > 0 && |b| > 0 && |c| > 0 && a[0] == b[0] == c[0] {
      LessTransitive(a[1..], b[1..], c[1..]);
    }
  }

  lemma {:induction false} LessTotal(a: string, b: string)
    requires a != b
    ensures Less(a, b) || Less(b, a)
  {
    if |a| > 0 && |b| > 0 && a[0] == b[0] {
      assert a == [a[0]] + a[1..] && b == [b[0]] + b[1..];
      LessTotal(a[1..], b[1..]);
    }
  }

  lemma {:induction false} LessAsymmetric(a: string, b: string)
    requires Less(a, b)
    ensures !Less(b, a)
  {
    if |a| > 0 && |b| > 0 && a[0] == b[0] {
      LessAsymmetric(a[1..], b[1..]);
    }
  }
}
