/**
 * The JavaScript string operations the booking pages rely on, over `seq<char>`:
 * `includes`, `startsWith`, `indexOf`, the first two pieces of `split`,
 * `replace` with a one-character or a fixed pattern, `replace(/x/g, y)`,
 * `String(n)`, `padStart(2, '0')` and `parseInt` of a digit string.
 * Lower-casing is not here: callers pass text that is already lower-cased.
 */
module Text {
  import opened Options
  import opened Collections

  /** `sub` occurs in `s` starting at index `i`. */
  predicate OccursAt(s: string, sub: string, i: nat) {
    i + |sub| <= |s| && s[i..i + |sub|] == sub
  }

  /** `s.includes(sub)`. */
  predicate Contains(s: string, sub: string) {
    exists i: nat :: i <= |s| && OccursAt(s, sub, i)
  }

  /** `s.startsWith(prefix)`. */
  predicate StartsWith(s: string, prefix: string) {
    OccursAt(s, prefix, 0)
  }

  /** Every string includes the empty string, as `s.includes('')` is always true. */
  lemma EmptyIsContained(s: string)
    ensures Contains(s, "")
  {
    assert OccursAt(s, "", 0);
  }

  /** A pattern holding a character that `s` lacks never occurs in `s`. */
  lemma AbsentCharNotContained(s: string, sub: string, c: char)
    requires c in sub && c !in s
    ensures !Contains(s, sub)
  {
    var k :| 0 <= k < |sub| && sub[k] == c;
    forall i: nat | i + |sub| <= |s|
      ensures !OccursAt(s, sub, i)
    {
      assert s[i..i + |sub|][k] == s[i + k];
    }
  }

  /** The first index at or after `k` where `sub` occurs in `s`. */
  function IndexFrom(s: string, sub: string, k: nat): (r: Option<nat>)
    requires k <= |s|
    ensures r.Some? ==> k <= r.value && OccursAt(s, sub, r.value)
    ensures r.Some? ==> forall j: nat :: k <= j < r.value ==> !OccursAt(s, sub, j)
    ensures r.None? ==> forall j: nat :: k <= j ==> !OccursAt(s, sub, j)
    decreases |s| - k
  {
    if OccursAt(s, sub, k) then Some(k)
    else if k + |sub| >= |s| then None
    else IndexFrom(s, sub, k + 1)
  }

  /** `s.indexOf(sub)`, with `None` for -1: the first index where `sub` occurs. */
  function IndexOf(s: string, sub: string): (r: Option<nat>)
    ensures r.Some? <==> Contains(s, sub)
    ensures r.Some? ==> OccursAt(s, sub, r.value)
    ensures r.Some? ==> forall j: nat :: j < r.value ==> !OccursAt(s, sub, j)
  {
    IndexFrom(s, sub, 0)
  }

  /** An occurrence with none before it is the one `indexOf` finds. */
  lemma IndexOfFirst(s: string, sub: string, i: nat)
    requires OccursAt(s, sub, i)
    requires forall j: nat :: j < i ==> !OccursAt(s, sub, j)
    ensures IndexOf(s, sub) == Some(i)
  {
    var r := IndexOf(s, sub);
    assert r.Some?;
    assert r.value <= i by {
      assert OccursAt(s, sub, i);
    }
    assert r.value >= i by {
      assert OccursAt(s, sub, r.value);
    }
  }

  /** No occurrence lies wholly before the first one. */
  lemma PrefixBeforeFirst(s: string, sep: string, i: nat)
    requires sep != [] && i <= |s|
    requires forall j: nat :: j < i ==> !OccursAt(s, sep, j)
    ensures !Contains(s[..i], sep)
  {
    forall j: nat | j + |sep| <= i
      ensures !OccursAt(s[..i], sep, j)
    {
      assert s[..i][j..j + |sep|] == s[j..j + |sep|];
      assert !OccursAt(s, sep, j);
    }
  }

  /** `s.split(sep)[0]`: the text before the first `sep`, or all of `s`. */
  function SplitHead(s: string, sep: string): (r: string)
    requires sep != []
    ensures r <= s
    ensures !Contains(r, sep)
    ensures !Contains(s, sep) ==> r == s
    ensures Contains(s, sep) ==> OccursAt(s, sep, |r|)
  {
    match IndexOf(s, sep)
    case None => s
    case Some(i) => PrefixBeforeFirst(s, sep, i); s[..i]
  }

  /**
   * `s.split(sep)[1]`: absent when `sep` does not occur; otherwise the text
   * after the first `sep` up to the next one or the end.
   */
  function SplitSecond(s: string, sep: string): (r: Option<string>)
    requires sep != []
    ensures r.Some? <==> Contains(s, sep)
    ensures r.Some? ==> SplitHead(s, sep) + sep + r.value <= s && !Contains(r.value, sep)
    ensures r.Some? ==>
      var upTo := SplitHead(s, sep) + sep + r.value;
      upTo == s || upTo + sep <= s
  {
    if Contains(s, sep) then
      var head := SplitHead(s, sep);
      var second := SplitHead(s[|head| + |sep|..], sep);
      SecondPiece(s, sep, head, second);
      Some(second)
    else
      None
  }

  /**
   * What follows the first `sep` up to the next one, or to the end when there
   * is none, extends the head and `sep` to a prefix of `s` that is either all
   * of `s` or followed by `sep`.
   */
  lemma SecondPiece(s: string, sep: string, head: string, piece: string)
    requires sep != [] && |head| + |sep| <= |s| && head + sep == s[..|head| + |sep|]
    requires piece == SplitHead(s[|head| + |sep|..], sep)
    ensures head + sep + piece <= s
    ensures head + sep + piece == s || head + sep + piece + sep <= s
  {
    var rest := s[|head| + |sep|..];
    PieceShape(s, head + sep, rest, piece, sep);
  }

  /** The shape of `SecondPiece` with the facts `split` gives about the piece as premises. */
  lemma PieceShape(s: string, before: string, rest: string, piece: string, sep: string)
    requires s == before + rest && piece <= rest
    requires !Contains(rest, sep) ==> piece == rest
    requires Contains(rest, sep) ==> OccursAt(rest, sep, |piece|)
    ensures before + piece <= s
    ensures before + piece == s || before + piece + sep <= s
  {
    if Contains(rest, sep) {
      assert before + piece + sep == s[..|before| + |piece| + |sep|] by {
        assert rest[..|piece| + |sep|] == piece + sep;
      }
    }
  }

  /** `" ("` is first found right after a `name` that does not hold it. */
  lemma {:induction false} FirstParenAfter(name: string, rest: string)
    requires !Contains(name, " (")
    ensures IndexOf(name + " (" + rest, " (") == Some(|name|)
  {
    var s := name + " (" + rest;
    assert s[|name|..|name| + 2] == " (";
    forall j: nat | j < |name|
      ensures !OccursAt(s, " (", j)
    {
      if j + 2 <= |name| {
        assert name[j..j + 2] == s[j..j + 2];
        assert !OccursAt(name, " (", j);
      } else {
        assert s[j..j + 2][1] == s[|name|] == ' ';
      }
    }
    IndexOfFirst(s, " (", |name|);
  }

  /** Closing a text without `" ("` with `")"` cannot create a `" ("`. */
  lemma {:induction false} NoParenAfterClosing(text: string)
    requires !Contains(text, " (")
    ensures !Contains(text + ")", " (")
  {
    var s := text + ")";
    forall j: nat | j + 2 <= |s|
      ensures !OccursAt(s, " (", j)
    {
      if j + 2 <= |text| {
        assert text[j..j + 2] == s[j..j + 2];
        assert !OccursAt(text, " (", j);
      } else {
        assert s[j..j + 2][1] == s[|text|] == ')';
        assert s[j..j + 2] != " (";
      }
    }
  }

  /** `s.replace(c, '')` for a one-character pattern: drops the first `c`. */
  function RemoveFirst(s: string, c: char): (r: string)
    ensures |r| == if c in s then |s| - 1 else |s|
    ensures c !in s ==> r == s
  {
    if s == [] then []
    else if s[0] == c then s[1..]
    else [s[0]] + RemoveFirst(s[1..], c)
  }

  /** Only the first `c` goes: whatever precedes it is kept, and so is all that follows. */
  lemma {:induction false} RemoveFirstSplits(before: string, c: char, after: string)
    requires c !in before
    ensures RemoveFirst(before + [c] + after, c) == before + after
  {
    if before != [] {
      assert (before + [c] + after)[1..] == before[1..] + [c] + after;
      RemoveFirstSplits(before[1..], c, after);
      assert before == [before[0]] + before[1..];
    }
  }

  /** `s.replace(pattern, '')` for a fixed string pattern: drops its first occurrence. */
  function RemoveFirstText(s: string, pattern: string): (r: string)
    ensures !Contains(s, pattern) ==> r == s
    ensures StartsWith(s, pattern) ==> r == s[|pattern|..]
  {
    match IndexOf(s, pattern)
    case None => s
    case Some(i) => s[..i] + s[i + |pattern|..]
  }

  /** `s.replace(/from/g, to)` for one character: every `from` becomes `to`. */
  function ReplaceAll(s: string, from: char, to: char): (r: string)
    ensures |r| == |s|
    ensures forall i :: 0 <= i < |s| ==> r[i] == if s[i] == from then to else s[i]
  {
    if s == [] then []
    else [if s[0] == from then to else s[0]] + ReplaceAll(s[1..], from, to)
  }

  predicate IsDigit(c: char) {
    '0' <= c <= '9'
  }

  predicate AllDigits(s: string) {
    forall i :: 0 <= i < |s| ==> IsDigit(s[i])
  }

  function DigitValue(c: char): nat
    requires IsDigit(c)
  {
    c as int - '0' as int
  }

  function DigitChar(d: nat): (c: char)
    requires d < 10
    ensures IsDigit(c) && DigitValue(c) == d
  {
    ('0' as int + d) as char
  }

  function Pow10(k: nat): (r: nat)
    ensures r >= 1
  {
    if k == 0 then 1 else 10 * Pow10(k - 1)
  }

  /** `String(n)` for a non-negative integer: its decimal digits, no leading zero. */
  function NatToString(n: nat): (r: string)
    ensures 1 <= |r| && AllDigits(r)
    ensures |r| > 1 ==> r[0] != '0'
  {
    if n < 10 then [DigitChar(n)] else NatToString(n / 10) + [DigitChar(n % 10)]
  }

  /** `parseInt(s, 10)` for a non-empty string of decimal digits (0 for the empty one). */
  function DigitsValue(s: string): nat
    requires AllDigits(s)
  {
    if s == [] then 0 else DigitsValue(s[..|s| - 1]) * 10 + DigitValue(s[|s| - 1])
  }

  /** Reading back what `NatToString` wrote gives the number again. */
  lemma {:induction false} DigitsValueOfNatToString(n: nat)
    ensures DigitsValue(NatToString(n)) == n
  {
    if n >= 10 {
      var s := NatToString(n);
      assert s[..|s| - 1] == NatToString(n / 10);
      DigitsValueOfNatToString(n / 10);
    }
  }

  /** `NatToString` is one-to-one: different numbers print differently. */
  lemma NatToStringInjective(m: nat, n: nat)
    requires NatToString(m) == NatToString(n)
    ensures m == n
  {
    DigitsValueOfNatToString(m);
    DigitsValueOfNatToString(n);
  }

  /** A number with `k + 1` digits prints as `k + 1` characters. */
  lemma {:induction false} NatToStringLength(n: nat, k: nat)
    requires Pow10(k) <= n < Pow10(k + 1)
    ensures |NatToString(n)| == k + 1
  {
    if k > 0 {
      assert Pow10(k) == 10 * Pow10(k - 1);
      assert Pow10(k + 1) == 10 * Pow10(k);
      NatToStringLength(n / 10, k - 1);
    }
  }

  /** A leading zero does not change what `parseInt` reads. */
  lemma {:induction false} LeadingZero(s: string)
    requires AllDigits(s)
    ensures AllDigits("0" + s) && DigitsValue("0" + s) == DigitsValue(s)
  {
    if s != [] {
      var t := "0" + s;
      assert t[..|t| - 1] == "0" + s[..|s| - 1];
      LeadingZero(s[..|s| - 1]);
    }
  }

  /** The test `c` fails: the characters `split(c).join('')` keeps. */
  function Other(c: char): char -> bool {
    (x: char) => x != c
  }

  /** `s.split(c).join('')`: `s` with every `c` dropped and the rest kept in order. */
  function RemoveAll(s: string, c: char): (r: string)
    ensures c !in r
    ensures c !in s ==> r == s
  {
    if s == [] then []
    else (if s[0] == c then [] else [s[0]]) + RemoveAll(s[1..], c)
  }

  /** What `RemoveAll` keeps is exactly what `filter` keeps: every character but `c`, in order. */
  lemma {:induction false} RemoveAllFilters(s: string, c: char)
    ensures RemoveAll(s, c) == Filter(s, Other(c))
  {
    if s != [] {
      RemoveAllFilters(s[1..], c);
    }
  }

  /** Dropping every `c` from a concatenation drops it from each part. */
  lemma {:induction false} RemoveAllAppend(a: string, b: string, c: char)
    ensures RemoveAll(a + b, c) == RemoveAll(a, c) + RemoveAll(b, c)
  {
    if a != [] {
      assert (a + b)[1..] == a[1..] + b;
      RemoveAllAppend(a[1..], b, c);
      assert RemoveAll(a, c) == (if a[0] == c then [] else [a[0]]) + RemoveAll(a[1..], c);
    } else {
      assert a + b == b;
    }
  }

  /**
   * The characters `parseInt` skips before a number: tab, line feed, vertical
   * tab, form feed, carriage return, space, no-break space, line and paragraph
   * separators and the byte-order mark.
   */
  predicate IsSpace(ch: char) {
    ch == '\t' || ch == '\n' || ch == '\U{B}' || ch == '\U{C}' || ch == '\r' || ch == ' '
    || ch == '\U{A0}' || ch == '\U{2028}' || ch == '\U{2029}' || ch == '\U{FEFF}'
  }

  /** `s` with its leading white space removed. */
  function TrimStart(s: string): (r: string)
    ensures |r| <= |s| && r == s[|s| - |r|..]
    ensures r == [] || !IsSpace(r[0])
    ensures forall i :: 0 <= i < |s| - |r| ==> IsSpace(s[i])
  {
    if s != [] && IsSpace(s[0]) then TrimStart(s[1..]) else s
  }

  /** White space put before a text is removed by `TrimStart` with the text's own. */
  lemma {:induction false} TrimStartAfterSpace(ws: string, s: string)
    requires forall i :: 0 <= i < |ws| ==> IsSpace(ws[i])
    ensures TrimStart(ws + s) == TrimStart(s)
  {
    if ws != [] {
      assert (ws + s)[0] == ws[0] && (ws + s)[1..] == ws[1..] + s;
      TrimStartAfterSpace(ws[1..], s);
    } else {
      assert ws + s == s;
    }
  }

  /** The longest run of digits `s` starts with: what `parseInt` reads. */
  function LeadingDigits(s: string): (r: string)
    ensures r <= s && AllDigits(r)
    ensures |r| < |s| ==> !IsDigit(s[|r|])
  {
    if s == [] || !IsDigit(s[0]) then []
    else [s[0]] + LeadingDigits(s[1..])
  }

  /** A string of digits is read whole. */
  lemma {:induction false} LeadingDigitsOfDigits(s: string)
    requires AllDigits(s)
    ensures LeadingDigits(s) == s
  {
    if s != [] {
      LeadingDigitsOfDigits(s[1..]);
    }
  }

  /**
   * `parseInt(s)` with no radix on a text whose digits are decimal: leading
   * white space is skipped, an optional sign is read, then the longest run of
   * digits (0 when there is none, where `parseInt` gives NaN).
   */
  function ParseInt(s: string): int {
    var t := TrimStart(s);
    var signed := t != [] && (t[0] == '-' || t[0] == '+');
    var digits := LeadingDigits(if signed then t[1..] else t);
    var magnitude: int := if digits == [] then 0 else DigitsValue(digits);
    if signed && t[0] == '-' then -magnitude else magnitude
  }

  /** White space before a text does not change what `parseInt` reads. */
  lemma ParseIntAfterSpace(ws: string, s: string)
    requires forall i :: 0 <= i < |ws| ==> IsSpace(ws[i])
    ensures ParseInt(ws + s) == ParseInt(s)
  {
    TrimStartAfterSpace(ws, s);
  }

  /** On a text of decimal digits `parseInt` reads them all. */
  lemma ParseIntOfDigits(s: string)
    requires s != [] && AllDigits(s)
    ensures ParseInt(s) == DigitsValue(s)
  {
    assert IsDigit(s[0]);
    assert TrimStart(s) == s;
    LeadingDigitsOfDigits(s);
  }

  /** Reading `a` followed by `b` shifts the value of `a` by the digits of `b`. */
  lemma {:induction false} DigitsValueAppend(a: string, b: string)
    requires AllDigits(a) && AllDigits(b)
    ensures AllDigits(a + b)
    ensures DigitsValue(a + b) == DigitsValue(a) * Pow10(|b|) + DigitsValue(b)
  {
    if b != [] {
      var init, last := b[..|b| - 1], b[|b| - 1];
      var ab := a + b;
      assert ab[..|ab| - 1] == a + init;
      assert ab[|ab| - 1] == last;
      DigitsValueAppend(a, init);
      var x := DigitsValue(a) * Pow10(|init|);
      assert DigitsValue(ab) == (x + DigitsValue(init)) * 10 + DigitValue(last);
      assert DigitsValue(b) == DigitsValue(init) * 10 + DigitValue(last);
      assert Pow10(|b|) == 10 * Pow10(|init|);
      ShiftByTen(DigitsValue(a), Pow10(|init|));
    } else {
      assert a + b == a;
    }
  }

  lemma ShiftByTen(v: int, p: int)
    ensures v * (10 * p) == (v * p) * 10
  {
  }

  /** A string of `k` digits reads as a number below `10^k`. */
  lemma {:induction false} DigitsValueBelow(s: string)
    requires AllDigits(s)
    ensures DigitsValue(s) < Pow10(|s|)
  {
    if s != [] {
      DigitsValueBelow(s[..|s| - 1]);
      assert Pow10(|s|) == 10 * Pow10(|s| - 1);
    }
  }

  /** `s.padStart(2, '0')`. */
  function PadStart2(s: string): (r: string)
    ensures |r| == if |s| < 2 then 2 else |s|
    ensures |s| <= |r| && r[|r| - |s|..] == s
    ensures forall i :: 0 <= i < |r| - |s| ==> r[i] == '0'
  {
    if |s| == 0 then "00" else if |s| == 1 then "0" + s else s
  }

  /** `String(n).padStart(2, '0')` for `n` below 100 is two digits reading back as `n`. */
  lemma TwoDigits(n: nat)
    requires n < 100
    ensures |PadStart2(NatToString(n))| == 2 && AllDigits(PadStart2(NatToString(n)))
    ensures DigitsValue(PadStart2(NatToString(n))) == n
  {
    DigitsValueOfNatToString(n);
    if n < 10 {
      LeadingZero(NatToString(n));
    } else {
      NatToStringLength(n, 1);
    }
  }
}
