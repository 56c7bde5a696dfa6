/** Characters and the handful of Ruby String methods the library leans on:
    Integer#to_s, String#to_i, include?, split and Array#join. */
module Text {
  import opened Wrappers

  predicate IsDigit(c: char) { '0' <= c <= '9' }

  /** Ruby's `\s`, which is also what `split(" ")` and `to_i` skip:
      space, tab, line feed, vertical tab, form feed and carriage return. */
  predicate IsSpace(c: char) {
    c == ' ' || c == '\t' || c == '\n' || c == '\r' || c as int == 11 || c as int == 12
  }

  predicate AllDigits(s: string) {
    forall i :: 0 <= i < |s| ==> IsDigit(s[i])
  }

  function DigitValue(c: char): nat
    requires IsDigit(c)
  {
    c as int - '0' as int
  }

  function DigitChar(d: nat): (c: char)
    requires d < 10
    ensures IsDigit(c) && DigitValue(c) == d
  {
    (d + '0' as int) as char
  }

  /** The number a run of decimal digits denotes. */
  function DigitsValue(s: string): nat
    requires AllDigits(s)
  {
    if s == [] then 0 else 10 * DigitsValue(s[..|s| - 1]) + DigitValue(s[|s| - 1])
  }

  /** Integer#to_s for a natural number: the digits denote the number back. */
  function NatToString(n: nat): (r: string)
    ensures 1 <= |r| && AllDigits(r) && DigitsValue(r) == n
  {
    if n < 10 then [DigitChar(n)]
    else
      var r := NatToString(n / 10) + [DigitChar(n % 10)];
      assert r[..|r| - 1] == NatToString(n / 10);
      r
  }

  /** Integer#to_s: a minus sign for negative numbers, then the digits. */
  function IntToString(n: int): (r: string)
    ensures r != [] && (r[0] == '-' || IsDigit(r[0]))
    ensures forall i :: 0 <= i < |r| ==> r[i] == '-' || IsDigit(r[i])
  {
    if n < 0 then "-" + NatToString(-n) else NatToString(n)
  }

  /** Integer#to_s writes nothing but a sign and digits. */
  lemma IntToStringChars(n: int, c: char)
    requires c != '-' && !IsDigit(c)
    ensures c !in IntToString(n)
  {
  }

  /** Where the run of whitespace that starts at i ends. */
  function SpaceRun(s: string, i: nat): (e: nat)
    requires i <= |s|
    ensures i <= e <= |s| && (e < |s| ==> !IsSpace(s[e]))
    ensures forall j :: i <= j < e ==> IsSpace(s[j])
    decreases |s| - i
  {
    if i == |s| || !IsSpace(s[i]) then i else SpaceRun(s, i + 1)
  }

  /** s without its leading whitespace. */
  function SkipSpaces(s: string): (r: string)
    ensures |r| <= |s| && r == s[|s| - |r|..]
    ensures r != [] ==> !IsSpace(r[0])
  {
    s[SpaceRun(s, 0)..]
  }

  /** Where the run of digits that starts at i ends. */
  function DigitRun(s: string, i: nat): (e: nat)
    requires i <= |s|
    ensures i <= e <= |s| && (e < |s| ==> !IsDigit(s[e]))
    ensures forall j :: i <= j < e ==> IsDigit(s[j])
    decreases |s| - i
  {
    if i == |s| || !IsDigit(s[i]) then i else DigitRun(s, i + 1)
  }

  /** The longest prefix of s made of digits: what the pattern `\d*` matches at the start. */
  function LeadingDigits(s: string): (r: string)
    ensures AllDigits(r) && |r| <= |s| && r == s[..|r|]
    ensures |r| < |s| ==> !IsDigit(s[|r|])
  {
    s[..DigitRun(s, 0)]
  }

  /** DigitRun finds the end of a run of digits that the end or a non-digit closes. */
  lemma DigitRunIs(s: string, i: nat, e: nat)
    requires i <= e <= |s|
    requires forall j :: i <= j < e ==> IsDigit(s[j])
    requires e == |s| || !IsDigit(s[e])
    ensures DigitRun(s, i) == e
  {
  }

  /** The digits d found at i, and no digit after them, are the run at i. */
  lemma DigitsAt(s: string, i: nat, d: string)
    requires AllDigits(d) && i + |d| <= |s| && s[i..i + |d|] == d
    requires i + |d| == |s| || !IsDigit(s[i + |d|])
    ensures DigitRun(s, i) == i + |d|
  {
    forall j | i <= j < i + |d| ensures IsDigit(s[j]) {
      assert s[j] == d[j - i];
    }
    DigitRunIs(s, i, i + |d|);
  }

  /** The leading digits read with to_i: their value, 0 when there are none. */
  function LeadingNat(s: string): nat {
    DigitsValue(LeadingDigits(s))
  }

  /** String#to_i in base 10: leading whitespace, an optional sign, the longest run
      of digits after it; 0 when there is no digit. */
  function ToI(s: string): int {
    var t := SkipSpaces(s);
    if t != [] && t[0] == '-' then -(LeadingNat(t[1..]) as int)
    else if t != [] && t[0] == '+' then LeadingNat(t[1..])
    else LeadingNat(t)
  }

  /** A run of digits followed by anything but a digit is what `\d*` matches. */
  lemma LeadingDigitsOf(s: string, d: string, rest: string)
    requires AllDigits(d)
    requires rest == [] || !IsDigit(rest[0])
    requires s == d + rest
    ensures LeadingDigits(s) == d && s[|d|..] == rest
  {
    Parts2(s, d, rest);
    if rest != [] {
      assert s[|d|] == rest[0];
    }
    DigitsAt(s, 0, d);
  }

  /** String#to_i of a run of digits. */
  lemma ToIOfDigits(d: string)
    requires d != [] && AllDigits(d)
    ensures ToI(d) == DigitsValue(d)
  {
    assert SpaceRun(d, 0) == 0 by {
      assert IsDigit(d[0]);
    }
    assert SkipSpaces(d) == d;
    LeadingDigitsOf(d, d, []);
  }

  /** String#to_i of a minus sign and a run of digits. */
  lemma ToIOfNegated(d: string)
    requires d != [] && AllDigits(d)
    ensures ToI("-" + d) == -(DigitsValue(d) as int)
  {
    LeadingDigitsOf(d, d, []);
    var m := "-" + d;
    assert SkipSpaces(m) == m;
    assert m[1..] == d;
  }

  /** String#to_i reads back what Integer#to_s wrote. */
  lemma ToIOfIntToString(n: int)
    ensures ToI(IntToString(n)) == n
  {
    if n < 0 {
      ToIOfNegated(NatToString(-n));
    } else {
      ToIOfDigits(NatToString(n));
    }
  }

  /** The first position of character c in s. */
  function IndexOfChar(s: string, c: char): (r: Option<nat>)
    ensures r.Some? ==> r.value < |s| && s[r.value] == c && c !in s[..r.value]
    ensures r.None? ==> c !in s
  {
    if s == [] then None
    else if s[0] == c then Some(0)
    else
      match IndexOfChar(s[1..], c)
      case None => None
      case Some(j) => assert s[..j + 1] == [s[0]] + s[1..][..j]; Some(j + 1)
  }

  /** Piece i of `s.split(c)` for a one-character separator c, with "" for a missing
      piece: Ruby gives nil there, and nil.to_i and "".to_i are both 0. */
  function Field(s: string, c: char, i: nat): string
    decreases |s|
  {
    match IndexOfChar(s, c)
    case None => if i == 0 then s else ""
    case Some(j) => if i == 0 then s[..j] else Field(s[j + 1..], c, i - 1)
  }

  /** The first two pieces of `a + [c] + b` are a and b when neither holds c. */
  lemma FieldsOfPair(a: string, b: string, c: char)
    requires c !in a && c !in b
    ensures Field(a + [c] + b, c, 0) == a
    ensures Field(a + [c] + b, c, 1) == b
  {
    var s := a + [c] + b;
    assert s[..|a|] == a;
    assert c !in s[..|a|];
    assert IndexOfChar(s, c) == Some(|a|);
    assert s[|a| + 1..] == b;
    assert IndexOfChar(b, c) == None;
  }

  /** Two runs of digits around a separator c that is not a digit, as in "640x480" or
      "16:9", read back with split(c) and to_i. */
  lemma DigitPair(a: string, b: string, c: char)
    requires a != [] && b != [] && AllDigits(a) && AllDigits(b) && !IsDigit(c)
    ensures ToI(Field(a + [c] + b, c, 0)) == DigitsValue(a)
    ensures ToI(Field(a + [c] + b, c, 1)) == DigitsValue(b)
    ensures forall j :: 0 <= j < |a + [c] + b| ==> (a + [c] + b)[j] == c || IsDigit((a + [c] + b)[j])
  {
    assert c !in a && c !in b;
    FieldsOfPair(a, b, c);
    ToIOfDigits(a);
    ToIOfDigits(b);
  }

  /** Where the run of non-whitespace that starts at i ends. */
  function WordEnd(s: string, i: nat): (e: nat)
    requires i <= |s|
    ensures i <= e <= |s| && (e < |s| ==> IsSpace(s[e]))
    ensures forall j :: i <= j < e ==> !IsSpace(s[j])
    decreases |s| - i
  {
    if i == |s| || IsSpace(s[i]) then i else WordEnd(s, i + 1)
  }

  /** The leading run of non-whitespace of s. */
  function TakeWord(s: string): (r: string)
    ensures r <= s && forall i :: 0 <= i < |r| ==> !IsSpace(r[i])
    ensures |r| < |s| ==> IsSpace(s[|r|])
  {
    s[..WordEnd(s, 0)]
  }

  /** `s.split(" ").first`: the first run of non-space characters, nil when s is blank. */
  function FirstWord(s: string): Option<string> {
    var t := SkipSpaces(s);
    if t == [] then None else Some(TakeWord(t))
  }

  /** WordEnd finds the end of a run of non-whitespace that the end or a whitespace closes. */
  lemma WordEndIs(s: string, i: nat, e: nat)
    requires i <= e <= |s|
    requires forall j :: i <= j < e ==> !IsSpace(s[j])
    requires e == |s| || IsSpace(s[e])
    ensures WordEnd(s, i) == e
  {
  }

  /** A word followed by the end or by whitespace is the first word. */
  lemma FirstWordOf(s: string, word: string, tail: string)
    requires word != [] && forall j :: 0 <= j < |word| ==> !IsSpace(word[j])
    requires tail == [] || IsSpace(tail[0])
    requires s == word + tail
    ensures FirstWord(s) == Some(word)
  {
    Parts2(s, word, tail);
    assert SpaceRun(s, 0) == 0 by {
      assert s[0] == word[0];
    }
    assert SkipSpaces(s) == s;
    if tail != [] {
      assert s[|word|] == tail[0];
    }
    WordEndIs(s, 0, |word|);
  }

  predicate OccursAt(s: string, p: string, i: nat) {
    i + |p| <= |s| && s[i..i + |p|] == p
  }

  /** p occurs in pre + p + post right after pre. */
  lemma OccursAfter(s: string, pre: string, p: string, post: string)
    requires s == pre + p + post
    ensures OccursAt(s, p, |pre|)
  {
    assert s[|pre|..|pre| + |p|] == p;
  }

  // A text built by concatenation, read back part by part.

  lemma Parts2(s: string, a: string, b: string)
    requires s == a + b
    ensures |s| == |a| + |b| && s[..|a|] == a && s[0..|a|] == a && s[|a|..] == b
  {
  }

  lemma Parts3(s: string, a: string, b: string, c: string)
    requires s == a + b + c
    ensures |s| == |a| + |b| + |c|
    ensures s[..|a|] == a && s[0..|a|] == a && s[|a|..|a| + |b|] == b && s[|a| + |b|..] == c
  {
    assert s[|a|..|a| + |b|] == b;
  }

  lemma Parts4(s: string, a: string, b: string, c: string, d: string)
    requires s == a + b + c + d
    ensures |s| == |a| + |b| + |c| + |d|
    ensures s[..|a|] == a && s[|a|..|a| + |b|] == b
    ensures s[|a| + |b|..|a| + |b| + |c|] == c && s[|a| + |b| + |c|..] == d
  {
    assert s[|a|..|a| + |b|] == b;
    assert s[|a| + |b|..|a| + |b| + |c|] == c;
  }

  lemma Parts5(s: string, a: string, b: string, c: string, d: string, e: string)
    requires s == a + b + c + d + e
    ensures |s| == |a| + |b| + |c| + |d| + |e|
    ensures s[..|a|] == a && s[|a|..|a| + |b|] == b
    ensures s[|a| + |b|..|a| + |b| + |c|] == c
    ensures s[|a| + |b| + |c|..|a| + |b| + |c| + |d|] == d
    ensures s[|a| + |b| + |c| + |d|..] == e
  {
    assert s[|a|..|a| + |b|] == b;
    assert s[|a| + |b|..|a| + |b| + |c|] == c;
    assert s[|a| + |b| + |c|..|a| + |b| + |c| + |d|] == d;
  }

  /** A slice of a text found at i is the same slice of what was found. */
  lemma SliceOf(s: string, i: nat, t: string, a: nat, b: nat)
    requires i + |t| <= |s| && s[i..i + |t|] == t && a <= b <= |t|
    ensures s[i + a..i + b] == t[a..b]
  {
    forall j | 0 <= j < b - a
      ensures s[i + a..i + b][j] == t[a..b][j]
    {
      assert s[i + a + j] == s[i..i + |t|][a + j];
    }
  }

  /** String#include? (and `s[p]` being non-nil). */
  predicate Contains(s: string, p: string) {
    exists i :: 0 <= i <= |s| && OccursAt(s, p, i)
  }

  lemma ContainsChar(s: string, c: char)
    ensures Contains(s, [c]) <==> c in s
  {
    if c in s {
      var i :| 0 <= i < |s| && s[i] == c;
      assert OccursAt(s, [c], i);
    }
    if Contains(s, [c]) {
      var i :| 0 <= i <= |s| && OccursAt(s, [c], i);
      assert s[i..i + 1][0] == s[i];
    }
  }

  /** Array#join over strings. */
  function Join(parts: seq<string>, sep: string): string {
    if |parts| == 0 then ""
    else if |parts| == 1 then parts[0]
    else Join(parts[..|parts| - 1], sep) + sep + parts[|parts| - 1]
  }
}
