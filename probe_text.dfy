/** The pattern searches that read ffmpeg's probe and progress text. Each regular
    expression the library applies gets one function that says where it matches
    (Ruby takes the leftmost position at which the pattern succeeds) and what its
    groups capture there. */
module ProbeText {
  import opened Wrappers
  import opened Text

  /** A search's verdicts, one per start position: whether the pattern
      matches there. */
  function FirstHitFrom(hits: seq<bool>, from: nat): (r: Option<nat>)
    ensures r.Some? ==> from <= r.value < |hits| && hits[r.value]
    ensures r.Some? ==> forall j :: from <= j < r.value ==> !hits[j]
    ensures r.None? ==> forall j :: from <= j < |hits| ==> !hits[j]
    decreases |hits| - from
  {
    if from >= |hits| then None
    else if hits[from] then Some(from)
    else FirstHitFrom(hits, from + 1)
  }

  /** Where a regular expression search finds the pattern: the leftmost match. */
  function FirstHit(hits: seq<bool>): Option<nat> {
    FirstHitFrom(hits, 0)
  }

  /** A match with none before it is the one the search finds. */
  lemma FirstHitIs(hits: seq<bool>, i: nat)
    requires i < |hits| && hits[i]
    requires forall j :: 0 <= j < i ==> !hits[j]
    ensures FirstHit(hits) == Some(i)
  {
  }

  /** Where the fixed text p occurs in s, as in `output["Unknown format"]`. */
  function LiteralHits(s: string, p: string): (r: seq<bool>)
    ensures |r| == |s| + 1 && forall j :: 0 <= j <= |s| ==> r[j] == OccursAt(s, p, j)
  {
    seq(|s| + 1, j requires 0 <= j => OccursAt(s, p, j))
  }

  /** The leftmost position of p in s. */
  function FirstOccurrence(s: string, p: string): Option<nat> {
    FirstHit(LiteralHits(s, p))
  }

  /** The search finds p exactly when s includes p, and finds its first place. */
  lemma FirstOccurrenceSpec(s: string, p: string)
    ensures FirstOccurrence(s, p).None? <==> !Contains(s, p)
    ensures FirstOccurrence(s, p).Some? ==>
      OccursAt(s, p, FirstOccurrence(s, p).value) &&
      forall j :: 0 <= j < FirstOccurrence(s, p).value ==> !OccursAt(s, p, j)
  {
    var hits := LiteralHits(s, p);
    var r := FirstHit(hits);
    if r.None? {
      forall i | 0 <= i <= |s| ensures !OccursAt(s, p, i) {
        assert !hits[i];
      }
    } else {
      assert hits[r.value];
      forall j | 0 <= j < r.value ensures !OccursAt(s, p, j) {
        assert !hits[j];
      }
    }
  }

  /** An occurrence with none before it is the one the search finds. */
  lemma FirstOccurrenceIs(s: string, p: string, i: nat)
    requires OccursAt(s, p, i)
    requires forall j :: 0 <= j < i ==> !OccursAt(s, p, j)
    ensures FirstOccurrence(s, p) == Some(i)
  {
    FirstHitIs(LiteralHits(s, p), i);
  }

  /** Where the line that position i is on ends: the next line feed, or the end. */
  function LineEnd(s: string, i: nat): (e: nat)
    requires i <= |s|
    ensures i <= e <= |s| && (e < |s| ==> s[e] == '\n')
    ensures forall j :: i <= j < e ==> s[j] != '\n'
    decreases |s| - i
  {
    if i == |s| || s[i] == '\n' then i else LineEnd(s, i + 1)
  }

  /** The text from position i to the end of its line: what `(.*)` captures, as `.`
      matches anything but a line feed. */
  function RestOfLine(s: string, i: nat): (r: string)
    requires i <= |s|
    ensures '\n' !in r && i + |r| <= |s| && r == s[i..i + |r|]
    ensures i + |r| < |s| ==> s[i + |r|] == '\n'
  {
    s[i..LineEnd(s, i)]
  }

  /** `s[/<p>(.*)/]` followed by `$1`: the rest of the line after the first p. */
  function CaptureLineAfter(s: string, p: string): Option<string> {
    match FirstOccurrence(s, p)
    case None => None
    case Some(i) => Some(RestOfLine(s, i + |p|))
  }

  /** p is found right after pre when pre holds no character that starts p. */
  lemma FirstOccurrenceAfter(s: string, pre: string, p: string)
    requires p != [] && p[0] !in pre
    requires |pre| <= |s| && s[..|pre|] == pre && OccursAt(s, p, |pre|)
    ensures FirstOccurrence(s, p) == Some(|pre|)
  {
    var hits := LiteralHits(s, p);
    forall j | 0 <= j < |pre| ensures !hits[j] {
      assert s[j] == pre[j];
      if j + |p| <= |s| {
        assert s[j..j + |p|][0] == s[j];
      }
    }
    FirstHitIs(hits, |pre|);
  }

  /** The line after a marker is captured whole when nothing before it starts the marker. */
  lemma CaptureLineOf(s: string, pre: string, p: string, line: string, post: string)
    requires p != [] && p[0] !in pre
    requires '\n' !in line
    requires post == [] || post[0] == '\n'
    requires s == pre + p + line + post
    ensures CaptureLineAfter(s, p) == Some(line)
  {
    var i := |pre|;
    Parts4(s, pre, p, line, post);
    FirstOccurrenceAfter(s, pre, p);
    RestOfLineOf(s, i + |p|, line);
    CaptureLineAt(s, p, i, line);
  }

  lemma CaptureLineAt(s: string, p: string, i: nat, line: string)
    requires FirstOccurrence(s, p) == Some(i)
    requires i + |p| <= |s| && RestOfLine(s, i + |p|) == line
    ensures CaptureLineAfter(s, p) == Some(line)
  {
  }

  /** A line without line feeds, then a line feed or the end, is the rest of the line. */
  lemma RestOfLineOf(s: string, i: nat, line: string)
    requires i + |line| <= |s| && s[i..i + |line|] == line && '\n' !in line
    requires i + |line| == |s| || s[i + |line|] == '\n'
    ensures RestOfLine(s, i) == line
  {
  }

  // ---- /\s?,\s?/ as used by split ----

  /** Where a match of `\s?,\s?` starting at i ends, if one starts there. */
  function SepEnd(s: string, i: nat): (r: Option<nat>)
    ensures r.Some? ==> i < r.value <= |s|
  {
    if i < |s| && s[i] == ',' then Some(if i + 1 < |s| && IsSpace(s[i + 1]) then i + 2 else i + 1)
    else if i + 1 < |s| && IsSpace(s[i]) && s[i + 1] == ',' then
      Some(if i + 2 < |s| && IsSpace(s[i + 2]) then i + 3 else i + 2)
    else None
  }

  /** The leftmost separator in s, as start and end. */
  function FirstSep(s: string): (r: Option<(nat, nat)>)
    ensures r.Some? ==> r.value.0 < r.value.1 <= |s|
    decreases |s|
  {
    if s == [] then None
    else
      match SepEnd(s, 0)
      case Some(e) => Some((0, e))
      case None =>
        match FirstSep(s[1..])
        case None => None
        case Some((a, b)) => Some((a + 1, b + 1))
  }

  /** The pieces between separators, before split drops the trailing empty ones. */
  function CommaPieces(s: string): (r: seq<string>)
    ensures |r| >= 1
    decreases |s|
  {
    match FirstSep(s)
    case None => [s]
    case Some((a, b)) => [s[..a]] + CommaPieces(s[b..])
  }

  /** split removes trailing empty strings. */
  function DropTrailingEmpty(ps: seq<string>): (r: seq<string>)
    ensures r <= ps
    ensures r != [] ==> r[|r| - 1] != ""
    ensures forall i :: |r| <= i < |ps| ==> ps[i] == ""
  {
    if ps == [] then []
    else if ps[|ps| - 1] == "" then DropTrailingEmpty(ps[..|ps| - 1])
    else ps
  }

  /** `s.split(/\s?,\s?/)` */
  function CommaSplit(s: string): seq<string> {
    DropTrailingEmpty(CommaPieces(s))
  }

  /** Element i of an array, nil past the end. */
  function At(ps: seq<string>, i: nat): Option<string> {
    if i < |ps| then Some(ps[i]) else None
  }

  /** A piece the separator cannot cut: no comma, and no whitespace at its end that
      the separator would swallow. */
  predicate CleanPiece(p: string) {
    ',' !in p && (p == [] || !IsSpace(p[|p| - 1]))
  }

  lemma {:induction false} FirstSepAfterClean(a: string, rest: string)
    requires CleanPiece(a)
    ensures FirstSep(a + ", " + rest) == Some((|a|, |a| + 2))
  {
    var s := a + ", " + rest;
    if a != [] {
      assert s[0] == a[0];
      assert |a| == 1 ==> s[1] == ',';
      assert |a| > 1 ==> s[1] == a[1];
      assert SepEnd(s, 0) == None;
      assert s[1..] == a[1..] + ", " + rest;
      FirstSepAfterClean(a[1..], rest);
    }
  }

  lemma {:induction false} FirstSepNone(p: string)
    requires ',' !in p
    ensures FirstSep(p) == None
  {
    if p != [] {
      assert SepEnd(p, 0) == None;
      FirstSepNone(p[1..]);
    }
  }

  lemma JoinCons(a: string, ps: seq<string>, sep: string)
    requires ps != []
    ensures Join([a] + ps, sep) == a + sep + Join(ps, sep)
    decreases |ps|
  {
    if |ps| > 1 {
      var q := [a] + ps;
      assert q[..|q| - 1] == [a] + ps[..|ps| - 1];
      JoinCons(a, ps[..|ps| - 1], sep);
    }
  }

  /** Pieces joined with ", " split back into themselves. */
  lemma {:induction false} CommaPiecesOfJoin(ps: seq<string>)
    requires ps != []
    requires forall i :: 0 <= i < |ps| ==> CleanPiece(ps[i])
    ensures CommaPieces(Join(ps, ", ")) == ps
  {
    if |ps| == 1 {
      FirstSepNone(ps[0]);
    } else {
      var rest := Join(ps[1..], ", ");
      JoinCons(ps[0], ps[1..], ", ");
      assert [ps[0]] + ps[1..] == ps;
      var s := ps[0] + ", " + rest;
      FirstSepAfterClean(ps[0], rest);
      assert s[..|ps[0]|] == ps[0];
      assert s[|ps[0]| + 2..] == rest;
      CommaPiecesOfJoin(ps[1..]);
    }
  }

  /** split(/\s?,\s?/) undoes join(", ") when the last piece is not empty. */
  lemma CommaSplitOfJoin(ps: seq<string>)
    requires ps != [] && ps[|ps| - 1] != ""
    requires forall i :: 0 <= i < |ps| ==> CleanPiece(ps[i])
    ensures CommaSplit(Join(ps, ", ")) == ps
  {
    CommaPiecesOfJoin(ps);
  }

  // ---- String#to_f on the digit texts the patterns capture ----

  /** The value of the digits after a decimal point: 0.d1 d2 ... */
  function Fraction(d: string): real
    requires AllDigits(d)
  {
    if d == [] then 0.0 else (DigitValue(d[0]) as real + Fraction(d[1..])) / 10.0
  }

  /** The number the numeral "<whole>.<frac>" denotes. */
  function Decimal(whole: string, frac: string): real
    requires AllDigits(whole) && AllDigits(frac)
  {
    DigitsValue(whole) as real + Fraction(frac)
  }

  /** The numeral "<whole>.<frac>". */
  function DecimalText(whole: string, frac: string): string {
    whole + "." + frac
  }

  /** String#to_f on text that starts with digits, an optional point and more digits
      (every capture that reaches to_f here has that form): 0.0 with no digits. */
  function DecimalToF(t: string): real {
    var w := DigitRun(t, 0);
    if w < |t| && t[w] == '.' then Decimal(t[..w], t[w + 1..DigitRun(t, w + 1)])
    else DigitsValue(t[..w]) as real
  }

  /** The numeral "<whole>.<frac>" found at k, with no digit after it. */
  lemma DecimalTextAt(s: string, k: nat, whole: string, frac: string)
    requires AllDigits(whole) && AllDigits(frac)
    requires k + |DecimalText(whole, frac)| <= |s| && s[k..k + |DecimalText(whole, frac)|] == DecimalText(whole, frac)
    requires k + |DecimalText(whole, frac)| == |s| || !IsDigit(s[k + |DecimalText(whole, frac)|])
    ensures DigitRun(s, k) == k + |whole| && s[k..k + |whole|] == whole && s[k + |whole|] == '.'
    ensures DigitRun(s, k + |whole| + 1) == k + |whole| + 1 + |frac|
    ensures s[k + |whole| + 1..k + |whole| + 1 + |frac|] == frac
  {
    var t := DecimalText(whole, frac);
    Parts3(t, whole, ".", frac);
    SliceOf(s, k, t, 0, |whole|);
    SliceOf(s, k, t, |whole| + 1, |t|);
    assert s[k + |whole|] == t[|whole|];
    DigitsAt(s, k, whole);
    DigitsAt(s, k + |whole| + 1, frac);
  }

  /** to_f reads "<whole>.<frac>" as that decimal number. */
  lemma DecimalToFOf(t: string, whole: string, frac: string)
    requires AllDigits(whole) && AllDigits(frac)
    requires t == DecimalText(whole, frac)
    ensures DecimalToF(t) == Decimal(whole, frac)
  {
    assert t[0..|t|] == t;
    DecimalTextAt(t, 0, whole, frac);
  }

  // ---- (\d*\.?\d*)\s?fps ----

  /** Where the group `\d*\.?\d*` that starts at p ends: the digits, then a point and
      digits if a point follows. */
  function NumberEnd(s: string, p: nat): (e: nat)
    requires p <= |s|
    ensures p <= e <= |s|
  {
    var w := DigitRun(s, p);
    if w < |s| && s[w] == '.' then DigitRun(s, w + 1) else w
  }

  /** The pattern matches at p: after the group, "fps" or one whitespace and "fps".
      A shorter group would leave a digit or a point before "fps", so the group is
      the longest one. */
  predicate FpsAt(s: string, p: nat) {
    p <= |s| &&
    var q := NumberEnd(s, p);
    OccursAt(s, "fps", q) || (q < |s| && IsSpace(s[q]) && OccursAt(s, "fps", q + 1))
  }

  /** Where `(\d*\.?\d*)\s?fps` matches in s. */
  function FpsHits(s: string): (r: seq<bool>)
    ensures |r| == |s| + 1 && forall j :: 0 <= j <= |s| ==> r[j] == FpsAt(s, j)
  {
    seq(|s| + 1, j requires 0 <= j => FpsAt(s, j))
  }

  /** `s[/(\d*\.?\d*)\s?fps/] ? $1.to_f : nil`; the whole match holds "fps", so it is
      never empty and always truthy. */
  function FrameRateIn(s: string): Option<real> {
    match FirstHit(FpsHits(s))
    case None => None
    case Some(p) => Some(DecimalToF(s[p..NumberEnd(s, p)]))
  }

  /** "<whole>.<frac> fps" is read as that number when nothing before it can start a
      match: no "f" there, and no digit right before the numeral. */
  lemma FrameRateOf(s: string, pre: string, whole: string, frac: string, post: string)
    requires AllDigits(whole) && AllDigits(frac)
    requires 'f' !in pre && (pre == [] || !IsDigit(pre[|pre| - 1]))
    requires s == pre + DecimalText(whole, frac) + " fps" + post
    ensures FrameRateIn(s) == Some(Decimal(whole, frac))
  {
    var n := DecimalText(whole, frac);
    var k := |pre|;
    assert FpsAt(s, k) && s[k..NumberEnd(s, k)] == n by {
      Parts4(s, pre, n, " fps", post);
      NumeralThenFps(s, k, whole, frac);
    }
    assert forall j :: 0 <= j < k ==> !FpsHits(s)[j] by {
      if pre != [] {
        Parts4(s, pre, n, " fps", post);
        NumeralThenFps(s, k, whole, frac);
        NoFpsBefore(s, pre, |whole|);
      }
    }
    FrameRateAt(s, k, whole, frac);
  }

  /** A match with none before it, whose group is a numeral, gives that number. */
  lemma FrameRateAt(s: string, k: nat, whole: string, frac: string)
    requires AllDigits(whole) && AllDigits(frac)
    requires k <= |s| && FpsAt(s, k) && s[k..NumberEnd(s, k)] == DecimalText(whole, frac)
    requires forall j :: 0 <= j < k ==> !FpsHits(s)[j]
    ensures FrameRateIn(s) == Some(Decimal(whole, frac))
  {
    FirstHitIs(FpsHits(s), k);
    DecimalToFOf(s[k..NumberEnd(s, k)], whole, frac);
  }

  /** The pattern matches at a numeral that " fps" follows, and its group is the numeral. */
  lemma NumeralThenFps(s: string, k: nat, whole: string, frac: string)
    requires AllDigits(whole) && AllDigits(frac)
    requires k + |DecimalText(whole, frac)| + 4 <= |s|
    requires s[k..k + |DecimalText(whole, frac)|] == DecimalText(whole, frac)
    requires s[k + |DecimalText(whole, frac)|..k + |DecimalText(whole, frac)| + 4] == " fps"
    ensures FpsAt(s, k) && NumberEnd(s, k) == k + |DecimalText(whole, frac)|
    ensures DigitRun(s, k) == k + |whole| && s[k + |whole|] == '.'
  {
    var q := k + |DecimalText(whole, frac)|;
    assert s[q] == s[q..q + 4][0] == ' ';
    DecimalTextAt(s, k, whole, frac);
    assert s[q + 1..q + 4] == s[q..q + 4][1..];
  }

  lemma NoFpsBefore(s: string, pre: string, w: nat)
    requires 'f' !in pre && pre != [] && !IsDigit(pre[|pre| - 1])
    requires |pre| + w < |s| && s[..|pre|] == pre
    requires DigitRun(s, |pre|) == |pre| + w && s[|pre| + w] == '.'
    ensures forall j :: 0 <= j < |pre| ==> !FpsHits(s)[j]
  {
    forall j | 0 <= j < |pre| ensures !FpsHits(s)[j] {
      NoFpsInPre(s, pre, w, j);
    }
  }

  lemma NoFpsInPre(s: string, pre: string, w: nat, j: nat)
    requires 'f' !in pre && pre != [] && !IsDigit(pre[|pre| - 1])
    requires |pre| + w < |s| && s[..|pre|] == pre
    requires DigitRun(s, |pre|) == |pre| + w && s[|pre| + w] == '.'
    requires j < |pre|
    ensures !FpsAt(s, j)
  {
    var k := |pre|;
    forall i | 0 <= i < k ensures s[i] != 'f' {
      assert s[..k][i] == s[i];
      assert pre[i] in pre;
    }
    assert s[k] == '.' || IsDigit(s[k]);
    assert s[k - 1] == s[..k][k - 1] && !IsDigit(s[k - 1]);
    var d := DigitRun(s, j);
    assert d < k;
    var q := NumberEnd(s, j);
    if s[d] == '.' && d == k - 1 {
      assert q == k + w;
      NoFpsAfter(s, j, q);
    } else {
      assert q < k by {
        if s[d] == '.' {
          assert DigitRun(s, d + 1) < k;
        }
      }
      NoFpsAfter(s, j, q);
    }
  }

  /** The pattern fails at j when the character after the group is not an "f", and
      either it is no whitespace or the one after it is not an "f" either. */
  lemma NoFpsAfter(s: string, j: nat, q: nat)
    requires j <= |s| && q == NumberEnd(s, j) && q < |s| && s[q] != 'f'
    requires q + 1 < |s| ==> s[q + 1] != 'f' || !IsSpace(s[q])
    ensures !FpsAt(s, j)
  {
    OccursHead(s, "fps", q);
    OccursHead(s, "fps", q + 1);
  }

  /** An occurrence starts with the first character of what occurs. */
  lemma OccursHead(s: string, p: string, i: nat)
    requires p != []
    ensures OccursAt(s, p, i) ==> s[i] == p[0]
  {
    if OccursAt(s, p, i) {
      assert s[i..i + |p|][0] == s[i];
    }
  }

  // ---- [SP]AR (\d+:\d+) and DAR (\d+:\d+) ----

  /** Where `\d+:\d+` that starts at i ends, if it matches there: two non-empty runs
      of digits with a colon between. */
  function RatioEnd(s: string, i: nat): (r: Option<nat>)
    requires i <= |s|
    ensures r.Some? ==> i < r.value <= |s|
  {
    var c := DigitRun(s, i);
    if c == i || c >= |s| || s[c] != ':' then None
    else
      var e := DigitRun(s, c + 1);
      if e == c + 1 then None else Some(e)
  }

  /** The capture of `<X>AR (\d+:\d+)` at i, where X is one of the two given letters. */
  function TaggedRatioAt(s: string, i: nat, x: char, y: char): Option<string> {
    if i + 4 <= |s| && (s[i] == x || s[i] == y) && s[i + 1] == 'A' && s[i + 2] == 'R' && s[i + 3] == ' ' then
      match RatioEnd(s, i + 4)
      case None => None
      case Some(e) => Some(s[i + 4..e])
    else None
  }

  /** Where `<X>AR (\d+:\d+)` matches in s, X one of the two letters. */
  function RatioHits(s: string, x: char, y: char): (r: seq<bool>)
    ensures |r| == |s| + 1 && forall j :: 0 <= j <= |s| ==> r[j] == TaggedRatioAt(s, j, x, y).Some?
  {
    seq(|s| + 1, j requires 0 <= j => TaggedRatioAt(s, j, x, y).Some?)
  }

  /** `s[/[SP]AR (\d+:\d+)/]` and `$1`. */
  function SampleAspectIn(s: string): Option<string> {
    match FirstHit(RatioHits(s, 'S', 'P'))
    case None => None
    case Some(i) => TaggedRatioAt(s, i, 'S', 'P')
  }

  /** `s[/DAR (\d+:\d+)/]` and `$1`. */
  function DisplayAspectIn(s: string): Option<string> {
    match FirstHit(RatioHits(s, 'D', 'D'))
    case None => None
    case Some(i) => TaggedRatioAt(s, i, 'D', 'D')
  }

  /** The ratio "<w>:<h>". */
  function RatioText(w: string, h: string): string {
    w + ":" + h
  }

  /** "<w>:<h>" at i, with no digit after it, is what `\d+:\d+` matches there. */
  lemma RatioEndOf(s: string, i: nat, w: string, h: string)
    requires AllDigits(w) && AllDigits(h) && w != [] && h != []
    requires i + |RatioText(w, h)| <= |s| && s[i..i + |RatioText(w, h)|] == RatioText(w, h)
    requires i + |RatioText(w, h)| == |s| || !IsDigit(s[i + |RatioText(w, h)|])
    ensures RatioEnd(s, i) == Some(i + |RatioText(w, h)|)
  {
    var c := i + |w|;
    var e := c + 1 + |h|;
    RatioTextAt(s, i, c, e, w, h);
    DigitsAt(s, i, w);
    DigitsAt(s, c + 1, h);
    RatioEndIs(s, i, c, e);
  }

  /** The parts of "<w>:<h>" found at i, whose colon is at c and which ends at e. */
  lemma RatioTextAt(s: string, i: nat, c: nat, e: nat, w: string, h: string)
    requires c == i + |w| && e == c + 1 + |h|
    requires i + |RatioText(w, h)| <= |s| && s[i..i + |RatioText(w, h)|] == RatioText(w, h)
    ensures e == i + |RatioText(w, h)| && e <= |s|
    ensures s[i..c] == w && s[c] == ':' && s[c + 1..e] == h
  {
    var t := RatioText(w, h);
    Parts3(t, w, ":", h);
    SliceOf(s, i, t, 0, |w|);
    SliceOf(s, i, t, |w| + 1, |t|);
    assert s[c] == t[|w|];
  }

  /** RatioEnd from the position of the colon and the end of the digits after it. */
  lemma RatioEndIs(s: string, i: nat, c: nat, e: nat)
    requires i < c < |s| && s[c] == ':' && c + 1 < e
    requires DigitRun(s, i) == c && DigitRun(s, c + 1) == e
    ensures RatioEnd(s, i) == Some(e)
  {
  }

  /** "<X>AR <w>:<h>" after text that holds neither letter is the first match, and its
      group is the ratio. */
  lemma TaggedRatioOf(s: string, pre: string, x: char, y: char, tag: char, w: string, h: string, post: string)
    requires tag == x || tag == y
    requires x !in pre && y !in pre
    requires AllDigits(w) && AllDigits(h) && w != [] && h != []
    requires post == [] || !IsDigit(post[0])
    requires s == pre + [tag, 'A', 'R', ' '] + RatioText(w, h) + post
    ensures FirstHit(RatioHits(s, x, y)) == Some(|pre|)
    ensures TaggedRatioAt(s, |pre|, x, y) == Some(RatioText(w, h))
  {
    var i := |pre|;
    var t := RatioText(w, h);
    Parts4(s, pre, [tag, 'A', 'R', ' '], t, post);
    assert s[i] == tag && s[i + 1] == 'A' && s[i + 2] == 'R' && s[i + 3] == ' ';
    if post != [] {
      assert s[i + 4 + |t|] == post[0];
    }
    RatioEndOf(s, i + 4, w, h);
    TaggedRatioAtIs(s, i, x, y, i + 4 + |t|);
    var hits := RatioHits(s, x, y);
    forall j | 0 <= j < i ensures !hits[j] {
      assert s[j] == pre[j];
      RatioStartsWithTag(s, j, x, y);
    }
    FirstHitIs(hits, i);
  }

  lemma TaggedRatioAtIs(s: string, i: nat, x: char, y: char, e: nat)
    requires i + 4 <= |s| && (s[i] == x || s[i] == y) && s[i + 1] == 'A' && s[i + 2] == 'R' && s[i + 3] == ' '
    requires RatioEnd(s, i + 4) == Some(e)
    ensures TaggedRatioAt(s, i, x, y) == Some(s[i + 4..e])
  {
  }

  /** Only one of the two letters can start a tagged ratio. */
  lemma RatioStartsWithTag(s: string, j: nat, x: char, y: char)
    requires j < |s| && s[j] != x && s[j] != y
    ensures TaggedRatioAt(s, j, x, y).None?
  {
  }

  /** The sample aspect ratio is read from "SAR w:h" (or "PAR w:h") when nothing
      before it holds an S or a P. */
  lemma SampleAspectOf(s: string, pre: string, tag: char, w: string, h: string, post: string)
    requires tag == 'S' || tag == 'P'
    requires 'S' !in pre && 'P' !in pre
    requires AllDigits(w) && AllDigits(h) && w != [] && h != []
    requires post == [] || !IsDigit(post[0])
    requires s == pre + [tag, 'A', 'R', ' '] + RatioText(w, h) + post
    ensures SampleAspectIn(s) == Some(RatioText(w, h))
  {
    TaggedRatioOf(s, pre, 'S', 'P', tag, w, h, post);
  }

  /** The display aspect ratio is read from "DAR w:h" when nothing before it holds a D. */
  lemma DisplayAspectOf(s: string, pre: string, w: string, h: string, post: string)
    requires 'D' !in pre
    requires AllDigits(w) && AllDigits(h) && w != [] && h != []
    requires post == [] || !IsDigit(post[0])
    requires s == pre + ['D', 'A', 'R', ' '] + RatioText(w, h) + post
    ensures DisplayAspectIn(s) == Some(RatioText(w, h))
  {
    TaggedRatioOf(s, pre, 'D', 'D', 'D', w, h, post);
  }

  /** A captured ratio is two runs of digits around a colon. */
  lemma RatioShape(s: string, i: nat)
    requires i <= |s| && RatioEnd(s, i).Some?
    ensures var r := s[i..RatioEnd(s, i).value];
      exists k :: 0 < k < |r| - 1 && r[k] == ':' && AllDigits(r[..k]) && AllDigits(r[k + 1..])
  {
    var c := DigitRun(s, i);
    var e := RatioEnd(s, i).value;
    var r := s[i..e];
    var k := c - i;
    assert r[k] == ':';
    assert r[..k] == s[i..c];
    assert r[k + 1..] == s[c + 1..e];
    assert AllDigits(r[..k]);
    assert AllDigits(r[k + 1..]);
  }

  // ---- Hours, minutes and seconds ----

  /** `$1.to_i*60*60 + $2.to_i*60 + $3.to_f` */
  function ClockSeconds(hours: string, minutes: string, seconds: real): real
    requires AllDigits(hours) && AllDigits(minutes)
  {
    (DigitsValue(hours) * 3600 + DigitsValue(minutes) * 60) as real + seconds
  }

  /** The clock text "H:M:S.F". */
  function ClockText(hours: string, minutes: string, whole: string, frac: string): string {
    hours + ":" + minutes + ":" + DecimalText(whole, frac)
  }

  /** The parts of a clock text found at k, whose colons are at m and n. */
  lemma ClockTextAt(s: string, k: nat, m: nat, n: nat, hours: string, minutes: string, whole: string, frac: string)
    requires m == k + |hours| && n == m + 1 + |minutes|
    requires k + |ClockText(hours, minutes, whole, frac)| <= |s|
    requires s[k..k + |ClockText(hours, minutes, whole, frac)|] == ClockText(hours, minutes, whole, frac)
    ensures s[k..m] == hours && s[m] == ':' && s[m + 1..n] == minutes && s[n] == ':'
    ensures n + 1 + |DecimalText(whole, frac)| == k + |ClockText(hours, minutes, whole, frac)|
    ensures s[n + 1..n + 1 + |DecimalText(whole, frac)|] == DecimalText(whole, frac)
  {
    var t := ClockText(hours, minutes, whole, frac);
    Parts5(t, hours, ":", minutes, ":", DecimalText(whole, frac));
    SliceOf(s, k, t, 0, m - k);
    SliceOf(s, k, t, m - k + 1, n - k);
    SliceOf(s, k, t, n - k + 1, |t|);
    assert s[m] == t[m - k] && s[n] == t[n - k];
  }

  // ---- Duration: (\d{2}):(\d{2}):(\d{2}\.\d{1}) ----

  /** The pattern occupies the 20 characters from i: "Duration: HH:MM:SS.D". */
  predicate DurationAt(s: string, i: nat) {
    && OccursAt(s, "Duration: ", i)
    && i + 20 <= |s|
    && IsDigit(s[i + 10]) && IsDigit(s[i + 11]) && s[i + 12] == ':'
    && IsDigit(s[i + 13]) && IsDigit(s[i + 14]) && s[i + 15] == ':'
    && IsDigit(s[i + 16]) && IsDigit(s[i + 17]) && s[i + 18] == '.' && IsDigit(s[i + 19])
  }

  /** Where `Duration: (\d{2}):(\d{2}):(\d{2}\.\d{1})` matches in s. */
  function DurationHits(s: string): (r: seq<bool>)
    ensures |r| == |s| + 1 && forall j :: 0 <= j <= |s| ==> r[j] == DurationAt(s, j)
  {
    seq(|s| + 1, j requires 0 <= j => DurationAt(s, j))
  }

  /** `$1.to_i*60*60 + $2.to_i*60 + $3.to_f` for the match at i. */
  function DurationValue(s: string, i: nat): real
    requires DurationAt(s, i)
  {
    ClockSeconds(s[i + 10..i + 12], s[i + 13..i + 15], DecimalToF(s[i + 16..i + 20]))
  }

  /** The movie's duration in seconds: 0 when the text has no duration, as the
      groups are then nil and nil.to_i and nil.to_f are 0. */
  function DurationIn(s: string): real {
    match FirstHit(DurationHits(s))
    case None => 0.0
    case Some(i) => DurationValue(s, i)
  }

  /** Digit groups of the widths the duration pattern demands. */
  predicate DurationGroups(hh: string, mm: string, ss: string, d: string) {
    && |hh| == 2 && |mm| == 2 && |ss| == 2 && |d| == 1
    && AllDigits(hh) && AllDigits(mm) && AllDigits(ss) && AllDigits(d)
  }

  /** The text "Duration: HH:MM:SS.D" that ffmpeg prints for a movie. */
  function DurationText(hh: string, mm: string, ss: string, d: string): string {
    "Duration: " + ClockText(hh, mm, ss, d)
  }

  lemma DurationValueOf(s: string, i: nat, hh: string, mm: string, ss: string, d: string)
    requires DurationGroups(hh, mm, ss, d)
    requires i + 20 <= |s| && s[i..i + 20] == DurationText(hh, mm, ss, d)
    ensures DurationAt(s, i)
    ensures DurationValue(s, i) == ClockSeconds(hh, mm, Decimal(ss, d))
  {
    var t := DurationText(hh, mm, ss, d);
    var c := ClockText(hh, mm, ss, d);
    Parts2(t, "Duration: ", c);
    SliceOf(s, i, t, 0, 10);
    SliceOf(s, i, t, 10, 20);
    ClockTextAt(s, i + 10, i + 12, i + 15, hh, mm, ss, d);
    assert s[i + 10] == hh[0] && s[i + 11] == hh[1] && s[i + 13] == mm[0] && s[i + 14] == mm[1];
    assert s[i + 16] == ss[0] && s[i + 17] == ss[1] && s[i + 19] == d[0] by {
      Parts3(DecimalText(ss, d), ss, ".", d);
    }
    DecimalToFOf(s[i + 16..i + 20], ss, d);
  }

  /** "Duration: HH:MM:SS.D" reads as HH hours, MM minutes and SS.D seconds, when the
      text before it holds no D that could start an earlier match. */
  lemma DurationOf(s: string, pre: string, hh: string, mm: string, ss: string, d: string, post: string)
    requires DurationGroups(hh, mm, ss, d)
    requires 'D' !in pre
    requires s == pre + DurationText(hh, mm, ss, d) + post
    ensures DurationIn(s) == ClockSeconds(hh, mm, Decimal(ss, d))
  {
    var i := |pre|;
    Parts3(s, pre, DurationText(hh, mm, ss, d), post);
    DurationValueOf(s, i, hh, mm, ss, d);
    var hits := DurationHits(s);
    forall j | 0 <= j < i ensures !hits[j] {
      assert s[j] == pre[j];
      if j + 10 <= |s| {
        assert s[j..j + 10][0] == s[j];
      }
    }
    FirstHitIs(hits, i);
  }

  // ---- time=(\d+):(\d+):(\d+.\d+) ----

  /** n with k zeros appended: n times ten to the power k. */
  function Shifted(n: nat, k: nat): (r: nat)
    ensures n <= r
  {
    if k == 0 then n else 10 * Shifted(n, k - 1)
  }

  /** The digits of whole times ten to the power the digits of exponent spell. */
  function Scientific(whole: string, exponent: string): nat
    requires AllDigits(whole) && AllDigits(exponent)
  {
    Shifted(DigitsValue(whole), DigitsValue(exponent))
  }

  /** `$3.to_f` where $3 is a run of digits, one further character c and a second
      run: a decimal point gives a fraction, an exponent letter a power of ten, an
      underscore joins the runs, and anything else ends the number. */
  function SecondsToF(whole: string, c: char, more: string): real
    requires AllDigits(whole) && AllDigits(more)
  {
    if c == '.' then Decimal(whole, more)
    else if c == 'e' || c == 'E' then Scientific(whole, more) as real
    else if c == '_' then DigitsValue(whole + more) as real
    else DigitsValue(whole) as real
  }

  /** The seconds group `\d+.\d+` at k, read with to_f. The unescaped `.` takes any
      character but a line feed, so the group is either digits, a character and more
      digits, or (by backtracking) one run of at least three digits. */
  function SecondsAt(s: string, k: nat): Option<real>
    requires k <= |s|
  {
    var e := DigitRun(s, k);
    if e == k then None
    else if e + 1 < |s| && s[e] != '\n' && IsDigit(s[e + 1]) then
      Some(SecondsToF(s[k..e], s[e], s[e + 1..DigitRun(s, e + 1)]))
    else if e - k >= 3 then Some(DigitsValue(s[k..e]) as real)
    else None
  }

  /** `(\d+):(\d+):(\d+.\d+)` at k, read as seconds. */
  function ClockAt(s: string, k: nat): Option<real>
    requires k <= |s|
  {
    var m := DigitRun(s, k);
    if m == k || m >= |s| || s[m] != ':' then None
    else
      var n := DigitRun(s, m + 1);
      if n == m + 1 || n >= |s| || s[n] != ':' then None
      else
        match SecondsAt(s, n + 1)
        case None => None
        case Some(seconds) => Some(ClockSeconds(s[k..m], s[m + 1..n], seconds))
  }

  /** The seconds the pattern yields at i, if it matches there. */
  function TimeAt(s: string, i: nat): Option<real> {
    if !OccursAt(s, "time=", i) then None else ClockAt(s, i + 5)
  }

  /** Where `time=(\d+):(\d+):(\d+.\d+)` matches in s. */
  function TimeHits(s: string): (r: seq<bool>)
    ensures |r| == |s| + 1 && forall j :: 0 <= j <= |s| ==> r[j] == TimeAt(s, j).Some?
  {
    seq(|s| + 1, j requires 0 <= j => TimeAt(s, j).Some?)
  }

  /** The progress time of a line that includes "time=": the matched seconds, or 0.0
      when the pattern does not match. */
  function TimeIn(line: string): real {
    match FirstHit(TimeHits(line))
    case None => 0.0
    case Some(i) => TimeAt(line, i).value
  }

  /** The progress text "time=H:M:S.F" that ffmpeg prints while encoding. */
  function TimeText(hours: string, minutes: string, whole: string, frac: string): string {
    "time=" + ClockText(hours, minutes, whole, frac)
  }

  /** Non-empty digit groups, as the time pattern demands. */
  predicate TimeGroups(hours: string, minutes: string, whole: string, frac: string) {
    && hours != [] && minutes != [] && whole != [] && frac != []
    && AllDigits(hours) && AllDigits(minutes) && AllDigits(whole) && AllDigits(frac)
  }

  /** Only a "t" can start the time pattern. */
  lemma TimeStartsWithT(s: string, j: nat)
    requires j < |s| && s[j] != 't'
    ensures TimeAt(s, j).None?
  {
    if j + 5 <= |s| {
      assert s[j..j + 5][0] == s[j];
    }
  }

  /** Decimal seconds at k, with no digit after them. */
  lemma SecondsAtOf(s: string, k: nat, whole: string, frac: string)
    requires whole != [] && frac != [] && AllDigits(whole) && AllDigits(frac)
    requires k + |DecimalText(whole, frac)| <= |s| && s[k..k + |DecimalText(whole, frac)|] == DecimalText(whole, frac)
    requires k + |DecimalText(whole, frac)| == |s| || !IsDigit(s[k + |DecimalText(whole, frac)|])
    ensures SecondsAt(s, k) == Some(Decimal(whole, frac))
  {
    DecimalTextAt(s, k, whole, frac);
    assert IsDigit(s[k + |whole| + 1]) by {
      assert s[k + |whole| + 1] == frac[0];
    }
  }

  /** "H:M:S.F" at k, with no digit after it, reads as that clock time. */
  lemma ClockAtOf(s: string, k: nat, hours: string, minutes: string, whole: string, frac: string)
    requires TimeGroups(hours, minutes, whole, frac)
    requires k + |ClockText(hours, minutes, whole, frac)| <= |s|
    requires s[k..k + |ClockText(hours, minutes, whole, frac)|] == ClockText(hours, minutes, whole, frac)
    requires k + |ClockText(hours, minutes, whole, frac)| == |s| || !IsDigit(s[k + |ClockText(hours, minutes, whole, frac)|])
    ensures ClockAt(s, k) == Some(ClockSeconds(hours, minutes, Decimal(whole, frac)))
  {
    var m := k + |hours|;
    var n := m + 1 + |minutes|;
    ClockRunsOf(s, k, m, n, hours, minutes, whole, frac);
    ClockSecondsOf(s, k, m, n, hours, minutes, whole, frac);
    ClockAtIs(s, k, m, n, hours, minutes, Decimal(whole, frac));
  }

  /** The hours and minutes of a clock text at k are the digit runs before its colons. */
  lemma ClockRunsOf(s: string, k: nat, m: nat, n: nat, hours: string, minutes: string, whole: string, frac: string)
    requires AllDigits(hours) && AllDigits(minutes)
    requires m == k + |hours| && n == m + 1 + |minutes|
    requires k + |ClockText(hours, minutes, whole, frac)| <= |s|
    requires s[k..k + |ClockText(hours, minutes, whole, frac)|] == ClockText(hours, minutes, whole, frac)
    ensures n < |s| && s[m] == ':' && s[n] == ':'
    ensures DigitRun(s, k) == m && s[k..m] == hours
    ensures DigitRun(s, m + 1) == n && s[m + 1..n] == minutes
  {
    ClockTextAt(s, k, m, n, hours, minutes, whole, frac);
    DigitsAt(s, k, hours);
    DigitsAt(s, m + 1, minutes);
  }

  /** The seconds of a clock text at k, with no digit after it, follow its second colon. */
  lemma ClockSecondsOf(s: string, k: nat, m: nat, n: nat, hours: string, minutes: string, whole: string, frac: string)
    requires whole != [] && frac != [] && AllDigits(whole) && AllDigits(frac)
    requires m == k + |hours| && n == m + 1 + |minutes|
    requires k + |ClockText(hours, minutes, whole, frac)| <= |s|
    requires s[k..k + |ClockText(hours, minutes, whole, frac)|] == ClockText(hours, minutes, whole, frac)
    requires k + |ClockText(hours, minutes, whole, frac)| == |s| || !IsDigit(s[k + |ClockText(hours, minutes, whole, frac)|])
    ensures n + 1 <= |s| && SecondsAt(s, n + 1) == Some(Decimal(whole, frac))
  {
    ClockTextAt(s, k, m, n, hours, minutes, whole, frac);
    SecondsAtOf(s, n + 1, whole, frac);
  }

  /** ClockAt from the positions of its two colons and the seconds after them. */
  lemma ClockAtIs(s: string, k: nat, m: nat, n: nat, hours: string, minutes: string, seconds: real)
    requires AllDigits(hours) && AllDigits(minutes)
    requires k < m < n < |s| && s[m] == ':' && s[n] == ':'
    requires DigitRun(s, k) == m && DigitRun(s, m + 1) == n && m + 1 < n
    requires s[k..m] == hours && s[m + 1..n] == minutes
    requires SecondsAt(s, n + 1) == Some(seconds)
    ensures ClockAt(s, k) == Some(ClockSeconds(hours, minutes, seconds))
  {
  }

  /** "time=H:M:S.F" at i, with no digit after it, is a match of the time pattern. */
  lemma TimeAtOf(s: string, i: nat, hours: string, minutes: string, whole: string, frac: string)
    requires TimeGroups(hours, minutes, whole, frac)
    requires i + |TimeText(hours, minutes, whole, frac)| <= |s|
    requires s[i..i + |TimeText(hours, minutes, whole, frac)|] == TimeText(hours, minutes, whole, frac)
    requires i + |TimeText(hours, minutes, whole, frac)| == |s| || !IsDigit(s[i + |TimeText(hours, minutes, whole, frac)|])
    ensures TimeAt(s, i) == Some(ClockSeconds(hours, minutes, Decimal(whole, frac)))
  {
    var t := TimeText(hours, minutes, whole, frac);
    var c := ClockText(hours, minutes, whole, frac);
    Parts2(t, "time=", c);
    SliceOf(s, i, t, 0, 5);
    SliceOf(s, i, t, 5, |t|);
    assert t[5..|t|] == c;
    assert OccursAt(s, "time=", i);
    ClockAtOf(s, i + 5, hours, minutes, whole, frac);
  }

  /** "time=H:M:S.F" reads as that many seconds when nothing before it holds a t. */
  lemma TimeOf(s: string, pre: string, hours: string, minutes: string, whole: string, frac: string, post: string)
    requires TimeGroups(hours, minutes, whole, frac)
    requires 't' !in pre
    requires post == [] || !IsDigit(post[0])
    requires s == pre + TimeText(hours, minutes, whole, frac) + post
    ensures TimeIn(s) == ClockSeconds(hours, minutes, Decimal(whole, frac))
  {
    var i := |pre|;
    var t := TimeText(hours, minutes, whole, frac);
    Parts3(s, pre, t, post);
    if post != [] {
      assert s[i + |t|] == post[0];
    }
    TimeAtOf(s, i, hours, minutes, whole, frac);
    var hits := TimeHits(s);
    assert hits[i];
    forall j | 0 <= j < i ensures !hits[j] {
      assert s[j] == pre[j];
      TimeStartsWithT(s, j);
    }
    FirstHitIs(hits, i);
  }

  /** A line with "time=" but no full match gives 0.0: the fallback for unexpected output. */
  lemma TimeFallback(line: string)
    requires forall i :: 0 <= i <= |line| ==> TimeAt(line, i).None?
    ensures TimeIn(line) == 0.0
  {
  }

  // ---- FFMPEG.parse_options ----

  /** Pieces between commas outside parentheses, scanning with the current depth and
      the text of the piece so far. */
  function SplitTop(s: string, depth: int, current: string): (r: seq<string>)
    ensures |r| >= 1
    decreases |s|
  {
    if s == [] then [current]
    else if s[0] == ',' && depth == 0 then [current] + SplitTop(s[1..], 0, "")
    else
      var d := if s[0] == '(' then depth + 1 else if s[0] == ')' then depth - 1 else depth;
      SplitTop(s[1..], d, current + [s[0]])
  }

  function StripLeft(s: string): (r: string)
    ensures |r| <= |s|
  {
    SkipSpaces(s)
  }

  function StripRight(s: string): (r: string)
    ensures |r| <= |s| && r == s[..|r|]
    ensures r != [] ==> !IsSpace(r[|r| - 1])
  {
    if s != [] && IsSpace(s[|s| - 1]) then StripRight(s[..|s| - 1]) else s
  }

  /** String#strip */
  function Strip(s: string): string {
    StripRight(StripLeft(s))
  }

  /** FFMPEG.parse_options: the stream description cut at commas that are not inside
      parentheses, each piece stripped; the empty text gives no pieces. */
  function ParseOptions(s: string): (r: seq<string>)
    ensures s != "" ==> |r| == |SplitTop(s, 0, "")|
  {
    if s == "" then []
    else
      var ps := SplitTop(s, 0, "");
      seq(|ps|, i requires 0 <= i < |ps| => Strip(ps[i]))
  }

  /** How far a character moves the parenthesis depth. */
  function Step(c: char): int {
    if c == '(' then 1 else if c == ')' then -1 else 0
  }

  /** The change in parenthesis depth across a text: one up per "(", one down per ")". */
  function Nest(s: string): int {
    if s == [] then 0 else Step(s[0]) + Nest(s[1..])
  }

  /** Scanned from the given depth, every comma of p lies inside parentheses. */
  predicate CommasNested(p: string, depth: int) {
    forall k {:trigger Nest(p[..k])} :: 0 <= k < |p| && p[k] == ',' ==> depth + Nest(p[..k]) != 0
  }

  /** A text whose parentheses close again at its end and whose commas all lie inside them. */
  predicate Closed(p: string) {
    Nest(p) == 0 && CommasNested(p, 0)
  }

  /** A piece parse_options keeps whole: non-empty, no surrounding whitespace, and
      closed, so that a comma in it can only sit inside parentheses. Every balanced
      piece (depth never negative, back to 0 at the end, commas at depth 1 or more)
      is one. */
  predicate TopLevelPiece(p: string) {
    p != [] && !IsSpace(p[0]) && !IsSpace(p[|p| - 1]) && Closed(p)
  }

  /** The scan passes over a text whose commas are all nested without cutting it,
      and comes out at the depth the text leads to. */
  lemma {:induction false} SplitTopNested(p: string, rest: string, depth: int, current: string)
    requires CommasNested(p, depth)
    ensures SplitTop(p + rest, depth, current) == SplitTop(rest, depth + Nest(p), current + p)
  {
    if p == [] {
      assert p + rest == rest;
      assert current + p == current;
    } else {
      var s := p + rest;
      var d := depth + Step(p[0]);
      assert s[0] == p[0];
      assert p[0] == ',' ==> depth != 0 by {
        assert p[..0] == [] && Nest(p[..0]) == 0;
      }
      assert s[1..] == p[1..] + rest;
      assert SplitTop(s, depth, current) == SplitTop(s[1..], d, current + [p[0]]);
      forall k | 0 <= k < |p[1..]| && p[1..][k] == ','
        ensures d + Nest(p[1..][..k]) != 0
      {
        assert p[..k + 1][1..] == p[1..][..k];
        assert p[k + 1] == ',' && depth + Nest(p[..k + 1]) != 0;
      }
      SplitTopNested(p[1..], rest, d, current + [p[0]]);
      assert current + [p[0]] + p[1..] == current + p;
    }
  }

  /** The raw pieces of a ", "-joined text: every piece after the first keeps the
      space that follows its comma. */
  function SpacedPieces(ps: seq<string>): (r: seq<string>)
    ensures |r| == |ps|
  {
    if |ps| <= 1 then ps else SpacedPieces(ps[..|ps| - 1]) + [" " + ps[|ps| - 1]]
  }

  lemma {:induction false} SpacedPiecesAt(ps: seq<string>, i: nat)
    requires i < |ps|
    ensures SpacedPieces(ps)[i] == if i == 0 then ps[0] else " " + ps[i]
    decreases |ps|
  {
    if |ps| > 1 && i < |ps| - 1 {
      SpacedPiecesAt(ps[..|ps| - 1], i);
    }
  }

  /** Splitting a joined text followed by more: every piece but the last is closed,
      and the scan goes on with the last one open. */
  lemma {:induction false} SplitTopOfJoin(ps: seq<string>, rest: string)
    requires ps != []
    requires forall i :: 0 <= i < |ps| ==> TopLevelPiece(ps[i])
    ensures SplitTop(Join(ps, ", ") + rest, 0, "") ==
      SpacedPieces(ps)[..|ps| - 1] + SplitTop(rest, 0, SpacedPieces(ps)[|ps| - 1])
    decreases |ps|
  {
    if |ps| == 1 {
      SplitTopNested(ps[0], rest, 0, "");
      assert Join(ps, ", ") == ps[0];
      assert "" + ps[0] == ps[0];
    } else {
      var init := ps[..|ps| - 1];
      var p := ps[|ps| - 1];
      var sp := SpacedPieces(init);
      var last := sp[|init| - 1];
      assert Join(ps, ", ") + rest == Join(init, ", ") + (", " + p + rest) by {
        assert Join(ps, ", ") == Join(init, ", ") + ", " + p;
      }
      SplitTopOfJoin(init, ", " + p + rest);
      SplitTopAfterComma(p, rest, last);
      assert SpacedPieces(ps)[..|ps| - 1] == sp[..|init| - 1] + [last] by {
        assert SpacedPieces(ps) == sp + [" " + p];
      }
      assert SpacedPieces(ps)[|ps| - 1] == " " + p;
    }
  }

  /** A comma at depth 0 closes the current piece, and the space after it opens the
      next one, which takes in the whole of a top-level piece. */
  lemma SplitTopAfterComma(p: string, rest: string, current: string)
    requires TopLevelPiece(p)
    ensures SplitTop(", " + p + rest, 0, current) == [current] + SplitTop(rest, 0, " " + p)
  {
    var s := ", " + p + rest;
    assert s[0] == ',' && s[1..] == " " + p + rest;
    assert (" " + p + rest)[0] == ' ' && (" " + p + rest)[1..] == p + rest;
    assert "" + [' '] == " ";
    assert SplitTop(" " + p + rest, 0, "") == SplitTop(p + rest, 0, " ");
    SplitTopNested(p, rest, 0, " ");
  }

  lemma StripPlain(p: string)
    requires TopLevelPiece(p)
    ensures Strip(p) == p && Strip(" " + p) == p
  {
    var q := " " + p;
    assert SpaceRun(p, 0) == 0;
    assert SkipSpaces(p) == p[0..] == p;
    assert q[1] == p[0];
    assert SpaceRun(q, 1) == 1;
    assert SpaceRun(q, 0) == 1;
    assert SkipSpaces(q) == q[1..] == p;
    assert StripRight(p) == p;
  }

  lemma SplitTopOfWholeJoin(ps: seq<string>)
    requires ps != []
    requires forall i :: 0 <= i < |ps| ==> TopLevelPiece(ps[i])
    ensures SplitTop(Join(ps, ", "), 0, "") == SpacedPieces(ps)
  {
    SplitTopOfJoin(ps, "");
    EmptyTail(Join(ps, ", "));
    LastSplit(SpacedPieces(ps));
  }

  lemma EmptyTail(s: string)
    ensures s + "" == s
  {
  }

  /** A scan with nothing left closes the open piece after the closed ones. */
  lemma LastSplit(sp: seq<string>)
    requires sp != []
    ensures sp[..|sp| - 1] + SplitTop("", 0, sp[|sp| - 1]) == sp
  {
    assert sp[..|sp| - 1] + [sp[|sp| - 1]] == sp;
  }

  lemma JoinNonEmpty(ps: seq<string>, sep: string)
    requires ps != [] && ps[0] != [] && sep != []
    ensures Join(ps, sep) != []
  {
    if |ps| >= 2 {
      JoinLength(ps, sep);
    }
  }

  /** Stripping the raw pieces of a ", "-joined text gives the pieces back. */
  lemma StripSpacedPieces(ps: seq<string>)
    requires forall i :: 0 <= i < |ps| ==> TopLevelPiece(ps[i])
    ensures forall i :: 0 <= i < |ps| ==> Strip(SpacedPieces(ps)[i]) == ps[i]
  {
    forall i | 0 <= i < |ps| ensures Strip(SpacedPieces(ps)[i]) == ps[i] {
      SpacedPiecesAt(ps, i);
      StripPlain(ps[i]);
    }
  }

  /** parse_options undoes a join with ", " of top-level pieces: a comma inside
      parentheses does not cut its piece. */
  lemma ParseOptionsOfJoin(ps: seq<string>)
    requires ps != []
    requires forall i :: 0 <= i < |ps| ==> TopLevelPiece(ps[i])
    ensures ParseOptions(Join(ps, ", ")) == ps
  {
    var s := Join(ps, ", ");
    SplitTopOfWholeJoin(ps);
    JoinNonEmpty(ps, ", ");
    StripSpacedPieces(ps);
  }

  lemma {:induction false} NestAppend(a: string, b: string)
    ensures Nest(a + b) == Nest(a) + Nest(b)
    decreases |a|
  {
    if a == [] {
      assert a + b == b;
    } else {
      assert (a + b)[0] == a[0] && (a + b)[1..] == a[1..] + b;
      NestAppend(a[1..], b);
    }
  }

  /** A text without parentheses does not move the depth. */
  lemma {:induction false} NestFlat(s: string)
    requires '(' !in s && ')' !in s
    ensures Nest(s) == 0
    decreases |s|
  {
    if s != [] {
      assert s[0] in s;
      assert forall c :: c in s[1..] ==> c in s;
      NestFlat(s[1..]);
    }
  }

  /** Text without parentheses keeps every comma at the depth it started from. */
  lemma FlatCommas(s: string, depth: int)
    requires '(' !in s && ')' !in s && (',' !in s || depth != 0)
    ensures Nest(s) == 0 && CommasNested(s, depth)
  {
    NestFlat(s);
    forall k | 0 <= k < |s| && s[k] == ',' ensures depth + Nest(s[..k]) != 0 {
      assert s[k] in s;
      assert forall c :: c in s[..k] ==> c in s;
      NestFlat(s[..k]);
    }
  }

  lemma CommasNestedAppend(a: string, b: string, depth: int)
    requires CommasNested(a, depth) && CommasNested(b, depth + Nest(a))
    ensures CommasNested(a + b, depth)
  {
    forall k | 0 <= k < |a + b| && (a + b)[k] == ',' ensures depth + Nest((a + b)[..k]) != 0 {
      if k < |a| {
        assert (a + b)[..k] == a[..k];
        assert a[k] == ',' && depth + Nest(a[..k]) != 0;
      } else {
        assert (a + b)[..k] == a + b[..k - |a|];
        assert b[k - |a|] == ',' && depth + Nest(a) + Nest(b[..k - |a|]) != 0;
        NestAppend(a, b[..k - |a|]);
      }
    }
  }

  /** Closed texts stay closed when put side by side. */
  lemma ClosedAppend(a: string, b: string)
    requires Closed(a) && Closed(b)
    ensures Closed(a + b)
  {
    NestAppend(a, b);
    CommasNestedAppend(a, b, 0);
  }

  /** A text without commas or parentheses is closed. */
  lemma FlatClosed(s: string)
    requires ',' !in s && '(' !in s && ')' !in s
    ensures Closed(s)
  {
    FlatCommas(s, 0);
  }

  /** A parenthesised group is closed, whatever commas it holds. */
  lemma GroupClosed(x: string)
    requires '(' !in x && ')' !in x
    ensures Closed("(" + x + ")")
  {
    FlatCommas(x, 1);
    assert Nest(")") == -1 && CommasNested(")", 1);
    NestAppend("(", x);
    CommasNestedAppend("(", x, 0);
    NestAppend("(" + x, ")");
    CommasNestedAppend("(" + x, ")", 0);
  }

  /** The empty description has no pieces. */
  lemma ParseOptionsEmpty()
    ensures ParseOptions("") == []
  {
  }

  /** A group in parentheses between two texts with neither commas nor parentheses. */
  lemma GroupBetween(a: string, x: string, b: string)
    requires ',' !in a && '(' !in a && ')' !in a
    requires ',' !in b && '(' !in b && ')' !in b
    requires '(' !in x && ')' !in x
    ensures Closed(a + "(" + x + ")" + b)
  {
    FlatClosed(a);
    GroupClosed(x);
    ClosedAppend(a, "(" + x + ")");
    assert a + "(" + x + ")" == a + ("(" + x + ")");
    FlatClosed(b);
    ClosedAppend(a + "(" + x + ")", b);
  }

  /** The first three fields of a video description with nested brackets, as ffmpeg
      prints it. */
  const NestedDescription := "h264 (Main) (avc1 / 0x31637661), yuv420p(tv, bt709), 960x540"

  /** Its fields, with the comma inside "(tv, bt709)" left in place. */
  const NestedFields: seq<string> := ["h264 (Main) (avc1 / 0x31637661)", "yuv420p(tv, bt709)", "960x540"]

  /** Two groups, each after a text with neither commas nor parentheses. */
  lemma TwoGroups(a: string, x: string, b: string, y: string)
    requires ',' !in a && '(' !in a && ')' !in a
    requires ',' !in b && '(' !in b && ')' !in b
    requires '(' !in x && ')' !in x && '(' !in y && ')' !in y
    ensures Closed(a + "(" + x + ")" + b + "(" + y + ")")
  {
    GroupBetween(a, x, b);
    GroupClosed(y);
    ClosedAppend(a + "(" + x + ")" + b, "(" + y + ")");
    assert a + "(" + x + ")" + b + "(" + y + ")" == (a + "(" + x + ")" + b) + ("(" + y + ")");
  }

  lemma CodecText(t: string, a: string, x: string, b: string, y: string)
    requires t == "h264 (Main) (avc1 / 0x31637661)"
    requires a == "h264 " && x == "Main" && b == " " && y == "avc1 / 0x31637661"
    ensures t == a + "(" + x + ")" + b + "(" + y + ")"
  {
  }

  /** A codec field with two groups. */
  lemma CodecFieldClosed(t: string)
    requires t == "h264 (Main) (avc1 / 0x31637661)"
    ensures TopLevelPiece(t)
  {
    var a, x, b, y := "h264 ", "Main", " ", "avc1 / 0x31637661";
    TwoGroups(a, x, b, y);
    CodecText(t, a, x, b, y);
  }

  /** A colorspace field with a comma inside its group. */
  lemma ColorFieldClosed(t: string)
    requires t == "yuv420p(tv, bt709)"
    ensures TopLevelPiece(t)
  {
    var a, x := "yuv420p", "tv, bt709";
    GroupBetween(a, x, "");
    assert t == a + "(" + x + ")" + "";
  }

  /** A resolution field, with no commas or parentheses. */
  lemma ResolutionFieldClosed(t: string)
    requires t == "960x540"
    ensures TopLevelPiece(t)
  {
    FlatClosed(t);
  }

  lemma NestedFieldsTopLevel(ps: seq<string>)
    requires ps == NestedFields
    ensures forall i :: 0 <= i < |ps| ==> TopLevelPiece(ps[i])
  {
    forall i | 0 <= i < |ps| ensures TopLevelPiece(ps[i]) {
      if i == 0 {
        CodecFieldClosed(ps[i]);
      } else if i == 1 {
        ColorFieldClosed(ps[i]);
      } else {
        ResolutionFieldClosed(ps[i]);
      }
    }
  }

  lemma JoinThree(ps: seq<string>, sep: string)
    requires |ps| == 3
    ensures Join(ps, sep) == ps[0] + sep + ps[1] + sep + ps[2]
  {
    assert ps[..2][..1] == [ps[0]];
    assert Join(ps[..2], sep) == ps[0] + sep + ps[1];
    assert ps[..|ps| - 1] == ps[..2];
    assert Join(ps, sep) == Join(ps[..2], sep) + sep + ps[2];
  }

  lemma NestedText(t: string, a: string, b: string, c: string)
    requires t == NestedDescription
    requires a == "h264 (Main) (avc1 / 0x31637661)" && b == "yuv420p(tv, bt709)" && c == "960x540"
    ensures t == a + ", " + b + ", " + c
  {
  }

  lemma JoinNested(ps: seq<string>, t: string)
    requires ps == NestedFields && t == NestedDescription
    ensures Join(ps, ", ") == t
  {
    JoinThree(ps, ", ");
    NestedText(t, ps[0], ps[1], ps[2]);
  }

  /** parse_options cuts the description only at its top-level commas. */
  lemma ParseOptionsNested()
    ensures ParseOptions(NestedDescription) == NestedFields
  {
    var ps, t := NestedFields, NestedDescription;
    NestedFieldsTopLevel(ps);
    JoinNested(ps, t);
    ParseOptionsOfJoin(ps);
  }

  lemma JoinLength(ps: seq<string>, sep: string)
    requires |ps| >= 2 && sep != []
    ensures Join(ps, sep) != []
  {
  }
}
