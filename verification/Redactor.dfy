/** Removal of known secret values from text in one pass, longest value first. */
module Redactor {
  import opened Text
  import opened Wrappers
  import Sorting

  const MARKER := "[REDACTED]"
  const LONG := 4

  /** The pattern of one value: long values match anywhere, short ones only between word boundaries. */
  predicate MatchesAt(word: char -> bool, v: string, text: string, i: nat) {
    && i + |v| <= |text| && text[i..i + |v|] == v
    && (|v| >= LONG || (!(i > 0 && word(text[i - 1])) && !(i + |v| < |text| && word(text[i + |v|]))))
  }

  /** The alternative the pattern takes at a position: the first one that matches there. */
  function FirstMatch(word: char -> bool, alts: seq<string>, text: string, i: nat): (m: Option<string>)
    ensures m.Some? ==> m.value in alts && MatchesAt(word, m.value, text, i)
  {
    if alts == [] then None
    else if MatchesAt(word, alts[0], text, i) then Some(alts[0])
    else FirstMatch(word, alts[1..], text, i)
  }

  lemma {:induction false} SomeMatch(word: char -> bool, alts: seq<string>, text: string, i: nat, v: string)
    requires v in alts && MatchesAt(word, v, text, i)
    ensures FirstMatch(word, alts, text, i).Some?
  {
    assert alts == [alts[0]] + alts[1..];
    if !MatchesAt(word, alts[0], text, i) { SomeMatch(word, alts[1..], text, i, v); }
  }

  ghost predicate Proper(alts: seq<string>) { "" !in alts }

  /** What would match at each position. */
  function Table(word: char -> bool, alts: seq<string>, text: string): (ms: seq<Option<string>>)
    ensures |ms| == |text| && forall i :: 0 <= i < |text| ==> ms[i] == FirstMatch(word, alts, text, i)
  {
    seq(|text|, i requires 0 <= i < |text| => FirstMatch(word, alts, text, i))
  }

  ghost predicate Fits(ms: seq<Option<string>>, text: string) {
    |ms| == |text| && forall i :: 0 <= i < |ms| && ms[i].Some? ==> 0 < |ms[i].value| <= |text| - i
  }

  /** Scan from position i: a match becomes the marker, any other character is copied. */
  function Scan(ms: seq<Option<string>>, text: string, i: nat): string
    requires Fits(ms, text) && i <= |text|
    decreases |text| - i
  {
    if i == |text| then ""
    else if ms[i].Some? then MARKER + Scan(ms, text, i + |ms[i].value|)
    else [text[i]] + Scan(ms, text, i + 1)
  }

  function Redact(word: char -> bool, alts: seq<string>, text: string): string
    requires Proper(alts)
  {
    Scan(Table(word, alts, text), text, 0)
  }

  ghost predicate OccursAt(v: string, s: string, p: int) {
    0 <= p <= |s| - |v| && s[p..p + |v|] == v
  }

  /** The value, laid over the marker at this offset, agrees with it wherever they overlap. */
  ghost predicate Agrees(v: string, d: int) {
    -|v| < d < |MARKER| && forall i :: 0 <= i < |v| && 0 <= d + i < |MARKER| ==> v[i] == MARKER[d + i]
  }

  ghost predicate CannotMeetMarker(v: string) {
    forall d :: !Agrees(v, d)
  }

  /******* Secrets are removed *******/

  /** Wherever the value stands in the text, something matches. */
  ghost predicate Sought(ms: seq<Option<string>>, text: string, v: string) {
    |ms| == |text| && forall i :: 0 <= i < |text| && OccursAt(v, text, i) ==> ms[i].Some?
  }

  /** The end of the copied stretch that starts at i. */
  function StretchEnd(ms: seq<Option<string>>, i: nat): (q: nat)
    requires i <= |ms|
    ensures i <= q <= |ms|
    ensures forall j :: i <= j < q ==> ms[j].None?
    ensures q < |ms| ==> ms[q].Some?
    decreases |ms| - i
  {
    if i == |ms| || ms[i].Some? then i else StretchEnd(ms, i + 1)
  }

  lemma {:induction false} StretchCopied(ms: seq<Option<string>>, text: string, i: nat, q: nat)
    requires Fits(ms, text) && i <= q <= |text|
    requires forall j :: i <= j < q ==> ms[j].None?
    ensures Scan(ms, text, i) == text[i..q] + Scan(ms, text, q)
    decreases q - i
  {
    if i < q {
      StretchCopied(ms, text, i + 1, q);
      ConsStretch(text, i, q, Scan(ms, text, q));
    }
  }

  lemma ConsStretch(text: string, i: nat, q: nat, rest: string)
    requires i < q <= |text|
    ensures [text[i]] + (text[i + 1..q] + rest) == text[i..q] + rest
  {
  }

  lemma StretchPrefix(text: string, i: nat, q: nat, rest: string, n: nat)
    requires i <= q <= |text| && n <= q - i
    ensures (text[i..q] + rest)[0..n] == text[i..i + n]
  {
  }

  lemma ShiftOccurrence(v: string, head: string, rest: string, p: nat)
    requires OccursAt(v, head + rest, p) && p >= |head|
    ensures OccursAt(v, rest, p - |head|)
  {
    assert (head + rest)[p..p + |v|] == rest[p - |head|..p - |head| + |v|];
  }

  lemma MeetsMarker(v: string, rest: string, p: nat)
    requires OccursAt(v, MARKER + rest, p) && p < |MARKER| && v != ""
    ensures Agrees(v, p)
  {
    assert forall k :: 0 <= k < |v| ==> v[k] == (MARKER + rest)[p + k];
  }

  lemma MeetsMarkerLater(v: string, head: string, rest: string)
    requires OccursAt(v, head + (MARKER + rest), 0) && |v| > |head|
    ensures Agrees(v, -|head|)
  {
    var out := head + (MARKER + rest);
    assert forall k :: 0 <= k < |v| ==> v[k] == out[k];
    assert forall k :: 0 <= k < |MARKER| ==> out[|head| + k] == MARKER[k];
  }

  lemma NotAtStretch(ms: seq<Option<string>>, text: string, i: nat, v: string)
    requires Fits(ms, text) && Sought(ms, text, v) && v != "" && CannotMeetMarker(v)
    requires i < |text| && ms[i].None?
    ensures !OccursAt(v, Scan(ms, text, i), 0)
  {
    var q := StretchEnd(ms, i);
    StretchCopied(ms, text, i, q);
    if |v| <= q - i {
      assert !OccursAt(v, text, i);
      StretchPrefix(text, i, q, Scan(ms, text, q), |v|);
    } else if q < |text| && OccursAt(v, Scan(ms, text, i), 0) {
      MeetsMarkerLater(v, text[i..q], Scan(ms, text, q + |ms[q].value|));
    }
  }

  lemma {:induction false} AbsentAt(ms: seq<Option<string>>, text: string, i: nat, v: string, p: nat)
    requires Fits(ms, text) && Sought(ms, text, v) && v != "" && CannotMeetMarker(v) && i <= |text|
    ensures !OccursAt(v, Scan(ms, text, i), p)
    decreases |text| - i
  {
    if i < |text| && OccursAt(v, Scan(ms, text, i), p) {
      if ms[i].Some? {
        var next := i + |ms[i].value|;
        if p < |MARKER| {
          MeetsMarker(v, Scan(ms, text, next), p);
        } else {
          ShiftOccurrence(v, MARKER, Scan(ms, text, next), p);
          AbsentAt(ms, text, next, v, p - |MARKER|);
        }
      } else if p == 0 {
        NotAtStretch(ms, text, i, v);
      } else {
        ShiftOccurrence(v, [text[i]], Scan(ms, text, i + 1), p);
        AbsentAt(ms, text, i + 1, v, p - 1);
      }
    }
  }

  lemma TableSeeks(word: char -> bool, alts: seq<string>, text: string, v: string)
    requires v in alts && |v| >= 4
    ensures Sought(Table(word, alts, text), text, v)
  {
    forall i | 0 <= i < |text| && OccursAt(v, text, i) ensures Table(word, alts, text)[i].Some? {
      SomeMatch(word, alts, text, i, v);
    }
  }

  /** A long value that cannot meet the marker occurs nowhere in the output, whatever the text and the other values. */
  lemma SecretsRemoved(word: char -> bool, alts: seq<string>, text: string, v: string)
    requires Proper(alts) && v in alts && |v| >= 4 && CannotMeetMarker(v)
    ensures forall p :: !OccursAt(v, Redact(word, alts, text), p)
  {
    TableSeeks(word, alts, text, v);
    forall p ensures !OccursAt(v, Redact(word, alts, text), p) {
      if p >= 0 { AbsentAt(Table(word, alts, text), text, 0, v, p); }
    }
  }

  lemma ForeignToMarker(v: string)
    requires v != "" && forall c :: c in v ==> c !in MARKER
    ensures CannotMeetMarker(v)
  {
    forall d ensures !Agrees(v, d) {
      var i := if d < 0 then -d else 0;
      if -|v| < d < |MARKER| { assert v[i] in v && MARKER[d + i] in MARKER; }
    }
  }

  /** Every ordinary secret qualifies: no bracket in it, and not a piece of the marker's word. */
  lemma OrdinarySecretsCannotMeetMarker(v: string)
    requires v != "" && '[' !in v && ']' !in v
    requires forall p :: !OccursAt(v, "REDACTED", p)
    ensures CannotMeetMarker(v)
  {
    forall d ensures !Agrees(v, d) {
      if -|v| < d <= 0 {
        assert v[-d] != MARKER[d + -d];
      } else if 0 < d < |MARKER| <= d + |v| {
        var i := |MARKER| - 1 - d;
        assert v[i] != MARKER[d + i];
      } else if 0 < d < |MARKER| {
        assert !OccursAt(v, "REDACTED", d - 1);
        assert v != "REDACTED"[d - 1..d - 1 + |v|];
        var i :| 0 <= i < |v| && v[i] != "REDACTED"[d - 1 + i];
        assert MARKER[d + i] == "REDACTED"[d - 1 + i];
      }
    }
  }

  /******* The values that are remembered *******/

  predicate Lowercase(s: string) { forall i :: 0 <= i < |s| ==> 'a' <= s[i] <= 'z' }

  type Encoder = string -> seq<string>

  /**
   * What the proofs use of an encoding of a value: it is no shorter; of a run of lower-case letters it is
   * the run itself or at least a third longer; and where it is as long as the value but not the value itself, JSON
   * prints it as it is.
   */
  ghost predicate Encoding(v: string, e: string) {
    && |e| >= |v|
    && (e != v && Lowercase(v) ==> 3 * |e| >= 4 * |v|)
    && (e != v && |e| == |v| ==> Verbatim(e))
  }

  /** The five encodings remembered beside a value: percent encoding in two forms, JSON, and base64 in two alphabets. */
  ghost predicate Encodes(encode: Encoder) {
    forall v :: |encode(v)| == 5 && forall e :: e in encode(v) ==> Encoding(v, e)
  }

  ghost predicate Remembered(encode: Encoder, given: set<string>, x: string) {
    exists g :: g in given && (x == g || x in encode(g))
  }

  predicate Longer(a: string, b: string) { |a| > |b| }

  ghost predicate LongestFirst(alts: seq<string>) { Sorting.Descending(alts, Longer) }

  /** The list is what the redactor matches against once these values were given to it. */
  ghost predicate Holds(encode: Encoder, given: set<string>, alts: seq<string>) {
    "" !in given && LongestFirst(alts) && forall x :: x in alts <==> Remembered(encode, given, x)
  }

  lemma HoldsProper(encode: Encoder, given: set<string>, alts: seq<string>)
    requires Encodes(encode) && Holds(encode, given, alts)
    ensures Proper(alts)
  {
    assert !Remembered(encode, given, "");
  }

  lemma SortedAlternatives(order: seq<string>)
    ensures LongestFirst(Sorting.SortDescending(order, Longer))
    ensures forall x :: x in Sorting.SortDescending(order, Longer) <==> x in order
  {
    var alts := Sorting.SortDescending(order, Longer);
    Sorting.SortSpec(order, Longer);
    forall x ensures x in alts <==> x in order { assert x in multiset(alts) <==> x in multiset(order); }
  }

  /******* And no others: any value that can meet the marker can survive *******/

  function Before(v: string, d: int): string
    requires -|v| < d < |MARKER|
  {
    if d < 0 then v[..-d] else ""
  }

  function After(v: string, d: int): string
    requires -|v| < d < |MARKER|
  {
    if |v| > |MARKER| - d then v[|MARKER| - d..] else ""
  }

  /** A text in which hiding another value, the filler, puts the marker where v can meet it. */
  function LeakingText(v: string, d: int, filler: string): string
    requires -|v| < d < |MARKER|
  {
    Before(v, d) + filler + After(v, d)
  }

  /** A scan of this text hides the filler and copies what stands around it. */
  ghost predicate OnlyFillerMatches(word: char -> bool, alts: seq<string>, v: string, d: int, filler: string)
    requires -|v| < d < |MARKER|
  {
    var text, start := LeakingText(v, d, filler), |Before(v, d)|;
    && FirstMatch(word, alts, text, start) == Some(filler)
    && forall j :: 0 <= j < start || start + |filler| <= j < |text| ==> FirstMatch(word, alts, text, j).None?
  }

  lemma ScanTail(ms: seq<Option<string>>, text: string, i: nat)
    requires Fits(ms, text) && i <= |text| && forall j :: i <= j < |text| ==> ms[j].None?
    ensures Scan(ms, text, i) == text[i..]
  {
    StretchCopied(ms, text, i, |text|);
    assert text[i..|text|] + "" == text[i..];
  }

  /** A scan that copies a front, hides a middle and copies the rest. */
  lemma ScanAround(ms: seq<Option<string>>, a: string, w: string, b: string)
    requires Fits(ms, a + w + b) && w != ""
    requires (forall j :: 0 <= j < |a| ==> ms[j].None?) && ms[|a|] == Some(w)
    requires forall j :: |a| + |w| <= j < |a + w + b| ==> ms[j].None?
    ensures Scan(ms, a + w + b, 0) == a + (MARKER + b)
  {
    var text := a + w + b;
    ScanTail(ms, text, |a| + |w|);
    assert text[|a| + |w|..] == b;
    assert Scan(ms, text, |a|) == MARKER + b;
    StretchCopied(ms, text, 0, |a|);
    assert text[0..|a|] == a;
  }

  lemma LeakedSecret(v: string, d: int)
    requires v != "" && Agrees(v, d)
    ensures OccursAt(v, Before(v, d) + (MARKER + After(v, d)), if d < 0 then 0 else d)
  {
    var out, p := Before(v, d) + (MARKER + After(v, d)), if d < 0 then 0 else d;
    forall i | 0 <= i < |v| ensures out[p + i] == v[i] { LeakedChar(v, d, i); }
    assert out[p..p + |v|] == v;
  }

  lemma LeakedChar(v: string, d: int, i: nat)
    requires Agrees(v, d) && i < |v|
    ensures var out := Before(v, d) + (MARKER + After(v, d));
            var k := (if d < 0 then 0 else d) + i;
            k < |out| && out[k] == v[i]
  {
    if 0 <= d + i < |MARKER| {
      assert v[i] == MARKER[d + i];
    } else if d + i >= |MARKER| {
      assert After(v, d)[d + i - |MARKER|] == v[i];
    }
  }

  /** In every such text, whatever else is remembered, the value stands in the output. */
  lemma LeakExample(word: char -> bool, alts: seq<string>, v: string, d: int, filler: string)
    requires v != "" && Agrees(v, d) && Proper(alts) && filler != ""
    requires OnlyFillerMatches(word, alts, v, d, filler)
    ensures OccursAt(v, Redact(word, alts, LeakingText(v, d, filler)), if d < 0 then 0 else d)
  {
    ScanAround(Table(word, alts, LeakingText(v, d, filler)), Before(v, d), filler, After(v, d));
    LeakedSecret(v, d);
  }

  function Ends(vs: seq<string>): string {
    if vs == [] then "" else (if vs[0] == "" then "" else [vs[0][|vs[0]| - 1]]) + Ends(vs[1..])
  }

  lemma {:induction false} EndsSpec(vs: seq<string>, x: string)
    ensures |Ends(vs)| <= |vs|
    ensures x in vs && x != "" ==> x[|x| - 1] in Ends(vs)
  {
    if vs != [] {
      EndsSpec(vs[1..], x);
      assert vs == [vs[0]] + vs[1..];
    }
  }

  function Longest(vs: seq<string>): nat {
    if vs == [] then 0
    else if |vs[0]| >= Longest(vs[1..]) then |vs[0]| else Longest(vs[1..])
  }

  lemma {:induction false} LongestBounds(vs: seq<string>, x: string)
    requires x in vs
    ensures |x| <= Longest(vs)
  {
    assert vs == [vs[0]] + vs[1..];
    if x != vs[0] { LongestBounds(vs[1..], x); }
  }

  lemma {:induction false} FewLetters(s: string)
    ensures |(set c | c in s)| <= |s|
  {
    if s == "" {
      assert (set c | c in s) == {};
    } else {
      FewLetters(s[1..]);
      assert s == [s[0]] + s[1..];
      assert (set c | c in s) == {s[0]} + set c | c in s[1..];
    }
  }

  lemma SubsetSize<T>(a: set<T>, b: set<T>)
    ensures a <= b ==> |a| <= |b|
  {
    if a <= b { assert b == a + (b - a); }
  }

  lemma FreshLetter(s: string) returns (c: char)
    requires |s| <= 7
    ensures c !in s && 'a' <= c <= 'h'
  {
    var letters := {'a', 'b', 'c', 'd', 'e', 'f', 'g', 'h'};
    FewLetters(s);
    SubsetSize(letters, set c | c in s);
    c :| c in letters && c !in s;
  }

  ghost predicate EndsIn(x: string, c: char) { x != "" && x[|x| - 1] == c }

  /** A long run of one letter in which neither v, nor a form of v, nor what precedes the run ends. */
  ghost predicate GoodFiller(encode: Encoder, v: string, a: string, filler: string) {
    && Lowercase(filler) && |filler| > 6 * |v| && Run(filler, filler[0]) && !EndsIn(a, filler[0])
    && forall x :: x == v || x in encode(v) ==> |x| < |filler| && !EndsIn(x, filler[0])
  }

  lemma FillerExists(encode: Encoder, v: string, a: string) returns (filler: string)
    requires Encodes(encode)
    ensures GoodFiller(encode, v, a, filler)
  {
    EndsSpec([a, v] + encode(v), a);
    var c := FreshLetter(Ends([a, v] + encode(v)));
    filler := seq(Longest([v] + encode(v)) + 6 * |v| + 1, _ => c);
    forall x | x == v || x in encode(v) ensures |x| < |filler| && !EndsIn(x, c) {
      LongestBounds([v] + encode(v), x);
      EndsSpec([a, v] + encode(v), x);
    }
  }

  lemma DiffersAt(word: char -> bool, v: string, text: string, j: nat, k: nat)
    requires k < |v| && (j + k < |text| ==> text[j + k] != v[k])
    ensures !MatchesAt(word, v, text, j)
  {
    if j + |v| <= |text| { assert text[j..j + |v|][k] == text[j + k]; }
  }

  ghost predicate Run(filler: string, c: char) { filler != "" && forall i :: 0 <= i < |filler| ==> filler[i] == c }

  /** What starts before the run and ends within it would end in its letter. */
  lemma EndsInRun(word: char -> bool, x: string, a: string, filler: string, c: char, b: string, j: nat)
    requires j < |a| < |x| < |filler| && Run(filler, c) && x[|x| - 1] != c
    ensures !MatchesAt(word, x, a + filler + b, j)
  {
    assert (a + filler + b)[j + |x| - 1] == filler[j + |x| - 1 - |a|];
    DiffersAt(word, x, a + filler + b, j, |x| - 1);
  }

  lemma RunStartsLater(word: char -> bool, a: string, filler: string, c: char, b: string, j: nat)
    requires j < |a| <= |filler| && Run(filler, c) && a[|a| - 1] != c
    ensures !MatchesAt(word, filler, a + filler + b, j)
  {
    assert (a + filler + b)[|a| - 1] == a[|a| - 1];
    DiffersAt(word, filler, a + filler + b, j, |a| - 1 - j);
  }

  /** What a remembered form is: the filler, too long for the text, or longer than both ends and unlike the run. */
  ghost predicate Harmless(x: string, a: string, filler: string, c: char, b: string) {
    || x == filler
    || |x| > |a + filler + b|
    || (|a| < |x| < |filler| && |b| < |x| && x[|x| - 1] != c)
  }

  lemma FormOfFiller(filler: string, x: string, n: nat)
    requires Encoding(filler, x) && Lowercase(filler) && x != filler && |filler| > 3 * n
    ensures |x| > |filler| + n
  {
  }

  lemma HarmlessForms(encode: Encoder, v: string, a: string, filler: string, b: string, x: string)
    requires Encodes(encode) && |a| < |v| && |b| < |v| && GoodFiller(encode, v, a, filler)
    requires Remembered(encode, {v, filler}, x)
    ensures Harmless(x, a, filler, filler[0], b)
  {
    if x in encode(filler) && x != filler { FormOfFiller(filler, x, |a| + |b|); }
  }

  lemma HarmlessMissesEnds(word: char -> bool, x: string, a: string, filler: string, c: char, b: string, j: nat)
    requires Harmless(x, a, filler, c, b) && Run(filler, c) && |b| < |filler| && |a| <= |filler|
    requires a != "" ==> a[|a| - 1] != c
    requires j < |a| || |a| + |filler| <= j
    ensures !MatchesAt(word, x, a + filler + b, j)
  {
    if j < |a| {
      if x == filler { RunStartsLater(word, a, filler, c, b, j); }
      else if |x| <= |a + filler + b| { EndsInRun(word, x, a, filler, c, b, j); }
    }
  }

  lemma LongestAtRun(word: char -> bool, alts: seq<string>, a: string, filler: string, c: char, b: string)
    requires LongestFirst(alts) && filler in alts && |filler| >= 4
    requires forall x :: x in alts ==> Harmless(x, a, filler, c, b)
    ensures FirstMatch(word, alts, a + filler + b, |a|) == Some(filler)
  {
    assert (a + filler + b)[|a|..|a| + |filler|] == filler;
    MatchIsLongest(word, alts, a + filler + b, |a|, filler);
  }

  lemma NothingElseMatches(word: char -> bool, alts: seq<string>, a: string, filler: string, c: char, b: string, j: nat)
    requires Run(filler, c) && |b| < |filler| && |a| <= |filler| && (a != "" ==> a[|a| - 1] != c)
    requires forall x :: x in alts ==> Harmless(x, a, filler, c, b)
    requires j < |a| || |a| + |filler| <= j
    ensures FirstMatch(word, alts, a + filler + b, j).None?
  {
    var m := FirstMatch(word, alts, a + filler + b, j);
    if m.Some? { HarmlessMissesEnds(word, m.value, a, filler, c, b, j); }
  }

  lemma FillerMatchesAlone(word: char -> bool, encode: Encoder, alts: seq<string>, v: string, d: int, filler: string)
    requires Encodes(encode) && |v| >= 4 && Agrees(v, d) && GoodFiller(encode, v, Before(v, d), filler)
    requires Holds(encode, {v, filler}, alts)
    ensures OnlyFillerMatches(word, alts, v, d, filler)
  {
    var a, b, c := Before(v, d), After(v, d), filler[0];
    forall x | x in alts ensures Harmless(x, a, filler, c, b) { HarmlessForms(encode, v, a, filler, b, x); }
    assert Remembered(encode, {v, filler}, filler);
    LongestAtRun(word, alts, a, filler, c, b);
    forall j | 0 <= j < |a| || |a| + |filler| <= j < |a + filler + b|
      ensures FirstMatch(word, alts, a + filler + b, j).None?
    {
      NothingElseMatches(word, alts, a, filler, c, b, j);
    }
  }

  /** The value was given to the redactor, and still occurs in the output at position p. */
  ghost predicate Survives(
    v: string, encode: Encoder, word: char -> bool, given: set<string>, alts: seq<string>, text: string, p: int)
  {
    v in given && Holds(encode, given, alts) && Proper(alts) && OccursAt(v, Redact(word, alts, text), p)
  }

  /** A long value is removed from every text, among any other values, exactly when it cannot meet the marker. */
  lemma RemovedExactlyWhen(v: string, encode: Encoder, word: char -> bool)
    requires |v| >= 4 && Encodes(encode)
    ensures CannotMeetMarker(v) <==>
              forall given, alts, text, p :: !Survives(v, encode, word, given, alts, text, p)
  {
    if CannotMeetMarker(v) {
      forall given, alts, text, p ensures !Survives(v, encode, word, given, alts, text, p) {
        if v in given && Holds(encode, given, alts) && Proper(alts) {
          assert Remembered(encode, given, v);
          SecretsRemoved(word, alts, text, v);
        }
      }
    } else {
      var d :| Agrees(v, d);
      var given, alts, text := SurvivingRun(word, encode, v, d);
      assert Survives(v, encode, word, given, alts, text, if d < 0 then 0 else d);
    }
  }

  /** Two values given to the redactor, and a text that shows the first. */
  lemma SurvivingRun(word: char -> bool, encode: Encoder, v: string, d: int)
    returns (given: set<string>, alts: seq<string>, text: string)
    requires |v| >= 4 && Encodes(encode) && Agrees(v, d)
    ensures Survives(v, encode, word, given, alts, text, if d < 0 then 0 else d)
  {
    var filler := FillerExists(encode, v, Before(v, d));
    given := {v, filler};
    alts := ListFor(encode, [v, filler]);
    assert (set g | g in [v, filler]) == given;
    text := LeakingText(v, d, filler);
    HoldsProper(encode, given, alts);
    FillerMatchesAlone(word, encode, alts, v, d, filler);
    LeakExample(word, alts, v, d, filler);
  }

  ghost function AllForms(encode: Encoder, given: seq<string>): seq<string> {
    if given == [] then [] else [given[0]] + encode(given[0]) + AllForms(encode, given[1..])
  }

  lemma {:induction false} AllFormsSpec(encode: Encoder, given: seq<string>, x: string)
    ensures x in AllForms(encode, given) <==> Remembered(encode, (set g | g in given), x)
  {
    if given == [] {
    } else {
      AllFormsSpec(encode, given[1..], x);
      assert given == [given[0]] + given[1..];
      assert (set g | g in given) == {given[0]} + set g | g in given[1..];
    }
  }

  /** The redactor's list for these values. */
  lemma ListFor(encode: Encoder, given: seq<string>) returns (alts: seq<string>)
    requires "" !in given
    ensures Holds(encode, (set g | g in given), alts)
  {
    var order := AllForms(encode, given);
    alts := Sorting.SortDescending(order, Longer);
    SortedAlternatives(order);
    forall x ensures x in alts <==> Remembered(encode, (set g | g in given), x) { AllFormsSpec(encode, given, x); }
  }

  /******* The rest of the text *******/

  datatype Piece = Copied(c: char) | Hidden(value: string)

  function Pieces(ms: seq<Option<string>>, text: string, i: nat): seq<Piece>
    requires Fits(ms, text) && i <= |text|
    decreases |text| - i
  {
    if i == |text| then []
    else if ms[i].Some? then [Hidden(ms[i].value)] + Pieces(ms, text, i + |ms[i].value|)
    else [Copied(text[i])] + Pieces(ms, text, i + 1)
  }

  function Source(ps: seq<Piece>): string {
    if ps == [] then ""
    else (match ps[0] case Copied(c) => [c] case Hidden(v) => v) + Source(ps[1..])
  }

  function Shown(ps: seq<Piece>): string {
    if ps == [] then ""
    else (match ps[0] case Copied(c) => [c] case Hidden(_) => MARKER) + Shown(ps[1..])
  }

  lemma ConsPieces(p: Piece, rest: seq<Piece>)
    ensures Source([p] + rest) == (match p case Copied(c) => [c] case Hidden(v) => v) + Source(rest)
    ensures Shown([p] + rest) == (match p case Copied(c) => [c] case Hidden(_) => MARKER) + Shown(rest)
  {
    assert ([p] + rest)[1..] == rest;
  }

  /** Each match is what stands in the text there, and is one of the values. */
  ghost predicate Honest(ms: seq<Option<string>>, text: string, alts: seq<string>) {
    Fits(ms, text) && forall i :: 0 <= i < |ms| && ms[i].Some? ==> ms[i].value in alts && OccursAt(ms[i].value, text, i)
  }

  lemma {:induction false} PiecesSpec(ms: seq<Option<string>>, text: string, alts: seq<string>, i: nat)
    requires Honest(ms, text, alts) && i <= |text|
    ensures var ps := Pieces(ms, text, i);
            && Source(ps) == text[i..]
            && Shown(ps) == Scan(ms, text, i)
            && forall p :: p in ps && p.Hidden? ==> p.value in alts
    decreases |text| - i
  {
    if i < |text| {
      var next := if ms[i].Some? then i + |ms[i].value| else i + 1;
      PiecesSpec(ms, text, alts, next);
      ConsPieces(if ms[i].Some? then Hidden(ms[i].value) else Copied(text[i]), Pieces(ms, text, next));
      assert text[i..] == text[i..next] + text[next..];
      if ms[i].Some? { assert OccursAt(ms[i].value, text, i); }
    }
  }

  /** The output is the text with some known values hidden: everything else is copied, in order. */
  lemma OnlySecretsHidden(word: char -> bool, alts: seq<string>, text: string)
    requires Proper(alts)
    ensures Fits(Table(word, alts, text), text)
    ensures var ps := Pieces(Table(word, alts, text), text, 0);
            && Source(ps) == text
            && Shown(ps) == Redact(word, alts, text)
            && forall p :: p in ps && p.Hidden? ==> p.value in alts
  {
    PiecesSpec(Table(word, alts, text), text, alts, 0);
    assert text[0..] == text;
  }

  /** A text in which no value matches anywhere is unchanged. */
  lemma CleanTextUnchanged(word: char -> bool, alts: seq<string>, text: string)
    requires Proper(alts)
    requires forall v, i :: v in alts && 0 <= i < |text| ==> !MatchesAt(word, v, text, i)
    ensures Redact(word, alts, text) == text
  {
    StretchCopied(Table(word, alts, text), text, 0, |text|);
  }

  /******* Longest first *******/

  lemma {:induction false} MatchIsLongest(word: char -> bool, alts: seq<string>, text: string, i: nat, v: string)
    requires LongestFirst(alts) && v in alts && MatchesAt(word, v, text, i)
    ensures var m := FirstMatch(word, alts, text, i); m.Some? && |v| <= |m.value|
  {
    assert alts == [alts[0]] + alts[1..];
    if !MatchesAt(word, alts[0], text, i) { MatchIsLongest(word, alts[1..], text, i, v); }
  }

  /** The value stands in the text there, and not inside a word if it has fewer than four characters. */
  ghost predicate StandsAt(word: char -> bool, v: string, text: string, i: nat) {
    && i + |v| <= |text| && text[i..i + |v|] == v
    && (|v| < 4 ==> (i == 0 || !word(text[i - 1])) && (i + |v| == |text| || !word(text[i + |v|])))
  }

  ghost predicate NothingStands(word: char -> bool, alts: seq<string>, text: string, i: nat) {
    forall v :: v in alts ==> !StandsAt(word, v, text, i)
  }

  ghost predicate LongestStands(word: char -> bool, alts: seq<string>, v: string, text: string, i: nat) {
    && v in alts && StandsAt(word, v, text, i)
    && forall w :: w in alts && StandsAt(word, w, text, i) ==> |w| <= |v|
  }

  /** From position i on, the pieces are the text cut up from left to right, hiding the longest value at each place. */
  ghost predicate CutUp(word: char -> bool, alts: seq<string>, text: string, ps: seq<Piece>, i: nat)
    decreases |ps|
  {
    if ps == [] then i == |text|
    else if ps[0].Copied? then
      && i < |text| && ps[0].c == text[i] && NothingStands(word, alts, text, i)
      && CutUp(word, alts, text, ps[1..], i + 1)
    else LongestStands(word, alts, ps[0].value, text, i) && CutUp(word, alts, text, ps[1..], i + |ps[0].value|)
  }

  lemma TakenHere(word: char -> bool, alts: seq<string>, text: string, i: nat)
    requires LongestFirst(alts)
    ensures var m := FirstMatch(word, alts, text, i);
            if m.None? then NothingStands(word, alts, text, i) else LongestStands(word, alts, m.value, text, i)
  {
    forall v | v in alts && StandsAt(word, v, text, i)
      ensures FirstMatch(word, alts, text, i).Some? && |v| <= |FirstMatch(word, alts, text, i).value|
    {
      MatchIsLongest(word, alts, text, i, v);
    }
  }

  ghost function PieceAt(ms: seq<Option<string>>, text: string, i: nat): Piece
    requires |ms| == |text| && i < |text|
  {
    if ms[i].Some? then Hidden(ms[i].value) else Copied(text[i])
  }

  /** Only one piece can stand at a position. */
  lemma OnePiece(word: char -> bool, alts: seq<string>, text: string, ps: seq<Piece>, i: nat)
    requires LongestFirst(alts) && i < |text|
    ensures var piece := PieceAt(Table(word, alts, text), text, i);
            CutUp(word, alts, text, ps, i) <==>
              && ps != [] && ps[0] == piece
              && CutUp(word, alts, text, ps[1..], i + if piece.Hidden? then |piece.value| else 1)
  {
    TakenHere(word, alts, text, i);
  }

  lemma {:induction false} CutUpExactly(word: char -> bool, alts: seq<string>, text: string, ps: seq<Piece>, i: nat)
    requires Proper(alts) && LongestFirst(alts) && i <= |text|
    ensures CutUp(word, alts, text, ps, i) <==> ps == Pieces(Table(word, alts, text), text, i)
    decreases |text| - i
  {
    if i < |text| {
      var ms := Table(word, alts, text);
      var piece := PieceAt(ms, text, i);
      var next := i + if piece.Hidden? then |piece.value| else 1;
      OnePiece(word, alts, text, ps, i);
      assert Pieces(ms, text, i) == [piece] + Pieces(ms, text, next);
      if ps != [] { CutUpExactly(word, alts, text, ps[1..], next); }
      HeadAndRest(ps, piece, Pieces(ms, text, next));
    }
  }

  lemma HeadAndRest(ps: seq<Piece>, p: Piece, rest: seq<Piece>)
    ensures ps == [p] + rest <==> ps != [] && ps[0] == p && ps[1..] == rest
  {
    if ps != [] { assert ps == [ps[0]] + ps[1..]; }
  }

  /** Redaction shows the one way to cut the text up, from left to right and longest value first. */
  lemma RedactsOneCut(word: char -> bool, alts: seq<string>, text: string, ps: seq<Piece>)
    requires Proper(alts) && LongestFirst(alts)
    ensures CutUp(word, alts, text, ps, 0) ==> Redact(word, alts, text) == Shown(ps)
    ensures Fits(Table(word, alts, text), text)
    ensures CutUp(word, alts, text, Pieces(Table(word, alts, text), text, 0), 0)
  {
    CutUpExactly(word, alts, text, ps, 0);
    CutUpExactly(word, alts, text, Pieces(Table(word, alts, text), text, 0), 0);
    OnlySecretsHidden(word, alts, text);
  }

  ghost predicate SameValues(a: seq<string>, b: seq<string>) {
    forall v :: v in a <==> v in b
  }

  lemma SameMatch(word: char -> bool, a: seq<string>, b: seq<string>, text: string, i: nat)
    requires LongestFirst(a) && LongestFirst(b) && SameValues(a, b)
    ensures FirstMatch(word, a, text, i) == FirstMatch(word, b, text, i)
  {
    var x, y := FirstMatch(word, a, text, i), FirstMatch(word, b, text, i);
    if x.Some? { MatchIsLongest(word, b, text, i, x.value); }
    if y.Some? { MatchIsLongest(word, a, text, i, y.value); }
  }

  /** The values are kept in a set: whichever way equally long ones are ordered, the output is the same. */
  lemma OrderIrrelevant(word: char -> bool, a: seq<string>, b: seq<string>, text: string)
    requires Proper(a) && Proper(b) && LongestFirst(a) && LongestFirst(b) && SameValues(a, b)
    ensures Redact(word, a, text) == Redact(word, b, text)
  {
    forall i | 0 <= i < |text| ensures Table(word, a, text)[i] == Table(word, b, text)[i] {
      SameMatch(word, a, b, text, i);
    }
    assert Table(word, a, text) == Table(word, b, text);
  }

  /******* The redactor's own state *******/

  class SecretRedactor {
    const encode: Encoder
    var values: set<string>
    ghost var given: set<string>    // the values themselves, without their encodings

    ghost predicate Valid()
      reads this
    {
      Encodes(encode) && "" !in given && forall x :: x in values <==> Remembered(encode, given, x)
    }

    constructor (encode: Encoder)
      requires Encodes(encode)
      ensures Valid() && this.encode == encode && given == {}
    {
      this.encode := encode;
      values := {};
      given := {};
    }

    /** Remember values and their encoded forms; missing and empty ones are skipped. */
    method Add(more: seq<Option<string>>)
      requires Valid()
      modifies this
      ensures Valid()
      ensures forall g :: g in given <==> g in old(given) || (g != "" && Some(g) in more)
    {
      for i := 0 to |more|
        invariant Valid()
        invariant forall g :: g in given <==> g in old(given) || (g != "" && Some(g) in more[..i])
      {
        assert more[..i + 1] == more[..i] + [more[i]];
        if more[i].None? || more[i].value == "" { continue; }
        var g := more[i].value;
        label Before:
        values := values + {g} + set e | e in encode(g);
        given := given + {g};
        forall x ensures x in values <==> Remembered(encode, given, x) {
          Forms(encode, old@Before(given), g, x);
        }
      }
    }

    /** The first substitution: the values in whatever order the set yields them, longest first. */
    method Substitute(word: char -> bool, text: string, order: seq<string>) returns (r: string)
      requires Valid() && forall x :: x in order <==> x in values
      ensures forall alts :: Holds(encode, given, alts) ==> Proper(alts) && r == Redact(word, alts, text)
    {
      var sorted := Sorting.SortDescending(order, Longer);
      SortedAlternatives(order);
      HoldsProper(encode, given, sorted);
      r := Redact(word, sorted, text);
      forall alts | Holds(encode, given, alts) ensures Proper(alts) && r == Redact(word, alts, text) {
        HoldsProper(encode, given, alts);
        OrderIrrelevant(word, sorted, alts, text);
      }
    }
  }

  lemma Forms(encode: Encoder, given: set<string>, g: string, x: string)
    ensures Remembered(encode, given + {g}, x) <==> Remembered(encode, given, x) || x == g || x in encode(g)
  {
    if Remembered(encode, given, x) {
      var h :| h in given && (x == h || x in encode(h));
      assert h in given + {g};
    }
    assert g in given + {g};
  }
}
