/**
 * Redaction of structured data: what stands under sensitive keys is hidden, every other text is redacted, and a text
 * that is itself JSON is decoded, cleaned and printed again.
 */
module Cleaning {
  import opened Json
  import JsonText
  import opened OrderedDict
  import opened Recency
  import opened Redactor
  import opened Text
  import opened Wrappers

  /******* Sensitive keys *******/

  predicate Alphanumeric(c: char) { 'a' <= c <= 'z' || '0' <= c <= '9' }

  function Normalized(key: string): string {
    if key == "" then ""
    else if Alphanumeric(Lower(key[0])) then [Lower(key[0])] + Normalized(key[1..])
    else Normalized(key[1..])
  }

  predicate StartsAt(s: string, part: string, p: nat) {
    p + |part| <= |s| && s[p..p + |part|] == part
  }

  predicate Contains(s: string, part: string) {
    exists p :: 0 <= p <= |s| && StartsAt(s, part, p)
  }

  predicate SensitiveKey(key: string) {
    var n := Normalized(key);
    && n !in {"pagetoken", "nextpagetoken", "responsetoken"}
    && ((exists part :: part in ["password", "secret", "accesstoken", "refreshtoken", "authorization", "cookie",
                                 "apikey", "bearer", "credentials", "cfaccessclient"] && Contains(n, part))
        || n in {"token", "tokens"})
  }

  /******* Texts that are JSON *******/

  // The JSON decoder, and the texts that decoded numbers print as.
  datatype Decoder = Decoder(parse: string -> Option<Json>, number: string -> bool)

  /** After leading blanks, the text opens an object or an array. */
  predicate Bracketed(s: string) {
    s != "" && (s[0] == '{' || s[0] == '[' || (Blank(s[0]) && Bracketed(s[1..])))
  }

  predicate IsJson(dec: Decoder, s: string) { Bracketed(s) && dec.parse(s).Some? }

  function LongestText(j: Json): nat
    decreases j, 1
  {
    match j
    case Str(s) => |s|
    case Arr(items) => LongestInItems(items)
    case Obj(entries) => LongestInEntries(entries)
    case _ => 0
  }

  function LongestInItems(items: seq<Json>): nat
    decreases items, 0
  {
    if items == [] then 0
    else
      var a, b := LongestText(items[0]), LongestInItems(items[1..]);
      if a >= b then a else b
  }

  function LongestInEntries(entries: Dict<string, Json>): nat
    decreases entries, 0
  {
    if entries == [] then 0
    else
      var a, b := LongestInEntry(entries[0]), LongestInEntries(entries[1..]);
      if a >= b then a else b
  }

  function LongestInEntry(e: Item<string, Json>): nat
    decreases e, 0
  {
    LongestText(e.value)
  }

  ghost predicate Leaf(j: Json) { !j.Arr? && !j.Obj? }

  ghost predicate NumbersAmong(number: string -> bool, j: Json) {
    match j
    case Num(text) => number(text)
    case Arr(items) => forall x :: x in items ==> NumbersAmong(number, x)
    case Obj(entries) => forall e :: e in entries ==> NumbersAmong(number, e.value)
    case _ => true
  }

  /** A decoded value: its texts are shorter than what it was decoded from, and a bracket opened an array or object. */
  ghost predicate DecodedFrom(dec: Decoder, s: string, j: Json) {
    LongestText(j) < |s| && NumbersAmong(dec.number, j) && (Bracketed(s) ==> !Leaf(j))
  }

  /** The keys of every object differ. */
  ghost predicate KeysDiffer(j: Json) {
    match j
    case Arr(items) => forall x :: x in items ==> KeysDiffer(x)
    case Obj(entries) => Distinct(Keys(entries)) && forall e :: e in entries ==> KeysDiffer(e.value)
    case _ => true
  }

  ghost predicate ReadsBack(dec: Decoder, j: Json) { dec.parse(Dump(j)) == Some(j) }

  /** What the proofs use of the decoder; decoding undoes printing for arrays and objects. */
  ghost predicate Decodes(dec: Decoder) {
    && (forall s :: dec.parse(s).Some? ==> DecodedFrom(dec, s, dec.parse(s).value))
    && (forall j {:trigger ReadsBack(dec, j)} ::
          !Leaf(j) && NumbersAmong(dec.number, j) && KeysDiffer(j) ==> ReadsBack(dec, j))
  }

  /******* Cleaning *******/

  function Clean(dec: Decoder, word: char -> bool, alts: seq<string>, j: Json): Json
    requires Proper(alts) && Decodes(dec)
    decreases LongestText(j), j, 1
  {
    match j
    case Obj(entries) => Obj(CleanEntries(dec, word, alts, entries, []))
    case Arr(items) => Arr(CleanItems(dec, word, alts, items))
    case Str(s) =>
      if IsJson(dec, s) then Str(Indented(Clean(dec, word, alts, dec.parse(s).value), 0))
      else Str(Redact(word, alts, s))
    case _ => j
  }

  function CleanItems(dec: Decoder, word: char -> bool, alts: seq<string>, items: seq<Json>): seq<Json>
    requires Proper(alts) && Decodes(dec)
    decreases LongestInItems(items), items, 0
  {
    if items == [] then [] else [Clean(dec, word, alts, items[0])] + CleanItems(dec, word, alts, items[1..])
  }

  /** Keys are redacted as well, so two of them may become one; the later value then wins. */
  function CleanEntries(
    dec: Decoder, word: char -> bool, alts: seq<string>, entries: Dict<string, Json>, done: Dict<string, Json>)
    : Dict<string, Json>
    requires Proper(alts) && Decodes(dec)
    decreases LongestInEntries(entries), entries, 0
  {
    if entries == [] then done
    else
      var e := entries[0];
      CleanEntries(dec, word, alts, entries[1..], Put(done, Redact(word, alts, e.key), CleanValue(dec, word, alts, e)))
  }

  function CleanValue(dec: Decoder, word: char -> bool, alts: seq<string>, e: Item<string, Json>): Json
    requires Proper(alts) && Decodes(dec)
    decreases LongestInEntry(e), e, 0
  {
    if SensitiveKey(e.key) then Str(MARKER) else Clean(dec, word, alts, e.value)
  }

  ghost predicate Clear(v: string, s: string) {
    forall p :: !OccursAt(v, s, p)
  }

  /** The value occurs in no string of the data, keys included. */
  ghost predicate Free(v: string, j: Json) {
    match j
    case Obj(entries) => forall e :: e in entries ==> Clear(v, e.key) && Free(v, e.value)
    case Arr(items) => forall x :: x in items ==> Free(v, x)
    case Str(s) => Clear(v, s)
    case _ => true
  }

  lemma {:induction false} PutMembers(d: Dict<string, Json>, k: string, v: Json, e: Item<string, Json>)
    requires e in Put(d, k, v)
    ensures e in d || e == Item(k, v)
  {
    if d != [] && d[0].key != k && e != d[0] {
      assert Put(d, k, v) == [d[0]] + Put(d[1..], k, v);
      PutMembers(d[1..], k, v, e);
    }
  }

  lemma MarkerIsClear(v: string)
    requires v != "" && CannotMeetMarker(v)
    ensures Clear(v, MARKER)
  {
    forall p ensures !OccursAt(v, MARKER, p) {
      if OccursAt(v, MARKER, p) {
        assert MARKER + "" == MARKER;
        MeetsMarker(v, "", p);
      }
    }
  }

  /******* Printing *******/

  /** The line on which an entry of an array, or of an object with this key, starts. */
  function Start(n: nat, key: Option<string>): string {
    Blanks(n) + if key.Some? then Quoted(key.value) + ": " else ""
  }

  function EntryLine(n: nat, key: Option<string>, j: Json): string { Start(n, key) + Dump(j) + "," }

  function ClosingLine(n: nat, bracket: char): string { Blanks(n) + [bracket] + "," }

  /** What prints on one line and holds no text: a number, a literal, or an empty array or object. */
  ghost predicate Textless(dec: Decoder, j: Json) {
    (Leaf(j) && !j.Str? && NumbersAmong(dec.number, j)) || j == Arr([]) || j == Obj([])
  }

  ghost predicate EntryClear(dec: Decoder, v: string, n: nat, key: Option<string>, j: Json) {
    (key.Some? ==> Clear(v, key.value)) && (Textless(dec, j) || (j.Str? && Clear(v, j.s))) ==>
      Clear(v, EntryLine(n, key, j))
  }

  ghost predicate ClosingClear(v: string, n: nat) {
    Clear(v, ClosingLine(n, ']')) && Clear(v, ClosingLine(n, '}'))
  }

  /** No line of printed data holds the value, when no text in that line does. */
  ghost predicate InNoLine(dec: Decoder, v: string) {
    && (forall n, key, j :: EntryClear(dec, v, n, key, j))
    && (forall n :: ClosingClear(v, n))
  }

  ghost predicate EscapingClear(v: string, t: string) {
    Clear(v, t) ==> Clear(v, EscapedText(t))
  }

  ghost predicate TextlessClear(dec: Decoder, v: string, n: nat, j: Json) {
    Textless(dec, j) ==> Clear(v, Blanks(n) + Dump(j) + ",") && Clear(v, ": " + Dump(j) + ",")
  }

  /**
   * Printing never brings the value about: not by escaping a text, not by blanks or a colon before a number, a literal
   * or an empty array or object and a comma after it, and not by a closing bracket between blanks and a comma.
   */
  ghost predicate NeverPrinted(dec: Decoder, v: string) {
    && (forall t :: EscapingClear(v, t))
    && (forall n, j :: TextlessClear(dec, v, n, j))
    && (forall n :: ClosingClear(v, n))
  }

  /** The value agrees with what an escape sequence holds from its k-th character on, wherever they overlap. */
  ghost predicate MeetsEscape(v: string, c: char, k: int) {
    1 <= k < |Escaped(c)| && (Escaped(c)[k..] <= v || v <= Escaped(c)[k..])
  }

  lemma OccurrenceInWhole(v: string, a: string, part: string, b: string, p: int)
    requires OccursAt(v, part, p)
    ensures OccursAt(v, a + part + b, |a| + p)
  {
    assert (a + part + b)[|a| + p..|a| + p + |v|] == part[p..p + |v|];
  }

  lemma PartClear(v: string, a: string, part: string, b: string)
    requires Clear(v, a + part + b)
    ensures Clear(v, part)
  {
    forall p ensures !OccursAt(v, part, p) {
      if OccursAt(v, part, p) { OccurrenceInWhole(v, a, part, b, p); }
    }
  }

  lemma OccurrenceSides(v: string, a: string, between: string, b: string, p: int)
    requires v != "" && OccursAt(v, a + between + b, p)
    ensures || OccursAt(v, a, p) || OccursAt(v, b, p - |a| - |between|)
            || between == "" || exists c :: c in between && c in v
  {
    var all := a + between + b;
    if p + |v| <= |a| {
      assert all[p..p + |v|] == a[p..p + |v|];
    } else if p >= |a| + |between| {
      ShiftOccurrence(v, a + between, b, p);
    } else if between != "" {
      var i := if p >= |a| then p else |a|;
      assert v[i - p] == all[p..p + |v|][i - p] == all[i] == between[i - |a|];
      assert between[i - |a|] in between && v[i - p] in v;
    }
  }

  lemma Apart(v: string, a: string, between: string, b: string)
    requires v != "" && between != "" && Clear(v, a) && Clear(v, b) && forall c :: c in between ==> c !in v
    ensures Clear(v, a + between + b)
  {
    forall p ensures !OccursAt(v, a + between + b, p) {
      if OccursAt(v, a + between + b, p) { OccurrenceSides(v, a, between, b, p); }
    }
  }

  lemma {:induction false} EscapedPrefix(v: string, s: string)
    requires Verbatim(v) && v <= EscapedText(s)
    ensures v <= s
  {
    if v != "" {
      var head := Escaped(s[0]);
      assert v[0] == head[0];
      assert head == [s[0]];
      assert EscapedText(s)[1..] == EscapedText(s[1..]);
      EscapedPrefix(v[1..], s[1..]);
      assert v == [v[0]] + v[1..] && s == [s[0]] + s[1..];
    }
  }

  lemma LaterOccurrence(v: string, s: string, p: int)
    requires s != "" && OccursAt(v, s[1..], p)
    ensures OccursAt(v, s, p + 1)
  {
    assert s[p + 1..p + 1 + |v|] == s[1..][p..p + |v|];
  }

  lemma {:induction false} EscapedClear(v: string, s: string)
    requires v != "" && Verbatim(v) && Clear(v, s) && forall c, k :: !MeetsEscape(v, c, k)
    ensures Clear(v, EscapedText(s))
  {
    if s != "" {
      var head, rest := Escaped(s[0]), EscapedText(s[1..]);
      forall p ensures !OccursAt(v, s[1..], p) {
        if OccursAt(v, s[1..], p) { LaterOccurrence(v, s, p); }
      }
      EscapedClear(v, s[1..]);
      forall p ensures !OccursAt(v, head + rest, p) {
        if OccursAt(v, head + rest, p) { EscapedOccurrence(v, s, p); }
      }
    }
  }

  /** Where a value can stand in an escaped text: at its start, in the rest, or across the first escape sequence. */
  lemma EscapedOccurrence(v: string, s: string, p: nat)
    requires v != "" && s != "" && Verbatim(v) && OccursAt(v, Escaped(s[0]) + EscapedText(s[1..]), p)
    ensures OccursAt(v, s, 0) || OccursAt(v, EscapedText(s[1..]), p - |Escaped(s[0])|) || MeetsEscape(v, s[0], p)
  {
    var head, rest := Escaped(s[0]), EscapedText(s[1..]);
    if p >= |head| {
      ShiftOccurrence(v, head, rest, p);
    } else if p == 0 {
      assert v <= head + rest;
      EscapedPrefix(v, s);
    } else {
      var tail, all := head[p..], head + rest;
      assert forall i :: 0 <= i < |v| ==> v[i] == all[p + i];
      if |tail| <= |v| {
        assert v[..|tail|] == tail;
      } else {
        assert tail[..|v|] == v;
      }
    }
  }

  /** No number or literal of the data holds the value. */
  ghost predicate LeavesClear(v: string, j: Json) {
    match j
    case Arr(items) => forall x :: x in items ==> LeavesClear(v, x)
    case Obj(entries) => forall e :: e in entries ==> LeavesClear(v, e.value)
    case Str(_) => true
    case _ => Clear(v, Dump(j))
  }

  /** Two pieces of print, on both sides of a line end, without the value. */
  lemma LinesApart(v: string, a: string, b: string)
    requires v != "" && '\n' !in v && Clear(v, a) && Clear(v, b)
    ensures Clear(v, a + "\n" + b)
  {
    Apart(v, a, "\n", b);
  }

  lemma EnclosedClear(v: string, start: string, open: char, close: char, n: nat, inner: string)
    requires v != "" && '\n' !in v
    requires Clear(v, start + [open, close] + ",") && Clear(v, Blanks(n + 2) + inner + ",")
    requires Clear(v, ClosingLine(n, close))
    ensures Clear(v, start + ([open] + Line(n + 2) + inner + (Line(n) + [close])) + ",")
  {
    var first, middle, last := start + [open], Blanks(n + 2) + inner, ClosingLine(n, close);
    assert "" + first + [close, ','] == start + [open, close] + ",";
    PartClear(v, "", first, [close, ',']);
    assert "" + middle + "," == Blanks(n + 2) + inner + ",";
    PartClear(v, "", middle, ",");
    LinesApart(v, first, middle);
    LinesApart(v, first + "\n" + middle, last);
    assert first + "\n" + middle + "\n" + last == start + ([open] + Line(n + 2) + inner + (Line(n) + [close])) + ",";
  }

  /** Printing data line by line: each line is one that does not hold the value. */
  lemma {:induction false} IndentedClear(dec: Decoder, v: string, j: Json, key: Option<string>, n: nat)
    requires v != "" && '\n' !in v && InNoLine(dec, v) && (key.Some? ==> Clear(v, key.value))
    requires Free(v, j) && NumbersAmong(dec.number, j)
    ensures Clear(v, Start(n, key) + Indented(j, n) + ",")
    decreases j, 1
  {
    match j
    case Arr(items) =>
      assert EntryClear(dec, v, n, key, Arr([])) && Dump(Arr([])) == "[]" == ['[', ']'];
      if items != [] {
        IndentedItemsClear(dec, v, items, n + 2);
        assert ClosingClear(v, n);
        EnclosedClear(v, Start(n, key), '[', ']', n, IndentedItems(items, n + 2));
      }
    case Obj(entries) =>
      assert EntryClear(dec, v, n, key, Obj([])) && Dump(Obj([])) == "{}" == ['{', '}'];
      if entries != [] {
        IndentedEntriesClear(dec, v, entries, n + 2);
        assert ClosingClear(v, n);
        EnclosedClear(v, Start(n, key), '{', '}', n, IndentedEntries(entries, n + 2));
      }
    case _ => assert EntryClear(dec, v, n, key, j);
  }

  lemma FirstThenRest(v: string, n: nat, first: string, rest: string)
    requires v != "" && '\n' !in v && Clear(v, Blanks(n) + first + ",") && Clear(v, Blanks(n) + rest + ",")
    ensures Clear(v, Blanks(n) + (first + ("," + Line(n)) + rest) + ",")
  {
    LinesApart(v, Blanks(n) + first + ",", Blanks(n) + rest + ",");
    assert Blanks(n) + first + "," + "\n" + (Blanks(n) + rest + ",")
        == Blanks(n) + (first + ("," + Line(n)) + rest) + ",";
  }

  lemma {:induction false} IndentedItemsClear(dec: Decoder, v: string, items: seq<Json>, n: nat)
    requires v != "" && '\n' !in v && InNoLine(dec, v)
    requires items != [] && Free(v, Arr(items)) && NumbersAmong(dec.number, Arr(items))
    ensures Clear(v, Blanks(n) + IndentedItems(items, n) + ",")
    decreases items, 0
  {
    assert items[0] in items;
    IndentedClear(dec, v, items[0], None, n);
    assert Start(n, None) == Blanks(n);
    if |items| > 1 {
      IndentedItemsClear(dec, v, items[1..], n);
      FirstThenRest(v, n, Indented(items[0], n), IndentedItems(items[1..], n));
    }
  }

  lemma {:induction false} IndentedEntryClear(dec: Decoder, v: string, e: Item<string, Json>, n: nat)
    requires v != "" && '\n' !in v && InNoLine(dec, v)
    requires Clear(v, e.key) && Free(v, e.value) && NumbersAmong(dec.number, e.value)
    ensures Clear(v, Blanks(n) + IndentedEntry(e, n) + ",")
    decreases e, 0
  {
    IndentedClear(dec, v, e.value, Some(e.key), n);
    assert Blanks(n) + IndentedEntry(e, n) + "," == Start(n, Some(e.key)) + Indented(e.value, n) + ",";
  }

  lemma {:induction false} IndentedEntriesClear(dec: Decoder, v: string, entries: Dict<string, Json>, n: nat)
    requires v != "" && '\n' !in v && InNoLine(dec, v)
    requires entries != [] && Free(v, Obj(entries)) && NumbersAmong(dec.number, Obj(entries))
    ensures Clear(v, Blanks(n) + IndentedEntries(entries, n) + ",")
    decreases entries, 0
  {
    assert entries[0] in entries;
    IndentedEntryClear(dec, v, entries[0], n);
    if |entries| > 1 {
      IndentedEntriesClear(dec, v, entries[1..], n);
      FirstThenRest(v, n, IndentedEntry(entries[0], n), IndentedEntries(entries[1..], n));
    }
  }

  lemma PrintedClear(dec: Decoder, v: string, j: Json)
    requires v != "" && '\n' !in v && InNoLine(dec, v) && Free(v, j) && NumbersAmong(dec.number, j)
    ensures Clear(v, Indented(j, 0))
  {
    IndentedClear(dec, v, j, None, 0);
    assert Start(0, None) == "";
    PartClear(v, "", Indented(j, 0), ",");
  }

  /******* Values without quotes *******/

  lemma StartClear(dec: Decoder, v: string, n: nat, key: Option<string>)
    requires v != "" && '\"' !in v && NeverPrinted(dec, v) && (key.Some? ==> Clear(v, key.value))
    ensures Clear(v, Start(n, key))
  {
    assert TextlessClear(dec, v, n, Null);
    assert "" + Blanks(n) + (Dump(Null) + ",") == Blanks(n) + Dump(Null) + ",";
    PartClear(v, "", Blanks(n), Dump(Null) + ",");
    if key.None? {
      assert Start(n, key) == Blanks(n);
    } else {
      assert "" + ": " + (Dump(Null) + ",") == ": " + Dump(Null) + ",";
      PartClear(v, "", ": ", Dump(Null) + ",");
      BetweenQuotes(v, Blanks(n), key.value, ": ");
      assert Start(n, key) == Blanks(n) + Quoted(key.value) + ": ";
    }
  }

  lemma BetweenQuotes(v: string, a: string, t: string, b: string)
    requires v != "" && '\"' !in v && Clear(v, a) && Clear(v, t) && Clear(v, b) && EscapingClear(v, t)
    ensures Clear(v, a + Quoted(t) + b)
  {
    Apart(v, a, "\"", EscapedText(t));
    Apart(v, a + "\"" + EscapedText(t), "\"", b);
    assert a + "\"" + EscapedText(t) + "\"" + b == a + Quoted(t) + b;
  }

  lemma EntryLineClear(dec: Decoder, v: string, n: nat, key: Option<string>, j: Json)
    requires v != "" && '\"' !in v && NeverPrinted(dec, v) && (key.Some? ==> Clear(v, key.value))
    requires Textless(dec, j) || (j.Str? && Clear(v, j.s))
    ensures Clear(v, EntryLine(n, key, j))
  {
    assert TextlessClear(dec, v, n, Null) && Dump(Null) == "null";
    StartClear(dec, v, n, key);
    if j.Str? {
      assert Blanks(n) + Dump(Null) + "," == (Blanks(n) + "null") + "," + "";
      PartClear(v, Blanks(n) + "null", ",", "");
      assert EscapingClear(v, j.s);
      BetweenQuotes(v, Start(n, key), j.s, ",");
    } else {
      assert TextlessClear(dec, v, n, j);
      if key.Some? {
        assert EscapingClear(v, key.value);
        assert "" + Blanks(n) + ("null" + ",") == Blanks(n) + "null" + ",";
        PartClear(v, "", Blanks(n), "null" + ",");
        BetweenQuotes(v, Blanks(n), key.value, ": " + Dump(j) + ",");
        assert EntryLine(n, key, j) == Blanks(n) + Quoted(key.value) + (": " + Dump(j) + ",");
      } else {
        assert EntryLine(n, key, j) == Blanks(n) + Dump(j) + ",";
      }
    }
  }

  /** Between quotes a line holds one text or none: a value without quotes that is never printed stands in no line. */
  lemma NeverPrintedInNoLine(dec: Decoder, v: string)
    requires v != "" && '\"' !in v && NeverPrinted(dec, v)
    ensures InNoLine(dec, v)
  {
    forall n, key, j ensures EntryClear(dec, v, n, key, j) {
      if (key.Some? ==> Clear(v, key.value)) && (Textless(dec, j) || (j.Str? && Clear(v, j.s))) {
        EntryLineClear(dec, v, n, key, j);
      }
    }
  }

  /******* Values with a quote inside *******/

  /** A quote in a line opens a text after a blank, is escaped, or closes a text before a colon or comma. */
  ghost predicate QuotesInPlace(line: string) {
    forall i :: 0 < i < |line| - 1 && line[i] == '\"' ==>
      line[i - 1] == ' ' || line[i - 1] == '\\' || line[i + 1] == ':' || line[i + 1] == ','
  }

  lemma {:induction false} EscapedQuotes(t: string)
    ensures forall i :: 0 <= i < |EscapedText(t)| && EscapedText(t)[i] == '\"' ==>
                          i > 0 && EscapedText(t)[i - 1] == '\\'
  {
    if t != "" {
      EscapedQuotes(t[1..]);
      var head, rest := Escaped(t[0]), EscapedText(t[1..]);
      forall i | 0 <= i < |head + rest| && (head + rest)[i] == '\"' ensures i > 0 && (head + rest)[i - 1] == '\\' {
        if i >= |head| { assert rest[i - |head|] == '\"'; }
      }
    }
  }

  lemma TextInPlace(a: string, t: string, b: string)
    requires QuotesInPlace(a) && (a != "" ==> a[|a| - 1] == ' ')
    requires '\"' !in b && b != "" && (b[0] == ':' || b[0] == ',')
    ensures QuotesInPlace(a + Quoted(t) + b)
  {
    var line, front := a + Quoted(t) + b, |a| + |Quoted(t)|;
    EscapedQuotes(t);
    assert forall i :: front <= i < |line| ==> line[i] == b[i - front] && b[i - front] in b;
    forall i | 0 < i < |line| - 1 && line[i] == '\"'
      ensures line[i - 1] == ' ' || line[i - 1] == '\\' || line[i + 1] == ':' || line[i + 1] == ','
    {
      if |a| < i < |a| + 1 + |EscapedText(t)| {
        assert line[i] == EscapedText(t)[i - |a| - 1];
      }
    }
  }

  lemma StartInPlace(n: nat, key: Option<string>)
    ensures QuotesInPlace(Start(n, key)) && (Start(n, key) != "" ==> Start(n, key)[|Start(n, key)| - 1] == ' ')
  {
    if key.Some? {
      TextInPlace(Blanks(n), key.value, ": ");
      assert Start(n, key) == Blanks(n) + Quoted(key.value) + ": ";
    }
  }

  lemma LineInPlace(dec: Decoder, n: nat, key: Option<string>, j: Json)
    requires j.Str? || (Textless(dec, j) && '\"' !in Dump(j))
    ensures QuotesInPlace(EntryLine(n, key, j))
  {
    StartInPlace(n, key);
    if j.Str? {
      TextInPlace(Start(n, key), j.s, ",");
    } else {
      NoQuotesAfter(Start(n, key), Dump(j) + ",");
      assert EntryLine(n, key, j) == Start(n, key) + (Dump(j) + ",");
    }
  }

  lemma NoQuotesAfter(a: string, b: string)
    requires QuotesInPlace(a) && (a != "" ==> a[|a| - 1] == ' ') && '\"' !in b
    ensures QuotesInPlace(a + b)
  {
    assert forall i :: |a| <= i < |a + b| ==> (a + b)[i] == b[i - |a|] && b[i - |a|] in b;
  }

  lemma OutOfPlace(v: string, i: nat, line: string)
    requires 0 < i < |v| - 1 && v[i] == '\"' && v[i - 1] !in {' ', '\\'} && v[i + 1] !in {':', ','}
    requires QuotesInPlace(line)
    ensures Clear(v, line)
  {
    forall p ensures !OccursAt(v, line, p) {
      if OccursAt(v, line, p) { Neighbours(v, i, line, p); }
    }
  }

  lemma Neighbours(v: string, i: nat, line: string, p: nat)
    requires 0 < i < |v| - 1 && OccursAt(v, line, p)
    ensures line[p + i - 1] == v[i - 1] && line[p + i] == v[i] && line[p + i + 1] == v[i + 1]
  {
    assert forall k :: 0 <= k < |v| ==> v[k] == line[p..p + |v|][k] == line[p + k];
  }

  /** A value with a quote between other characters than those stands in no line. */
  lemma InnerQuoteInNoLine(dec: Decoder, v: string, i: nat)
    requires 0 < i < |v| - 1 && v[i] == '\"' && v[i - 1] !in {' ', '\\'} && v[i + 1] !in {':', ','}
    requires forall t :: dec.number(t) ==> '\"' !in t
    ensures InNoLine(dec, v)
  {
    forall n, key, j ensures EntryClear(dec, v, n, key, j) {
      if j.Str? || Textless(dec, j) {
        LineInPlace(dec, n, key, j);
        OutOfPlace(v, i, EntryLine(n, key, j));
      }
    }
    forall n ensures ClosingClear(v, n) {
      OutOfPlace(v, i, ClosingLine(n, ']'));
      OutOfPlace(v, i, ClosingLine(n, '}'));
    }
  }

  /******* Secrets are removed from data *******/

  /** The redactor knows the value, which is long and cannot overlap the marker. */
  ghost predicate Covered(alts: seq<string>, v: string) {
    v in alts && |v| >= 4 && CannotMeetMarker(v)
  }

  /** No text of the data that is not hidden anyway is JSON. */
  ghost predicate NoJsonText(dec: Decoder, j: Json) {
    match j
    case Obj(entries) => forall e :: e in entries ==> SensitiveKey(e.key) || NoJsonText(dec, e.value)
    case Arr(items) => forall x :: x in items ==> NoJsonText(dec, x)
    case Str(s) => !IsJson(dec, s)
    case _ => true
  }

  /** What lets data be cleaned of a value: it holds no JSON text, or no line of a printed one holds the value. */
  ghost predicate Cleanable(dec: Decoder, v: string, j: Json) {
    NoJsonText(dec, j) || ('\n' !in v && InNoLine(dec, v))
  }

  /** Cleaning brings in no number. */
  lemma {:induction false} CleanNumbers(dec: Decoder, word: char -> bool, alts: seq<string>, j: Json)
    requires Proper(alts) && Decodes(dec) && NumbersAmong(dec.number, j)
    ensures NumbersAmong(dec.number, Clean(dec, word, alts, j))
    decreases LongestText(j), j, 1
  {
    match j
    case Obj(entries) => CleanEntriesNumbers(dec, word, alts, entries, []);
    case Arr(items) => CleanItemsNumbers(dec, word, alts, items);
    case _ =>
  }

  lemma {:induction false} CleanItemsNumbers(dec: Decoder, word: char -> bool, alts: seq<string>, items: seq<Json>)
    requires Proper(alts) && Decodes(dec) && NumbersAmong(dec.number, Arr(items))
    ensures NumbersAmong(dec.number, Arr(CleanItems(dec, word, alts, items)))
    decreases LongestInItems(items), items, 0
  {
    if items != [] {
      assert items[0] in items;
      CleanNumbers(dec, word, alts, items[0]);
      CleanItemsNumbers(dec, word, alts, items[1..]);
    }
  }

  lemma {:induction false} CleanEntriesNumbers(
    dec: Decoder, word: char -> bool, alts: seq<string>, entries: Dict<string, Json>, done: Dict<string, Json>)
    requires Proper(alts) && Decodes(dec)
    requires NumbersAmong(dec.number, Obj(entries)) && NumbersAmong(dec.number, Obj(done))
    ensures NumbersAmong(dec.number, Obj(CleanEntries(dec, word, alts, entries, done)))
    decreases LongestInEntries(entries), entries, 0
  {
    if entries != [] {
      assert entries[0] in entries;
      CleanValueNumbers(dec, word, alts, entries[0]);
      var key, value := Redact(word, alts, entries[0].key), CleanValue(dec, word, alts, entries[0]);
      forall x | x in Put(done, key, value) ensures x in done || x == Item(key, value) {
        PutMembers(done, key, value, x);
      }
      CleanEntriesNumbers(dec, word, alts, entries[1..], Put(done, key, value));
    }
  }

  lemma {:induction false} CleanValueNumbers(dec: Decoder, word: char -> bool, alts: seq<string>, e: Item<string, Json>)
    requires Proper(alts) && Decodes(dec) && NumbersAmong(dec.number, e.value)
    ensures NumbersAmong(dec.number, CleanValue(dec, word, alts, e))
    decreases LongestInEntry(e), e, 0
  {
    if !SensitiveKey(e.key) { CleanNumbers(dec, word, alts, e.value); }
  }

  lemma {:induction false} LeavesOfNumbers(dec: Decoder, v: string, j: Json)
    requires InNoLine(dec, v) && NumbersAmong(dec.number, j)
    ensures LeavesClear(v, j)
    decreases j
  {
    match j
    case Str(_) =>
    case Arr(items) => forall x | x in items ensures LeavesClear(v, x) { LeavesOfNumbers(dec, v, x); }
    case Obj(entries) => forall e | e in entries ensures LeavesClear(v, e.value) { LeavesOfNumbers(dec, v, e.value); }
    case _ =>
      assert EntryClear(dec, v, 0, None, j);
      PartClear(v, Start(0, None), Dump(j), ",");
  }

  lemma {:induction false} CleanFree(dec: Decoder, word: char -> bool, alts: seq<string>, j: Json, v: string)
    requires Proper(alts) && Decodes(dec) && Covered(alts, v) && Cleanable(dec, v, j)
    ensures Free(v, Clean(dec, word, alts, j))
    decreases LongestText(j), j, 1
  {
    match j
    case Obj(entries) => CleanEntriesFree(dec, word, alts, entries, [], v);
    case Arr(items) => CleanItemsFree(dec, word, alts, items, v);
    case Str(s) =>
      if IsJson(dec, s) {
        var parsed := dec.parse(s).value;
        CleanFree(dec, word, alts, parsed, v);
        CleanNumbers(dec, word, alts, parsed);
        PrintedClear(dec, v, Clean(dec, word, alts, parsed));
      } else {
        SecretsRemoved(word, alts, s, v);
      }
    case _ =>
  }

  lemma {:induction false} CleanItemsFree(
    dec: Decoder, word: char -> bool, alts: seq<string>, items: seq<Json>, v: string)
    requires Proper(alts) && Decodes(dec) && Covered(alts, v) && Cleanable(dec, v, Arr(items))
    ensures Free(v, Arr(CleanItems(dec, word, alts, items)))
    decreases LongestInItems(items), items, 0
  {
    if items != [] {
      assert items[0] in items;
      CleanFree(dec, word, alts, items[0], v);
      CleanItemsFree(dec, word, alts, items[1..], v);
    }
  }

  lemma {:induction false} CleanEntriesFree(
    dec: Decoder, word: char -> bool, alts: seq<string>, entries: Dict<string, Json>, done: Dict<string, Json>,
    v: string)
    requires Proper(alts) && Decodes(dec) && Covered(alts, v) && Cleanable(dec, v, Obj(entries)) && Free(v, Obj(done))
    ensures Free(v, Obj(CleanEntries(dec, word, alts, entries, done)))
    decreases LongestInEntries(entries), entries, 0
  {
    if entries != [] {
      var e := entries[0];
      assert e in entries;
      var key, value := Redact(word, alts, e.key), CleanValue(dec, word, alts, e);
      SecretsRemoved(word, alts, e.key, v);
      CleanValueFree(dec, word, alts, e, v);
      forall x | x in Put(done, key, value) ensures x in done || x == Item(key, value) {
        PutMembers(done, key, value, x);
      }
      CleanEntriesFree(dec, word, alts, entries[1..], Put(done, key, value), v);
    }
  }

  lemma {:induction false} CleanValueFree(
    dec: Decoder, word: char -> bool, alts: seq<string>, e: Item<string, Json>, v: string)
    requires Proper(alts) && Decodes(dec) && Covered(alts, v) && (SensitiveKey(e.key) || Cleanable(dec, v, e.value))
    ensures Free(v, CleanValue(dec, word, alts, e))
    decreases LongestInEntry(e), e, 0
  {
    if SensitiveKey(e.key) { MarkerIsClear(v); } else { CleanFree(dec, word, alts, e.value, v); }
  }

  /** From strings and keys of data without JSON texts every long value is removed that cannot overlap the marker. */
  lemma CleanRemoves(dec: Decoder, word: char -> bool, alts: seq<string>, j: Json, v: string)
    requires Proper(alts) && Decodes(dec) && v in alts && |v| >= 4 && CannotMeetMarker(v) && NoJsonText(dec, j)
    ensures Free(v, Clean(dec, word, alts, j))
  {
    CleanFree(dec, word, alts, j, v);
  }

  /** From all data, JSON texts, numbers and literals included, if moreover no line of printed data holds the value. */
  lemma RemovedWhenInNoLine(dec: Decoder, word: char -> bool, alts: seq<string>, j: Json, v: string)
    requires Proper(alts) && Decodes(dec) && NumbersAmong(dec.number, j)
    requires v in alts && |v| >= 4 && CannotMeetMarker(v) && '\n' !in v && InNoLine(dec, v)
    ensures Free(v, Clean(dec, word, alts, j)) && LeavesClear(v, Clean(dec, word, alts, j))
  {
    CleanFree(dec, word, alts, j, v);
    CleanNumbers(dec, word, alts, j);
    LeavesOfNumbers(dec, v, Clean(dec, word, alts, j));
  }

  /******* What printing can bring about *******/

  ghost predicate Within(part: string, whole: string) {
    exists a, b :: whole == a + part + b
  }

  lemma WithinAt(part: string, whole: string, a: string, b: string)
    requires whole == a + part + b
    ensures Within(part, whole)
  {
  }

  lemma WithinWithin(part: string, middle: string, whole: string)
    requires Within(part, middle) && Within(middle, whole)
    ensures Within(part, whole)
  {
    var a, b :| middle == a + part + b;
    var c, d :| whole == c + middle + d;
    assert whole == (c + a) + part + (b + d);
  }

  lemma NotClearWithin(v: string, part: string, whole: string)
    requires !Clear(v, part) && Within(part, whole)
    ensures !Clear(v, whole)
  {
    var a, b :| whole == a + part + b;
    if Clear(v, whole) { PartClear(v, a, part, b); }
  }

  function Nested(n: nat, j: Json): Json {
    if n == 0 then j else Arr([Nested(n - 1, j)])
  }

  lemma {:induction false} NestedPrints(n: nat, j: Json, m: nat)
    ensures Within(Indented(j, m + 2 * n), Indented(Nested(n, j), m))
  {
    if n == 0 {
      WithinAt(Indented(j, m), Indented(j, m), "", "");
    } else {
      var inner := Nested(n - 1, j);
      assert IndentedItems([inner], m + 2) == Indented(inner, m + 2);
      NestedPrints(n - 1, j, m + 2);
      WithinAt(Indented(inner, m + 2), Indented(Arr([inner]), m), "[" + Line(m + 2), Line(m) + "]");
      WithinWithin(Indented(j, m + 2 * n), Indented(inner, m + 2), Indented(Nested(n, j), m));
    }
  }

  lemma {:induction false} NestedCleaned(dec: Decoder, word: char -> bool, alts: seq<string>, n: nat, j: Json)
    requires Proper(alts) && Decodes(dec)
    ensures Clean(dec, word, alts, Nested(n, j)) == Nested(n, Clean(dec, word, alts, j))
    ensures NumbersAmong(dec.number, j) && KeysDiffer(j) ==>
              NumbersAmong(dec.number, Nested(n, j)) && KeysDiffer(Nested(n, j))
    ensures !Leaf(j) ==> !Leaf(Nested(n, j))
  {
    if n > 0 {
      NestedCleaned(dec, word, alts, n - 1, j);
      ListOfOneCleaned(dec, word, alts, Nested(n - 1, j));
    }
  }

  lemma ListOfOneCleaned(dec: Decoder, word: char -> bool, alts: seq<string>, x: Json)
    requires Proper(alts) && Decodes(dec)
    ensures Clean(dec, word, alts, Arr([x])) == Arr([Clean(dec, word, alts, x)])
  {
    assert [x][1..] == [];
    assert CleanItems(dec, word, alts, [x][1..]) == [];
  }

  lemma PairCleaned(dec: Decoder, word: char -> bool, alts: seq<string>, x: Json)
    requires Proper(alts) && Decodes(dec)
    ensures Clean(dec, word, alts, Arr([x, Null])) == Arr([Clean(dec, word, alts, x), Null])
  {
    assert [x, Null][1..] == [Null];
    ListOfOneCleaned(dec, word, alts, Null);
  }

  lemma OneEntryCleaned(dec: Decoder, word: char -> bool, alts: seq<string>, key: string, j: Json)
    requires Proper(alts) && Decodes(dec)
    ensures Clean(dec, word, alts, Obj([Item(key, j)])) ==
            Obj([Item(Redact(word, alts, key), CleanValue(dec, word, alts, Item(key, j)))])
  {
    var e := Item(key, j);
    assert [e][1..] == [];
    assert CleanEntries(dec, word, alts, [e][1..], Put([], Redact(word, alts, key), CleanValue(dec, word, alts, e)))
        == [Item(Redact(word, alts, key), CleanValue(dec, word, alts, e))];
  }

  lemma PairIndented(x: Json, m: nat)
    ensures Indented(Arr([x, Null]), m) ==
            "[" + Line(m + 2) + (Indented(x, m + 2) + ("," + Line(m + 2)) + "null") + (Line(m) + "]")
  {
    assert [x, Null][1..] == [Null];
    assert IndentedItems([Null], m + 2) == "null";
    assert IndentedItems([x, Null], m + 2) == Indented(x, m + 2) + ("," + Line(m + 2)) + "null";
  }

  lemma LineOfPair(extra: string, blanks: string, x: string, rest: string, end: string)
    ensures Within(blanks + x + ",", "[" + ("\n" + (extra + blanks)) + (x + ("," + rest) + "null") + end)
  {
    WithinAt(blanks + x + ",", "[" + ("\n" + (extra + blanks)) + (x + ("," + rest) + "null") + end,
             "[\n" + extra, rest + "null" + end);
  }

  /** In the middle of an array there are blanks before a value, and a comma after it. */
  lemma PairPrints(x: Json, n: nat, m: nat)
    requires n <= m + 2
    ensures Within(Blanks(n) + Indented(x, m + 2) + ",", Indented(Arr([x, Null]), m))
  {
    PairIndented(x, m);
    assert Blanks(m + 2) == Blanks(m + 2 - n) + Blanks(n);
    LineOfPair(Blanks(m + 2 - n), Blanks(n), Indented(x, m + 2), Line(m + 2), Line(m) + "]");
  }

  /** Data whose cleaned print holds the value leaks it, as text. */
  lemma DataLeaks(dec: Decoder, word: char -> bool, alts: seq<string>, v: string, data: Json, part: string)
    requires Proper(alts) && Decodes(dec) && !Leaf(data) && NumbersAmong(dec.number, data) && KeysDiffer(data)
    requires !Clear(v, part) && Within(part, Indented(Clean(dec, word, alts, data), 0))
    ensures !Free(v, Clean(dec, word, alts, Str(Dump(data))))
  {
    assert ReadsBack(dec, data) && Bracketed(Dump(data));
    NotClearWithin(v, part, Indented(Clean(dec, word, alts, data), 0));
  }

  /** The value was given to the redactor, and still stands in a string, number or literal of the cleaned data. */
  ghost predicate Leaks(
    dec: Decoder, encode: Encoder, v: string, word: char -> bool, given: set<string>, alts: seq<string>, j: Json)
    requires Decodes(dec)
  {
    && v in given && Holds(encode, given, alts) && Proper(alts)
    && !(Free(v, Clean(dec, word, alts, j)) && LeavesClear(v, Clean(dec, word, alts, j)))
  }

  lemma {:induction false} EscapedConcat(a: string, b: string)
    ensures EscapedText(a + b) == EscapedText(a) + EscapedText(b)
  {
    if a == "" {
      assert a + b == b;
    } else {
      EscapedConcat(a[1..], b);
      ConcatHead(a, b);
    }
  }

  lemma {:induction false} EscapedLonger(t: string)
    ensures |EscapedText(t)| >= |t|
  {
    if t != "" { EscapedLonger(t[1..]); }
  }

  lemma {:induction false} VerbatimPrints(t: string)
    requires Verbatim(t)
    ensures EscapedText(t) == t
  {
    if t != "" {
      VerbatimPrints(t[1..]);
      assert t == [t[0]] + t[1..];
    }
  }

  /** A value that reaches into the first and the last escape of a text is at least as long as the text. */
  lemma EndsOverlapped(v: string, t: string, p: nat)
    requires t != "" && v != "" && p < |Escaped(t[0])| && p + |v| > |EscapedText(t[..|t| - 1])|
    ensures |t| <= |v|
  {
    var n := |t| - 1;
    if n > 0 {
      assert t[..n][1..] == t[1..n] && t[..n][0] == t[0];
      EscapedLonger(t[1..n]);
    }
  }

  lemma WithoutFirst(v: string, t: string, p: nat)
    requires t != "" && Clear(v, t) && OccursAt(v, EscapedText(t), p) && p >= |Escaped(t[0])|
    ensures Clear(v, t[1..]) && OccursAt(v, EscapedText(t[1..]), p - |Escaped(t[0])|)
  {
    ShiftOccurrence(v, Escaped(t[0]), EscapedText(t[1..]), p);
    assert [t[0]] + t[1..] + "" == t;
    PartClear(v, [t[0]], t[1..], "");
  }

  lemma ClearFront(v: string, a: string, b: string)
    requires Clear(v, a + b)
    ensures Clear(v, a)
  {
    assert "" + a + b == a + b;
    PartClear(v, "", a, b);
  }

  lemma WithoutLast(v: string, front: string, last: string, p: nat)
    requires OccursAt(v, EscapedText(front + last), p) && p + |v| <= |EscapedText(front)|
    ensures OccursAt(v, EscapedText(front), p)
  {
    EscapedConcat(front, last);
    OccurrenceInFront(v, EscapedText(front), EscapedText(last), p);
  }

  lemma OccurrenceInFront(v: string, a: string, b: string, p: nat)
    requires OccursAt(v, a + b, p) && p + |v| <= |a|
    ensures OccursAt(v, a, p)
  {
    assert (a + b)[p..p + |v|] == a[p..p + |v|];
  }

  /** A text that brings the value about when escaped, cut down to what the value overlaps. */
  lemma {:induction false} Trimmed(v: string, t: string, p: nat) returns (r: string)
    requires v != "" && Clear(v, t) && OccursAt(v, EscapedText(t), p)
    ensures Clear(v, r) && !Clear(v, EscapedText(r)) && |r| <= |v|
    decreases |t|
  {
    assert t == "" ==> EscapedText(t) == "";
    if p >= |Escaped(t[0])| {
      WithoutFirst(v, t, p);
      r := Trimmed(v, t[1..], p - |Escaped(t[0])|);
    } else if p + |v| <= |EscapedText(t[..|t| - 1])| {
      assert t == t[..|t| - 1] + t[|t| - 1..];
      ClearFront(v, t[..|t| - 1], t[|t| - 1..]);
      WithoutLast(v, t[..|t| - 1], t[|t| - 1..], p);
      r := Trimmed(v, t[..|t| - 1], p);
    } else {
      r := t;
      EndsOverlapped(v, t, p);
    }
  }

  /** So only texts no longer than the value need looking at. */
  lemma EscapingBounded(v: string)
    requires v != ""
    ensures (forall t :: EscapingClear(v, t)) <==> forall t | |t| <= |v| :: EscapingClear(v, t)
  {
    if t :| !EscapingClear(v, t) {
      var p :| OccursAt(v, EscapedText(t), p);
      var r := Trimmed(v, t, p);
      assert !EscapingClear(v, r);
    }
  }

  lemma FormMisses(word: char -> bool, v: string, x: string, r: string, i: nat)
    requires (x == v || Encoding(v, x)) && Clear(v, r) && !Verbatim(r) && |r| <= |v|
    ensures i < |r| ==> !MatchesAt(word, x, r, i)
  {
    if i + |x| <= |r| {
      assert r[0..|r|] == r;
      assert !OccursAt(v, r, 0);
    }
  }

  /** Such a text is left as it is by a redactor that was given this value alone. */
  lemma TrimmedKept(word: char -> bool, encode: Encoder, alts: seq<string>, v: string, r: string)
    requires Encodes(encode) && Holds(encode, {v}, alts) && Proper(alts)
    requires Clear(v, r) && !Verbatim(r) && |r| <= |v|
    ensures Redact(word, alts, r) == r
  {
    forall x, i | x in alts && 0 <= i < |r| ensures !MatchesAt(word, x, r, i) {
      assert Remembered(encode, {v}, x);
      FormMisses(word, v, x, r, i);
    }
    CleanTextUnchanged(word, alts, r);
  }

  lemma ShortKept(word: char -> bool, encode: Encoder, alts: seq<string>, v: string, t: string)
    requires Encodes(encode) && Holds(encode, {v}, alts) && Proper(alts) && |t| < |v|
    ensures Redact(word, alts, t) == t
  {
    forall x, i | x in alts && 0 <= i < |t| ensures !MatchesAt(word, x, t, i) { assert Remembered(encode, {v}, x); }
    CleanTextUnchanged(word, alts, t);
  }

  lemma KeyPrints(key: string, value: Json)
    ensures Within(EscapedText(key), Indented(Obj([Item(key, value)]), 0))
  {
    assert IndentedEntries([Item(key, value)], 2) == Quoted(key) + ": " + Indented(value, 2);
    QuotedInside("{" + Line(2), EscapedText(key), ": ", Indented(value, 2), Line(0) + "}");
  }

  lemma QuotedInside(a: string, t: string, b: string, c: string, end: string)
    ensures Within(t, a + ("\"" + t + "\"" + b + c) + end)
  {
    WithinAt(t, a + ("\"" + t + "\"" + b + c) + end, a + "\"", "\"" + b + c + end);
  }

  lemma OneKey(key: string, value: Json)
    ensures Keys([Item(key, value)]) == [key] && Distinct(Keys([Item(key, value)]))
  {
    assert [Item(key, value)][1..] == [] && [key][1..] == [];
  }

  /** Escaping leaks: as a key, since keys are not decoded. */
  lemma EscapeLeaks(dec: Decoder, word: char -> bool, encode: Encoder, alts: seq<string>, v: string, t: string)
    returns (j: Json)
    requires Encodes(encode) && Decodes(dec) && Holds(encode, {v}, alts) && Proper(alts) && v != ""
    requires !EscapingClear(v, t)
    ensures j.Str? && !Free(v, Clean(dec, word, alts, j))
  {
    var p :| OccursAt(v, EscapedText(t), p);
    var r := Trimmed(v, t, p);
    var data := Obj([Item(r, Null)]);
    if Verbatim(r) { VerbatimPrints(r); }
    TrimmedKept(word, encode, alts, v, r);
    OneEntryCleaned(dec, word, alts, r, Null);
    KeyPrints(r, CleanValue(dec, word, alts, Item(r, Null)));
    OneKey(r, Null);
    DataLeaks(dec, word, alts, v, data, EscapedText(r));
    j := Str(Dump(data));
  }

  lemma TextlessCleaned(dec: Decoder, word: char -> bool, alts: seq<string>, j: Json)
    requires Proper(alts) && Decodes(dec) && Textless(dec, j)
    ensures Clean(dec, word, alts, j) == j && NumbersAmong(dec.number, j) && KeysDiffer(j)
    ensures forall m :: Indented(j, m) == Dump(j)
  {
  }

  lemma BlanksLeak(dec: Decoder, word: char -> bool, alts: seq<string>, v: string, n: nat, x: Json)
    returns (j: Json)
    requires Proper(alts) && Decodes(dec) && NumbersAmong(dec.number, x) && KeysDiffer(x)
    requires forall m | n <= m :: !Clear(v, Blanks(n) + Indented(Clean(dec, word, alts, x), m) + ",")
    ensures j.Str? && !Free(v, Clean(dec, word, alts, j))
  {
    var data := Nested(n, Arr([x, Null]));
    var cleaned := Clean(dec, word, alts, x);
    PairCleaned(dec, word, alts, x);
    assert forall y :: y in [x, Null] ==> y == x || y == Null;
    assert NumbersAmong(dec.number, Null) && KeysDiffer(Null);
    assert NumbersAmong(dec.number, Arr([x, Null])) && KeysDiffer(Arr([x, Null]));
    NestedCleaned(dec, word, alts, n, Arr([x, Null]));
    PairPrints(cleaned, n, 2 * n);
    NestedPrints(n, Arr([cleaned, Null]), 0);
    var part := Blanks(n) + Indented(cleaned, 2 * n + 2) + ",";
    WithinWithin(part, Indented(Arr([cleaned, Null]), 2 * n), Indented(Nested(n, Arr([cleaned, Null])), 0));
    DataLeaks(dec, word, alts, v, data, part);
    j := Str(Dump(data));
  }

  lemma {:induction false} NormalizedShorter(key: string)
    ensures |Normalized(key)| <= |key|
  {
    if key != "" { NormalizedShorter(key[1..]); }
  }

  lemma ShortKeysHarmless(key: string)
    requires |key| < 5
    ensures !SensitiveKey(key)
  {
    NormalizedShorter(key);
  }

  function TwoEntries(j: Json): Json { Obj([Item("", j), Item("x", Null)]) }

  lemma TwoEntriesCleaned(dec: Decoder, word: char -> bool, encode: Encoder, alts: seq<string>, v: string, j: Json)
    requires Encodes(encode) && Decodes(dec) && Holds(encode, {v}, alts) && Proper(alts) && |v| >= 4
    requires Clean(dec, word, alts, j) == j
    ensures Clean(dec, word, alts, TwoEntries(j)) == TwoEntries(j)
  {
    ShortKept(word, encode, alts, v, "");
    ShortKept(word, encode, alts, v, "x");
    ShortKeysHarmless("");
    ShortKeysHarmless("x");
    var entries, first := TwoEntries(j).entries, [Item("", j)];
    assert entries[1..] == [Item("x", Null)] && entries[1..][1..] == [];
    assert Put([], "", j) == first && first[1..] == [];
    assert Put(first, "x", Null) == first + Put([], "x", Null) == entries;
    assert CleanEntries(dec, word, alts, [], entries) == entries;
    assert CleanEntries(dec, word, alts, entries[1..], first) == entries;
    assert CleanEntries(dec, word, alts, entries, []) == CleanEntries(dec, word, alts, entries[1..], first);
  }

  lemma TwoKeysDiffer(j: Json)
    requires KeysDiffer(j)
    ensures KeysDiffer(TwoEntries(j))
  {
    var entries := TwoEntries(j).entries;
    KeysLength(entries);
    assert Keys(entries) == ["", "x"] && Keys(entries)[1..] == ["x"];
    assert Distinct(["x"]) && "" !in ["x"];
  }

  lemma TwoEntriesPrint(j: Json)
    requires Indented(j, 2) == Dump(j)
    ensures Within(": " + Dump(j) + ",", Indented(TwoEntries(j), 0))
  {
    var entries := TwoEntries(j).entries;
    assert entries[1..] == [Item("x", Null)] && entries[0] == Item("", j);
    var rest := IndentedEntries([Item("x", Null)], 2);
    assert IndentedEntry(Item("", j), 2) == Quoted("") + ": " + Dump(j);
    assert IndentedEntries(entries, 2) == Quoted("") + ": " + Dump(j) + ("," + Line(2)) + rest;
    ColonInside("{" + Line(2), Quoted(""), Dump(j), Line(2), rest, Line(0) + "}");
  }

  lemma ColonInside(a: string, key: string, x: string, b: string, rest: string, end: string)
    ensures Within(": " + x + ",", a + (key + ": " + x + ("," + b) + rest) + end)
  {
    WithinAt(": " + x + ",", a + (key + ": " + x + ("," + b) + rest) + end, a + key, b + rest + end);
  }

  lemma ColonLeaks(dec: Decoder, word: char -> bool, encode: Encoder, alts: seq<string>, v: string, x: Json)
    returns (j: Json)
    requires Encodes(encode) && Decodes(dec) && Holds(encode, {v}, alts) && Proper(alts) && |v| >= 4
    requires Textless(dec, x) && !Clear(v, ": " + Dump(x) + ",")
    ensures j.Str? && !Free(v, Clean(dec, word, alts, j))
  {
    TextlessCleaned(dec, word, alts, x);
    TwoEntriesCleaned(dec, word, encode, alts, v, x);
    TwoEntriesPrint(x);
    TwoKeysDiffer(x);
    DataLeaks(dec, word, alts, v, TwoEntries(x), ": " + Dump(x) + ",");
    j := Str(Dump(TwoEntries(x)));
  }

  lemma ClosingWithin(front: string, n: nat, m: nat, bracket: char)
    requires n <= m
    ensures Within(ClosingLine(n, bracket), Blanks(n) + (front + (Line(m) + [bracket])) + ",")
  {
    var extra := Blanks(m - n);
    assert Blanks(m) == extra + Blanks(n);
    WithinAt(ClosingLine(n, bracket), Blanks(n) + (front + (Line(m) + [bracket])) + ",",
             Blanks(n) + front + "\n" + extra, "");
  }

  lemma ClosingPrinted(j: Json, n: nat, m: nat)
    requires n <= m && ((j.Arr? && j.items != []) || (j.Obj? && j.entries != []))
    ensures Within(ClosingLine(n, if j.Arr? then ']' else '}'), Blanks(n) + Indented(j, m) + ",")
  {
    if j.Arr? {
      ClosingWithin("[" + Line(m + 2) + IndentedItems(j.items, m + 2), n, m, ']');
    } else {
      ClosingWithin("{" + Line(m + 2) + IndentedEntries(j.entries, m + 2), n, m, '}');
    }
  }

  lemma ClosingLeaks(dec: Decoder, word: char -> bool, alts: seq<string>, v: string, n: nat, list: bool)
    returns (j: Json)
    requires Proper(alts) && Decodes(dec) && !Clear(v, ClosingLine(n, if list then ']' else '}'))
    ensures j.Str? && !Free(v, Clean(dec, word, alts, j))
  {
    var x := if list then Arr([Null]) else Obj([Item("", Null)]);
    ListOfOneCleaned(dec, word, alts, Null);
    OneEntryCleaned(dec, word, alts, "", Null);
    OneKey("", Null);
    var cleaned := Clean(dec, word, alts, x);
    forall m | n <= m ensures !Clear(v, Blanks(n) + Indented(cleaned, m) + ",") {
      ClosingPrinted(cleaned, n, m);
      NotClearWithin(v, ClosingLine(n, if list then ']' else '}'), Blanks(n) + Indented(cleaned, m) + ",");
    }
    j := BlanksLeak(dec, word, alts, v, n, x);
  }

  lemma PrintLeaks(dec: Decoder, encode: Encoder, word: char -> bool, v: string)
    returns (given: set<string>, alts: seq<string>, j: Json)
    requires Encodes(encode) && Decodes(dec) && |v| >= 4 && !NeverPrinted(dec, v)
    ensures j.Str? && Leaks(dec, encode, v, word, given, alts, j)
  {
    given := {v};
    alts := ListFor(encode, [v]);
    assert (set g | g in [v]) == given;
    HoldsProper(encode, given, alts);
    if t :| !EscapingClear(v, t) {
      j := EscapeLeaks(dec, word, encode, alts, v, t);
    } else if n: nat :| !ClosingClear(v, n) {
      j := ClosingLeaks(dec, word, alts, v, n, !Clear(v, ClosingLine(n, ']')));
    } else {
      var n: nat, x :| !TextlessClear(dec, v, n, x);
      TextlessCleaned(dec, word, alts, x);
      if Clear(v, ": " + Dump(x) + ",") {
        j := BlanksLeak(dec, word, alts, v, n, x);
      } else {
        j := ColonLeaks(dec, word, encode, alts, v, x);
      }
    }
  }

  lemma MarkerLeaks(dec: Decoder, encode: Encoder, word: char -> bool, v: string)
    returns (given: set<string>, alts: seq<string>, j: Json)
    requires Encodes(encode) && Decodes(dec) && |v| >= 4 && !CannotMeetMarker(v)
    ensures NumbersAmong(dec.number, j) && Leaks(dec, encode, v, word, given, alts, j)
  {
    var d :| Agrees(v, d);
    var text;
    given, alts, text := SurvivingRun(word, encode, v, d);
    j := Obj([Item(text, Null)]);
    OneEntryCleaned(dec, word, alts, text, Null);
    var e := Item(Redact(word, alts, text), CleanValue(dec, word, alts, Item(text, Null)));
    assert e in Clean(dec, word, alts, j).entries;
  }

  lemma NeverLeaks(
    dec: Decoder, encode: Encoder, word: char -> bool, v: string, given: set<string>, alts: seq<string>, j: Json)
    requires Decodes(dec) && NumbersAmong(dec.number, j)
    requires |v| >= 4 && '\"' !in v && '\n' !in v && CannotMeetMarker(v) && NeverPrinted(dec, v)
    ensures !Leaks(dec, encode, v, word, given, alts, j)
  {
    if v in given && Holds(encode, given, alts) && Proper(alts) {
      assert Remembered(encode, given, v);
      NeverPrintedInNoLine(dec, v);
      RemovedWhenInNoLine(dec, word, alts, j, v);
    }
  }

  /**
   * A long value without quotes and line ends is removed from all data, JSON texts, numbers and literals included,
   * exactly when it cannot overlap the marker and printing never brings it about.
   */
  lemma RemovedFromDataExactlyWhen(dec: Decoder, encode: Encoder, word: char -> bool, v: string)
    requires Encodes(encode) && Decodes(dec) && |v| >= 4 && '\"' !in v && '\n' !in v
    ensures CannotMeetMarker(v) && NeverPrinted(dec, v) <==>
              forall given, alts, j | NumbersAmong(dec.number, j) :: !Leaks(dec, encode, v, word, given, alts, j)
  {
    if CannotMeetMarker(v) && NeverPrinted(dec, v) {
      forall given, alts, j | NumbersAmong(dec.number, j) ensures !Leaks(dec, encode, v, word, given, alts, j) {
        NeverLeaks(dec, encode, word, v, given, alts, j);
      }
    } else {
      var given, alts, j;
      if CannotMeetMarker(v) {
        given, alts, j := PrintLeaks(dec, encode, word, v);
      } else {
        given, alts, j := MarkerLeaks(dec, encode, word, v);
      }
      assert NumbersAmong(dec.number, j) && Leaks(dec, encode, v, word, given, alts, j);
    }
  }

  /** A text that prints as an escape sequence followed by the rest of the value. */
  ghost function EscapingText(v: string, c: char, k: int): string
    requires MeetsEscape(v, c, k)
  {
    [c] + if Escaped(c)[k..] <= v then v[|Escaped(c)| - k..] else ""
  }

  /** The end of a sequence, followed by the rest of the value. */
  lemma TailOccurs(v: string, head: string, rest: string, k: nat)
    requires 1 <= k < |head| && (if head[k..] <= v then rest == v[|head| - k..] else v <= head[k..])
    ensures OccursAt(v, head + rest, k)
  {
    assert (head + rest)[k..] == head[k..] + rest;
    assert (head + rest)[k..k + |v|] == (head + rest)[k..][..|v|] == v;
  }

  lemma EscapingTextPrints(v: string, c: char, k: int)
    requires Verbatim(v) && MeetsEscape(v, c, k)
    ensures OccursAt(v, EscapedText(EscapingText(v, c, k)), k)
  {
    var head := Escaped(c);
    var rest := if head[k..] <= v then v[|head| - k..] else "";
    EscapedConcat([c], rest);
    assert [c][1..] == "" && EscapedText([c]) == head;
    VerbatimPrints(rest);
    TailOccurs(v, head, rest, k);
  }

  lemma EscapingTextClear(v: string, c: char, k: int)
    requires v != "" && Verbatim(v) && MeetsEscape(v, c, k)
    ensures Clear(v, EscapingText(v, c, k))
  {
    var t := EscapingText(v, c, k);
    assert v[0] == Escaped(c)[k];
    StartsOtherwise(v, t);
  }

  lemma StartsOtherwise(v: string, t: string)
    requires 0 < |t| <= |v| && t[0] != v[0]
    ensures Clear(v, t)
  {
    assert t[0..|t|] == t;
  }

  /** For a value that JSON prints as it is, escaping brings it about exactly when it overlaps an escape sequence. */
  lemma EscapedExactlyWhen(v: string)
    requires v != "" && Verbatim(v)
    ensures (forall t :: EscapingClear(v, t)) <==> forall c, k :: !MeetsEscape(v, c, k)
  {
    if forall c, k :: !MeetsEscape(v, c, k) {
      forall t ensures EscapingClear(v, t) {
        if Clear(v, t) { EscapedClear(v, t); }
      }
    } else {
      var c, k :| MeetsEscape(v, c, k);
      EscapingTextPrints(v, c, k);
      EscapingTextClear(v, c, k);
      assert !EscapingClear(v, EscapingText(v, c, k));
    }
  }

  lemma NumberListPrints(digits: string)
    ensures Dump(Arr([Num(digits)])) == "[" + digits + "]"
    ensures Indented(Arr([Num(digits)]), 0) == "[\n  " + digits + "\n]"
  {
    var items := [Num(digits)];
    assert DumpItems(items) == digits && IndentedItems(items, 2) == digits;
    assert Blanks(2) == "  " && Blanks(0) == "";
    assert "[" + ("\n" + "  ") + digits + (("\n" + "") + "]") == "[\n  " + digits + "\n]";
  }

  /** Numbers pass through a JSON text whatever the redactor knows: a secret of digits, in a list of numbers. */
  lemma DigitsLeak(dec: Decoder, word: char -> bool, alts: seq<string>, digits: string)
    requires Proper(alts) && Decodes(dec) && digits != "" && dec.number(digits)
    requires forall c :: c in digits ==> '0' <= c <= '9'
    ensures CannotMeetMarker(digits)
    ensures Clean(dec, word, alts, Str("[" + digits + "]")) == Str("[\n  " + digits + "\n]")
    ensures !Free(digits, Clean(dec, word, alts, Str("[" + digits + "]")))
  {
    ForeignToMarker(digits);
    var data := Arr([Num(digits)]);
    NumberListPrints(digits);
    assert NumbersAmong(dec.number, Num(digits)) && KeysDiffer(Num(digits));
    assert NumbersAmong(dec.number, data) && KeysDiffer(data) && ReadsBack(dec, data);
    ListOfOneCleaned(dec, word, alts, Num(digits));
    assert OccursAt(digits, "[\n  " + digits + "\n]", 4);
  }

  /** The text decodes to an array or object with something in it. */
  predicate HoldsData(dec: Decoder, s: string) {
    IsJson(dec, s) && match dec.parse(s).value
                      case Arr(items) => items != []
                      case Obj(entries) => entries != []
                      case _ => false
  }

  lemma {:induction false} SomeEntryLeft(
    dec: Decoder, word: char -> bool, alts: seq<string>, entries: Dict<string, Json>, done: Dict<string, Json>)
    requires Proper(alts) && Decodes(dec) && (entries != [] || done != [])
    ensures CleanEntries(dec, word, alts, entries, done) != []
    decreases |entries|
  {
    if entries != [] {
      var e := entries[0];
      var next := Put(done, Redact(word, alts, e.key), CleanValue(dec, word, alts, e));
      SomeEntryLeft(dec, word, alts, entries[1..], next);
    }
  }

  /** A long value that cannot meet the marker, and stands in everything printed with this bracket. */
  function Opening(bracket: char): string { [bracket, '\n', ' ', ' '] }

  lemma OpeningCannotMeetMarker(bracket: char)
    requires bracket != ']'
    ensures CannotMeetMarker(Opening(bracket))
  {
    var v := Opening(bracket);
    forall d ensures !Agrees(v, d) {
      if d == 9 {
        assert v[0] != MARKER[d + 0];
      } else if 0 <= d < 9 {
        assert v[1] != MARKER[d + 1];
      } else if -4 < d < 0 {
        assert v[-d] != MARKER[d + -d];
      }
    }
  }

  lemma OpeningPrinted(j: Json)
    requires (j.Arr? && j.items != []) || (j.Obj? && j.entries != [])
    ensures OccursAt(Opening(if j.Arr? then '[' else '{'), Indented(j, 0), 0)
  {
    assert Line(2) == "\n  ";
    assert Indented(j, 0)[0..4] == Indented(j, 0)[..4] == Opening(if j.Arr? then '[' else '{');
  }

  lemma DataStays(dec: Decoder, word: char -> bool, alts: seq<string>, j: Json)
    requires Proper(alts) && Decodes(dec) && ((j.Arr? && j.items != []) || (j.Obj? && j.entries != []))
    ensures var r := Clean(dec, word, alts, j);
            if j.Arr? then r.Arr? && r.items != [] else r.Obj? && r.entries != []
  {
    if j.Obj? { SomeEntryLeft(dec, word, alts, j.entries, []); }
  }

  lemma DataTextShows(dec: Decoder, word: char -> bool, alts: seq<string>, s: string)
    requires Proper(alts) && Decodes(dec) && HoldsData(dec, s)
    ensures !Free(Opening(if dec.parse(s).value.Arr? then '[' else '{'), Clean(dec, word, alts, Str(s)))
  {
    var j := dec.parse(s).value;
    DataStays(dec, word, alts, j);
    OpeningPrinted(Clean(dec, word, alts, j));
  }

  lemma DataTextLeaks(dec: Decoder, encode: Encoder, word: char -> bool, s: string)
    returns (v: string, given: set<string>, alts: seq<string>)
    requires Encodes(encode) && Decodes(dec) && HoldsData(dec, s)
    ensures |v| >= 4 && CannotMeetMarker(v) && Leaks(dec, encode, v, word, given, alts, Str(s))
  {
    var bracket := if dec.parse(s).value.Arr? then '[' else '{';
    v := Opening(bracket);
    OpeningCannotMeetMarker(bracket);
    given := {v};
    alts := ListFor(encode, [v]);
    assert (set g | g in [v]) == given;
    HoldsProper(encode, given, alts);
    DataTextShows(dec, word, alts, s);
  }

  lemma EmptyDataClean(dec: Decoder, word: char -> bool, alts: seq<string>, s: string, v: string)
    requires Proper(alts) && Decodes(dec) && IsJson(dec, s) && !HoldsData(dec, s) && |v| >= 4
    ensures Free(v, Clean(dec, word, alts, Str(s)))
  {
    var j := dec.parse(s).value;
    assert Clean(dec, word, alts, j) == j;
    assert |Indented(j, 0)| == 2;
  }

  /** A text keeps no long value that cannot meet the marker, whatever they are, exactly when it is not JSON data. */
  lemma TextSafeExactlyWhen(dec: Decoder, encode: Encoder, word: char -> bool, s: string)
    requires Encodes(encode) && Decodes(dec)
    ensures !HoldsData(dec, s) <==>
              forall v, given, alts | |v| >= 4 && CannotMeetMarker(v) ::
                !Leaks(dec, encode, v, word, given, alts, Str(s))
  {
    if HoldsData(dec, s) {
      var v, given, alts := DataTextLeaks(dec, encode, word, s);
      assert Leaks(dec, encode, v, word, given, alts, Str(s));
    } else {
      forall v, given, alts | |v| >= 4 && CannotMeetMarker(v)
        ensures !Leaks(dec, encode, v, word, given, alts, Str(s))
      {
        if v in given && Holds(encode, given, alts) && Proper(alts) {
          assert Remembered(encode, given, v);
          if IsJson(dec, s) {
            EmptyDataClean(dec, word, alts, s, v);
          } else {
            CleanRemoves(dec, word, alts, Str(s), v);
          }
        }
      }
    }
  }

  /******* Sensitive keys hide what stands under them *******/

  /** The two differ at most in what stands under sensitive keys, at any depth. */
  ghost predicate SameElsewhere(a: Json, b: Json)
    decreases a
  {
    match a
    case Arr(items) =>
      b.Arr? && |items| == |b.items| && forall i :: 0 <= i < |items| ==> SameElsewhere(items[i], b.items[i])
    case Obj(entries) =>
      && b.Obj? && |entries| == |b.entries|
      && forall i :: 0 <= i < |entries| ==>
           && entries[i].key == b.entries[i].key
           && (SensitiveKey(entries[i].key) || SameElsewhere(entries[i].value, b.entries[i].value))
    case _ => a == b
  }

  /** Nothing that stands under a sensitive key, at any depth, has any influence on the result. */
  lemma {:induction false} HiddenEverywhere(dec: Decoder, word: char -> bool, alts: seq<string>, a: Json, b: Json)
    requires Proper(alts) && Decodes(dec) && SameElsewhere(a, b)
    ensures Clean(dec, word, alts, a) == Clean(dec, word, alts, b)
    decreases a, 1
  {
    match a
    case Obj(entries) => HiddenInEntries(dec, word, alts, entries, b.entries, []);
    case Arr(items) => HiddenInItems(dec, word, alts, items, b.items);
    case _ =>
  }

  lemma {:induction false} HiddenInItems(
    dec: Decoder, word: char -> bool, alts: seq<string>, a: seq<Json>, b: seq<Json>)
    requires Proper(alts) && Decodes(dec) && SameElsewhere(Arr(a), Arr(b))
    ensures CleanItems(dec, word, alts, a) == CleanItems(dec, word, alts, b)
    decreases a, 0
  {
    if a != [] {
      HiddenEverywhere(dec, word, alts, a[0], b[0]);
      HiddenInItems(dec, word, alts, a[1..], b[1..]);
    }
  }

  lemma {:induction false} HiddenInEntries(
    dec: Decoder, word: char -> bool, alts: seq<string>, a: Dict<string, Json>,
    b: Dict<string, Json>, done: Dict<string, Json>)
    requires Proper(alts) && Decodes(dec) && SameElsewhere(Obj(a), Obj(b))
    ensures CleanEntries(dec, word, alts, a, done) == CleanEntries(dec, word, alts, b, done)
    decreases a, 0
  {
    if a != [] {
      SameTail(a, b);
      HiddenInValue(dec, word, alts, a[0], b[0]);
      var next := Put(done, Redact(word, alts, a[0].key), CleanValue(dec, word, alts, a[0]));
      HiddenInEntries(dec, word, alts, a[1..], b[1..], next);
    }
  }

  lemma SameTail(a: Dict<string, Json>, b: Dict<string, Json>)
    requires a != [] && SameElsewhere(Obj(a), Obj(b))
    ensures b != [] && SameElsewhere(Obj(a[1..]), Obj(b[1..])) && a[0].key == b[0].key
    ensures SensitiveKey(a[0].key) || SameElsewhere(a[0].value, b[0].value)
  {
  }

  lemma {:induction false} HiddenInValue(
    dec: Decoder, word: char -> bool, alts: seq<string>, a: Item<string, Json>, b: Item<string, Json>)
    requires Proper(alts) && Decodes(dec) && a.key == b.key && (SensitiveKey(a.key) || SameElsewhere(a.value, b.value))
    ensures CleanValue(dec, word, alts, a) == CleanValue(dec, word, alts, b)
    decreases a, 0
  {
    if !SensitiveKey(a.key) { HiddenEverywhere(dec, word, alts, a.value, b.value); }
  }

  /** In one object, a key under which only sensitive entries stood holds the marker afterwards. */
  lemma {:induction false} SensitiveHidden(
    dec: Decoder, word: char -> bool, alts: seq<string>, entries: Dict<string, Json>, done: Dict<string, Json>,
    key: string)
    requires Proper(alts) && Decodes(dec)
    requires forall e :: e in entries && Redact(word, alts, e.key) == key ==> SensitiveKey(e.key)
    requires Lookup(done, key) == None || Lookup(done, key) == Some(Str(MARKER))
    ensures var r := Lookup(CleanEntries(dec, word, alts, entries, done), key);
            && (r == None || r == Some(Str(MARKER)))
            && (Lookup(done, key).Some? || (exists e :: e in entries && Redact(word, alts, e.key) == key) ==> r.Some?)
    decreases |entries|
  {
    if entries != [] {
      var e := entries[0];
      assert e in entries && forall x :: x in entries ==> x == e || x in entries[1..];
      var name, value := Redact(word, alts, e.key), CleanValue(dec, word, alts, e);
      var next := Put(done, name, value);
      PutSpec(done, name, value, key);
      assert name == key ==> value == Str(MARKER);
      SensitiveHidden(dec, word, alts, entries[1..], next, key);
    }
  }

  /******* Which keys are sensitive, letter by letter *******/

  /** The character is this small letter or digit, in either case; the Kelvin sign and dotted I are capitals too. */
  ghost predicate Reads(c: char, x: char) {
    || c == x
    || ('a' <= x <= 'z' && 'A' <= c <= 'Z' && c as int == x as int - 32)
    || (c == '\U{212a}' && x == 'k') || (c == '\U{130}' && x == 'i')
  }

  /** The text spells the word in either letter case, whatever stands between the letters besides letters and digits. */
  ghost predicate SpellsOut(text: string, w: string) {
    if text == "" then w == ""
    else if 'a' <= text[0] <= 'z' || 'A' <= text[0] <= 'Z' || '0' <= text[0] <= '9'
            || text[0] == '\U{212a}' || text[0] == '\U{130}'
    then w != "" && Reads(text[0], w[0]) && SpellsOut(text[1..], w[1..])
    else SpellsOut(text[1..], w)
  }

  ghost predicate PlainWord(w: string) { forall i :: 0 <= i < |w| ==> 'a' <= w[i] <= 'z' || '0' <= w[i] <= '9' }

  lemma {:induction false} NormalizedSpells(text: string, w: string)
    ensures PlainWord(Normalized(text))
    ensures PlainWord(w) ==> (SpellsOut(text, w) <==> Normalized(text) == w)
  {
    if text != "" {
      NormalizedSpells(text[1..], w);
      if w != "" {
        NormalizedSpells(text[1..], w[1..]);
        assert w == [w[0]] + w[1..];
      }
    }
  }

  lemma {:induction false} NormalizedParts(a: string, b: string)
    ensures Normalized(a + b) == Normalized(a) + Normalized(b)
  {
    if a == "" {
      assert a + b == b;
    } else {
      NormalizedParts(a[1..], b);
      ConcatHead(a, b);
      Regroup([Lower(a[0])], Normalized(a[1..]), Normalized(b));
    }
  }

  /** A normalized text is cut where some cut of the text itself is. */
  lemma {:induction false} NormalizedCut(text: string, p: nat) returns (i: nat)
    requires p <= |Normalized(text)|
    ensures i <= |text| && Normalized(text[..i]) == Normalized(text)[..p]
    ensures Normalized(text[i..]) == Normalized(text)[p..]
  {
    if p == 0 {
      i := 0;
      assert text[0..] == text;
    } else {
      var taken := if Alphanumeric(Lower(text[0])) then 1 else 0;
      var k := NormalizedCut(text[1..], p - taken);
      i := k + 1;
      assert text[..i][1..] == text[1..][..k] && text[i..] == text[1..][k..];
    }
  }

  lemma SecretWordInside(key: string, a: string, middle: string, b: string, w: string)
    requires key == a + middle + b && Normalized(middle) == w
    ensures Contains(Normalized(key), w)
  {
    NormalizedParts(a + middle, b);
    NormalizedParts(a, middle);
    assert StartsAt(Normalized(key), w, |Normalized(a)|);
  }

  lemma SecretWordFound(key: string, w: string) returns (a: string, middle: string, b: string)
    requires Contains(Normalized(key), w)
    ensures key == a + middle + b && Normalized(middle) == w
  {
    var p :| 0 <= p <= |Normalized(key)| && StartsAt(Normalized(key), w, p);
    var i := NormalizedCut(key, p);
    a := key[..i];
    var k := NormalizedCut(key[i..], |w|);
    middle, b := key[i..][..k], key[i..][k..];
  }

  /** Some stretch of the key spells the word. */
  ghost predicate Mentions(key: string, w: string) {
    exists a, middle, b :: key == a + middle + b && SpellsOut(middle, w)
  }

  lemma MentionsIsContains(key: string, w: string)
    requires PlainWord(w)
    ensures Mentions(key, w) <==> Contains(Normalized(key), w)
  {
    if Mentions(key, w) {
      var a, middle, b :| key == a + middle + b && SpellsOut(middle, w);
      NormalizedSpells(middle, w);
      SecretWordInside(key, a, middle, b, w);
    }
    if Contains(Normalized(key), w) {
      var a, middle, b := SecretWordFound(key, w);
      NormalizedSpells(middle, w);
    }
  }

  /** A letter that no pagination word has. */
  ghost predicate Telling(c: char) { c == 'w' || c == 'c' || c == 'f' || c == 'u' || c == 'y' || c == 'b' }

  lemma NoPageWord(n: string, w: string, i: nat)
    requires Contains(n, w) && i < |w| && Telling(w[i])
    ensures n != "pagetoken" && n != "nextpagetoken" && n != "responsetoken"
  {
    var p :| 0 <= p <= |n| && StartsAt(n, w, p);
    assert n[p..p + |w|][i] == n[p + i];
    TellingAbsent(n, p + i);
  }

  lemma TellingAbsent(n: string, k: nat)
    requires k < |n| && Telling(n[k])
    ensures n != "pagetoken" && n != "nextpagetoken" && n != "responsetoken"
  {
  }

  lemma SecretWordSeen(key: string, w: string, i: nat)
    requires PlainWord(w) && i < |w| && Telling(w[i])
    ensures var n := Normalized(key);
            Mentions(key, w) <==> Contains(n, w) && n !in {"pagetoken", "nextpagetoken", "responsetoken"}
  {
    MentionsIsContains(key, w);
    if Contains(Normalized(key), w) { NoPageWord(Normalized(key), w, i); }
  }

  /** Some stretch of the key spells one of the ten words. */
  ghost predicate MentionsSecret(key: string) {
    || (Mentions(key, "password") || Mentions(key, "secret") || Mentions(key, "accesstoken")
        || Mentions(key, "refreshtoken") || Mentions(key, "authorization"))
    || (Mentions(key, "cookie") || Mentions(key, "apikey") || Mentions(key, "bearer") || Mentions(key, "credentials")
        || Mentions(key, "cfaccessclient"))
  }

  lemma TenWords(holds: string -> bool)
    ensures (exists part :: part in ["password", "secret", "accesstoken", "refreshtoken", "authorization", "cookie",
                                     "apikey", "bearer", "credentials", "cfaccessclient"] && holds(part)) <==>
              || holds("password") || holds("secret") || holds("accesstoken") || holds("refreshtoken")
              || holds("authorization") || holds("cookie") || holds("apikey") || holds("bearer")
              || holds("credentials") || holds("cfaccessclient")
  {
  }

  lemma SecretWordsSeen(key: string)
    ensures var n := Normalized(key);
            Mentions(key, "password") || Mentions(key, "secret") || Mentions(key, "accesstoken")
            || Mentions(key, "refreshtoken") || Mentions(key, "authorization") <==>
              && n !in {"pagetoken", "nextpagetoken", "responsetoken"}
              && (|| Contains(n, "password") || Contains(n, "secret") || Contains(n, "accesstoken")
                  || Contains(n, "refreshtoken") || Contains(n, "authorization"))
  {
    SecretWordSeen(key, "password", 4);
    SecretWordSeen(key, "secret", 2);
    SecretWordSeen(key, "accesstoken", 1);
    SecretWordSeen(key, "refreshtoken", 2);
    SecretWordSeen(key, "authorization", 1);
  }

  lemma OtherSecretWordsSeen(key: string)
    ensures var n := Normalized(key);
            Mentions(key, "cookie") || Mentions(key, "apikey") || Mentions(key, "bearer")
            || Mentions(key, "credentials") || Mentions(key, "cfaccessclient") <==>
              && n !in {"pagetoken", "nextpagetoken", "responsetoken"}
              && (|| Contains(n, "cookie") || Contains(n, "apikey") || Contains(n, "bearer")
                  || Contains(n, "credentials") || Contains(n, "cfaccessclient"))
  {
    SecretWordSeen(key, "cookie", 0);
    SecretWordSeen(key, "apikey", 5);
    SecretWordSeen(key, "bearer", 0);
    SecretWordSeen(key, "credentials", 0);
    SecretWordSeen(key, "cfaccessclient", 0);
  }

  /**
   * A key is sensitive exactly when some stretch of it spells one of ten words, in either letter case and with
   * anything but letters and digits between, or when all of it spells "token" or "tokens".
   */
  lemma SensitiveExactlyWhen(key: string)
    ensures SensitiveKey(key) <==>
              MentionsSecret(key) || SpellsOut(key, "token") || SpellsOut(key, "tokens")
  {
    NormalizedSpells(key, "token");
    NormalizedSpells(key, "tokens");
    SecretWordsSeen(key);
    OtherSecretWordsSeen(key);
    TenWords(part => Contains(Normalized(key), part));
  }

  /******* Texts that are JSON stay JSON *******/

  /** The first character that is not blank is a bracket or brace. */
  ghost predicate OpensAt(s: string, i: int) {
    0 <= i < |s| && (s[i] == '{' || s[i] == '[') && forall j :: 0 <= j < i ==> Blank(s[j])
  }

  lemma {:induction false} BracketedExactlyWhen(s: string)
    ensures Bracketed(s) <==> exists i :: OpensAt(s, i)
  {
    if s != "" {
      BracketedExactlyWhen(s[1..]);
      if i :| OpensAt(s[1..], i) && Blank(s[0]) { assert OpensAt(s, i + 1); }
      if i :| OpensAt(s, i) {
        if i > 0 { assert OpensAt(s[1..], i - 1); }
      }
      if s[0] == '{' || s[0] == '[' { assert OpensAt(s, 0); }
    }
  }

  /**
   * A text that opens a bracket or brace and can be decoded becomes a JSON text of the cleaned value; any other text
   * is redacted as it stands.
   */
  lemma TextStaysJson(dec: Decoder, word: char -> bool, alts: seq<string>, s: string)
    requires Proper(alts) && Decodes(dec)
    ensures var out := Clean(dec, word, alts, Str(s));
            && out.Str?
            && (if (exists i :: OpensAt(s, i)) && dec.parse(s).Some?
                then JsonText.Denotes(out.s, Clean(dec, word, alts, dec.parse(s).value))
                else out.s == Redact(word, alts, s))
  {
    BracketedExactlyWhen(s);
    if IsJson(dec, s) { JsonText.IndentedDenotes(Clean(dec, word, alts, dec.parse(s).value), 0); }
  }
}
