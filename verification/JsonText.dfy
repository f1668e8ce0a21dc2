/** What a JSON text denotes, by the grammar of RFC 8259; both printed forms of a value denote it. */
module JsonText {
  import opened Json
  import opened OrderedDict
  import opened Text

  /** Insignificant white space, section 2 of RFC 8259. */
  ghost predicate White(s: string) {
    forall i :: 0 <= i < |s| ==> s[i] == ' ' || s[i] == '\t' || s[i] == '\n' || s[i] == '\r'
  }

  /** Section 7 of RFC 8259: a character as it is, its short escape, or its number in four hexadecimal digits. */
  ghost predicate DenotesChar(t: string, c: char) {
    || (t == [c] && c >= ' ' && c != '\"' && c != '\\')
    || (|t| == 2 && t[0] == '\\' && (|| (t[1] == c && c in {'\"', '\\', '/'}) || (t[1] == 'n' && c == '\n')
                                     || (t[1] == 'r' && c == '\r') || (t[1] == 't' && c == '\t')
                                     || (t[1] == 'b' && c == 8 as char) || (t[1] == 'f' && c == 12 as char)))
    || (|t| == 6 && t[..2] == "\\u"
        && exists i: nat, j: nat, k: nat, l: nat ::
             && HexOf(t[2], i) && HexOf(t[3], j) && HexOf(t[4], k) && HexOf(t[5], l)
             && c as int == ((i * 16 + j) * 16 + k) * 16 + l)
  }

  ghost predicate DenotesChars(t: string, s: string)
    decreases |s|
  {
    if s == "" then t == ""
    else exists first, rest :: t == first + rest && DenotesChar(first, s[0]) && DenotesChars(rest, s[1..])
  }

  ghost predicate DenotesString(t: string, s: string) {
    exists inner :: t == "\"" + inner + "\"" && DenotesChars(inner, s)
  }

  /** Section 3 of RFC 8259; numbers are kept as their text. */
  ghost predicate Denotes(t: string, j: Json)
    decreases j, 2
  {
    match j
    case Null => t == "null"
    case Bool(b) => t == if b then "true" else "false"
    case Num(text) => t == text
    case Str(s) => DenotesString(t, s)
    case Arr(items) =>
      exists inner :: t == "[" + inner + "]" && if items == [] then White(inner) else DenotesItems(inner, items)
    case Obj(entries) =>
      exists inner :: t == "{" + inner + "}" && if entries == [] then White(inner) else DenotesEntries(inner, entries)
  }

  /** Section 5 of RFC 8259: elements between commas, with white space around each. */
  ghost predicate DenotesItems(t: string, items: seq<Json>)
    requires items != []
    decreases items, 2
  {
    exists a, x, b, rest :: StartsItems(t, items, a, x, b, rest)
  }

  ghost predicate StartsItems(t: string, items: seq<Json>, a: string, x: string, b: string, rest: string)
    requires items != []
    decreases items, 1
  {
    && White(a) && White(b) && t == a + x + b + rest && Denotes(x, items[0])
    && if |items| == 1 then rest == "" else rest != "" && rest[0] == ',' && DenotesItems(rest[1..], items[1..])
  }

  ghost predicate DenotesEntry(t: string, e: Item<string, Json>)
    decreases e, 1
  {
    exists k: string, a: string, b: string, x: string ::
      DenotesString(k, e.key) && White(a) && White(b) && t == k + a + ":" + b + x && Denotes(x, e.value)
  }

  /** Section 4 of RFC 8259: members between commas, with white space around each. */
  ghost predicate DenotesEntries(t: string, entries: Dict<string, Json>)
    requires entries != []
    decreases entries, 2
  {
    exists a, x, b, rest :: StartsEntries(t, entries, a, x, b, rest)
  }

  ghost predicate StartsEntries(t: string, entries: Dict<string, Json>, a: string, x: string, b: string, rest: string)
    requires entries != []
    decreases entries, 1
  {
    && White(a) && White(b) && t == a + x + b + rest && DenotesEntry(x, entries[0])
    && if |entries| == 1 then rest == "" else rest != "" && rest[0] == ',' && DenotesEntries(rest[1..], entries[1..])
  }

  lemma EscapedDenotes(c: char)
    ensures DenotesChar(Escaped(c), c)
    ensures |Escaped(c)| == if c in {'\"', '\\', '\n', '\r', '\t', 8 as char, 12 as char} then 2
                            else if c < ' ' then 6 else 1
  {
    var t, n := Escaped(c), c as int;
    if |t| == 6 {
      LowerHexDigit(n / 16);
      LowerHexDigit(n % 16);
      assert HexOf(t[2], 0) && HexOf(t[3], 0) && HexOf(t[4], n / 16) && HexOf(t[5], n % 16);
      assert n == ((0 * 16 + 0) * 16 + n / 16) * 16 + n % 16;
    }
  }

  lemma {:induction false} EscapedTextDenotes(s: string)
    ensures DenotesChars(EscapedText(s), s)
  {
    if s != "" {
      EscapedDenotes(s[0]);
      EscapedTextDenotes(s[1..]);
    }
  }

  lemma QuotedDenotes(s: string)
    ensures DenotesString(Quoted(s), s)
  {
    EscapedTextDenotes(s);
  }

  lemma SameText(a: string, x: string, b: string, more: string)
    ensures a + (x + ("," + b) + more) == a + x + "" + ("," + (b + more))
  {
  }

  /** One element in front of others. */
  lemma NextItem(a: string, x: string, b: string, more: string, items: seq<Json>)
    requires |items| > 1 && White(a) && Denotes(x, items[0]) && DenotesItems(b + more, items[1..])
    ensures DenotesItems(a + (x + ("," + b) + more), items)
  {
    var rest := "," + (b + more);
    SameText(a, x, b, more);
    assert rest[1..] == b + more;
    assert StartsItems(a + (x + ("," + b) + more), items, a, x, "", rest);
  }

  lemma NextEntry(a: string, x: string, b: string, more: string, entries: Dict<string, Json>)
    requires |entries| > 1 && White(a) && DenotesEntry(x, entries[0]) && DenotesEntries(b + more, entries[1..])
    ensures DenotesEntries(a + (x + ("," + b) + more), entries)
  {
    var rest := "," + (b + more);
    SameText(a, x, b, more);
    assert rest[1..] == b + more;
    assert StartsEntries(a + (x + ("," + b) + more), entries, a, x, "", rest);
  }

  lemma EntryOf(key: string, x: string, e: Item<string, Json>)
    requires DenotesString(key, e.key) && Denotes(x, e.value)
    ensures DenotesEntry(key + ": " + x, e)
  {
    var a, b := "", " ";
    assert White(a) && White(b) && key + ": " + x == key + a + ":" + b + x;
  }

  /** The compact form denotes the value it was printed from. */
  lemma {:induction false} DumpDenotes(j: Json)
    ensures Denotes(Dump(j), j)
    decreases j, 1
  {
    match j
    case Str(s) => QuotedDenotes(s);
    case Arr(items) =>
      if items != [] { DumpItemsDenote(items, ""); }
      assert "" + DumpItems(items) == DumpItems(items);
    case Obj(entries) =>
      if entries != [] { DumpEntriesDenote(entries, ""); }
      assert "" + DumpEntries(entries) == DumpEntries(entries);
    case _ =>
  }

  lemma {:induction false} DumpItemsDenote(items: seq<Json>, a: string)
    requires items != [] && White(a)
    ensures DenotesItems(a + DumpItems(items), items)
    decreases items, 0
  {
    DumpDenotes(items[0]);
    if |items| == 1 {
      LastItem(a, Dump(items[0]), "", items);
      assert a + DumpItems(items) + "" == a + DumpItems(items);
    } else {
      DumpItemsDenote(items[1..], " ");
      NextItem(a, Dump(items[0]), " ", DumpItems(items[1..]), items);
      assert ", " == "," + " ";
    }
  }

  lemma {:induction false} DumpEntryDenotes(e: Item<string, Json>)
    ensures DenotesEntry(DumpEntry(e), e)
    decreases e, 0
  {
    QuotedDenotes(e.key);
    DumpDenotes(e.value);
    EntryOf(Quoted(e.key), Dump(e.value), e);
  }

  lemma {:induction false} DumpEntriesDenote(entries: Dict<string, Json>, a: string)
    requires entries != [] && White(a)
    ensures DenotesEntries(a + DumpEntries(entries), entries)
    decreases entries, 0
  {
    DumpEntryDenotes(entries[0]);
    if |entries| == 1 {
      LastEntry(a, DumpEntry(entries[0]), "", entries);
      assert a + DumpEntries(entries) + "" == a + DumpEntries(entries);
    } else {
      DumpEntriesDenote(entries[1..], " ");
      NextEntry(a, DumpEntry(entries[0]), " ", DumpEntries(entries[1..]), entries);
      assert ", " == "," + " ";
    }
  }

  lemma LineIsWhite(n: nat)
    ensures White(Line(n)) && White("")
  {
  }

  /** The indented form denotes the value as well. */
  lemma {:induction false} IndentedDenotes(j: Json, n: nat)
    ensures Denotes(Indented(j, n), j)
    decreases j, 1
  {
    match j
    case Arr(items) =>
      if items == [] {
        assert "[" + "" + "]" == "[]";
      } else {
        LineIsWhite(n);
        LineIsWhite(n + 2);
        IndentedItemsDenote(items, n + 2, Line(n + 2), Line(n));
        Enclosed("[", Line(n + 2), IndentedItems(items, n + 2), Line(n), "]");
      }
    case Obj(entries) =>
      if entries == [] {
        assert "{" + "" + "}" == "{}";
      } else {
        LineIsWhite(n);
        LineIsWhite(n + 2);
        IndentedEntriesDenote(entries, n + 2, Line(n + 2), Line(n));
        Enclosed("{", Line(n + 2), IndentedEntries(entries, n + 2), Line(n), "}");
      }
    case _ => DumpDenotes(j);
  }

  lemma Enclosed(open: string, a: string, inner: string, b: string, close: string)
    ensures open + a + inner + (b + close) == open + (a + inner + b) + close
  {
  }

  lemma LastItem(a: string, x: string, b: string, items: seq<Json>)
    requires |items| == 1 && White(a) && White(b) && Denotes(x, items[0])
    ensures DenotesItems(a + x + b, items)
  {
    assert a + x + b + "" == a + x + b;
    assert StartsItems(a + x + b, items, a, x, b, "");
  }

  lemma LastEntry(a: string, x: string, b: string, entries: Dict<string, Json>)
    requires |entries| == 1 && White(a) && White(b) && DenotesEntry(x, entries[0])
    ensures DenotesEntries(a + x + b, entries)
  {
    assert a + x + b + "" == a + x + b;
    assert StartsEntries(a + x + b, entries, a, x, b, "");
  }

  lemma MoreText(a: string, x: string, comma: string, more: string, b: string)
    ensures a + (x + comma + more) + b == a + (x + comma + (more + b))
  {
  }

  lemma {:induction false} IndentedItemsDenote(items: seq<Json>, n: nat, a: string, b: string)
    requires items != [] && White(a) && White(b)
    ensures DenotesItems(a + IndentedItems(items, n) + b, items)
    decreases items, 0
  {
    var x := Indented(items[0], n);
    IndentedDenotes(items[0], n);
    if |items| == 1 {
      LastItem(a, x, b, items);
    } else {
      var more := IndentedItems(items[1..], n);
      LineIsWhite(n);
      IndentedItemsDenote(items[1..], n, Line(n), b);
      Regroup(Line(n), more, b);
      NextItem(a, x, Line(n), more + b, items);
      MoreText(a, x, "," + Line(n), more, b);
    }
  }

  lemma {:induction false} IndentedEntryDenotes(e: Item<string, Json>, n: nat)
    ensures DenotesEntry(IndentedEntry(e, n), e)
    decreases e, 0
  {
    QuotedDenotes(e.key);
    IndentedDenotes(e.value, n);
    EntryOf(Quoted(e.key), Indented(e.value, n), e);
  }

  lemma {:induction false} IndentedEntriesDenote(entries: Dict<string, Json>, n: nat, a: string, b: string)
    requires entries != [] && White(a) && White(b)
    ensures DenotesEntries(a + IndentedEntries(entries, n) + b, entries)
    decreases entries, 0
  {
    var x := IndentedEntry(entries[0], n);
    IndentedEntryDenotes(entries[0], n);
    if |entries| == 1 {
      LastEntry(a, x, b, entries);
    } else {
      var more := IndentedEntries(entries[1..], n);
      LineIsWhite(n);
      IndentedEntriesDenote(entries[1..], n, Line(n), b);
      Regroup(Line(n), more, b);
      NextEntry(a, x, Line(n), more + b, entries);
      MoreText(a, x, "," + Line(n), more, b);
    }
  }
}
