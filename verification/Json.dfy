/** Decoded JSON and its printed size: two-byte separators, no ASCII escaping, UTF-8 encoding. */
module Json {
  import opened Recency
  import opened OrderedDict
  import opened Text

  // A number is kept as the text it prints as.
  datatype Json =
    | Null
    | Bool(b: bool)
    | Num(text: string)
    | Str(s: string)
    | Arr(items: seq<Json>)
    | Obj(entries: Dict<string, Json>)

  function Escaped(c: char): string {
    if c == '\"' then "\\\""
    else if c == '\\' then "\\\\"
    else if c == '\n' then "\\n"
    else if c == '\r' then "\\r"
    else if c == '\t' then "\\t"
    else if c == 8 as char then "\\b"
    else if c == 12 as char then "\\f"
    else if c < 32 as char then "\\u00" + [Lower(HexDigit(c as int / 16)), Lower(HexDigit(c as int % 16))]
    else [c]
  }

  function EscapedText(s: string): string {
    if s == "" then "" else Escaped(s[0]) + EscapedText(s[1..])
  }

  function Quoted(s: string): string { "\"" + EscapedText(s) + "\"" }

  function Dump(j: Json): string
    decreases j, 1
  {
    match j
    case Null => "null"
    case Bool(b) => if b then "true" else "false"
    case Num(text) => text
    case Str(s) => Quoted(s)
    case Arr(items) => "[" + DumpItems(items) + "]"
    case Obj(entries) => "{" + DumpEntries(entries) + "}"
  }

  function DumpItems(items: seq<Json>): string
    decreases items, 0
  {
    if items == [] then ""
    else if |items| == 1 then Dump(items[0])
    else Dump(items[0]) + ", " + DumpItems(items[1..])
  }

  function DumpEntry(e: Item<string, Json>): string
    decreases e, 0
  {
    Quoted(e.key) + ": " + Dump(e.value)
  }

  function DumpEntries(entries: Dict<string, Json>): string
    decreases entries, 0
  {
    if entries == [] then ""
    else if |entries| == 1 then DumpEntry(entries[0])
    else DumpEntry(entries[0]) + ", " + DumpEntries(entries[1..])
  }

  function Blanks(n: nat): string { seq(n, _ => ' ') }

  /** A new line, indented by n blanks. */
  function Line(n: nat): string { "\n" + Blanks(n) }

  /** The form with two blanks of indentation per level. */
  function Indented(j: Json, n: nat): string
    decreases j, 1
  {
    match j
    case Arr(items) => if items == [] then "[]" else "[" + Line(n + 2) + IndentedItems(items, n + 2) + (Line(n) + "]")
    case Obj(entries) =>
      if entries == [] then "{}" else "{" + Line(n + 2) + IndentedEntries(entries, n + 2) + (Line(n) + "}")
    case _ => Dump(j)
  }

  function IndentedItems(items: seq<Json>, n: nat): string
    requires items != []
    decreases items, 0
  {
    if |items| == 1 then Indented(items[0], n)
    else Indented(items[0], n) + ("," + Line(n)) + IndentedItems(items[1..], n)
  }

  function IndentedEntry(e: Item<string, Json>, n: nat): string
    decreases e, 0
  {
    Quoted(e.key) + ": " + Indented(e.value, n)
  }

  function IndentedEntries(entries: Dict<string, Json>, n: nat): string
    requires entries != []
    decreases entries, 0
  {
    if |entries| == 1 then IndentedEntry(entries[0], n)
    else IndentedEntry(entries[0], n) + ("," + Line(n)) + IndentedEntries(entries[1..], n)
  }

  function Utf8Width(c: char): nat {
    if c as int < 0x80 then 1 else if c as int < 0x800 then 2 else if c as int < 0x1_0000 then 3 else 4
  }

  function Utf8Len(s: string): nat {
    if s == "" then 0 else Utf8Width(s[0]) + Utf8Len(s[1..])
  }

  function ByteLen(j: Json): nat { Utf8Len(Dump(j)) }

  function EntryBytes(e: Item<string, Json>): nat { Utf8Len(DumpEntry(e)) }

  /** The bytes of the elements alone. */
  function ItemsBytes(items: seq<Json>): nat {
    if items == [] then 0 else ByteLen(items[0]) + ItemsBytes(items[1..])
  }

  function EntriesBytes(entries: Dict<string, Json>): nat {
    if entries == [] then 0 else EntryBytes(entries[0]) + EntriesBytes(entries[1..])
  }

  function Separators(n: nat): nat { if n == 0 then 0 else 2 * (n - 1) }

  lemma {:induction false} Utf8LenConcat(a: string, b: string)
    ensures Utf8Len(a + b) == Utf8Len(a) + Utf8Len(b)
  {
    if a == "" {
      assert a + b == b;
    } else {
      Utf8LenConcat(a[1..], b);
      ConcatHead(a, b);
    }
  }

  lemma {:induction false} ItemsLength(items: seq<Json>)
    ensures Utf8Len(DumpItems(items)) == ItemsBytes(items) + Separators(|items|)
  {
    if |items| > 1 {
      ItemsLength(items[1..]);
      Utf8LenConcat(Dump(items[0]) + ", ", DumpItems(items[1..]));
      Utf8LenConcat(Dump(items[0]), ", ");
      assert Utf8Len(", ") == 2;
    }
  }

  lemma {:induction false} EntriesLength(entries: Dict<string, Json>)
    ensures Utf8Len(DumpEntries(entries)) == EntriesBytes(entries) + Separators(|entries|)
  {
    if |entries| > 1 {
      EntriesLength(entries[1..]);
      Utf8LenConcat(DumpEntry(entries[0]) + ", ", DumpEntries(entries[1..]));
      Utf8LenConcat(DumpEntry(entries[0]), ", ");
      assert Utf8Len(", ") == 2;
    }
  }

  lemma ArrayBytes(items: seq<Json>)
    ensures ByteLen(Arr(items)) == 2 + ItemsBytes(items) + Separators(|items|)
  {
    ItemsLength(items);
    Utf8LenConcat("[" + DumpItems(items), "]");
    Utf8LenConcat("[", DumpItems(items));
    assert Utf8Len("[") == 1 && Utf8Len("]") == 1;
  }

  lemma ObjectBytes(entries: Dict<string, Json>)
    ensures ByteLen(Obj(entries)) == 2 + EntriesBytes(entries) + Separators(|entries|)
  {
    EntriesLength(entries);
    Utf8LenConcat("{" + DumpEntries(entries), "}");
    Utf8LenConcat("{", DumpEntries(entries));
    assert Utf8Len("{") == 1 && Utf8Len("}") == 1;
  }

  lemma EntryLength(e: Item<string, Json>)
    ensures EntryBytes(e) == Utf8Len(Quoted(e.key)) + 2 + ByteLen(e.value)
  {
    Utf8LenConcat(Quoted(e.key) + ": ", Dump(e.value));
    Utf8LenConcat(Quoted(e.key), ": ");
    assert Utf8Len(": ") == 2;
  }

  lemma {:induction false} EntriesBytesConcat(a: Dict<string, Json>, b: Dict<string, Json>)
    ensures EntriesBytes(a + b) == EntriesBytes(a) + EntriesBytes(b)
  {
    if a == [] {
      assert a + b == b;
    } else {
      EntriesBytesConcat(a[1..], b);
      ConcatHead(a, b);
    }
  }

  /** Replacing the value of a present key trades its old entry for the new one. */
  lemma {:induction false} PutBytes(d: Dict<string, Json>, k: string, v: Json)
    requires Distinct(Keys(d)) && k in Keys(d)
    ensures EntriesBytes(Put(d, k, v)) == EntriesBytes(Delete(d, k)) + EntryBytes(Item(k, v))
    ensures |Put(d, k, v)| == |d| == |Delete(d, k)| + 1
  {
    assert Keys(d)[1..] == Keys(d[1..]);
    if d[0].key == k {
      DeleteAbsent(d[1..], k);
    } else {
      assert Keys(d) == [d[0].key] + Keys(d[1..]);
      PutBytes(d[1..], k, v);
      assert ([d[0]] + Put(d[1..], k, v))[1..] == Put(d[1..], k, v);
      assert ([d[0]] + Delete(d[1..], k))[1..] == Delete(d[1..], k);
    }
  }

  lemma {:induction false} PutSame(d: Dict<string, Json>, k: string)
    requires k in Keys(d)
    ensures Lookup(d, k).Some? && Put(d, k, Lookup(d, k).value) == d
  {
    if d[0].key != k {
      assert Keys(d) == [d[0].key] + Keys(d[1..]);
      PutSame(d[1..], k);
    }
    assert d == [d[0]] + d[1..];
  }

  /** So it changes the printed size by the difference of the two values. */
  lemma ReplaceBytes(d: Dict<string, Json>, k: string, v: Json)
    requires Distinct(Keys(d)) && k in Keys(d)
    ensures Lookup(d, k).Some?
    ensures ByteLen(Obj(Put(d, k, v))) + ByteLen(Lookup(d, k).value) == ByteLen(Obj(d)) + ByteLen(v)
  {
    PutSame(d, k);
    PutBytes(d, k, v);
    PutBytes(d, k, Lookup(d, k).value);
    ObjectBytes(Put(d, k, v));
    ObjectBytes(d);
    EntryLength(Item(k, v));
    EntryLength(Item(k, Lookup(d, k).value));
  }

  /** What Python calls false among JSON values. */
  predicate Truthy(j: Json) {
    match j
    case Null => false
    case Bool(b) => b
    case Num(text) => text !in {"0", "0.0", "-0.0"}
    case Str(s) => s != ""
    case Arr(items) => items != []
    case Obj(entries) => entries != []
  }

  function Decimal(n: nat): string {
    if n < 10 then ["0123456789"[n]] else Decimal(n / 10) + ["0123456789"[n % 10]]
  }

  predicate Plain(s: string) {
    forall i :: 0 <= i < |s| ==> 32 <= s[i] as int < 0x80 && s[i] != '\"' && s[i] != '\\'
  }

  /** Printable ASCII without quotes and backslashes prints as itself. */
  lemma {:induction false} PlainBytes(s: string)
    requires Plain(s)
    ensures Utf8Len(EscapedText(s)) == |s|
  {
    if s != "" {
      PlainBytes(s[1..]);
      Utf8LenConcat(Escaped(s[0]), EscapedText(s[1..]));
      assert Utf8Len([s[0]]) == 1;
    }
  }

  lemma QuotedBytes(s: string)
    ensures Utf8Len(Quoted(s)) == Utf8Len(EscapedText(s)) + 2
  {
    Utf8LenConcat("\"" + EscapedText(s), "\"");
    Utf8LenConcat("\"", EscapedText(s));
    assert Utf8Len("\"") == 1;
  }

  /** The number that decimal digits stand for. */
  ghost function DigitsValue(s: string): int {
    if s == "" then 0 else 10 * DigitsValue(s[..|s| - 1]) + (s[|s| - 1] as int - '0' as int)
  }

  /** A number prints as the decimal digits that stand for it, without leading zeros. */
  lemma {:induction false} DecimalValue(n: nat)
    ensures var s := Decimal(n);
            && s != "" && (forall i :: 0 <= i < |s| ==> '0' <= s[i] <= '9')
            && DigitsValue(s) == n && (n > 0 ==> s[0] != '0')
  {
    if n >= 10 {
      DecimalValue(n / 10);
      var s := Decimal(n);
      assert s[..|s| - 1] == Decimal(n / 10) && s[|s| - 1] == "0123456789"[n % 10];
    } else {
      assert DigitsValue("") == 0 && [Decimal(n)[0]][..0] == "";
    }
  }

  /**
   * Section 3 of RFC 3629: one byte holds seven bits of a character's number; else six bits stand in every byte but
   * the first, which holds five, four or three.
   */
  lemma Utf8WidthIsLeast(c: char)
    ensures var n := c as int;
            match Utf8Width(c)
            case 1 => n < 128
            case 2 => 128 <= n < 32 * 64
            case 3 => 32 * 64 <= n < 16 * 64 * 64
            case 4 => 16 * 64 * 64 <= n < 8 * 64 * 64 * 64
            case _ => false
  {
  }
}
