/** Field projection and the byte cap that keep a tool result inside a context window. */
module ResponseShaping {
  import opened Wrappers
  import opened Recency
  import opened OrderedDict
  import opened Json
  import Sorting

  const METADATA_OVERHEAD := 512
  const CAPPED := "_capped"

  type Payload = d: Dict<string, Json> | Distinct(Keys(d)) witness []

  function MaxZero(n: int): nat { if n <= 0 then 0 else n }

  /******* Choosing the list to trim *******/

  predicate IsList(j: Json) { j.Arr? && j.items != [] }

  function Candidates(d: Dict<string, Json>): seq<(string, nat)> {
    if d == [] then []
    else (if IsList(d[0].value) then [(d[0].key, ByteLen(d[0].value))] else []) + Candidates(d[1..])
  }

  predicate Larger(a: (string, nat), b: (string, nat)) { a.1 > b.1 }

  function PickMainListKey(d: Dict<string, Json>): Option<string> {
    var sorted := Sorting.SortDescending(Candidates(d), Larger);
    if sorted == [] then None else Some(sorted[0].0)
  }

  /******* Trimming it *******/

  function Cost(item: Json): nat { ByteLen(item) + 1 }

  function Charged(items: seq<Json>): nat {
    if items == [] then 0 else Charged(items[..|items| - 1]) + Cost(items[|items| - 1])
  }

  method KeepPrefix(items: seq<Json>, budget: nat) returns (kept: seq<Json>)
    ensures kept <= items && Charged(kept) <= budget
    ensures forall m :: 0 <= m <= |items| ==> (Charged(items[..m]) <= budget <==> m <= |kept|)
  {
    var used := 0;
    var i := 0;
    kept := [];
    while i < |items|
      invariant 0 <= i <= |items| && kept == items[..i] && used == Charged(items[..i]) <= budget
    {
      var cost := Cost(items[i]);
      ChargedStep(items, i);
      if used + cost > budget { break; }
      kept, used, i := kept + [items[i]], used + cost, i + 1;
    }
    LongestFits(items, budget, i);
  }

  lemma ChargedStep(items: seq<Json>, i: nat)
    requires i < |items|
    ensures Charged(items[..i + 1]) == Charged(items[..i]) + Cost(items[i])
  {
    assert items[..i + 1][..i] == items[..i];
  }

  lemma LongestFits(items: seq<Json>, budget: nat, i: nat)
    requires i <= |items| && Charged(items[..i]) <= budget && (i < |items| ==> Charged(items[..i + 1]) > budget)
    ensures forall m :: 0 <= m <= |items| ==> (Charged(items[..m]) <= budget <==> m <= i)
  {
    forall m | 0 <= m <= |items| ensures Charged(items[..m]) <= budget <==> m <= i {
      if m <= i { ChargedMonotone(items, m, i); } else { ChargedMonotone(items, i + 1, m); }
    }
  }

  lemma {:induction false} ChargedMonotone(items: seq<Json>, m: nat, n: nat)
    requires m <= n <= |items|
    ensures Charged(items[..m]) <= Charged(items[..n])
    ensures m < n ==> Charged(items[..m]) < Charged(items[..n])
    decreases n
  {
    if m < n {
      ChargedMonotone(items, m, n - 1);
      assert items[..n][..n - 1] == items[..n - 1];
    }
  }

  /** The number of items kept. */
  function KeepCount(items: seq<Json>, budget: nat): (n: nat)
    ensures n <= |items|
  {
    if items == [] then 0
    else
      var last := |items| - 1;
      var n := KeepCount(items[..last], budget);
      if n == last && Charged(items) <= budget then |items| else n
  }

  /** The kept items are the longest prefix whose charged cost fits. */
  lemma {:induction false} LongestPrefixKept(items: seq<Json>, budget: nat, m: nat)
    requires m <= |items|
    ensures Charged(items[..m]) <= budget <==> m <= KeepCount(items, budget)
  {
    if items == [] {
      assert items[..m] == [];
    } else if m < |items| {
      LongestPrefixKept(items[..|items| - 1], budget, m);
      assert items[..|items| - 1][..m] == items[..m];
    } else {
      var front := items[..|items| - 1];
      LongestPrefixKept(front, budget, |front|);
      assert front[..|front|] == front && items[..m] == items;
    }
  }

  /** The payload with its main list emptied, which Python rebuilds with that key last. */
  function Skeleton(p: Payload, key: string): Dict<string, Json> {
    Delete(p, key) + [Item(key, Arr([]))]
  }

  function Budget(p: Payload, key: string, maxBytes: int): nat {
    MaxZero(maxBytes - (ByteLen(Obj(Skeleton(p, key))) + METADATA_OVERHEAD))
  }

  const CONTINUE :=
    "-byte cap. Continue with the `nextPageToken` field above, or re-call with a smaller `pageSize` or " +
    "`fields=[...]` projection."

  const NARROW :=
    "-byte cap and the underlying endpoint did not return a nextPageToken on this page. Re-call with a smaller " +
    "`pageSize`, narrower filter, or a `fields=[...]` projection."

  function Hint(p: Payload, maxBytes: nat): string {
    var token := Lookup(p, "nextPageToken");
    "Response exceeded the " + Decimal(maxBytes) + if token.Some? && Truthy(token.value) then CONTINUE else NARROW
  }

  function Metadata(p: Payload, key: string, returned: nat, original: nat, bytes: nat, maxBytes: nat): Json {
    Obj(MetadataHead(key) + ([ReturnedItems(returned)] + MetadataTail(p, original, bytes, maxBytes)))
  }

  function MetadataHead(key: string): Dict<string, Json> {
    [Item("truncated", Bool(true)), Item("itemsKey", Str(key))]
  }

  function ReturnedItems(n: nat): Item<string, Json> {
    Item("returnedItems", Num(Decimal(n)))
  }

  function MetadataTail(p: Payload, original: nat, bytes: nat, maxBytes: nat): Dict<string, Json> {
    [Item("originalItems", Num(Decimal(original))),
     Item("originalBytes", Num(Decimal(bytes))),
     Item("byteBudget", Num(Decimal(maxBytes))),
     Item("hint", Str(Hint(p, maxBytes)))]
  }

  predicate HasList(p: Payload, key: string) {
    Lookup(p, key).Some? && IsList(Lookup(p, key).value)
  }

  function ItemsOf(p: Payload, key: string): seq<Json>
    requires HasList(p, key)
  {
    Lookup(p, key).value.items
  }

  function Returned(p: Payload, key: string, maxBytes: int): nat
    requires HasList(p, key)
  {
    KeepCount(ItemsOf(p, key), Budget(p, key, maxBytes))
  }

  function MetadataOf(p: Payload, key: string, maxBytes: nat, n: nat): Json
    requires HasList(p, key)
  {
    Metadata(p, key, n, |ItemsOf(p, key)|, ByteLen(Obj(p)), maxBytes)
  }

  function MetadataFor(p: Payload, key: string, maxBytes: nat): Json
    requires HasList(p, key)
  {
    MetadataOf(p, key, maxBytes, Returned(p, key, maxBytes))
  }

  function Truncated(p: Payload, key: string, maxBytes: nat): Dict<string, Json>
    requires HasList(p, key)
  {
    var kept := ItemsOf(p, key)[..Returned(p, key, maxBytes)];
    Put(Put(p, key, Arr(kept)), CAPPED, MetadataFor(p, key, maxBytes))
  }

  method TruncatePaginated(p: Payload, key: string, maxBytes: nat, originalBytes: nat)
    returns (capped: Dict<string, Json>)
    requires HasList(p, key) && originalBytes == ByteLen(Obj(p))
    ensures capped == Truncated(p, key, maxBytes)
  {
    var items := ItemsOf(p, key);
    var skeleton := Delete(p, key) + [Item(key, Arr([]))];
    var overhead := ByteLen(Obj(skeleton)) + METADATA_OVERHEAD;
    var budget := MaxZero(maxBytes - overhead);
    var kept := KeepPrefix(items, budget);
    var n := Returned(p, key, maxBytes);
    LongestPrefixKept(items, budget, n);
    LongestPrefixKept(items, budget, |kept|);
    assert Charged(items[..n]) <= budget <==> n <= |kept|;
    assert kept == items[..n];
    capped := Put(p, key, Arr(kept));
    capped := Put(capped, CAPPED, Metadata(p, key, |kept|, |items|, originalBytes, maxBytes));
  }

  const PREVIEW_HINT :=
    "Response exceeded the byte cap and is not a paginated list shape; only a textual preview is included below. " +
    "Use a more specific tool or query to narrow the result."

  /** The stub for a result without a list: metadata, and the first characters of the printed result. */
  function HardTruncated(result: Json, maxBytes: nat): Dict<string, Json> {
    var text, budget := Dump(result), MaxZero(maxBytes - METADATA_OVERHEAD);
    [Item(CAPPED, Obj([Item("truncated", Bool(true)), Item("itemsKey", Null), Item("returnedItems", Null),
                       Item("originalItems", Null), Item("originalBytes", Num(Decimal(ByteLen(result)))),
                       Item("byteBudget", Num(Decimal(maxBytes))), Item("hint", Str(PREVIEW_HINT))])),
     Item("_preview", Str(if |text| <= budget then text else text[..budget]))]
  }

  datatype Shaped = Unchanged | Page(entries: Dict<string, Json>) | Preview(entries: Dict<string, Json>)

  method CapResponseSize(result: Json, maxBytes: int) returns (r: Shaped)
    requires result.Obj? ==> Distinct(Keys(result.entries))
    ensures r == Cap(result, maxBytes)
  {
    if maxBytes <= 0 { return Unchanged; }
    var bytes := ByteLen(result);
    if bytes <= maxBytes { return Unchanged; }
    if result.Obj? {
      var key := PickMainListKey(result.entries);
      if key.Some? {
        PickedHasList(result.entries);
        var capped := TruncatePaginated(result.entries, key.value, maxBytes, bytes);
        return Page(capped);
      }
    }
    return Preview(HardTruncated(result, maxBytes));
  }

  function Cap(result: Json, maxBytes: int): Shaped
    requires result.Obj? ==> Distinct(Keys(result.entries))
  {
    if maxBytes <= 0 || ByteLen(result) <= maxBytes then Unchanged
    else if result.Obj? && PickMainListKey(result.entries).Some? then
      PickedHasList(result.entries);
      Page(Truncated(result.entries, PickMainListKey(result.entries).value, maxBytes))
    else Preview(HardTruncated(result, maxBytes))
  }

  /** What happens to a result: nothing within the cap, a trimmed page if it has a list, otherwise a preview. */
  lemma CapExactlyWhen(result: Json, maxBytes: int)
    requires result.Obj? ==> Distinct(Keys(result.entries))
    ensures var r := Cap(result, maxBytes);
            var over := maxBytes > 0 && ByteLen(result) > maxBytes;
            var lists := result.Obj? && exists e :: e in result.entries && e.value.Arr? && e.value.items != [];
            (r.Unchanged? <==> !over) && (r.Page? <==> over && lists)
  {
    if result.Obj? {
      var p: Payload := result.entries;
      if PickMainListKey(p).Some? {
        var i := Picked(p);
        assert p[i] in p;
      } else if p != [] {
        PickExactlyWhen(p, 0);
      }
    }
  }

  /** The page is the trimmed form of the first largest list. */
  lemma PageTrimsMain(p: Payload, maxBytes: int, i: nat)
    requires Main(p, i) && 0 < maxBytes < ByteLen(Obj(p))
    ensures HasList(p, p[i].key) && Cap(Obj(p), maxBytes) == Page(Truncated(p, p[i].key, maxBytes))
  {
    PickExactlyWhen(p, i);
    LookupUnique(p, p[i]);
  }

  lemma TwoEntries(a: string, x: Json, b: string, y: Json)
    requires a != b
    ensures var d := [Item(a, x), Item(b, y)]; Lookup(d, a) == Some(x) && Lookup(d, b) == Some(y)
  {
    var d := [Item(a, x), Item(b, y)];
    assert d[1..][0] == Item(b, y);
  }

  /** A preview tells what was cut, and shows as many characters of the printed result as the cap leaves beyond 512. */
  lemma PreviewTells(result: Json, maxBytes: int)
    requires (result.Obj? ==> Distinct(Keys(result.entries))) && Cap(result, maxBytes).Preview?
    ensures maxBytes > 0
    ensures var entries, text := Cap(result, maxBytes).entries, Dump(result);
            var room := if maxBytes > 512 then maxBytes - 512 else 0;
            && Keys(entries) == ["_capped", "_preview"]
            && Lookup(entries, "_preview") == Some(Str(if |text| <= room then text else text[..room]))
            && Lookup(entries, "_capped") ==
               Some(Obj([Item("truncated", Bool(true)), Item("itemsKey", Null), Item("returnedItems", Null),
                         Item("originalItems", Null), Item("originalBytes", Num(Decimal(ByteLen(result)))),
                         Item("byteBudget", Num(Decimal(maxBytes))), Item("hint", Str(PREVIEW_HINT))]))
  {
    var entries := HardTruncated(result, maxBytes);
    assert CAPPED != "_preview" by { assert CAPPED[1] == 'c' && "_preview"[1] == 'p'; }
    TwoEntries(CAPPED, entries[0].value, "_preview", entries[1].value);
    KeysLength(entries);
  }

  /******* The list that is trimmed *******/

  /** The list at position i is a largest one, the first of these. */
  ghost predicate Main(d: Dict<string, Json>, i: nat) {
    && i < |d| && d[i].value.Arr? && d[i].value.items != []
    && forall j :: 0 <= j < |d| && d[j].value.Arr? && d[j].value.items != [] ==>
         ByteLen(d[j].value) <= ByteLen(d[i].value) && (j < i ==> ByteLen(d[j].value) < ByteLen(d[i].value))
  }

  lemma MainOfTail(d: Dict<string, Json>, k: nat)
    requires d != [] && Main(d[1..], k) && (IsList(d[0].value) ==> ByteLen(d[0].value) < ByteLen(d[1..][k].value))
    ensures Main(d, k + 1) && d[k + 1] == d[1..][k]
  {
    assert forall j :: 0 < j < |d| ==> d[j] == d[1..][j - 1];
  }

  lemma MainAtFront(d: Dict<string, Json>, most: nat)
    requires d != [] && IsList(d[0].value) && most <= ByteLen(d[0].value)
    requires forall j :: 0 <= j < |d[1..]| && IsList(d[1..][j].value) ==> ByteLen(d[1..][j].value) <= most
    ensures Main(d, 0)
  {
    assert forall j :: 0 < j < |d| ==> d[j] == d[1..][j - 1];
  }

  lemma {:induction false} SortedHead(d: Dict<string, Json>) returns (i: nat)
    ensures var sorted := Sorting.SortDescending(Candidates(d), Larger);
            if sorted == [] then forall j :: 0 <= j < |d| ==> !IsList(d[j].value)
            else Main(d, i) && sorted[0] == (d[i].key, ByteLen(d[i].value))
  {
    i := 0;
    if d != [] {
      var k := SortedHead(d[1..]);
      var rest := Sorting.SortDescending(Candidates(d[1..]), Larger);
      var own := (d[0].key, ByteLen(d[0].value));
      if !IsList(d[0].value) {
        assert [] + Candidates(d[1..]) == Candidates(d[1..]);
        i := k + 1;
        if rest != [] { MainOfTail(d, k); } else { assert forall j :: 0 < j < |d| ==> d[j] == d[1..][j - 1]; }
      } else {
        assert ([own] + Candidates(d[1..]))[1..] == Candidates(d[1..]);
        if rest != [] && Larger(rest[0], own) {
          i := k + 1;
          MainOfTail(d, k);
        } else {
          MainAtFront(d, if rest == [] then 0 else rest[0].1);
        }
      }
    }
  }

  lemma {:induction false} KeyAtOnce(d: Dict<string, Json>, i: nat, j: nat)
    requires Distinct(Keys(d)) && i < |d| && j < |d| && d[i].key == d[j].key
    ensures i == j
  {
    assert Keys(d)[1..] == Keys(d[1..]);
    KeysLength(d);
    if i == 0 || j == 0 {
      assert forall k :: 0 < k < |d| ==> Keys(d)[k] in Keys(d)[1..];
    } else {
      KeyAtOnce(d[1..], i - 1, j - 1);
    }
  }

  /** The trimmed list is the first of the largest by serialized size, and none is chosen only if there is none. */
  lemma PickExactlyWhen(p: Payload, i: nat)
    requires i < |p|
    ensures PickMainListKey(p) == Some(p[i].key) <==> Main(p, i)
    ensures PickMainListKey(p).None? <==> forall j :: 0 <= j < |p| ==> !p[j].value.Arr? || p[j].value.items == []
  {
    var k := SortedHead(p);
    if PickMainListKey(p) == Some(p[i].key) { KeyAtOnce(p, i, k); }
  }

  lemma Picked(p: Payload) returns (i: nat)
    requires PickMainListKey(p).Some?
    ensures Main(p, i) && PickMainListKey(p) == Some(p[i].key) && Lookup(p, p[i].key) == Some(p[i].value)
  {
    i := SortedHead(p);
    LookupUnique(p, p[i]);
  }

  lemma At(p: Payload, key: string) returns (i: nat)
    requires key in Keys(p)
    ensures i < |p| && p[i].key == key && Lookup(p, key) == Some(p[i].value)
  {
    LookupMember(p, key);
    i :| 0 <= i < |p| && p[i] == Item(key, Lookup(p, key).value);
  }

  lemma OnlyListPicked(p: Payload, key: string)
    requires HasList(p, key) && forall e :: e in p && IsList(e.value) ==> e.key == key
    ensures PickMainListKey(p) == Some(key)
  {
    LookupMember(p, key);
    var i := At(p, key);
    PickExactlyWhen(p, i);
    forall j | 0 <= j < |p| && IsList(p[j].value) ensures j == i {
      assert p[j] in p;
      KeyAtOnce(p, i, j);
    }
  }

  lemma PickedHasList(p: Payload)
    ensures PickMainListKey(p).Some? ==> HasList(p, PickMainListKey(p).value)
  {
    if PickMainListKey(p).Some? { var i := Picked(p); }
  }

  /******* Exact size *******/

  lemma {:induction false} ItemsBytesSnoc(a: seq<Json>, x: Json)
    ensures ItemsBytes(a + [x]) == ItemsBytes(a) + ByteLen(x)
  {
    if a == [] {
      assert [x][1..] == [];
    } else {
      ItemsBytesSnoc(a[1..], x);
      assert (a + [x])[1..] == a[1..] + [x];
    }
  }

  lemma {:induction false} ChargedIsBytes(items: seq<Json>)
    ensures Charged(items) == ItemsBytes(items) + |items|
  {
    if items != [] {
      var n := |items| - 1;
      ChargedIsBytes(items[..n]);
      ItemsBytesSnoc(items[..n], items[n]);
      assert items == items[..n] + [items[n]];
    }
  }

  /** The list under key, and nothing else of the size, depends on the items kept. */
  lemma ReplacedBytes(p: Payload, key: string, kept: seq<Json>)
    requires key in Keys(p)
    ensures ByteLen(Obj(Put(p, key, Arr(kept)))) ==
            ByteLen(Obj(Skeleton(p, key))) + ItemsBytes(kept) + Separators(|kept|)
  {
    PutBytes(p, key, Arr(kept));
    EntriesBytesConcat(Delete(p, key), [Item(key, Arr([]))]);
    assert EntriesBytes([Item(key, Arr([]))]) == EntryBytes(Item(key, Arr([])));
    ObjectBytes(Put(p, key, Arr(kept)));
    ObjectBytes(Skeleton(p, key));
    EntryLength(Item(key, Arr(kept)));
    EntryLength(Item(key, Arr([])));
    ArrayBytes(kept);
    ArrayBytes([]);
  }

  lemma CappedKeyBytes()
    ensures Utf8Len(Quoted(CAPPED)) == 9
  {
    PlainBytes(CAPPED);
    QuotedBytes(CAPPED);
  }

  lemma AppendedBytes(d: Dict<string, Json>, meta: Json)
    requires d != []
    ensures ByteLen(Obj(d + [Item(CAPPED, meta)])) == ByteLen(Obj(d)) + 13 + ByteLen(meta)
  {
    var e := Item(CAPPED, meta);
    EntriesBytesConcat(d, [e]);
    assert EntriesBytes([e]) == EntryBytes(e);
    ObjectBytes(d);
    ObjectBytes(d + [e]);
    EntryLength(e);
    CappedKeyBytes();
  }

  /** n is the greatest number of items that fit the budget at one byte each beyond their own size. */
  ghost predicate MostThatFit(items: seq<Json>, budget: nat, n: nat) {
    n <= |items| && Charged(items[..n]) <= budget && (n < |items| ==> Charged(items[..n + 1]) > budget)
  }

  lemma ReturnedMost(p: Payload, key: string, maxBytes: int, n: nat)
    requires HasList(p, key)
    ensures MostThatFit(ItemsOf(p, key), Budget(p, key, maxBytes), n) <==> n == Returned(p, key, maxBytes)
  {
    KeptIsMost(ItemsOf(p, key), Budget(p, key, maxBytes), n);
  }

  lemma KeptIsMost(items: seq<Json>, budget: nat, n: nat)
    ensures MostThatFit(items, budget, n) <==> n == KeepCount(items, budget)
  {
    var r := KeepCount(items, budget);
    LongestPrefixKept(items, budget, r);
    if r < |items| { LongestPrefixKept(items, budget, r + 1); }
    if n <= |items| { LongestPrefixKept(items, budget, n); }
    if n < |items| { LongestPrefixKept(items, budget, n + 1); }
  }

  /** What attaching the metadata adds: a new entry, or the difference to the value it replaces. */
  function AddedByMetadata(p: Payload, metadata: Json): int {
    if Lookup(p, CAPPED).Some? then ByteLen(metadata) - ByteLen(Lookup(p, CAPPED).value) else 13 + ByteLen(metadata)
  }

  lemma AttachedBytes(d: Dict<string, Json>, metadata: Json)
    requires Distinct(Keys(d)) && d != []
    ensures ByteLen(Obj(Put(d, CAPPED, metadata))) ==
            ByteLen(Obj(d)) + (if Lookup(d, CAPPED).Some? then ByteLen(metadata) - ByteLen(Lookup(d, CAPPED).value)
                               else 13 + ByteLen(metadata))
  {
    LookupMember(d, CAPPED);
    if CAPPED in Keys(d) {
      ReplaceBytes(d, CAPPED, metadata);
    } else {
      PutAbsent(d, CAPPED, metadata);
      AppendedBytes(d, metadata);
    }
  }

  /**
   * The exact size of a trimmed page that keeps n items.  A main list that stands under the metadata's own key is
   * replaced by it altogether.
   */
  lemma TruncatedBytes(p: Payload, key: string, maxBytes: nat, n: nat)
    requires HasList(p, key) && MostThatFit(ItemsOf(p, key), Budget(p, key, maxBytes), n)
    ensures var metadata := MetadataOf(p, key, maxBytes, n);
            ByteLen(Obj(Truncated(p, key, maxBytes))) ==
            ByteLen(Obj(Skeleton(p, key))) +
            if key == CAPPED then ByteLen(metadata) - 2
            else Charged(ItemsOf(p, key)[..n]) + (if n == 0 then 0 else n - 2) + AddedByMetadata(p, metadata)
  {
    ReturnedMost(p, key, maxBytes, n);
    var kept := ItemsOf(p, key)[..n];
    var page := Put(p, key, Arr(kept));
    LookupMember(p, key);
    PutSpec(p, key, Arr(kept), key);
    PutSpec(p, key, Arr(kept), CAPPED);
    KeysLength(page);
    AttachedBytes(page, MetadataOf(p, key, maxBytes, n));
    ReplacedBytes(p, key, kept);
    ChargedIsBytes(kept);
    ArrayBytes(kept);
  }

  /**
   * When the page was given room for items, it meets the cap exactly when the metadata and one byte per kept item fit
   * in 514 bytes (501 if the metadata is a new entry) plus the room left unused; a page that kept nothing, when its
   * skeleton and metadata fit.
   */
  lemma FitsExactlyWhen(p: Payload, key: string, maxBytes: nat, n: nat)
    requires HasList(p, key) && MostThatFit(ItemsOf(p, key), Budget(p, key, maxBytes), n)
    ensures var metadata := MetadataOf(p, key, maxBytes, n);
            var unused := Budget(p, key, maxBytes) - Charged(ItemsOf(p, key)[..n]);
            var skeleton := ByteLen(Obj(Skeleton(p, key)));
            ByteLen(Obj(Truncated(p, key, maxBytes))) <= maxBytes <==>
              if key == CAPPED then skeleton + ByteLen(metadata) <= maxBytes + 2
              else if n == 0 then skeleton + AddedByMetadata(p, metadata) <= maxBytes
              else AddedByMetadata(p, metadata) + n <= 514 + unused
  {
    TruncatedBytes(p, key, maxBytes, n);
    assert ItemsOf(p, key)[..0] == [];
    if n >= 1 { ChargedMonotone(ItemsOf(p, key), 0, n); }
  }

  /** The most metadata a page can carry, known before trimming. */
  function MetadataBound(p: Payload, key: string, maxBytes: nat): Json
    requires HasList(p, key)
  {
    MetadataOf(p, key, maxBytes, |ItemsOf(p, key)|)
  }

  lemma ObjectPrintsSomething(j: Json)
    requires j.Obj?
    ensures ByteLen(j) >= 2
  {
    ObjectBytes(j.entries);
  }

  lemma AddedAtMost(p: Payload, metadata: Json, bound: nat)
    requires ByteLen(metadata) <= bound
    ensures AddedByMetadata(p, metadata) <= 13 + bound
  {
  }

  lemma SmallMetadataFits(p: Payload, key: string, maxBytes: nat, n: nat, bound: nat)
    requires HasList(p, key) && MostThatFit(ItemsOf(p, key), Budget(p, key, maxBytes), n)
    requires ByteLen(Obj(Skeleton(p, key))) + METADATA_OVERHEAD <= maxBytes && n + bound <= 500 && 0 < bound < 500
    requires ByteLen(MetadataOf(p, key, maxBytes, n)) <= bound
    ensures ByteLen(Obj(Truncated(p, key, maxBytes))) <= maxBytes
  {
    var added := AddedByMetadata(p, MetadataOf(p, key, maxBytes, n));
    FitsExactlyWhen(p, key, maxBytes, n);
    AddedAtMost(p, MetadataOf(p, key, maxBytes, n), bound);
    assert n == 0 ==> ByteLen(Obj(Skeleton(p, key))) + added <= maxBytes;
    assert n > 0 ==> added + n <= 514;
  }

  /** So the cap holds for every page whose skeleton leaves room and whose list is short enough. */
  lemma ShortListsFit(p: Payload, key: string, maxBytes: nat)
    requires HasList(p, key)
    requires ByteLen(Obj(Skeleton(p, key))) + METADATA_OVERHEAD <= maxBytes
    requires |ItemsOf(p, key)| + ByteLen(MetadataBound(p, key, maxBytes)) <= 500
    ensures ByteLen(Obj(Truncated(p, key, maxBytes))) <= maxBytes
  {
    var n, count := Returned(p, key, maxBytes), |ItemsOf(p, key)|;
    ReturnedMost(p, key, maxBytes, n);
    MetadataGrows(p, key, n, count, count, ByteLen(Obj(p)), maxBytes);
    ObjectPrintsSomething(MetadataBound(p, key, maxBytes));
    SmallMetadataFits(p, key, maxBytes, n, ByteLen(MetadataBound(p, key, maxBytes)));
  }

  lemma {:induction false} DecimalBytes(n: nat)
    ensures Utf8Len(Decimal(n)) >= 1
    ensures n >= 10 ==> Utf8Len(Decimal(n)) == Utf8Len(Decimal(n / 10)) + 1
    ensures n < 10 ==> Utf8Len(Decimal(n)) == 1
  {
    if n >= 10 {
      DecimalBytes(n / 10);
      Utf8LenConcat(Decimal(n / 10), ["0123456789"[n % 10]]);
    }
  }

  lemma {:induction false} DecimalGrows(m: nat, n: nat)
    requires m <= n
    ensures Utf8Len(Decimal(m)) <= Utf8Len(Decimal(n))
  {
    DecimalBytes(m);
    DecimalBytes(n);
    if m >= 10 { DecimalGrows(m / 10, n / 10); }
  }

  lemma MetadataGrows(p: Payload, key: string, m: nat, n: nat, original: nat, bytes: nat, maxBytes: nat)
    requires m <= n
    ensures ByteLen(Metadata(p, key, m, original, bytes, maxBytes)) <=
            ByteLen(Metadata(p, key, n, original, bytes, maxBytes))
  {
    DecimalGrows(m, n);
    EntryLength(ReturnedItems(m));
    EntryLength(ReturnedItems(n));
    LargerEntry(MetadataHead(key), ReturnedItems(m), ReturnedItems(n), MetadataTail(p, original, bytes, maxBytes));
  }

  lemma LargerEntry(head: Dict<string, Json>, e: Item<string, Json>, f: Item<string, Json>, tail: Dict<string, Json>)
    requires EntryBytes(e) <= EntryBytes(f)
    ensures ByteLen(Obj(head + ([e] + tail))) <= ByteLen(Obj(head + ([f] + tail)))
  {
    SplitBytes(head, e, tail);
    SplitBytes(head, f, tail);
    ObjectBytes(head + ([e] + tail));
    ObjectBytes(head + ([f] + tail));
  }

  lemma SplitBytes(head: Dict<string, Json>, e: Item<string, Json>, tail: Dict<string, Json>)
    ensures EntriesBytes(head + ([e] + tail)) == EntriesBytes(head) + EntryBytes(e) + EntriesBytes(tail)
  {
    EntriesBytesConcat(head, [e] + tail);
    assert ([e] + tail)[1..] == tail;
  }

  /******* The cap can be overshot *******/

  function Zeros(n: nat): seq<Json> { seq(n, _ => Num("0")) }

  lemma {:induction false} ZerosCharged(n: nat)
    ensures Charged(Zeros(n)) == 2 * n
  {
    if n > 0 {
      ZerosCharged(n - 1);
      assert Zeros(n)[..n - 1] == Zeros(n - 1);
      assert ByteLen(Num("0")) == 1;
    }
  }

  function ZeroPage(key: string, total: nat): (p: Payload)
    ensures Keys(p) == [key] && Delete(p, key) == [] && Lookup(p, key) == Some(Arr(Zeros(total)))
    ensures p == [Item(key, Arr(Zeros(total)))]
  {
    var p: Dict<string, Json> := [Item(key, Arr(Zeros(total)))];
    assert Keys(p) == [key] && Keys(p)[1..] == [];
    assert Distinct(Keys(p)[1..]) && Distinct(Keys(p));
    p
  }

  /** A cap with room for 502 or more of a page's one-digit numbers, but not for the page, is always overshot. */
  lemma ManySmallItemsOvershoot(key: string, n: nat, total: nat, maxBytes: nat)
    requires Plain(key) && key != CAPPED && n >= 502 && total > n
    requires n == (maxBytes - |key| - 520) / 2 && maxBytes < 3 * total + |key| + 6
    ensures var r := Cap(Obj(ZeroPage(key, total)), maxBytes); r.Page? && ByteLen(Obj(r.entries)) > maxBytes
  {
    ZeroPageBytes(key, total);
    KeepsZeros(key, n, total, maxBytes);
    SmallSkeleton(key, total);
    OvershootBy(ZeroPage(key, total), key, n, maxBytes);
  }

  lemma OvershootBy(p: Payload, key: string, n: nat, maxBytes: nat)
    requires HasList(p, key) && Keys(p) == [key] && key != CAPPED && ByteLen(Obj(Skeleton(p, key))) == |key| + 8
    requires MostThatFit(ItemsOf(p, key), Budget(p, key, maxBytes), n) && n >= 502 && ByteLen(Obj(p)) > maxBytes
    requires Charged(ItemsOf(p, key)[..n]) == 2 * n && maxBytes <= 521 + |key| + 2 * n
    ensures var r := Cap(Obj(p), maxBytes); r.Page? && ByteLen(Obj(r.entries)) > maxBytes
  {
    KeysLength(p);
    OnlyListPicked(p, key);
    MainListCapped(p, key, maxBytes);
    TruncatedBytes(p, key, maxBytes, n);
    LookupMember(p, CAPPED);
    ObjectPrintsSomething(MetadataOf(p, key, maxBytes, n));
  }

  lemma MainListCapped(p: Payload, key: string, maxBytes: nat)
    requires HasList(p, key) && PickMainListKey(p) == Some(key) && 0 < maxBytes < ByteLen(Obj(p))
    ensures Cap(Obj(p), maxBytes) == Page(Truncated(p, key, maxBytes))
  {
  }

  lemma SingleEntryBytes(key: string, items: seq<Json>)
    requires Plain(key)
    ensures ByteLen(Obj([Item(key, Arr(items))])) == |key| + 8 + ItemsBytes(items) + Separators(|items|)
  {
    var e := Item(key, Arr(items));
    ObjectBytes([e]);
    EntryLength(e);
    ArrayBytes(items);
    PlainBytes(key);
    QuotedBytes(key);
    assert EntriesBytes([e]) == EntryBytes(e);
  }

  lemma ZeroPageBytes(key: string, total: nat)
    requires total > 0 && Plain(key)
    ensures ByteLen(Obj(ZeroPage(key, total))) == 3 * total + |key| + 6
    ensures HasList(ZeroPage(key, total), key)
  {
    assert Zeros(total)[0] == Num("0");
    SingleEntryBytes(key, Zeros(total));
    ZerosCharged(total);
    ChargedIsBytes(Zeros(total));
  }

  lemma SmallSkeleton(key: string, total: nat)
    requires Plain(key)
    ensures ByteLen(Obj(Skeleton(ZeroPage(key, total), key))) == |key| + 8
  {
    assert Skeleton(ZeroPage(key, total), key) == [Item(key, Arr([]))];
    SingleEntryBytes(key, []);
  }

  lemma KeepsZeros(key: string, n: nat, total: nat, maxBytes: nat)
    requires Plain(key) && total > n && 2 * n <= maxBytes - |key| - 520 <= 2 * n + 1
    ensures var p := ZeroPage(key, total);
            && HasList(p, key) && MostThatFit(ItemsOf(p, key), Budget(p, key, maxBytes), n)
            && Charged(ItemsOf(p, key)[..n]) == 2 * n
  {
    SmallSkeleton(key, total);
    var items := Zeros(total);
    assert items[0] == Num("0");
    assert items[..n] == Zeros(n) && items[..n + 1] == Zeros(n + 1);
    ZerosCharged(n);
    ZerosCharged(n + 1);
  }

  /**
   * Trimming touches nothing but the list and the metadata block.  A list under the metadata's own key is lost to it.
   */
  lemma OthersUntouched(p: Payload, key: string, maxBytes: nat, other: string)
    requires HasList(p, key)
    ensures var out := Truncated(p, key, maxBytes);
            && Keys(out) == (if "_capped" in Keys(p) then Keys(p) else Keys(p) + ["_capped"])
            && Lookup(out, "_capped") == Some(MetadataFor(p, key, maxBytes))
            && (key != "_capped" ==> Lookup(out, key) == Some(Arr(ItemsOf(p, key)[..Returned(p, key, maxBytes)])))
            && (other !in {key, "_capped"} ==> Lookup(out, other) == Lookup(p, other))
  {
    var kept := Arr(ItemsOf(p, key)[..Returned(p, key, maxBytes)]);
    var meta := MetadataFor(p, key, maxBytes);
    var page := Put(p, key, kept);
    LookupMember(p, key);
    PutSpec(p, key, kept, key);
    PutSpec(p, key, kept, other);
    PutSpec(page, CAPPED, meta, key);
    PutSpec(page, CAPPED, meta, other);
    PutSpec(page, CAPPED, meta, CAPPED);
  }

  /** The page names a next one, by anything but null, false, zero and what is empty. */
  ghost predicate NamesNextPage(p: Payload) {
    exists j :: Lookup(p, "nextPageToken") == Some(j)
                && j !in {Null, Bool(false), Num("0"), Num("0.0"), Num("-0.0"), Str(""), Arr([]), Obj([])}
  }

  /** What the metadata tells: which list was cut, from and to how many items, the sizes, and how to go on. */
  lemma MetadataTells(p: Payload, key: string, maxBytes: nat)
    requires HasList(p, key)
    ensures var hint := "Response exceeded the " + Decimal(maxBytes) + if NamesNextPage(p) then CONTINUE else NARROW;
            Lookup(Truncated(p, key, maxBytes), "_capped") ==
            Some(Obj([Item("truncated", Bool(true)), Item("itemsKey", Str(key)),
                      Item("returnedItems", Num(Decimal(Returned(p, key, maxBytes)))),
                      Item("originalItems", Num(Decimal(|ItemsOf(p, key)|))),
                      Item("originalBytes", Num(Decimal(ByteLen(Obj(p))))),
                      Item("byteBudget", Num(Decimal(maxBytes))), Item("hint", Str(hint))]))
  {
    OthersUntouched(p, key, maxBytes, key);
    HintTells(p, maxBytes);
    MetadataIs(p, key, Returned(p, key, maxBytes), |ItemsOf(p, key)|, ByteLen(Obj(p)), maxBytes);
  }

  lemma MetadataIs(p: Payload, key: string, returned: nat, original: nat, bytes: nat, maxBytes: nat)
    ensures Metadata(p, key, returned, original, bytes, maxBytes) ==
            Obj([Item("truncated", Bool(true)), Item("itemsKey", Str(key)),
                 Item("returnedItems", Num(Decimal(returned))),
                 Item("originalItems", Num(Decimal(original))), Item("originalBytes", Num(Decimal(bytes))),
                 Item("byteBudget", Num(Decimal(maxBytes))), Item("hint", Str(Hint(p, maxBytes)))])
  {
    var head, tail := MetadataHead(key), MetadataTail(p, original, bytes, maxBytes);
    var all := head + ([ReturnedItems(returned)] + tail);
    assert all == [head[0], head[1], ReturnedItems(returned), tail[0], tail[1], tail[2], tail[3]];
  }

  lemma HintTells(p: Payload, maxBytes: nat)
    ensures Hint(p, maxBytes) ==
            "Response exceeded the " + Decimal(maxBytes) + if NamesNextPage(p) then CONTINUE else NARROW
  {
    assert NamesNextPage(p) <==>
           Lookup(p, "nextPageToken").Some? && Truthy(Lookup(p, "nextPageToken").value);
  }

  /******* Projection *******/

  function Select(d: Dict<string, Json>, allow: set<string>): Dict<string, Json> {
    if d == [] then []
    else if d[0].key in allow then [d[0]] + Select(d[1..], allow)
    else Select(d[1..], allow)
  }

  function ProjectItems(items: seq<Json>, allow: set<string>): seq<Json> {
    if items == [] then []
    else if items[0].Obj? then [Obj(Select(items[0].entries, allow))] + ProjectItems(items[1..], allow)
    else ProjectItems(items[1..], allow)
  }

  function ProjectValue(v: Json, allow: set<string>): Json {
    if IsList(v) && v.items[0].Obj? then Arr(ProjectItems(v.items, allow)) else v
  }

  function Project(d: Dict<string, Json>, allow: set<string>): Dict<string, Json> {
    if d == [] then [] else [Item(d[0].key, ProjectValue(d[0].value, allow))] + Project(d[1..], allow)
  }

  method ApplyFieldsProjection(result: Json, fields: seq<string>) returns (r: Json)
    ensures r == if fields == [] || !result.Obj? then result
                 else Obj(Project(result.entries, set f | f in fields))
  {
    if fields == [] || !result.Obj? { return result; }
    var allow := set f | f in fields;
    var out: Dict<string, Json> := [];
    for i := 0 to |result.entries|
      invariant out + Project(result.entries[i..], allow) == Project(result.entries, allow)
    {
      var rest := result.entries[i..];
      var e := Item(rest[0].key, ProjectValue(rest[0].value, allow));
      assert rest[1..] == result.entries[i + 1..];
      assert out + ([e] + Project(rest[1..], allow)) == out + [e] + Project(rest[1..], allow);
      out := out + [e];
    }
    r := Obj(out);
  }

  /** Of one object, in order, exactly the entries whose keys are asked for. */
  lemma {:induction false} SelectParts(a: Dict<string, Json>, e: Item<string, Json>, b: Dict<string, Json>,
                                       allow: set<string>)
    ensures Select(a + [e] + b, allow) == Select(a, allow) + (if e.key in allow then [e] else []) + Select(b, allow)
  {
    if a == [] {
      assert a + [e] + b == [e] + b;
    } else {
      SelectParts(a[1..], e, b, allow);
      assert (a + [e] + b)[0] == a[0] && (a + [e] + b)[1..] == a[1..] + [e] + b;
    }
  }

  /** Of one list, in order, exactly the objects, each with the entries asked for. */
  lemma {:induction false} ProjectItemsParts(a: seq<Json>, x: Json, b: seq<Json>, allow: set<string>)
    ensures ProjectItems(a + [x] + b, allow) ==
            ProjectItems(a, allow) + (if x.Obj? then [Obj(Select(x.entries, allow))] else []) + ProjectItems(b, allow)
  {
    if a == [] {
      assert a + [x] + b == [x] + b;
    } else {
      ProjectItemsParts(a[1..], x, b, allow);
      assert (a + [x] + b)[0] == a[0] && (a + [x] + b)[1..] == a[1..] + [x] + b;
    }
  }

  /** A field of a list item survives exactly when it is asked for, unchanged; other values are not touched. */
  lemma ProjectionKeeps(
    p: Payload, key: string, a: seq<Json>, item: Dict<string, Json>, b: seq<Json>, allow: set<string>, field: string)
    requires Lookup(p, key) == Some(Arr(a + [Obj(item)] + b)) && (a == [] || a[0].Obj?)
    ensures Lookup(Project(p, allow), key) ==
            Some(Arr(ProjectItems(a, allow) + [Obj(Select(item, allow))] + ProjectItems(b, allow)))
    ensures Lookup(Select(item, allow), field) == if field in allow then Lookup(item, field) else None
  {
    ProjectSpec(p, allow, key);
    ProjectItemsParts(a, Obj(item), b, allow);
    SelectLookup(item, allow, field);
    assert (a + [Obj(item)] + b)[0] == if a == [] then Obj(item) else a[0];
  }

  lemma {:induction false} SelectLookup(d: Dict<string, Json>, allow: set<string>, field: string)
    ensures Lookup(Select(d, allow), field) == if field in allow then Lookup(d, field) else None
  {
    if d != [] { SelectLookup(d[1..], allow, field); }
  }

  lemma OthersNotProjected(p: Payload, key: string, value: Json, allow: set<string>)
    requires Lookup(p, key) == Some(value)
    requires value.Arr? && value.items != [] ==> !value.items[0].Obj?
    ensures Lookup(Project(p, allow), key) == Some(value)
  {
    ProjectSpec(p, allow, key);
  }

  lemma {:induction false} SelectShrinks(d: Dict<string, Json>, allow: set<string>)
    ensures EntriesBytes(Select(d, allow)) <= EntriesBytes(d) && |Select(d, allow)| <= |d|
  {
    if d != [] {
      SelectShrinks(d[1..], allow);
      if d[0].key in allow { assert ([d[0]] + Select(d[1..], allow))[1..] == Select(d[1..], allow); }
    }
  }

  lemma SelectedItemShrinks(d: Dict<string, Json>, allow: set<string>)
    ensures ByteLen(Obj(Select(d, allow))) <= ByteLen(Obj(d))
  {
    SelectShrinks(d, allow);
    ObjectBytes(d);
    ObjectBytes(Select(d, allow));
  }

  lemma {:induction false} ProjectItemsShrinks(items: seq<Json>, allow: set<string>)
    ensures ItemsBytes(ProjectItems(items, allow)) <= ItemsBytes(items)
    ensures |ProjectItems(items, allow)| <= |items|
  {
    if items != [] {
      ProjectItemsShrinks(items[1..], allow);
      if items[0].Obj? {
        var head := Obj(Select(items[0].entries, allow));
        SelectedItemShrinks(items[0].entries, allow);
        assert ([head] + ProjectItems(items[1..], allow))[1..] == ProjectItems(items[1..], allow);
      }
    }
  }

  lemma ProjectValueShrinks(v: Json, allow: set<string>)
    ensures ByteLen(ProjectValue(v, allow)) <= ByteLen(v)
  {
    if IsList(v) && v.items[0].Obj? {
      ProjectItemsShrinks(v.items, allow);
      ArrayBytes(v.items);
      ArrayBytes(ProjectItems(v.items, allow));
    }
  }

  /** Projection keeps every key in place and never makes a payload larger. */
  lemma {:induction false} ProjectSpec(d: Dict<string, Json>, allow: set<string>, key: string)
    ensures Keys(Project(d, allow)) == Keys(d) && |Project(d, allow)| == |d|
    ensures EntriesBytes(Project(d, allow)) <= EntriesBytes(d)
    ensures Delete(Project(d, allow), key) == Project(Delete(d, key), allow)
    ensures Lookup(Project(d, allow), key) ==
            (match Lookup(d, key) case Some(v) => Some(ProjectValue(v, allow)) case None => None)
  {
    if d != [] {
      var e := Item(d[0].key, ProjectValue(d[0].value, allow));
      ProjectSpec(d[1..], allow, key);
      ProjectValueShrinks(d[0].value, allow);
      EntryLength(d[0]);
      EntryLength(e);
      assert Project(d, allow)[1..] == Project(d[1..], allow);
      if d[0].key != key { assert ([d[0]] + Delete(d[1..], key))[1..] == Delete(d[1..], key); }
    }
  }

  lemma {:induction false} ProjectedItemAt(items: seq<Json>, allow: set<string>, i: nat)
    requires i < |items| && forall x :: x in items ==> x.Obj?
    ensures |ProjectItems(items, allow)| == |items|
    ensures ProjectItems(items, allow)[i] == Obj(Select(items[i].entries, allow))
  {
    assert items[0] in items;
    if |items| > 1 {
      ProjectedItemAt(items[1..], allow, if i == 0 then 0 else i - 1);
    }
  }

  lemma {:induction false} ProjectedChargedLess(items: seq<Json>, allow: set<string>, m: nat)
    requires m <= |items| == |ProjectItems(items, allow)| && forall x :: x in items ==> x.Obj?
    ensures Charged(ProjectItems(items, allow)[..m]) <= Charged(items[..m])
    decreases m
  {
    if m > 0 {
      var out := ProjectItems(items, allow);
      ProjectedChargedLess(items, allow, m - 1);
      ProjectedItemAt(items, allow, m - 1);
      assert items[m - 1] in items;
      SelectedItemShrinks(items[m - 1].entries, allow);
      assert items[..m][..m - 1] == items[..m - 1] && out[..m][..m - 1] == out[..m - 1];
    }
  }

  /** How many items of a list reach the caller after the cap. */
  function ItemsShown(p: Payload, key: string, maxBytes: int): nat
    requires HasList(p, key)
  {
    ShownIn(Cap(Obj(p), maxBytes), key, ItemsOf(p, key))
  }

  function ShownIn(shaped: Shaped, key: string, items: seq<Json>): nat {
    if !shaped.Page? then |items|
    else
      var shown := Lookup(shaped.entries, key);
      if shown.Some? && shown.value.Arr? then |shown.value.items| else 0
  }

  lemma ShownWhenTrimmed(p: Payload, main: string, key: string, maxBytes: nat)
    requires HasList(p, main) && HasList(p, key)
    ensures ShownIn(Page(Truncated(p, main, maxBytes)), key, ItemsOf(p, key)) ==
            if key == CAPPED then 0 else if key == main then Returned(p, key, maxBytes) else |ItemsOf(p, key)|
  {
    OthersUntouched(p, main, maxBytes, key);
  }

  /** What the caller sees of any list: all of it, unless it is the one that is trimmed. */
  lemma ShownExactly(p: Payload, key: string, maxBytes: int)
    requires HasList(p, key)
    ensures ItemsShown(p, key, maxBytes) ==
            if maxBytes <= 0 || ByteLen(Obj(p)) <= maxBytes then |ItemsOf(p, key)|
            else if key == CAPPED then 0
            else if PickMainListKey(p) == Some(key) then Returned(p, key, maxBytes)
            else |ItemsOf(p, key)|
  {
    if 0 < maxBytes < ByteLen(Obj(p)) {
      LookupMember(p, key);
      var i := At(p, key);
      PickExactlyWhen(p, i);
      var main := PickMainListKey(p).value;
      PickedHasList(p);
      MainListCapped(p, main, maxBytes);
      ShownWhenTrimmed(p, main, key, maxBytes);
    }
  }

  lemma ProjectedBudget(p: Payload, q: Payload, key: string, allow: set<string>, maxBytes: int)
    requires q == Project(p, allow)
    ensures Budget(q, key, maxBytes) >= Budget(p, key, maxBytes)
    ensures ByteLen(Obj(q)) <= ByteLen(Obj(p))
  {
    var e := [Item(key, Arr([]))];
    ProjectSpec(p, allow, key);
    ProjectSpec(Delete(p, key), allow, key);
    EntriesBytesConcat(Delete(p, key), e);
    EntriesBytesConcat(Delete(q, key), e);
    ObjectBytes(Skeleton(p, key));
    ObjectBytes(Skeleton(q, key));
    ObjectBytes(p);
    ObjectBytes(q);
  }

  /** A list that projection does not thin out: it is left alone, or all its items are objects. */
  ghost predicate Uniform(items: seq<Json>) {
    items == [] || !items[0].Obj? || forall x :: x in items ==> x.Obj?
  }

  lemma ProjectedList(p: Payload, q: Payload, key: string, allow: set<string>)
    requires q == Project(p, allow) && HasList(p, key) && Uniform(ItemsOf(p, key))
    ensures HasList(q, key) && |ItemsOf(q, key)| == |ItemsOf(p, key)|
    ensures ItemsOf(q, key) == if ItemsOf(p, key)[0].Obj? then ProjectItems(ItemsOf(p, key), allow) else ItemsOf(p, key)
  {
    ProjectSpec(p, allow, key);
    if ItemsOf(p, key)[0].Obj? { ProjectedItemAt(ItemsOf(p, key), allow, 0); }
  }

  lemma ReturnedGrows(p: Payload, q: Payload, key: string, allow: set<string>, maxBytes: int)
    requires q == Project(p, allow) && HasList(p, key) && Uniform(ItemsOf(p, key))
    ensures HasList(q, key) && Returned(q, key, maxBytes) >= Returned(p, key, maxBytes)
  {
    ProjectedList(p, q, key, allow);
    ProjectedBudget(p, q, key, allow, maxBytes);
    var items, out, n := ItemsOf(p, key), ItemsOf(q, key), Returned(p, key, maxBytes);
    LongestPrefixKept(items, Budget(p, key, maxBytes), n);
    if items[0].Obj? { ProjectedChargedLess(items, allow, n); }
    LongestPrefixKept(out, Budget(q, key, maxBytes), n);
  }

  /** Projecting before capping never costs items of the list that would be trimmed without projection. */
  lemma ProjectionNeverCostsItems(p: Payload, q: Payload, key: string, allow: set<string>, maxBytes: int)
    requires q == Project(p, allow) && PickMainListKey(p) == Some(key)
    requires HasList(p, key) ==> Uniform(ItemsOf(p, key))
    ensures HasList(p, key) && HasList(q, key) && ItemsShown(q, key, maxBytes) >= ItemsShown(p, key, maxBytes)
  {
    PickedHasList(p);
    ProjectedList(p, q, key, allow);
    ProjectedBudget(p, q, key, allow, maxBytes);
    ReturnedGrows(p, q, key, allow, maxBytes);
    ShownExactly(p, key, maxBytes);
    ShownExactly(q, key, maxBytes);
  }

  /**
   * The projected payload is over the cap, and the list trimmed in it was not the one trimmed before.  (A list under
   * the metadata's own key is lost to the metadata either way.)
   */
  ghost predicate MovesTrimming(p: Payload, q: Payload, maxBytes: int) {
    && 0 < maxBytes < ByteLen(Obj(q))
    && PickMainListKey(q).Some? && PickMainListKey(q) !in {PickMainListKey(p), Some(CAPPED)}
  }

  /**
   * Projecting before capping shows no fewer items of any list exactly when trimming does not move to another list
   * that then loses items.
   */
  lemma ProjectionCostsNothingExactlyWhen(p: Payload, q: Payload, allow: set<string>, maxBytes: int)
    requires q == Project(p, allow)
    requires forall key :: HasList(p, key) ==> Uniform(ItemsOf(p, key))
    ensures forall key :: HasList(p, key) ==> HasList(q, key)
    ensures (forall key :: HasList(p, key) ==> ItemsShown(q, key, maxBytes) >= ItemsShown(p, key, maxBytes)) <==>
              (MovesTrimming(p, q, maxBytes) ==>
                 var other := PickMainListKey(q).value;
                 HasList(q, other) && MostThatFit(ItemsOf(q, other), Budget(q, other, maxBytes), |ItemsOf(q, other)|))
  {
    forall key | HasList(p, key) ensures HasList(q, key) { ProjectedList(p, q, key, allow); }
    PickedHasList(q);
    if MovesTrimming(p, q, maxBytes) {
      var other := PickMainListKey(q).value;
      NewlyTrimmed(p, q, other, allow, maxBytes);
      ReturnedMost(q, other, maxBytes, |ItemsOf(q, other)|);
    }
    if MovesTrimming(p, q, maxBytes) ==>
         var other := PickMainListKey(q).value;
         MostThatFit(ItemsOf(q, other), Budget(q, other, maxBytes), |ItemsOf(q, other)|) {
      forall key | HasList(p, key) ensures ItemsShown(q, key, maxBytes) >= ItemsShown(p, key, maxBytes) {
        NoListLoses(p, q, key, allow, maxBytes);
      }
    }
  }

  lemma NewlyTrimmed(p: Payload, q: Payload, other: string, allow: set<string>, maxBytes: int)
    requires q == Project(p, allow) && MovesTrimming(p, q, maxBytes)
    requires PickMainListKey(q) == Some(other) && (HasList(p, other) ==> Uniform(ItemsOf(p, other)))
    ensures HasList(q, other) && HasList(p, other)
    ensures ItemsShown(q, other, maxBytes) == Returned(q, other, maxBytes)
    ensures ItemsShown(p, other, maxBytes) == |ItemsOf(q, other)|
  {
    PickedHasList(q);
    ProjectSpec(p, allow, other);
    LookupMember(p, other);
    ProjectedList(p, q, other, allow);
    ProjectedBudget(p, q, other, allow, maxBytes);
    ShownExactly(p, other, maxBytes);
    ShownExactly(q, other, maxBytes);
  }

  lemma NoListLoses(p: Payload, q: Payload, key: string, allow: set<string>, maxBytes: int)
    requires q == Project(p, allow) && HasList(p, key) && Uniform(ItemsOf(p, key))
    requires HasList(q, key) && MovesTrimming(p, q, maxBytes) && PickMainListKey(q) == Some(key) ==>
               MostThatFit(ItemsOf(q, key), Budget(q, key, maxBytes), |ItemsOf(q, key)|)
    ensures HasList(q, key) && ItemsShown(q, key, maxBytes) >= ItemsShown(p, key, maxBytes)
  {
    LookupMember(p, key);
    ProjectedList(p, q, key, allow);
    ProjectedBudget(p, q, key, allow, maxBytes);
    ReturnedGrows(p, q, key, allow, maxBytes);
    ReturnedMost(q, key, maxBytes, |ItemsOf(q, key)|);
    ShownExactly(p, key, maxBytes);
    ShownExactly(q, key, maxBytes);
  }

  lemma {:induction false} ProjectAt(d: Dict<string, Json>, allow: set<string>, i: nat)
    requires i < |d|
    ensures |Project(d, allow)| == |d| && Project(d, allow)[i] == Item(d[i].key, ProjectValue(d[i].value, allow))
  {
    if i > 0 {
      ProjectAt(d[1..], allow, i - 1);
    } else if |d| > 1 {
      ProjectAt(d[1..], allow, 0);
    }
  }

  /** After projection, this list is the first of the largest. */
  ghost predicate MainProjected(d: Dict<string, Json>, allow: set<string>, i: nat) {
    && i < |d| && IsList(ProjectValue(d[i].value, allow))
    && forall j :: 0 <= j < |d| && IsList(ProjectValue(d[j].value, allow)) ==>
         var mine, its := ByteLen(ProjectValue(d[i].value, allow)), ByteLen(ProjectValue(d[j].value, allow));
         its <= mine && (j < i ==> its < mine)
  }

  /** Which list is trimmed after projection, said of the payload before it. */
  lemma ProjectedPickExactlyWhen(p: Payload, q: Payload, allow: set<string>, i: nat)
    requires q == Project(p, allow) && i < |p|
    ensures PickMainListKey(q) == Some(p[i].key) <==> MainProjected(p, allow, i)
  {
    forall j | 0 <= j < |p| ensures |q| == |p| && q[j] == Item(p[j].key, ProjectValue(p[j].value, allow)) {
      ProjectAt(p, allow, j);
    }
    PickExactlyWhen(q, i);
  }

  /** With a single list in the payload the trimmed list is the same one with and without projection. */
  lemma SingleListProjection(p: Payload, q: Payload, key: string, allow: set<string>, maxBytes: int)
    requires q == Project(p, allow)
    requires HasList(p, key) && Uniform(ItemsOf(p, key)) && forall e :: e in p && IsList(e.value) ==> e.key == key
    ensures PickMainListKey(p) == Some(key) == PickMainListKey(q)
    ensures HasList(q, key) && ItemsShown(q, key, maxBytes) >= ItemsShown(p, key, maxBytes)
  {
    OnlyListPicked(p, key);
    ProjectionNeverCostsItems(p, q, key, allow, maxBytes);
    forall e | e in q && IsList(e.value) ensures e.key == key {
      ProjectSpec(p, allow, e.key);
      LookupUnique(q, e);
      LookupMember(p, e.key);
    }
    OnlyListPicked(q, key);
  }

  /**
   * With two lists, projection can shrink the longer one and so have the other trimmed, which was shown whole before:
   * it loses items when it does not fit what the cap leaves for them.
   */
  lemma ProjectionCanCostItems(p: Payload, q: Payload, fat: Json, plain: Json, allow: set<string>, maxBytes: nat)
    requires p == [Item("a", fat), Item("b", plain)] && q == Project(p, allow)
    requires IsList(fat) && IsList(plain) && !plain.items[0].Obj?
    requires ByteLen(ProjectValue(fat, allow)) < ByteLen(plain) < ByteLen(fat)
    requires 0 < maxBytes < ByteLen(Obj(q)) && Charged(plain.items) > Budget(q, "b", maxBytes)
    ensures HasList(p, "b") && HasList(q, "b")
    ensures ItemsShown(q, "b", maxBytes) < ItemsShown(p, "b", maxBytes) == |plain.items|
  {
    TwoProjected(p, fat, plain, allow);
    TwoListsPick(p, fat, plain);
    TwoListsPick(q, ProjectValue(fat, allow), plain);
    ProjectedBudget(p, q, "b", allow, maxBytes);
    NewlyTrimmed(p, q, "b", allow, maxBytes);
    LongestPrefixKept(plain.items, Budget(q, "b", maxBytes), |plain.items|);
    assert plain.items[..|plain.items|] == plain.items;
  }

  lemma TwoListsPick(p: Payload, a: Json, b: Json)
    requires p == [Item("a", a), Item("b", b)] && IsList(a) && IsList(b)
    ensures PickMainListKey(p) == Some(if ByteLen(b) > ByteLen(a) then "b" else "a")
    ensures HasList(p, "b") && ItemsOf(p, "b") == b.items
  {
    PickExactlyWhen(p, if ByteLen(b) > ByteLen(a) then 1 else 0);
    assert p[1] in p;
    LookupUnique(p, p[1]);
    assert p[1..] == [Item("b", b)] && p[1..][1..] == [];
  }

  lemma TwoProjected(p: Payload, fat: Json, plain: Json, allow: set<string>)
    requires p == [Item("a", fat), Item("b", plain)]
    ensures Project(p, allow) == [Item("a", ProjectValue(fat, allow)), Item("b", ProjectValue(plain, allow))]
  {
    ProjectAt(p, allow, 0);
    ProjectAt(p, allow, 1);
  }

  function Letters(n: nat): string { seq(n, _ => 'x') }

  lemma ListOfOne(j: Json)
    ensures ByteLen(Arr([j])) == 2 + ByteLen(j) && Charged([j]) == ByteLen(j) + 1
  {
    ArrayBytes([j]);
    assert ItemsBytes([j]) == ByteLen(j) && [j][..0] == [];
  }

  lemma LettersBytes(n: nat)
    ensures ByteLen(Str(Letters(n))) == n + 2
  {
    PlainBytes(Letters(n));
    QuotedBytes(Letters(n));
  }

  function Fat(n: nat): Json { Arr([Obj([Item("x", Str(Letters(n)))])]) }

  lemma FatBytes(n: nat)
    ensures ByteLen(Fat(n)) == n + 11
    ensures ByteLen(ProjectValue(Fat(n), {"y"})) == 4
  {
    var e := Item("x", Str(Letters(n)));
    assert EntriesBytes([e]) == EntryBytes(e);
    ObjectBytes([e]);
    EntryLength(e);
    LettersBytes(n);
    PlainBytes("x");
    QuotedBytes("x");
    ListOfOne(Obj([e]));
    assert Select([e], {"y"}) == [] && [Obj([e])][1..] == [];
    assert ProjectItems([Obj([e])], {"y"}) == [Obj([])];
    ListOfOne(Obj([]));
    ObjectBytes([]);
  }

  /** Under every cap there is such a payload: a text as long as the cap beside an object with a longer one. */
  lemma ProjectionCostsUnderEveryCap(maxBytes: nat) returns (p: Payload, q: Payload)
    requires maxBytes > 0
    ensures q == Project(p, {"y"}) && HasList(p, "b") && HasList(q, "b")
    ensures ItemsShown(q, "b", maxBytes) == 0 < ItemsShown(p, "b", maxBytes)
  {
    var fat, plain := Fat(2 * maxBytes + 10), Arr([Str(Letters(maxBytes))]);
    var entries := [Item("a", fat), Item("b", plain)];
    TwoKeys(fat, plain);
    p := entries;
    ProjectSpec(p, {"y"}, "b");
    q := Project(p, {"y"});
    FatBytes(2 * maxBytes + 10);
    LettersBytes(maxBytes);
    ListOfOne(Str(Letters(maxBytes)));
    TwoProjected(p, fat, plain, {"y"});
    LongerThanEntry(ProjectValue(fat, {"y"}), plain);
    ProjectionCanCostItems(p, q, fat, plain, {"y"}, maxBytes);
  }

  lemma TwoKeys(a: Json, b: Json)
    ensures Keys([Item("a", a), Item("b", b)]) == ["a", "b"] && Distinct(Keys([Item("a", a), Item("b", b)]))
  {
    var d := [Item("a", a), Item("b", b)];
    assert d[1..] == [Item("b", b)] && d[1..][1..] == [];
    assert Keys(d[1..]) == ["b"] && ["a", "b"][1..] == ["b"] && ["b"][1..] == [];
  }

  lemma LongerThanEntry(a: Json, b: Json)
    ensures ByteLen(Obj([Item("a", a), Item("b", b)])) > ByteLen(b)
  {
    var d := [Item("a", a), Item("b", b)];
    assert d[1..] == [Item("b", b)] && d[1..][1..] == [];
    ObjectBytes(d);
    EntryLength(Item("b", b));
    assert EntriesBytes(d) == EntryBytes(d[0]) + EntriesBytes(d[1..]);
    assert EntriesBytes(d[1..]) == EntryBytes(Item("b", b));
  }
}
