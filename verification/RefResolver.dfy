/** Resolution of local $refs in an OpenAPI document, safe against cycles. */
module RefResolver {
  import opened Wrappers
  import opened OrderedDict
  import opened Json
  import opened Text

  const REF := "$ref"

  /******* References *******/

  function Walk(cur: Json, path: seq<string>): Option<Json>
    decreases |path|
  {
    if path == [] then Some(cur)
    else if !cur.Obj? then None
    else match Lookup(cur.entries, path[0])
         case None => None
         case Some(next) => Walk(next, path[1..])
  }

  predicate IsLocal(ref: string) { |ref| >= 2 && ref[..2] == "#/" }

  /** The target of a reference; a missing one and a JSON null are both nothing. */
  function Target(ref: string, spec: Json): Option<Json> {
    if !IsLocal(ref) then None
    else
      var t := Walk(spec, Split(ref[2..], '/'));
      if t == Some(Null) then None else t
  }

  method FollowRef(ref: string, spec: Json) returns (r: Option<Json>)
    ensures r == Target(ref, spec)
  {
    if !IsLocal(ref) { return None; }
    var parts := Split(ref[2..], '/');
    var cur := spec;
    for i := 0 to |parts|
      invariant Walk(cur, parts[i..]) == Walk(spec, parts)
    {
      assert parts[i..][1..] == parts[i + 1..];
      if !cur.Obj? || Lookup(cur.entries, parts[i]).None? { return None; }
      cur := Lookup(cur.entries, parts[i]).value;
    }
    if cur == Null { return None; }
    r := Some(cur);
  }

  /** The reference a node is, when it is one. */
  function RefOf(node: Json): Option<string> {
    if node.Obj? && Lookup(node.entries, REF).Some? && Lookup(node.entries, REF).value.Str?
    then Some(Lookup(node.entries, REF).value.s) else None
  }

  /******* The references a document can ever follow *******/

  ghost function Refs(node: Json): set<string>
    decreases node, 1
  {
    (if RefOf(node).Some? then {RefOf(node).value} else {}) +
    (match node
     case Obj(entries) => EntriesRefs(entries)
     case Arr(items) => ItemsRefs(items)
     case _ => {})
  }

  ghost function ItemsRefs(items: seq<Json>): set<string>
    decreases items, 0
  {
    if items == [] then {} else Refs(items[0]) + ItemsRefs(items[1..])
  }

  ghost function EntryRefs(e: Item<string, Json>): set<string>
    decreases e, 0
  {
    Refs(e.value)
  }

  ghost function EntriesRefs(entries: Dict<string, Json>): set<string>
    decreases entries, 0
  {
    if entries == [] then {} else EntryRefs(entries[0]) + EntriesRefs(entries[1..])
  }

  lemma {:induction false} LookupRefs(entries: Dict<string, Json>, key: string)
    requires Lookup(entries, key).Some?
    ensures Refs(Lookup(entries, key).value) <= EntriesRefs(entries)
  {
    if entries[0].key != key { LookupRefs(entries[1..], key); }
  }

  lemma {:induction false} WalkRefs(cur: Json, path: seq<string>)
    requires Walk(cur, path).Some?
    ensures Refs(Walk(cur, path).value) <= Refs(cur)
    decreases |path|
  {
    if path != [] {
      LookupRefs(cur.entries, path[0]);
      WalkRefs(Lookup(cur.entries, path[0]).value, path[1..]);
    }
  }

  lemma TargetRefs(ref: string, spec: Json)
    requires Target(ref, spec).Some?
    ensures Refs(Target(ref, spec).value) <= Refs(spec)
  {
    WalkRefs(spec, Split(ref[2..], '/'));
  }

  /******* Resolution *******/

  function Stub(ref: string): Json {
    Obj([Item("description", Str("(cyclic reference: " + ref + ")"))])
  }

  ghost function Unseen(node: set<string>, spec: Json, seen: set<string>): set<string> {
    node + Refs(spec) - seen
  }

  function Resolve(node: Json, spec: Json, seen: set<string>): Json
    decreases Unseen(Refs(node), spec, seen), node, 1
  {
    match RefOf(node)
    case Some(ref) =>
      if ref in seen then Stub(ref)
      else
        var target := Target(ref, spec);
        if target.None? then Obj([])
        else
          ResolveShrinks(node, ref, spec, seen);
          Resolve(target.value, spec, seen + {ref})
    case None =>
      match node
      case Obj(entries) => Obj(ResolveEntries(entries, spec, seen))
      case Arr(items) => Arr(ResolveItems(items, spec, seen))
      case _ => node
  }

  function ResolveItems(items: seq<Json>, spec: Json, seen: set<string>): seq<Json>
    decreases Unseen(ItemsRefs(items), spec, seen), items, 0
  {
    if items == [] then [] else [Resolve(items[0], spec, seen)] + ResolveItems(items[1..], spec, seen)
  }

  function ResolveEntry(e: Item<string, Json>, spec: Json, seen: set<string>): Item<string, Json>
    decreases Unseen(EntryRefs(e), spec, seen), e, 0
  {
    Item(e.key, Resolve(e.value, spec, seen))
  }

  function ResolveEntries(entries: Dict<string, Json>, spec: Json, seen: set<string>): Dict<string, Json>
    decreases Unseen(EntriesRefs(entries), spec, seen), entries, 0
  {
    if entries == [] then [] else [ResolveEntry(entries[0], spec, seen)] + ResolveEntries(entries[1..], spec, seen)
  }

  /** Following a reference not yet seen leaves strictly fewer to follow. */
  lemma ResolveShrinks(node: Json, ref: string, spec: Json, seen: set<string>)
    requires RefOf(node) == Some(ref) && ref !in seen && Target(ref, spec).Some?
    ensures Unseen(Refs(Target(ref, spec).value), spec, seen + {ref}) < Unseen(Refs(node), spec, seen)
  {
    TargetRefs(ref, spec);
    assert ref in Unseen(Refs(node), spec, seen);
  }

  /******* Full inlining, the reference definition: no memory of what was followed, only a depth *******/

  function Inline(node: Json, spec: Json, depth: nat): Option<Json>
    decreases depth, node, 1
  {
    match RefOf(node)
    case Some(ref) =>
      var target := Target(ref, spec);
      if target.None? then Some(Obj([]))
      else if depth == 0 then None
      else Inline(target.value, spec, depth - 1)
    case None =>
      match node
      case Obj(entries) =>
        var r := InlineEntries(entries, spec, depth);
        if r.None? then None else Some(Obj(r.value))
      case Arr(items) =>
        var r := InlineItems(items, spec, depth);
        if r.None? then None else Some(Arr(r.value))
      case _ => Some(node)
  }

  function InlineItems(items: seq<Json>, spec: Json, depth: nat): Option<seq<Json>>
    decreases depth, items, 0
  {
    if items == [] then Some([])
    else
      var head, rest := Inline(items[0], spec, depth), InlineItems(items[1..], spec, depth);
      if head.None? || rest.None? then None else Some([head.value] + rest.value)
  }

  function InlineEntry(e: Item<string, Json>, spec: Json, depth: nat): Option<Item<string, Json>>
    decreases depth, e, 0
  {
    var r := Inline(e.value, spec, depth);
    if r.None? then None else Some(Item(e.key, r.value))
  }

  function InlineEntries(entries: Dict<string, Json>, spec: Json, depth: nat): Option<Dict<string, Json>>
    decreases depth, entries, 0
  {
    if entries == [] then Some([])
    else
      var head, rest := InlineEntry(entries[0], spec, depth), InlineEntries(entries[1..], spec, depth);
      if head.None? || rest.None? then None else Some([head.value] + rest.value)
  }

  /** What a reference inlines to within a depth. */
  function InlineRef(ref: string, spec: Json, depth: nat): Option<Json> {
    if Target(ref, spec).None? then Some(Obj([]))
    else if depth == 0 then None
    else Inline(Target(ref, spec).value, spec, depth - 1)
  }

  lemma {:induction false} InlineDeeper(node: Json, spec: Json, m: nat, n: nat)
    requires m <= n && Inline(node, spec, m).Some?
    ensures Inline(node, spec, n) == Inline(node, spec, m)
    decreases m, node, 1
  {
    if RefOf(node).Some? {
      var target := Target(RefOf(node).value, spec);
      if target.Some? { InlineDeeper(target.value, spec, m - 1, n - 1); }
    } else if node.Obj? {
      InlineEntriesDeeper(node.entries, spec, m, n);
    } else if node.Arr? {
      InlineItemsDeeper(node.items, spec, m, n);
    }
  }

  lemma {:induction false} InlineItemsDeeper(items: seq<Json>, spec: Json, m: nat, n: nat)
    requires m <= n && InlineItems(items, spec, m).Some?
    ensures InlineItems(items, spec, n) == InlineItems(items, spec, m)
    decreases m, items, 0
  {
    if items != [] {
      InlineDeeper(items[0], spec, m, n);
      InlineItemsDeeper(items[1..], spec, m, n);
    }
  }

  lemma {:induction false} InlineEntryDeeper(e: Item<string, Json>, spec: Json, m: nat, n: nat)
    requires m <= n && InlineEntry(e, spec, m).Some?
    ensures InlineEntry(e, spec, n) == InlineEntry(e, spec, m)
    decreases m, e, 0
  {
    InlineDeeper(e.value, spec, m, n);
  }

  lemma {:induction false} InlineEntriesDeeper(entries: Dict<string, Json>, spec: Json, m: nat, n: nat)
    requires m <= n && InlineEntries(entries, spec, m).Some?
    ensures InlineEntries(entries, spec, n) == InlineEntries(entries, spec, m)
    decreases m, entries, 0
  {
    if entries != [] {
      InlineEntryDeeper(entries[0], spec, m, n);
      InlineEntriesDeeper(entries[1..], spec, m, n);
    }
  }

  lemma InlineRefDeeper(ref: string, spec: Json, m: nat, n: nat)
    requires m <= n && InlineRef(ref, spec, m).Some?
    ensures InlineRef(ref, spec, n) == InlineRef(ref, spec, m)
  {
    if Target(ref, spec).Some? { InlineDeeper(Target(ref, spec).value, spec, m - 1, n - 1); }
  }

  /** The least depth at which a reference inlines. */
  function LeastDepth(ref: string, spec: Json, n: nat): (m: nat)
    requires InlineRef(ref, spec, n).Some?
    ensures m <= n && InlineRef(ref, spec, m).Some?
    ensures m > 0 ==> InlineRef(ref, spec, m - 1).None?
  {
    if n == 0 || InlineRef(ref, spec, n - 1).None? then n else LeastDepth(ref, spec, n - 1)
  }

  /******* Resolution is full inlining exactly when no cycle is met *******/

  /** Following references from the node never meets one that is already being followed. */
  predicate CycleFree(node: Json, spec: Json, seen: set<string>)
    decreases Unseen(Refs(node), spec, seen), node, 1
  {
    match RefOf(node)
    case Some(ref) =>
      if ref in seen then false
      else if Target(ref, spec).None? then true
      else
        ResolveShrinks(node, ref, spec, seen);
        CycleFree(Target(ref, spec).value, spec, seen + {ref})
    case None =>
      match node
      case Obj(entries) => EntriesCycleFree(entries, spec, seen)
      case Arr(items) => ItemsCycleFree(items, spec, seen)
      case _ => true
  }

  predicate ItemsCycleFree(items: seq<Json>, spec: Json, seen: set<string>)
    decreases Unseen(ItemsRefs(items), spec, seen), items, 0
  {
    items == [] || (CycleFree(items[0], spec, seen) && ItemsCycleFree(items[1..], spec, seen))
  }

  predicate EntryCycleFree(e: Item<string, Json>, spec: Json, seen: set<string>)
    decreases Unseen(EntryRefs(e), spec, seen), e, 0
  {
    CycleFree(e.value, spec, seen)
  }

  predicate EntriesCycleFree(entries: Dict<string, Json>, spec: Json, seen: set<string>)
    decreases Unseen(EntriesRefs(entries), spec, seen), entries, 0
  {
    entries == [] || (EntryCycleFree(entries[0], spec, seen) && EntriesCycleFree(entries[1..], spec, seen))
  }

  /** The references being followed do not inline within the depth that is still needed. */
  ghost predicate Deep(seen: set<string>, spec: Json, n: nat) {
    forall r :: r in seen ==> InlineRef(r, spec, n).None?
  }

  lemma {:induction false} InlinesIsResolved(node: Json, spec: Json, seen: set<string>, n: nat)
    requires Inline(node, spec, n).Some? && Deep(seen, spec, n)
    ensures Resolve(node, spec, seen) == Inline(node, spec, n).value
    ensures CycleFree(node, spec, seen)
    decreases n, node, 1
  {
    if RefOf(node).Some? {
      var ref := RefOf(node).value;
      assert InlineRef(ref, spec, n) == Inline(node, spec, n);
      if Target(ref, spec).Some? {
        var m := LeastDepth(ref, spec, n);
        InlineRefDeeper(ref, spec, m, n);
        forall r | r in seen + {ref} ensures InlineRef(r, spec, m - 1).None? {
          if r in seen && InlineRef(r, spec, m - 1).Some? { InlineRefDeeper(r, spec, m - 1, n); }
        }
        InlinesIsResolved(Target(ref, spec).value, spec, seen + {ref}, m - 1);
      }
    } else if node.Obj? {
      EntriesInlineIsResolved(node.entries, spec, seen, n);
    } else if node.Arr? {
      ItemsInlineIsResolved(node.items, spec, seen, n);
    }
  }

  lemma {:induction false} ItemsInlineIsResolved(items: seq<Json>, spec: Json, seen: set<string>, n: nat)
    requires InlineItems(items, spec, n).Some? && Deep(seen, spec, n)
    ensures ResolveItems(items, spec, seen) == InlineItems(items, spec, n).value
    ensures ItemsCycleFree(items, spec, seen)
    decreases n, items, 0
  {
    if items != [] {
      InlinesIsResolved(items[0], spec, seen, n);
      ItemsInlineIsResolved(items[1..], spec, seen, n);
    }
  }

  lemma {:induction false} EntryInlineIsResolved(e: Item<string, Json>, spec: Json, seen: set<string>, n: nat)
    requires InlineEntry(e, spec, n).Some? && Deep(seen, spec, n)
    ensures ResolveEntry(e, spec, seen) == InlineEntry(e, spec, n).value
    ensures EntryCycleFree(e, spec, seen)
    decreases n, e, 0
  {
    InlinesIsResolved(e.value, spec, seen, n);
  }

  lemma {:induction false} EntriesInlineIsResolved(entries: Dict<string, Json>, spec: Json, seen: set<string>, n: nat)
    requires InlineEntries(entries, spec, n).Some? && Deep(seen, spec, n)
    ensures ResolveEntries(entries, spec, seen) == InlineEntries(entries, spec, n).value
    ensures EntriesCycleFree(entries, spec, seen)
    decreases n, entries, 0
  {
    if entries != [] {
      EntryInlineIsResolved(entries[0], spec, seen, n);
      EntriesInlineIsResolved(entries[1..], spec, seen, n);
    }
  }

  lemma FollowingShrinksPool(node: Json, ref: string, spec: Json, seen: set<string>, pool: set<string>)
    requires RefOf(node) == Some(ref) && ref !in seen && Target(ref, spec).Some?
    requires Unseen(Refs(node), spec, seen) <= pool
    ensures Unseen(Refs(Target(ref, spec).value), spec, seen + {ref}) <= pool - {ref}
    ensures ref in pool && |pool - {ref}| == |pool| - 1
  {
    ResolveShrinks(node, ref, spec, seen);
    assert ref in Unseen(Refs(node), spec, seen);
  }

  lemma UnseenPart(part: set<string>, whole: set<string>, spec: Json, seen: set<string>, pool: set<string>)
    requires part <= whole && Unseen(whole, spec, seen) <= pool
    ensures Unseen(part, spec, seen) <= pool
  {
  }

  /** What a node may still follow lies in the pool, whose size bounds the depth needed. */
  lemma {:induction false} CycleFreeInlines(node: Json, spec: Json, seen: set<string>, pool: set<string>)
    requires CycleFree(node, spec, seen) && Unseen(Refs(node), spec, seen) <= pool
    ensures Inline(node, spec, |pool|).Some?
    decreases |pool|, node, 1
  {
    if RefOf(node).Some? {
      var ref := RefOf(node).value;
      if Target(ref, spec).Some? {
        FollowingShrinksPool(node, ref, spec, seen, pool);
        CycleFreeInlines(Target(ref, spec).value, spec, seen + {ref}, pool - {ref});
      }
    } else if node.Obj? {
      EntriesCycleFreeInline(node.entries, spec, seen, pool);
    } else if node.Arr? {
      ItemsCycleFreeInline(node.items, spec, seen, pool);
    }
  }

  lemma {:induction false} ItemsCycleFreeInline(items: seq<Json>, spec: Json, seen: set<string>, pool: set<string>)
    requires ItemsCycleFree(items, spec, seen) && Unseen(ItemsRefs(items), spec, seen) <= pool
    ensures InlineItems(items, spec, |pool|).Some?
    decreases |pool|, items, 0
  {
    if items != [] {
      UnseenPart(Refs(items[0]), ItemsRefs(items), spec, seen, pool);
      UnseenPart(ItemsRefs(items[1..]), ItemsRefs(items), spec, seen, pool);
      CycleFreeInlines(items[0], spec, seen, pool);
      ItemsCycleFreeInline(items[1..], spec, seen, pool);
    }
  }

  lemma {:induction false} EntryCycleFreeInline(e: Item<string, Json>, spec: Json, seen: set<string>, pool: set<string>)
    requires EntryCycleFree(e, spec, seen) && Unseen(EntryRefs(e), spec, seen) <= pool
    ensures InlineEntry(e, spec, |pool|).Some?
    decreases |pool|, e, 0
  {
    CycleFreeInlines(e.value, spec, seen, pool);
  }

  lemma {:induction false} EntriesCycleFreeInline(
    entries: Dict<string, Json>, spec: Json, seen: set<string>, pool: set<string>)
    requires EntriesCycleFree(entries, spec, seen) && Unseen(EntriesRefs(entries), spec, seen) <= pool
    ensures InlineEntries(entries, spec, |pool|).Some?
    decreases |pool|, entries, 0
  {
    if entries != [] {
      UnseenPart(EntryRefs(entries[0]), EntriesRefs(entries), spec, seen, pool);
      UnseenPart(EntriesRefs(entries[1..]), EntriesRefs(entries), spec, seen, pool);
      EntryCycleFreeInline(entries[0], spec, seen, pool);
      EntriesCycleFreeInline(entries[1..], spec, seen, pool);
    }
  }

  /**
   * Resolution leaves no cyclic stub exactly when the node can be inlined completely, to some depth; and then
   * the result is that complete inlining.
   */
  lemma ResolvesByInlining(node: Json, spec: Json)
    ensures CycleFree(node, spec, {}) <==> exists n: nat :: Inline(node, spec, n).Some?
    ensures forall n: nat :: Inline(node, spec, n).Some? ==> Inline(node, spec, n).value == Resolve(node, spec, {})
  {
    if CycleFree(node, spec, {}) { CycleFreeInlines(node, spec, {}, Unseen(Refs(node), spec, {})); }
    forall n: nat | Inline(node, spec, n).Some?
      ensures CycleFree(node, spec, {}) && Inline(node, spec, n).value == Resolve(node, spec, {})
    {
      InlinesIsResolved(node, spec, {}, n);
    }
  }

  /** Ranked references: each points only at nodes whose references rank lower, so there is no cycle. */
  ghost predicate Ranked(spec: Json, rank: string -> nat) {
    forall ref :: Target(ref, spec).Some? ==> Below(Refs(Target(ref, spec).value), rank, rank(ref))
  }

  ghost predicate Below(refs: set<string>, rank: string -> nat, n: nat) {
    forall r :: r in refs ==> rank(r) < n
  }

  lemma {:induction false} RankedInlines(node: Json, spec: Json, rank: string -> nat, n: nat)
    requires Ranked(spec, rank) && Below(Refs(node), rank, n)
    ensures Inline(node, spec, n).Some?
    decreases n, node, 1
  {
    if RefOf(node).Some? {
      var ref := RefOf(node).value;
      if Target(ref, spec).Some? {
        RankedInlines(Target(ref, spec).value, spec, rank, rank(ref));
        InlineDeeper(Target(ref, spec).value, spec, rank(ref), n - 1);
      }
    } else if node.Obj? {
      RankedEntriesInline(node.entries, spec, rank, n);
    } else if node.Arr? {
      RankedItemsInline(node.items, spec, rank, n);
    }
  }

  lemma {:induction false} RankedItemsInline(items: seq<Json>, spec: Json, rank: string -> nat, n: nat)
    requires Ranked(spec, rank) && Below(ItemsRefs(items), rank, n)
    ensures InlineItems(items, spec, n).Some?
    decreases n, items, 0
  {
    if items != [] {
      RankedInlines(items[0], spec, rank, n);
      RankedItemsInline(items[1..], spec, rank, n);
    }
  }

  lemma {:induction false} RankedEntryInlines(e: Item<string, Json>, spec: Json, rank: string -> nat, n: nat)
    requires Ranked(spec, rank) && Below(EntryRefs(e), rank, n)
    ensures InlineEntry(e, spec, n).Some?
    decreases n, e, 0
  {
    RankedInlines(e.value, spec, rank, n);
  }

  lemma {:induction false} RankedEntriesInline(entries: Dict<string, Json>, spec: Json, rank: string -> nat, n: nat)
    requires Ranked(spec, rank) && Below(EntriesRefs(entries), rank, n)
    ensures InlineEntries(entries, spec, n).Some?
    decreases n, entries, 0
  {
    if entries != [] {
      RankedEntryInlines(entries[0], spec, rank, n);
      RankedEntriesInline(entries[1..], spec, rank, n);
    }
  }

  /** In a document without reference cycles every node resolves to its complete inlining, with no stub. */
  lemma AcyclicResolves(node: Json, spec: Json, rank: string -> nat, n: nat)
    requires Ranked(spec, rank) && Below(Refs(node), rank, n)
    ensures Inline(node, spec, n) == Some(Resolve(node, spec, {})) && CycleFree(node, spec, {})
  {
    RankedInlines(node, spec, rank, n);
    ResolvesByInlining(node, spec);
  }

  /******* No reference is left *******/

  /** Every "$ref" of the document is a string. */
  ghost predicate PlainRefs(node: Json) {
    match node
    case Obj(entries) => forall e :: e in entries ==> (e.key == REF ==> e.value.Str?) && PlainRefs(e.value)
    case Arr(items) => forall x :: x in items ==> PlainRefs(x)
    case _ => true
  }

  ghost predicate NoRefs(node: Json) {
    match node
    case Obj(entries) => forall e :: e in entries ==> e.key != REF && NoRefs(e.value)
    case Arr(items) => forall x :: x in items ==> NoRefs(x)
    case _ => true
  }

  lemma {:induction false} WalkPlain(cur: Json, path: seq<string>)
    requires PlainRefs(cur) && Walk(cur, path).Some?
    ensures PlainRefs(Walk(cur, path).value)
    decreases |path|
  {
    if path != [] {
      LookupMember(cur.entries, path[0]);
      WalkPlain(Lookup(cur.entries, path[0]).value, path[1..]);
    }
  }

  /** When every "$ref" is a string, none is left after resolution, cycles or not. */
  lemma {:induction false} NoRefLeft(node: Json, spec: Json, seen: set<string>)
    requires PlainRefs(node) && PlainRefs(spec)
    ensures NoRefs(Resolve(node, spec, seen))
    decreases Unseen(Refs(node), spec, seen), node, 1
  {
    match RefOf(node)
    case Some(ref) =>
      if ref !in seen && Target(ref, spec).Some? {
        WalkPlain(spec, Split(ref[2..], '/'));
        ResolveShrinks(node, ref, spec, seen);
        NoRefLeft(Target(ref, spec).value, spec, seen + {ref});
      }
    case None =>
      if node.Obj? {
        if Lookup(node.entries, REF).Some? { LookupMember(node.entries, REF); }
        forall e | e in node.entries ensures e.key != REF { KeyFound(node.entries, e); }
        NoRefLeftInEntries(node.entries, spec, seen);
      } else if node.Arr? {
        NoRefLeftInItems(node.items, spec, seen);
      }
  }

  lemma {:induction false} KeyFound(d: Dict<string, Json>, e: Item<string, Json>)
    requires e in d
    ensures Lookup(d, e.key).Some?
  {
    assert d == [d[0]] + d[1..];
    if d[0].key != e.key { KeyFound(d[1..], e); }
  }

  lemma {:induction false} NoRefLeftInItems(items: seq<Json>, spec: Json, seen: set<string>)
    requires (forall x :: x in items ==> PlainRefs(x)) && PlainRefs(spec)
    ensures forall x :: x in ResolveItems(items, spec, seen) ==> NoRefs(x)
    decreases Unseen(ItemsRefs(items), spec, seen), items, 0
  {
    if items != [] {
      NoRefLeft(items[0], spec, seen);
      NoRefLeftInItems(items[1..], spec, seen);
    }
  }

  lemma {:induction false} NoRefLeftInEntry(e: Item<string, Json>, spec: Json, seen: set<string>)
    requires PlainRefs(e.value) && PlainRefs(spec)
    ensures NoRefs(ResolveEntry(e, spec, seen).value)
    decreases Unseen(EntryRefs(e), spec, seen), e, 0
  {
    NoRefLeft(e.value, spec, seen);
  }

  lemma {:induction false} NoRefLeftInEntries(entries: Dict<string, Json>, spec: Json, seen: set<string>)
    requires (forall e :: e in entries ==> e.key != REF && PlainRefs(e.value)) && PlainRefs(spec)
    ensures forall e :: e in ResolveEntries(entries, spec, seen) ==> e.key != REF && NoRefs(e.value)
    decreases Unseen(EntriesRefs(entries), spec, seen), entries, 0
  {
    if entries != [] {
      NoRefLeftInEntry(entries[0], spec, seen);
      NoRefLeftInEntries(entries[1..], spec, seen);
    }
  }

  /******* What a reference points at *******/

  /** The key's first entry holds the value. */
  ghost predicate Holds(j: Json, key: string, value: Json) {
    && j.Obj?
    && exists i :: 0 <= i < |j.entries| && j.entries[i] == Item(key, value)
                   && forall m :: 0 <= m < i ==> j.entries[m].key != key
  }

  lemma {:induction false} HoldsIsLookup(d: Dict<string, Json>, key: string, value: Json)
    ensures Holds(Obj(d), key, value) <==> Lookup(d, key) == Some(value)
  {
    if d != [] && d[0].key != key {
      HoldsIsLookup(d[1..], key, value);
      HoldsLater(d, key, value);
    } else if d != [] {
      assert Lookup(d, key) == Some(value) ==> d[0] == Item(key, value);
    }
  }

  lemma HoldsLater(d: Dict<string, Json>, key: string, value: Json)
    requires d != [] && d[0].key != key
    ensures Holds(Obj(d), key, value) <==> Holds(Obj(d[1..]), key, value)
  {
    if Holds(Obj(d), key, value) {
      var i :| 0 <= i < |d| && d[i] == Item(key, value) && forall m :: 0 <= m < i ==> d[m].key != key;
      assert d[1..][i - 1] == d[i];
    }
    if Holds(Obj(d[1..]), key, value) {
      var rest := d[1..];
      var i :| 0 <= i < |rest| && rest[i] == Item(key, value) && forall m :: 0 <= m < i ==> rest[m].key != key;
      assert d[i + 1] == Item(key, value);
      assert forall m :: 0 < m <= i ==> d[m] == rest[m - 1];
    }
  }

  /** Values of which each holds the next one under its part. */
  ghost predicate Chain(values: seq<Json>, parts: seq<string>) {
    |values| == |parts| + 1 && forall i :: 0 <= i < |parts| ==> Holds(values[i], parts[i], values[i + 1])
  }

  /** The parts with a slash before each. */
  ghost function Slashed(parts: seq<string>): string {
    if parts == [] then "" else "/" + parts[0] + Slashed(parts[1..])
  }

  /** The text is a hash and slash-separated names, and following the names from the document leads to the value. */
  ghost predicate LeadsAlong(ref: string, spec: Json, target: Json, parts: seq<string>, values: seq<Json>) {
    && parts != [] && (forall p :: p in parts ==> '/' !in p) && ref == "#" + Slashed(parts)
    && Chain(values, parts) && values[0] == spec && values[|parts|] == target
  }

  ghost predicate PointsAt(ref: string, spec: Json, target: Json) {
    exists parts, values :: LeadsAlong(ref, spec, target, parts, values)
  }

  lemma {:induction false} SlashedIsJoin(parts: seq<string>)
    ensures Slashed(parts) == Join(parts, '/')
  {
    if parts != [] { SlashedIsJoin(parts[1..]); }
  }

  lemma {:induction false} ChainWalks(values: seq<Json>, parts: seq<string>)
    requires Chain(values, parts)
    ensures Walk(values[0], parts) == Some(values[|parts|])
    decreases |parts|
  {
    if parts != [] {
      assert Holds(values[0], parts[0], values[0 + 1]);
      HoldsIsLookup(values[0].entries, parts[0], values[1]);
      ChainWalks(values[1..], parts[1..]);
    }
  }

  lemma {:induction false} WalkChains(cur: Json, parts: seq<string>) returns (values: seq<Json>)
    requires Walk(cur, parts).Some?
    ensures Chain(values, parts) && values[0] == cur && Walk(cur, parts).value == values[|parts|]
    decreases |parts|
  {
    if parts == [] {
      values := [cur];
    } else {
      var next := Lookup(cur.entries, parts[0]).value;
      HoldsIsLookup(cur.entries, parts[0], next);
      var rest := WalkChains(next, parts[1..]);
      values := [cur] + rest;
    }
  }

  lemma {:induction false} JoinSplit(s: string, sep: char)
    ensures Join(Split(s, sep), sep) == [sep] + s
    ensures forall p :: p in Split(s, sep) ==> sep !in p
  {
    if s != "" {
      var rest := Split(s[1..], sep);
      JoinSplit(s[1..], sep);
      assert rest == [rest[0]] + rest[1..] && s == [s[0]] + s[1..];
      if s[0] != sep {
        var first, more := rest[0], Join(rest[1..], sep);
        assert [sep] + first + more == [sep] + s[1..];
        assert first + more == ([sep] + first + more)[1..] == s[1..];
        assert [sep] + ([s[0]] + first) + more == [sep] + ([s[0]] + (first + more));
      }
    }
  }

  /** A reference finds a value other than null exactly when its names lead there from the document. */
  lemma TargetExactlyWhen(ref: string, spec: Json, target: Json)
    ensures Target(ref, spec) == Some(target) <==> target != Null && PointsAt(ref, spec, target)
  {
    if PointsAt(ref, spec, target) {
      var parts, values :| LeadsAlong(ref, spec, target, parts, values);
      LedThere(ref, spec, target, parts, values);
    }
    if Target(ref, spec) == Some(target) {
      var names := Split(ref[2..], '/');
      JoinSplit(ref[2..], '/');
      SlashedIsJoin(names);
      var values := WalkChains(spec, names);
      assert ref == "#/" + ref[2..];
      assert LeadsAlong(ref, spec, target, names, values);
    }
  }

  lemma LedThere(ref: string, spec: Json, target: Json, parts: seq<string>, values: seq<Json>)
    requires LeadsAlong(ref, spec, target, parts, values)
    ensures IsLocal(ref) && Walk(spec, Split(ref[2..], '/')) == Some(target)
  {
    SlashedIsJoin(parts);
    SplitJoin(parts, '/');
    var text := Slashed(parts);
    assert text == ['/'] + text[1..] && ref[2..] == text[1..] && ref[..2] == "#/";
    assert Split(text, '/') == [""] + Split(text[1..], '/');
    assert Split(text[1..], '/') == Split(text, '/')[1..] == parts;
    ChainWalks(values, parts);
  }

  /******* Resolution is the only function with these equations *******/

  /**
   * A reference not being followed gives way to its target, and to an empty object without one; a reference being
   * followed becomes a note; everything else is rebuilt in place.
   */
  ghost predicate Obeys(f: (Json, set<string>) -> Json, node: Json, spec: Json, seen: set<string>) {
    var r := f(node, seen);
    && (forall ref :: Holds(node, "$ref", Str(ref)) ==>
          if ref in seen then r == Obj([Item("description", Str("(cyclic reference: " + ref + ")"))])
          else
            && (forall t :: PointsAt(ref, spec, t) && t != Null ==> r == f(t, seen + {ref}))
            && ((forall t :: PointsAt(ref, spec, t) ==> t == Null) ==> r == Obj([])))
    && ((forall ref :: !Holds(node, "$ref", Str(ref))) ==>
          match node
          case Obj(entries) =>
            && r.Obj? && |r.entries| == |entries|
            && forall i :: 0 <= i < |entries| ==> r.entries[i] == Item(entries[i].key, f(entries[i].value, seen))
          case Arr(items) =>
            r.Arr? && |r.items| == |items| && forall i :: 0 <= i < |items| ==> r.items[i] == f(items[i], seen)
          case _ => r == node)
  }

  lemma RefIsHeld(node: Json, ref: string)
    ensures RefOf(node) == Some(ref) <==> Holds(node, "$ref", Str(ref))
  {
    if node.Obj? { HoldsIsLookup(node.entries, "$ref", Str(ref)); }
  }

  lemma {:induction false} ItemsResolved(items: seq<Json>, spec: Json, seen: set<string>)
    ensures var r := ResolveItems(items, spec, seen);
            |r| == |items| && forall i :: 0 <= i < |items| ==> r[i] == Resolve(items[i], spec, seen)
    decreases |items|
  {
    if items != [] { ItemsResolved(items[1..], spec, seen); }
  }

  lemma {:induction false} EntriesResolved(entries: Dict<string, Json>, spec: Json, seen: set<string>)
    ensures var r := ResolveEntries(entries, spec, seen);
            && |r| == |entries|
            && forall i :: 0 <= i < |entries| ==> r[i] == Item(entries[i].key, Resolve(entries[i].value, spec, seen))
    decreases |entries|
  {
    if entries != [] { EntriesResolved(entries[1..], spec, seen); }
  }

  lemma ResolveObeys(f: (Json, set<string>) -> Json, node: Json, spec: Json, seen: set<string>)
    requires forall n, s :: f(n, s) == Resolve(n, spec, s)
    ensures Obeys(f, node, spec, seen)
  {
    match RefOf(node)
    case Some(ref) =>
      forall other | Holds(node, "$ref", Str(other)) ensures other == ref { RefIsHeld(node, other); }
      RefIsHeld(node, ref);
      forall t ensures t != Null && PointsAt(ref, spec, t) <==> Target(ref, spec) == Some(t) {
        TargetExactlyWhen(ref, spec, t);
      }
    case None =>
      forall ref ensures !Holds(node, "$ref", Str(ref)) { RefIsHeld(node, ref); }
      if node.Obj? { EntriesResolved(node.entries, spec, seen); }
      if node.Arr? { ItemsResolved(node.items, spec, seen); }
  }

  lemma {:induction false} ObeyingResolves(f: (Json, set<string>) -> Json, node: Json, spec: Json, seen: set<string>)
    requires forall n, s :: Obeys(f, n, spec, s)
    ensures f(node, seen) == Resolve(node, spec, seen)
    decreases Unseen(Refs(node), spec, seen), node, 1
  {
    assert Obeys(f, node, spec, seen);
    match RefOf(node)
    case Some(ref) =>
      RefIsHeld(node, ref);
      if ref !in seen {
        forall t ensures t != Null && PointsAt(ref, spec, t) <==> Target(ref, spec) == Some(t) {
          TargetExactlyWhen(ref, spec, t);
        }
        if Target(ref, spec).Some? {
          ResolveShrinks(node, ref, spec, seen);
          ObeyingResolves(f, Target(ref, spec).value, spec, seen + {ref});
        }
      }
    case None =>
      forall ref ensures !Holds(node, "$ref", Str(ref)) { RefIsHeld(node, ref); }
      if node.Obj? {
        EntriesResolved(node.entries, spec, seen);
        ObeyingResolvesEntries(f, node.entries, spec, seen);
        assert f(node, seen).entries == ResolveEntries(node.entries, spec, seen);
      }
      if node.Arr? {
        ItemsResolved(node.items, spec, seen);
        ObeyingResolvesItems(f, node.items, spec, seen);
        assert f(node, seen).items == ResolveItems(node.items, spec, seen);
      }
  }

  lemma {:induction false} ObeyingResolvesItems(
    f: (Json, set<string>) -> Json, items: seq<Json>, spec: Json, seen: set<string>)
    requires forall n, s :: Obeys(f, n, spec, s)
    ensures forall i :: 0 <= i < |items| ==> f(items[i], seen) == Resolve(items[i], spec, seen)
    decreases Unseen(ItemsRefs(items), spec, seen), items, 0
  {
    if items != [] {
      ObeyingResolves(f, items[0], spec, seen);
      ObeyingResolvesItems(f, items[1..], spec, seen);
      assert items == [items[0]] + items[1..];
    }
  }

  lemma {:induction false} ObeyingResolvesEntry(
    f: (Json, set<string>) -> Json, e: Item<string, Json>, spec: Json, seen: set<string>)
    requires forall n, s :: Obeys(f, n, spec, s)
    ensures f(e.value, seen) == Resolve(e.value, spec, seen)
    decreases Unseen(EntryRefs(e), spec, seen), e, 0
  {
    ObeyingResolves(f, e.value, spec, seen);
  }

  lemma {:induction false} ObeyingResolvesEntries(
    f: (Json, set<string>) -> Json, entries: Dict<string, Json>, spec: Json, seen: set<string>)
    requires forall n, s :: Obeys(f, n, spec, s)
    ensures forall i :: 0 <= i < |entries| ==> f(entries[i].value, seen) == Resolve(entries[i].value, spec, seen)
    decreases Unseen(EntriesRefs(entries), spec, seen), entries, 0
  {
    if entries != [] {
      ObeyingResolvesEntry(f, entries[0], spec, seen);
      ObeyingResolvesEntries(f, entries[1..], spec, seen);
      assert entries == [entries[0]] + entries[1..];
    }
  }

  /** Resolution is the one function that obeys, at every node and for every set of references being followed. */
  lemma OneResolution(f: (Json, set<string>) -> Json, spec: Json)
    ensures (forall node, seen :: Obeys(f, node, spec, seen)) <==>
            (forall node, seen :: f(node, seen) == Resolve(node, spec, seen))
  {
    if forall node, seen :: Obeys(f, node, spec, seen) {
      forall node, seen ensures f(node, seen) == Resolve(node, spec, seen) { ObeyingResolves(f, node, spec, seen); }
    }
    if forall node, seen :: f(node, seen) == Resolve(node, spec, seen) {
      forall node, seen ensures Obeys(f, node, spec, seen) { ResolveObeys(f, node, spec, seen); }
    }
  }
}
