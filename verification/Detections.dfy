/** The newest detections of a time window: capped pagination, fallback between two endpoints, sort and slice. */
module Detections {
  import opened Wrappers
  import Sorting
  import Text

  const PAGE_CAP := 50

  datatype Detection = Detection(id: nat, severity: Option<string>, occurTime: Option<string>)

  // What one page request comes to.  An absent list or token reads as an empty one.
  datatype Reply = Page(items: seq<Detection>, next: string) | NotAnObject | Failed(error: string)

  datatype Source = V2 | V1

  // The servers: the reply to the n-th request made to an endpoint, which also sees the page token.
  type Server = (Source, nat, string) -> Reply

  datatype Fetched = Fetched(items: seq<Detection>, truncated: bool, error: Option<string>, pages: nat)

  /******* Pagination *******/

  /** The page token sent with the n-th request: the one the reply before it named. */
  ghost function TokenAt(server: Server, source: Source, n: nat): string {
    if n == 0 then ""
    else
      var r := server(source, n - 1, TokenAt(server, source, n - 1));
      if r.Page? then r.next else ""
  }

  function NextToken(r: Reply): string { if r.Page? then r.next else "" }

  function ItemsOf(r: Reply): seq<Detection> { if r.Page? then r.items else [] }

  ghost function ReplyAt(server: Server, source: Source, n: nat): Reply {
    server(source, n, TokenAt(server, source, n))
  }

  /** The items of the first n pages, in order. */
  ghost function Collected(server: Server, source: Source, n: nat): seq<Detection> {
    if n == 0 then []
    else
      var r := ReplyAt(server, source, n - 1);
      Collected(server, source, n - 1) + if r.Page? then r.items else []
  }

  /** The replies before the n-th all were pages that named a next one. */
  ghost predicate LeadsTo(server: Server, source: Source, n: nat) {
    forall i :: 0 <= i < n ==> ReplyAt(server, source, i).Page? && ReplyAt(server, source, i).next != ""
  }

  /** What a complete walk is: it stops at the first failure, at the last page, or at the cap. */
  ghost predicate Walked(server: Server, source: Source, r: Fetched) {
    if r.error.Some? then
      && r.pages < 50 && LeadsTo(server, source, r.pages) && !r.truncated
      && ReplyAt(server, source, r.pages) == Failed(r.error.value)
      && r.items == Collected(server, source, r.pages)
    else
      && 1 <= r.pages <= 50 && LeadsTo(server, source, r.pages - 1)
      && !ReplyAt(server, source, r.pages - 1).Failed?
      && r.items == Collected(server, source, r.pages)
      && (r.truncated <==>
            ReplyAt(server, source, r.pages - 1).Page? && ReplyAt(server, source, r.pages - 1).next != "")
      && (r.truncated ==> r.pages == 50)
  }

  function WalkFrom(server: Server, source: Source, items: seq<Detection>, token: string, pages: nat): Fetched
    requires pages < PAGE_CAP
    decreases PAGE_CAP - pages
  {
    var page := server(source, pages, token);
    if page.Failed? then Fetched(items, false, Some(page.error), pages)
    else
      var next := NextToken(page);
      if next == "" then Fetched(items + ItemsOf(page), false, None, pages + 1)
      else if pages + 1 >= PAGE_CAP then Fetched(items + ItemsOf(page), true, None, pages + 1)
      else WalkFrom(server, source, items + ItemsOf(page), next, pages + 1)
  }

  function Walk(server: Server, source: Source): Fetched { WalkFrom(server, source, [], "", 0) }

  method PaginateDetections(server: Server, source: Source) returns (r: Fetched)
    ensures r == Walk(server, source)
  {
    var items, token, pages := [], "", 0;
    while true
      invariant 0 <= pages < PAGE_CAP
      invariant WalkFrom(server, source, items, token, pages) == Walk(server, source)
      decreases PAGE_CAP - pages
    {
      var page := server(source, pages, token);
      if page.Failed? { return Fetched(items, false, Some(page.error), pages); }
      items := items + ItemsOf(page);
      token := NextToken(page);
      pages := pages + 1;
      if token == "" { return Fetched(items, false, None, pages); }
      if pages >= PAGE_CAP { return Fetched(items, true, None, pages); }
    }
  }

  lemma {:induction false} WalkFromIsWalked(server: Server, source: Source, pages: nat)
    requires pages < PAGE_CAP && LeadsTo(server, source, pages)
    ensures Walked(server, source,
                   WalkFrom(server, source, Collected(server, source, pages), TokenAt(server, source, pages), pages))
    decreases PAGE_CAP - pages
  {
    var page := ReplyAt(server, source, pages);
    var items, token := Collected(server, source, pages), TokenAt(server, source, pages);
    if !page.Failed? && NextToken(page) != "" && pages + 1 < PAGE_CAP {
      WalkFromIsWalked(server, source, pages + 1);
      assert WalkFrom(server, source, items, token, pages)
          == WalkFrom(server, source, items + ItemsOf(page), NextToken(page), pages + 1);
    } else {
      StopsHere(server, source, pages);
    }
  }

  lemma StopsHere(server: Server, source: Source, pages: nat)
    requires pages < PAGE_CAP && LeadsTo(server, source, pages)
    requires var page := ReplyAt(server, source, pages);
             page.Failed? || NextToken(page) == "" || pages + 1 == PAGE_CAP
    ensures Walked(server, source,
                   WalkFrom(server, source, Collected(server, source, pages), TokenAt(server, source, pages), pages))
  {
  }

  lemma WalkIsWalked(server: Server, source: Source)
    ensures Walked(server, source, Walk(server, source)) && Walk(server, source).pages <= 50
  {
    WalkFromIsWalked(server, source, 0);
  }

  lemma SameWalk(server: Server, source: Source, a: Fetched, b: Fetched)
    requires Walked(server, source, a) && Walked(server, source, b)
    ensures a == b
  {
    StopsSame(server, source, a, b);
    StopsSame(server, source, b, a);
  }

  /** The server determines the walk: however it answers, at most 50 pages are read, and only one result fits. */
  lemma OneWalk(server: Server, source: Source, r: Fetched)
    ensures Walked(server, source, r) <==> r == Walk(server, source)
    ensures Walk(server, source).pages <= 50
  {
    WalkIsWalked(server, source);
    if Walked(server, source, r) { SameWalk(server, source, r, Walk(server, source)); }
  }

  lemma StopsSame(server: Server, source: Source, a: Fetched, b: Fetched)
    requires Walked(server, source, a) && Walked(server, source, b)
    ensures LastRead(a) >= LastRead(b)
  {
  }

  /** The index of the last reply a walk looked at. */
  ghost function LastRead(r: Fetched): int { if r.error.Some? then r.pages else r.pages - 1 }

  /******* Fallback *******/

  datatype Window = Window(items: seq<Detection>, source: Source, truncated: bool) | NoWindow(error: string)

  /** The second endpoint is used only after the first failed, and then for everything. */
  function FetchWindow(server: Server): Window {
    var v2, v1 := Walk(server, V2), Walk(server, V1);
    if v2.error.None? then Window(v2.items, V2, v2.truncated)
    else if v1.error.None? then Window(v1.items, V1, v1.truncated)
    else NoWindow(v1.error.value)
  }

  method FetchDetectionsWindow(server: Server) returns (w: Window)
    ensures w == FetchWindow(server)
  {
    var lastError := "";
    for i := 0 to 2
      invariant i >= 1 ==> Walk(server, V2).error.Some?
      invariant i == 2 ==> Walk(server, V1).error == Some(lastError)
    {
      var source := if i == 0 then V2 else V1;
      var r := PaginateDetections(server, source);
      if r.error.None? { return Window(r.items, source, r.truncated); }
      lastError := r.error.value;
    }
    w := NoWindow(lastError);
  }

  /******* Filter, sort, slice *******/

  function Strip(s: string): string
    decreases |s|
  {
    if s != "" && Text.Blank(s[0]) then Strip(s[1..])
    else if s != "" && Text.Blank(s[|s| - 1]) then Strip(s[..|s| - 1])
    else s
  }

  const PREFIX := "SEVERITY_LEVEL_"

  /** The level without blanks around it, in capitals and without its prefix. */
  function Norm(level: string): string {
    var upper := Text.UpperText(Strip(level));
    if PREFIX <= upper then upper[|PREFIX|..] else upper
  }

  /** The severity levels at least as high as the one asked for; an unknown level asks for nothing. */
  function Wanted(level: string): Option<set<string>> {
    if Norm(level) == "LOW" then Some({PREFIX + "LOW", PREFIX + "MEDIUM", PREFIX + "HIGH"})
    else if Norm(level) == "MEDIUM" then Some({PREFIX + "MEDIUM", PREFIX + "HIGH"})
    else if Norm(level) == "HIGH" then Some({PREFIX + "HIGH"})
    else None
  }

  predicate Passes(d: Detection, wanted: Option<set<string>>) {
    wanted.None? || (d.severity.Some? && d.severity.value in wanted.value)
  }

  function Filter(items: seq<Detection>, wanted: Option<set<string>>): seq<Detection> {
    if items == [] then []
    else if Passes(items[0], wanted) then [items[0]] + Filter(items[1..], wanted)
    else Filter(items[1..], wanted)
  }

  function TimeOf(d: Detection): string { if d.occurTime.Some? then d.occurTime.value else "" }

  /** Text order, by code point. */
  predicate Less(a: string, b: string) {
    if b == "" then false
    else if a == "" then true
    else a[0] < b[0] || (a[0] == b[0] && Less(a[1..], b[1..]))
  }

  predicate Newer(a: Detection, b: Detection) { Less(TimeOf(b), TimeOf(a)) }

  /** A slice from the start: a negative bound counts from the end. */
  function FirstN<T>(s: seq<T>, limit: int): seq<T> {
    if limit >= |s| then s
    else if limit >= 0 then s[..limit]
    else if |s| + limit > 0 then s[..|s| + limit]
    else []
  }

  // The window asked for, repeated in the answer; its two times come from the clock.
  datatype Span = Span(hours: int, startTime: string, endTime: string)

  datatype Latest =
    | Latest(window: Span, source: Source, totalInWindow: nat, truncated: bool, returned: int,
             detections: seq<Detection>)
    | Unavailable(window: Span, error: string)

  function Selected(items: seq<Detection>, severityMin: Option<string>): seq<Detection> {
    Filter(items, if severityMin.Some? && severityMin.value != "" then Wanted(severityMin.value) else None)
  }

  method LatestDetections(server: Server, span: Span, limit: int, severityMin: Option<string>) returns (r: Latest)
    ensures FetchWindow(server).NoWindow? ==> r == Unavailable(span, FetchWindow(server).error)
    ensures FetchWindow(server).Window? ==>
              var w := FetchWindow(server);
              var sorted := Sorting.SortDescending(Selected(w.items, severityMin), Newer);
              r == Latest(span, w.source, |sorted|, w.truncated, if |sorted| <= limit then |sorted| else limit,
                          FirstN(sorted, limit))
    ensures r.Latest? ==> (r.returned == |r.detections| <==> limit >= 0)
  {
    var w := FetchDetectionsWindow(server);
    if w.NoWindow? { return Unavailable(span, w.error); }
    var found := w.items;
    if severityMin.Some? && severityMin.value != "" {
      var wanted := Wanted(severityMin.value);
      if wanted.Some? { found := Filter(found, wanted); } else { FilterNothing(found); }
    } else {
      FilterNothing(found);
    }
    found := Sorting.SortDescending(found, Newer);
    r := Latest(span, w.source, |found|, w.truncated, if |found| <= limit then |found| else limit,
                FirstN(found, limit));
  }

  lemma {:induction false} FilterNothing(items: seq<Detection>)
    ensures Filter(items, None) == items
  {
    if items != [] { FilterNothing(items[1..]); }
  }

  lemma {:induction false} FilterMembers(items: seq<Detection>, wanted: Option<set<string>>)
    ensures forall d :: multiset(Filter(items, wanted))[d] ==
                        if wanted.None? || (exists s :: s in wanted.value && d.severity == Some(s))
                        then multiset(items)[d] else 0
  {
    if items != [] {
      FilterMembers(items[1..], wanted);
      assert items == [items[0]] + items[1..];
    }
  }

  lemma {:induction false} LessOrder(a: string, b: string, c: string)
    ensures Less(a, b) ==> !Less(b, a)
    ensures Less(a, c) ==> Less(a, b) || Less(b, c)
  {
    if a != "" && b != "" {
      LessOrder(a[1..], b[1..], if c == "" then "" else c[1..]);
    }
  }

  lemma NewerIsStrictWeak()
    ensures Sorting.StrictWeak(Newer)
  {
    forall a, b ensures Newer(a, b) ==> !Newer(b, a) { LessOrder(TimeOf(b), TimeOf(a), ""); }
    forall a, b, c ensures Newer(a, c) ==> Newer(a, b) || Newer(b, c) { LessOrder(TimeOf(c), TimeOf(b), TimeOf(a)); }
  }

  /** The pages one endpoint named, when it failed nowhere: what an un-truncated window must hold. */
  lemma WindowHoldsAllPages(server: Server)
    ensures var w := FetchWindow(server);
            w.Window? ==>
              var r := Walk(server, w.source);
              && (w.source == V1 ==> Walk(server, V2).error.Some?)
              && r.error.None? && r.pages >= 1 && w.items == Collected(server, w.source, r.pages)
              && LeadsTo(server, w.source, r.pages - 1)
              && (!w.truncated ==>
                    var last := ReplyAt(server, w.source, r.pages - 1); !last.Page? || last.next == "")
              && (w.truncated ==> r.pages == 50)
  {
    OneWalk(server, V2, Walk(server, V2));
    OneWalk(server, V1, Walk(server, V1));
  }

  /** The time text of a detection; an absent one reads as the empty text. */
  ghost function TimeText(d: Detection): string {
    match d.occurTime case Some(t) => t case None => ""
  }

  /** x is a beginning of k, or k has the larger character where they first differ. */
  ghost predicate NotBefore(k: string, x: string) {
    x <= k || exists i :: 0 <= i < |k| && i < |x| && k[..i] == x[..i] && k[i] > x[i]
  }

  lemma {:induction false} LessSpelled(k: string, x: string)
    ensures NotBefore(k, x) <==> !Less(k, x)
  {
    if k != "" && x != "" {
      assert k == [k[0]] + k[1..] && x == [x[0]] + x[1..];
      if k[0] == x[0] {
        LessSpelled(k[1..], x[1..]);
        SameFirst(k, x);
      } else {
        assert k[..0] == x[..0];
        if i :| 0 <= i < |k| && i < |x| && k[..i] == x[..i] && k[i] > x[i] {
          if i > 0 { SharedFirst(k, x, i); }
        }
      }
    }
  }

  lemma SharedFirst(k: string, x: string, i: nat)
    requires 0 < i <= |k| && i <= |x| && k[..i] == x[..i]
    ensures k[0] == x[0]
  {
    assert k[..i][0] == k[0] && x[..i][0] == x[0];
  }

  lemma SameFirst(k: string, x: string)
    requires k != "" && x != "" && k[0] == x[0]
    ensures NotBefore(k, x) <==> NotBefore(k[1..], x[1..])
  {
    assert k == [k[0]] + k[1..] && x == [x[0]] + x[1..];
    if i :| 0 <= i < |k| && i < |x| && k[..i] == x[..i] && k[i] > x[i] {
      assert k[1..][..i - 1] == k[..i][1..] && x[1..][..i - 1] == x[..i][1..];
    }
    if i :| 0 <= i < |k[1..]| && i < |x[1..]| && k[1..][..i] == x[1..][..i] && k[1..][i] > x[1..][i] {
      assert k[..i + 1] == [k[0]] + k[1..][..i] && x[..i + 1] == [x[0]] + x[1..][..i];
    }
  }

  /** The detections of one time, in order. */
  ghost function AtTime(items: seq<Detection>, time: string): seq<Detection> {
    if items == [] then []
    else (if TimeText(items[0]) == time then [items[0]] else []) + AtTime(items[1..], time)
  }

  lemma {:induction false} TiesAreTimes(items: seq<Detection>, time: string)
    ensures AtTime(items, time) == Sorting.Ties(items, Detection(0, None, Some(time)), Newer)
  {
    if items != [] {
      TiesAreTimes(items[1..], time);
      OneOrder(TimeText(items[0]), time);
    }
  }

  lemma {:induction false} OneOrder(a: string, b: string)
    ensures !Less(a, b) && !Less(b, a) <==> a == b
  {
    if a != "" && b != "" {
      OneOrder(a[1..], b[1..]);
      assert a == [a[0]] + a[1..] && b == [b[0]] + b[1..];
    }
  }

  /**
   * The sorted list is the selected items, none with an earlier time before one with a later, those of one time in page
   * order, and no other list fits that description; a limit keeps its front, a negative one all but so many.
   */
  lemma NewestKept(items: seq<Detection>, severityMin: Option<string>, limit: int, other: seq<Detection>)
    ensures var found := Selected(items, severityMin);
            var sorted := Sorting.SortDescending(found, Newer);
            var kept := FirstN(sorted, limit);
            && kept <= sorted
            && |kept| == (if |found| <= limit then |found| else if 0 <= limit then limit
                          else if -limit < |found| then |found| + limit else 0)
            && multiset(kept) + multiset(sorted[|kept|..]) == multiset(found)
            && (forall k, x :: k in kept && x in sorted[|kept|..] ==> NotBefore(TimeText(k), TimeText(x)))
            && (forall i, j :: 0 <= i < j < |sorted| ==> NotBefore(TimeText(sorted[i]), TimeText(sorted[j])))
            && (forall time :: AtTime(sorted, time) == AtTime(found, time))
            && (other == sorted <==> Sorting.Descending(other, Newer) && Sorting.SameTies(other, found, Newer))
  {
    var found := Selected(items, severityMin);
    var sorted := Sorting.SortDescending(found, Newer);
    var kept := FirstN(sorted, limit);
    NewerIsStrictWeak();
    Sorting.SortSpec(found, Newer);
    Sorting.SortExactlyWhen(found, other, Newer);
    assert |sorted| == |multiset(sorted)| == |multiset(found)| == |found|;
    assert sorted == kept + sorted[|kept|..];
    AllInOrder(sorted);
    FrontNotBefore(sorted, |kept|);
    TimesKept(sorted, found);
  }

  lemma AllInOrder(sorted: seq<Detection>)
    requires Sorting.Descending(sorted, Newer)
    ensures forall i, j :: 0 <= i < j < |sorted| ==> NotBefore(TimeText(sorted[i]), TimeText(sorted[j]))
  {
    forall i, j | 0 <= i < j < |sorted| ensures NotBefore(TimeText(sorted[i]), TimeText(sorted[j])) {
      InOrder(sorted, i, j);
    }
  }

  lemma TimesKept(sorted: seq<Detection>, found: seq<Detection>)
    requires Sorting.SameTies(sorted, found, Newer)
    ensures forall time :: AtTime(sorted, time) == AtTime(found, time)
  {
    forall time ensures AtTime(sorted, time) == AtTime(found, time) {
      TiesAreTimes(sorted, time);
      TiesAreTimes(found, time);
    }
  }

  lemma NoneNewer(sorted: seq<Detection>, i: nat, j: nat)
    requires i < j < |sorted| && Sorting.Descending(sorted, Newer)
    ensures !Newer(sorted[j], sorted[i])
  {
    assert sorted == sorted[..j] + sorted[j..];
    Sorting.DescendingSplit(sorted[..j], sorted[j..], Newer);
    assert sorted[i] in sorted[..j] && sorted[j] in sorted[j..];
  }

  lemma InOrder(sorted: seq<Detection>, i: nat, j: nat)
    requires i < j < |sorted| && Sorting.Descending(sorted, Newer)
    ensures NotBefore(TimeText(sorted[i]), TimeText(sorted[j]))
  {
    NoneNewer(sorted, i, j);
    LessSpelled(TimeText(sorted[i]), TimeText(sorted[j]));
  }

  lemma FrontNotBefore(sorted: seq<Detection>, n: nat)
    requires n <= |sorted| && Sorting.Descending(sorted, Newer)
    ensures forall k, x :: k in sorted[..n] && x in sorted[n..] ==> NotBefore(TimeText(k), TimeText(x))
  {
    forall k, x | k in sorted[..n] && x in sorted[n..] ensures NotBefore(TimeText(k), TimeText(x)) {
      var i :| 0 <= i < n && sorted[i] == k;
      var j :| n <= j < |sorted| && sorted[j] == x;
      InOrder(sorted, i, j);
    }
  }

  /******* Severity levels as they are written *******/

  /** The character becomes this capital: the capital, its small letter, long s or dotless i. */
  ghost predicate Capital(c: char, x: char) {
    || c == x || ('A' <= x <= 'Z' && 'a' <= c <= 'z' && c as int == x as int + 32)
    || (c == '\U{17f}' && x == 'S') || (c == '\U{131}' && x == 'I')
  }

  /** The text is the word, whatever the letter case. */
  ghost predicate Reads(s: string, w: string) {
    |s| == |w| && forall i :: 0 <= i < |s| ==> Capital(s[i], w[i])
  }

  ghost predicate AllBlank(s: string) { forall i :: 0 <= i < |s| ==> Text.Blank(s[i]) }

  /** Between blanks, the text is the level's name, with or without the prefix. */
  ghost predicate Names(level: string, w: string) {
    exists before: string, core: string, after: string ::
      && level == before + core + after && AllBlank(before) && AllBlank(after)
      && (Reads(core, w) || Reads(core, "SEVERITY_LEVEL_" + w))
  }

  lemma {:induction false} StripsToCore(before: string, core: string, after: string)
    requires AllBlank(before) && AllBlank(after)
    requires core != "" && !Text.Blank(core[0]) && !Text.Blank(core[|core| - 1])
    ensures Strip(before + core + after) == core
    decreases |before| + |after|
  {
    var s := before + core + after;
    if before != "" {
      assert s[0] == before[0] && s[1..] == before[1..] + core + after;
      StripsToCore(before[1..], core, after);
    } else if after != "" {
      var n := |after| - 1;
      assert s[0] == core[0] && s[|s| - 1] == after[n] && s[..|s| - 1] == before + core + after[..n];
      StripsToCore(before, core, after[..n]);
    } else {
      assert s == core;
    }
  }

  lemma {:induction false} StripCuts(s: string) returns (i: nat, j: nat)
    ensures i <= j <= |s| && Strip(s) == s[i..j] && AllBlank(s[..i]) && AllBlank(s[j..])
    decreases |s|
  {
    i, j := 0, |s|;
    if s != "" && Text.Blank(s[0]) {
      var k, l := StripCuts(s[1..]);
      i, j := k + 1, l + 1;
      assert s[1..][k..l] == s[i..j];
      assert s[..i] == [s[0]] + s[1..][..k];
      assert s[j..] == s[1..][l..];
    } else if s != "" && Text.Blank(s[|s| - 1]) {
      var n := |s| - 1;
      i, j := StripCuts(s[..n]);
      assert s[..n][i..j] == s[i..j];
      assert s[j..] == s[..n][j..] + [s[n]];
      assert s[..i] == s[..n][..i];
    }
  }

  ghost predicate CapitalLetters(w: string) {
    forall i :: 0 <= i < |w| ==> 'A' <= w[i] <= 'Z' || w[i] == '_'
  }

  lemma UpperReads(s: string, w: string)
    requires CapitalLetters(w)
    ensures Text.UpperText(s) == w <==> Reads(s, w)
  {
    if Text.UpperText(s) == w {
      forall i | 0 <= i < |s| ensures Capital(s[i], w[i]) { assert Text.Upper(s[i]) == w[i]; }
    }
  }

  lemma NamedIsNorm(before: string, core: string, after: string, w: string, all: string)
    requires CapitalLetters(w) && 0 < |w| < 15 && (all == w || all == PREFIX + w)
    requires AllBlank(before) && AllBlank(after) && Reads(core, all)
    ensures Norm(before + core + after) == w
  {
    assert CapitalLetters(PREFIX) && (PREFIX + w)[|PREFIX|..] == w;
    assert Capital(core[0], all[0]) && Capital(core[|core| - 1], all[|all| - 1]);
    StripsToCore(before, core, after);
    UpperReads(core, all);
  }

  lemma PrefixedCapitals(w: string)
    requires CapitalLetters(w)
    ensures CapitalLetters(PREFIX + w)
  {
    assert CapitalLetters(PREFIX);
  }

  lemma NormNamed(level: string, w: string)
    requires CapitalLetters(w) && Norm(level) == w
    ensures Names(level, w)
  {
    var upper := Text.UpperText(Strip(level));
    var i, j := StripCuts(level);
    assert level == level[..i] + level[i..j] + level[j..];
    assert PREFIX <= upper ==> upper == PREFIX + w;
    PrefixedCapitals(w);
    UpperReads(Strip(level), upper);
  }

  /** A name shorter than the prefix is what the level comes to exactly when the level names it. */
  lemma NormIsNamed(level: string, w: string)
    requires CapitalLetters(w) && 0 < |w| < 15
    ensures Norm(level) == w <==> Names(level, w)
  {
    var long := PREFIX + w;
    if before: string, core: string, after: string :|
      && level == before + core + after && AllBlank(before) && AllBlank(after)
      && (Reads(core, w) || Reads(core, long))
    {
      NamedIsNorm(before, core, after, w, if Reads(core, w) then w else long);
    }
    if Norm(level) == w { NormNamed(level, w); }
  }

  /** Which severities a level asks for, and which texts ask for none. */
  lemma LevelAsked(level: string)
    ensures Wanted(level) ==
            if Names(level, "LOW") then Some({"SEVERITY_LEVEL_LOW", "SEVERITY_LEVEL_MEDIUM", "SEVERITY_LEVEL_HIGH"})
            else if Names(level, "MEDIUM") then Some({"SEVERITY_LEVEL_MEDIUM", "SEVERITY_LEVEL_HIGH"})
            else if Names(level, "HIGH") then Some({"SEVERITY_LEVEL_HIGH"}) else None
  {
    assert PREFIX + "LOW" == "SEVERITY_LEVEL_LOW" && PREFIX + "HIGH" == "SEVERITY_LEVEL_HIGH";
    assert PREFIX + "MEDIUM" == "SEVERITY_LEVEL_MEDIUM";
    NormIsNamed(level, "LOW");
    NormIsNamed(level, "MEDIUM");
    NormIsNamed(level, "HIGH");
  }

  lemma {:induction false} FilterParts(a: seq<Detection>, b: seq<Detection>, wanted: Option<set<string>>)
    ensures Filter(a + b, wanted) == Filter(a, wanted) + Filter(b, wanted)
  {
    if a == [] {
      assert a + b == b;
    } else {
      FilterParts(a[1..], b, wanted);
      Text.ConcatHead(a, b);
      Text.Regroup([a[0]], Filter(a[1..], wanted), Filter(b, wanted));
    }
  }

  /**
   * A severity asked for keeps exactly the detections of that level and above, page after page; none at all, or a text
   * that names no level, keeps every detection.
   */
  lemma LevelKept(items: seq<Detection>, more: seq<Detection>, level: string, d: Detection)
    ensures Selected(items + more, Some(level)) == Selected(items, Some(level)) + Selected(more, Some(level))
    ensures Selected(items, None) == items
    ensures !Names(level, "LOW") && !Names(level, "MEDIUM") && !Names(level, "HIGH") ==>
              Selected(items, Some(level)) == items
    ensures Names(level, "LOW") || Names(level, "MEDIUM") || Names(level, "HIGH") ==>
              multiset(Selected(items, Some(level)))[d] ==
              if || d.severity == Some("SEVERITY_LEVEL_HIGH")
                 || (d.severity == Some("SEVERITY_LEVEL_MEDIUM") && !Names(level, "HIGH"))
                 || (d.severity == Some("SEVERITY_LEVEL_LOW") && Names(level, "LOW"))
              then multiset(items)[d] else 0
  {
    LevelAsked(level);
    var wanted := if level != "" then Wanted(level) else None;
    FilterParts(items, more, wanted);
    FilterMembers(items, wanted);
    FilterNothing(items);
    OneLevel(level);
  }

  /** The empty text names no level, and no text names two. */
  lemma OneLevel(level: string)
    ensures Names(level, "LOW") ==> level != "" && !Names(level, "MEDIUM") && !Names(level, "HIGH")
    ensures Names(level, "MEDIUM") ==> level != "" && !Names(level, "HIGH")
    ensures Names(level, "HIGH") ==> level != ""
  {
    NormIsNamed(level, "LOW");
    NormIsNamed(level, "MEDIUM");
    NormIsNamed(level, "HIGH");
  }
}
