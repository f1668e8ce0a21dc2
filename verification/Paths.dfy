/**
 * Path parameters: percent-encoding, substitution into a template, and the guard in front of every request.
 * Texts are UTF-8 octet strings: characters below 256, one per byte.
 */
module Paths {
  import opened Wrappers
  import opened Recency
  import opened Text

  predicate Octets(s: string) {
    forall i :: 0 <= i < |s| ==> s[i] as int < 256
  }

  type Bytes = s: string | Octets(s)

  /******* Percent-encoding, section 2.1 of RFC 3986 *******/

  /** Section 2.3 of RFC 3986. */
  predicate Unreserved(c: char) {
    'a' <= c <= 'z' || 'A' <= c <= 'Z' || '0' <= c <= '9' || c == '-' || c == '.' || c == '_' || c == '~'
  }

  function QuoteChar(c: char): string
    requires c as int < 256
  {
    if Unreserved(c) then [c] else ['%', HexDigit(c as int / 16), HexDigit(c as int % 16)]
  }

  function Quote(s: Bytes): string {
    if s == "" then "" else QuoteChar(s[0]) + Quote(s[1..])
  }

  predicate Escape(s: string) {
    |s| >= 3 && s[0] == '%' && IsHex(s[1]) && IsHex(s[2])
  }

  function Unquote(s: string): string {
    if s == "" then ""
    else if Escape(s) then [(16 * HexValue(s[1]) + HexValue(s[2])) as char] + Unquote(s[3..])
    else [s[0]] + Unquote(s[1..])
  }

  lemma UnquoteChar(c: char, rest: string)
    requires c as int < 256
    ensures Unquote(QuoteChar(c) + rest) == [c] + Unquote(rest)
  {
    var whole := QuoteChar(c) + rest;
    if Unreserved(c) {
      assert whole[1..] == rest && !Escape(whole);
    } else {
      var n := c as int;
      assert whole[1] == HexDigit(n / 16) && whole[2] == HexDigit(n % 16);
      assert whole[3..] == rest && Escape(whole);
      assert 16 * (n / 16) + n % 16 == n;
    }
  }

  /** Decoding undoes encoding, in front of any text. */
  lemma {:induction false} UnquoteQuoted(v: Bytes, rest: string)
    ensures Unquote(Quote(v) + rest) == v + Unquote(rest)
  {
    if v == "" {
      assert Quote(v) + rest == rest;
    } else {
      var tail := Quote(v[1..]) + rest;
      UnquoteQuoted(v[1..], rest);
      UnquoteChar(v[0], tail);
      Regroup(QuoteChar(v[0]), Quote(v[1..]), rest);
      Regroup([v[0]], v[1..], Unquote(rest));
      assert [v[0]] + v[1..] == v;
    }
  }

  lemma QuoteRoundTrips(v: Bytes)
    ensures Unquote(Quote(v)) == v
  {
    UnquoteQuoted(v, "");
    assert Quote(v) + "" == Quote(v);
  }

  /** Only unreserved characters and escapes leave the encoder. */
  lemma {:induction false} QuotedChars(v: Bytes)
    ensures forall c :: c in Quote(v) ==> Unreserved(c) || c == '%'
  {
    if v != "" { QuotedChars(v[1..]); }
  }

  /** A character that takes no part in escapes survives decoding. */
  lemma {:induction false} UnquoteKeeps(s: string, c: char)
    requires c in s && c != '%' && !IsHex(c)
    ensures c in Unquote(s)
  {
    if Escape(s) {
      assert s == [s[0], s[1], s[2]] + s[3..];
      UnquoteKeeps(s[3..], c);
    } else {
      assert s == [s[0]] + s[1..];
      if c != s[0] { UnquoteKeeps(s[1..], c); }
    }
  }

  /******* Path parameters *******/

  predicate Reserved(c: char) {
    c == '/' || c == '\\' || c == '?' || c == '#' || c == '\r' || c == '\n' || c == '\0'
  }

  predicate Acceptable(raw: string) {
    var decoded := Unquote(Unquote(Unquote(raw)));
    raw != "" && decoded !in {".", ".."} && forall c :: c in decoded ==> !Reserved(c)
  }

  method PathSegment(raw: Bytes) returns (r: Option<string>)
    ensures r == if Acceptable(raw) then Some(Quote(raw)) else None
  {
    var decoded: string := raw;
    ghost var all := Unquote(Unquote(Unquote(raw)));
    var i := 0;
    while i < 3
      invariant i <= 3
      invariant i == 0 ==> Unquote(Unquote(Unquote(decoded))) == all
      invariant i == 1 ==> Unquote(Unquote(decoded)) == all
      invariant i == 2 ==> Unquote(decoded) == all
      invariant i == 3 ==> decoded == all
    {
      decoded := Unquote(decoded);
      i := i + 1;
    }
    if raw == "" || decoded == "." || decoded == ".." || exists c :: c in decoded && Reserved(c) { return None; }
    r := Some(Quote(raw));
  }

  /** An accepted value holds no reserved character itself and is no dot segment. */
  lemma AcceptedIsPlain(raw: string)
    requires Acceptable(raw)
    ensures raw !in {"", ".", ".."} && forall c :: c in raw ==> !Reserved(c)
  {
    forall c | c in raw && Reserved(c) ensures false {
      UnquoteKeeps(raw, c);
      UnquoteKeeps(Unquote(raw), c);
      UnquoteKeeps(Unquote(Unquote(raw)), c);
    }
    assert Unquote(".") == "." && Unquote("..") == ".." by {
      assert ".."[1..] == "." && "."[1..] == "";
    }
  }

  /******* Substitution into a template *******/

  datatype Piece = Lit(text: string) | Hole(name: string)

  predicate BraceFree(s: string) { '{' !in s && '}' !in s }

  function Placeholder(name: string): string { "{" + name + "}" }

  function PieceText(p: Piece): string {
    match p case Lit(text) => text case Hole(name) => Placeholder(name)
  }

  function Render(ps: seq<Piece>): string {
    if ps == [] then "" else PieceText(ps[0]) + Render(ps[1..])
  }

  predicate PlainPiece(p: Piece) {
    match p case Lit(text) => BraceFree(text) case Hole(name) => BraceFree(name)
  }

  /** A template: braces occur in it only around the names of its placeholders. */
  ghost predicate IsTemplate(ps: seq<Piece>) {
    forall p :: p in ps ==> PlainPiece(p)
  }

  /** Replacement of every occurrence, leftmost first, as str.replace does it. */
  function ReplaceAll(s: string, what: string, value: string): string
    requires what != ""
    decreases |s|
  {
    if s == "" then ""
    else if what <= s then value + ReplaceAll(s[|what|..], what, value)
    else [s[0]] + ReplaceAll(s[1..], what, value)
  }

  function Fill(ps: seq<Piece>, values: map<string, string>): seq<Piece> {
    if ps == [] then []
    else [if ps[0].Hole? && ps[0].name in values then Lit(values[ps[0].name]) else ps[0]] + Fill(ps[1..], values)
  }

  lemma {:induction false} ReplaceCopies(s: string, rest: string, name: string, value: string)
    requires '{' !in s
    ensures ReplaceAll(s + rest, Placeholder(name), value) == s + ReplaceAll(rest, Placeholder(name), value)
  {
    if s == "" {
      assert s + rest == rest;
    } else {
      ReplaceCopies(s[1..], rest, name, value);
      assert (s + rest)[0] == s[0] && (s + rest)[1..] == s[1..] + rest;
    }
  }

  /** A placeholder in front of a text is met only by the placeholder of the same name. */
  lemma SamePlaceholder(name: string, other: string, rest: string)
    requires BraceFree(name) && BraceFree(other) && Placeholder(name) <= Placeholder(other) + rest
    ensures name == other
  {
    var p, q := Placeholder(name), Placeholder(other) + rest;
    assert forall i :: 0 <= i < |name| ==> p[i + 1] == name[i] == q[i + 1] != '}';
    assert forall i :: 0 <= i < |other| ==> q[i + 1] == other[i] != '}';
    assert q[|name| + 1] == p[|name| + 1] == '}' && q[|other| + 1] == '}';
    assert |name| == |other|;
  }

  lemma ReplaceAtPlaceholder(other: string, rest: string, name: string, value: string)
    requires BraceFree(name) && BraceFree(other)
    ensures ReplaceAll(Placeholder(other) + rest, Placeholder(name), value) ==
            (if other == name then value else Placeholder(other)) + ReplaceAll(rest, Placeholder(name), value)
  {
    var q := Placeholder(other) + rest;
    if other == name {
      assert q[|Placeholder(name)|..] == rest;
    } else {
      var closing := other + "}";
      if Placeholder(name) <= q { SamePlaceholder(name, other, rest); }
      ReplaceCopies(closing, rest, name, value);
      assert q[0] == '{' && q[1..] == closing + rest;
      assert ['{'] + (closing + ReplaceAll(rest, Placeholder(name), value))
          == Placeholder(other) + ReplaceAll(rest, Placeholder(name), value);
    }
  }

  /** Replacing a placeholder's text is filling its holes. */
  lemma {:induction false} ReplaceFills(ps: seq<Piece>, name: string, value: string)
    requires IsTemplate(ps) && BraceFree(name)
    ensures ReplaceAll(Render(ps), Placeholder(name), value) == Render(Fill(ps, map[name := value]))
  {
    if ps != [] {
      ReplaceFills(ps[1..], name, value);
      assert PlainPiece(ps[0]);
      match ps[0]
      case Lit(text) => ReplaceCopies(text, Render(ps[1..]), name, value);
      case Hole(other) => ReplaceAtPlaceholder(other, Render(ps[1..]), name, value);
    }
  }

  /******* Building the request path *******/

  datatype PathError = Missing(name: string) | Invalid(name: string)

  /** The parameters in order, each taken out of the arguments as it is used. */
  function Substitute(path: string, names: seq<string>, args: map<string, Bytes>): Result<string, PathError>
    decreases |names|
  {
    if names == [] then Ok(path)
    else
      var name := names[0];
      if name !in args then Err(Missing(name))
      else if !Acceptable(args[name]) then Err(Invalid(name))
      else Substitute(ReplaceAll(path, Placeholder(name), Quote(args[name])), names[1..], args - {name})
  }

  method BuildPath(template: string, names: seq<string>, args: map<string, Bytes>)
    returns (r: Result<string, PathError>)
    ensures r == Substitute(template, names, args)
  {
    var path, left := template, args;
    for i := 0 to |names|
      invariant Substitute(path, names[i..], left) == Substitute(template, names, args)
    {
      assert names[i..][1..] == names[i + 1..];
      if names[i] !in left { return Err(Missing(names[i])); }
      var value := PathSegment(left[names[i]]);
      if value.None? { return Err(Invalid(names[i])); }
      path := ReplaceAll(path, Placeholder(names[i]), value.value);
      left := left - {names[i]};
    }
    r := Ok(path);
  }

  /** All parameters are given, acceptable, and named once. */
  ghost predicate Sufficient(names: seq<string>, args: map<string, Bytes>) {
    Distinct(names) && forall n :: n in names ==> n in args && Acceptable(args[n])
  }

  ghost function Encoded(names: seq<string>, args: map<string, Bytes>): map<string, string>
    requires Sufficient(names, args)
  {
    map n | n in names :: Quote(args[n])
  }

  lemma {:induction false} FillTemplate(ps: seq<Piece>, values: map<string, string>)
    requires IsTemplate(ps) && forall n :: n in values ==> BraceFree(values[n])
    ensures IsTemplate(Fill(ps, values))
  {
    if ps != [] {
      assert ps == [ps[0]] + ps[1..];
      FillTemplate(ps[1..], values);
    }
  }

  lemma {:induction false} FillTwice(ps: seq<Piece>, a: map<string, string>, b: map<string, string>)
    requires a.Keys !! b.Keys
    ensures Fill(Fill(ps, a), b) == Fill(ps, a + b)
  {
    if ps != [] { FillTwice(ps[1..], a, b); }
  }

  lemma QuotedIsBraceFree(v: Bytes)
    ensures BraceFree(Quote(v)) && '/' !in Quote(v)
  {
    QuotedChars(v);
  }

  /**
   * Building the path succeeds exactly when every parameter is given, acceptable and named once; and replacing
   * the placeholders one after the other is then filling them all at once.
   */
  lemma {:induction false} SequentialIsSimultaneous(ps: seq<Piece>, names: seq<string>, args: map<string, Bytes>)
    requires IsTemplate(ps) && forall n :: n in names ==> BraceFree(n)
    ensures var r := Substitute(Render(ps), names, args);
            && (r.Ok? <==> Sufficient(names, args))
            && (Sufficient(names, args) ==> r == Ok(Render(Fill(ps, Encoded(names, args)))))
    decreases |names|
  {
    if names == [] {
      FillNothing(ps);
      assert Encoded(names, args) == map[];
    } else if names[0] in args && Acceptable(args[names[0]]) {
      var one := map[names[0] := Quote(args[names[0]])];
      SubstituteOne(ps, names, args);
      SequentialIsSimultaneous(Fill(ps, one), names[1..], args - {names[0]});
      SufficientSplit(names, args);
      if Sufficient(names, args) {
        FillTwice(ps, one, Encoded(names[1..], args - {names[0]}));
        EncodedSplit(names, args);
      }
    }
  }

  lemma SubstituteOne(ps: seq<Piece>, names: seq<string>, args: map<string, Bytes>)
    requires IsTemplate(ps) && names != [] && BraceFree(names[0])
    requires names[0] in args && Acceptable(args[names[0]])
    ensures var filled := Fill(ps, map[names[0] := Quote(args[names[0]])]);
            && IsTemplate(filled)
            && Substitute(Render(ps), names, args) == Substitute(Render(filled), names[1..], args - {names[0]})
  {
    QuotedIsBraceFree(args[names[0]]);
    ReplaceFills(ps, names[0], Quote(args[names[0]]));
    FillTemplate(ps, map[names[0] := Quote(args[names[0]])]);
  }

  lemma EncodedSplit(names: seq<string>, args: map<string, Bytes>)
    requires names != [] && Sufficient(names, args) && Sufficient(names[1..], args - {names[0]})
    ensures var rest := Encoded(names[1..], args - {names[0]});
            && map[names[0] := Quote(args[names[0]])] + rest == Encoded(names, args)
            && names[0] !in rest
  {
    assert names == [names[0]] + names[1..];
    var left := args - {names[0]};
    var joined := map[names[0] := Quote(args[names[0]])] + Encoded(names[1..], left);
    assert joined.Keys == Encoded(names, args).Keys;
    forall n | n in joined ensures joined[n] == Encoded(names, args)[n] {
      if n != names[0] { assert left[n] == args[n]; }
    }
  }

  lemma SufficientSplit(names: seq<string>, args: map<string, Bytes>)
    requires names != [] && names[0] in args && Acceptable(args[names[0]])
    ensures Sufficient(names, args) <==> Sufficient(names[1..], args - {names[0]})
  {
    assert names == [names[0]] + names[1..];
  }

  lemma {:induction false} FillNothing(ps: seq<Piece>)
    ensures Fill(ps, map[]) == ps
  {
    if ps != [] { FillNothing(ps[1..]); }
  }

  /******* The guard in front of every request *******/

  // The Kelvin sign, the one character beyond ASCII whose lower-case form is an ASCII letter alone.
  const KELVIN: string := [0xe2 as char, 0x84 as char, 0xaa as char]

  function LowerText(s: string): string {
    if s == "" then ""
    else if KELVIN <= s then "k" + LowerText(s[3..])
    else [Lower(s[0])] + LowerText(s[1..])
  }

  function StripSlashes(s: string): string {
    if s != "" && s[|s| - 1] == '/' then StripSlashes(s[..|s| - 1]) else s
  }

  predicate Forbidden(c: char) { Reserved(c) && c != '/' }

  predicate GuardAccepts(service: string, path: string) {
    var decoded := Unquote(path);
    && service != "business-account"
    && "/" <= path && !("//" <= path)
    && (forall c :: c in decoded ==> !Forbidden(c))
    && (forall part :: part in Split(decoded, '/') ==> part !in {".", ".."})
    && LowerText(StripSlashes(decoded)) !in {"/gettokens", "/oauth/token"}
  }

  type Segment = seq<Piece>

  function Flatten(t: seq<Segment>): seq<Piece> {
    if t == [] then [] else [Lit("/")] + t[0] + Flatten(t[1..])
  }

  ghost predicate PlainText(s: string) {
    forall c :: c in s ==> !Reserved(c) && c != '%'
  }

  /** The value of a piece once parameters are in place and the path is decoded. */
  function Decoded(p: Piece, args: map<string, Bytes>): string {
    match p case Lit(text) => text case Hole(name) => if name in args then args[name] else Placeholder(name)
  }

  function DecodedText(ps: seq<Piece>, args: map<string, Bytes>): string {
    if ps == [] then "" else Decoded(ps[0], args) + DecodedText(ps[1..], args)
  }

  function DecodedSegments(t: seq<Segment>, args: map<string, Bytes>): seq<string> {
    if t == [] then [] else [DecodedText(t[0], args)] + DecodedSegments(t[1..], args)
  }

  ghost predicate GoodPiece(p: Piece, names: seq<string>) {
    match p case Lit(text) => PlainText(text) case Hole(name) => name in names && BraceFree(name)
  }

  ghost predicate HasHole(seg: Segment) {
    exists p :: p in seg && p.Hole?
  }

  /** A segment that is one or two literal dots. */
  ghost predicate DotSegment(seg: Segment) {
    !HasHole(seg) && Render(seg) in {".", ".."}
  }

  /** A template as the API descriptions have them: a version segment, then literals and parameters. */
  ghost predicate ApiTemplate(t: seq<Segment>, names: seq<string>) {
    && t != [] && |t[0]| == 1 && t[0][0].Lit? && t[0][0].text != "" && t[0][0].text[0] == 'v'
    && forall seg :: seg in t ==> AllGood(seg, names)
  }

  ghost predicate AllGood(ps: seq<Piece>, names: seq<string>) {
    forall p :: p in ps ==> GoodPiece(p, names)
  }

  lemma {:induction false} UnquotePlain(s: string, rest: string)
    requires '%' !in s
    ensures Unquote(s + rest) == s + Unquote(rest)
  {
    if s == "" {
      assert s + rest == rest;
    } else {
      UnquotePlain(s[1..], rest);
      ConcatHead(s, rest);
      Regroup([s[0]], s[1..], Unquote(rest));
      assert [s[0]] + s[1..] == s;
    }
  }

  ghost predicate GoodPieces(ps: seq<Piece>, names: seq<string>) {
    forall p :: p in ps ==> GoodPiece(p, names) || p == Lit("/")
  }

  /** Decoding the filled template gives back the literals and the raw values. */
  lemma {:induction false} UnquoteFilled(ps: seq<Piece>, names: seq<string>, args: map<string, Bytes>)
    requires Sufficient(names, args) && GoodPieces(ps, names)
    ensures Unquote(Render(Fill(ps, Encoded(names, args)))) == DecodedText(ps, args)
  {
    if ps != [] {
      var filled := Fill(ps, Encoded(names, args));
      assert ps[0] in ps;
      UnquoteFilled(ps[1..], names, args);
      assert filled[1..] == Fill(ps[1..], Encoded(names, args));
      match ps[0]
      case Lit(text) => UnquotePlain(text, Render(filled[1..]));
      case Hole(name) => UnquoteQuoted(args[name], Render(filled[1..]));
    }
  }

  lemma {:induction false} DecodedTextConcat(a: seq<Piece>, b: seq<Piece>, args: map<string, Bytes>)
    ensures DecodedText(a + b, args) == DecodedText(a, args) + DecodedText(b, args)
  {
    if a == [] {
      assert a + b == b;
    } else {
      DecodedTextConcat(a[1..], b, args);
      ConcatHead(a, b);
      Regroup(Decoded(a[0], args), DecodedText(a[1..], args), DecodedText(b, args));
    }
  }

  lemma {:induction false} FlattenedIsJoined(t: seq<Segment>, args: map<string, Bytes>)
    ensures DecodedText(Flatten(t), args) == Join(DecodedSegments(t, args), '/')
  {
    if t != [] {
      FlattenedIsJoined(t[1..], args);
      DecodedTextConcat([Lit("/")] + t[0], Flatten(t[1..]), args);
      DecodedTextConcat([Lit("/")], t[0], args);
      assert DecodedText([Lit("/")], args) == "/";
    }
  }

  lemma {:induction false} DecodedChars(ps: seq<Piece>, names: seq<string>, args: map<string, Bytes>)
    requires Sufficient(names, args) && AllGood(ps, names)
    ensures forall c :: c in DecodedText(ps, args) ==> !Reserved(c)
    ensures forall p, c :: p in ps && p.Lit? && c in p.text ==> c in DecodedText(ps, args)
  {
    if ps != [] {
      DecodedChars(ps[1..], names, args);
      assert ps == [ps[0]] + ps[1..] && ps[0] in ps;
      if ps[0].Hole? { AcceptedIsPlain(args[ps[0].name]); }
    }
  }

  lemma {:induction false} ValueInside(
    seg: Segment, name: string, args: map<string, Bytes>) returns (a: string, b: string)
    requires Hole(name) in seg && name in args
    ensures DecodedText(seg, args) == a + args[name] + b
  {
    if seg[0] == Hole(name) {
      a, b := "", DecodedText(seg[1..], args);
    } else {
      assert seg == [seg[0]] + seg[1..];
      var a', b' := ValueInside(seg[1..], name, args);
      a, b := Decoded(seg[0], args) + a', b';
      Regroup(Decoded(seg[0], args), a' + args[name], b');
      Regroup(Decoded(seg[0], args), a', args[name]);
    }
  }

  lemma {:induction false} LiteralSegment(seg: Segment, args: map<string, Bytes>)
    requires !HasHole(seg)
    ensures DecodedText(seg, args) == Render(seg)
  {
    if seg != [] {
      assert seg == [seg[0]] + seg[1..] && seg[0] in seg;
      LiteralSegment(seg[1..], args);
    }
  }

  /** A parameter is never empty nor all of a dot segment, so a segment that has one is none. */
  lemma DotsAreLiteral(seg: Segment, names: seq<string>, args: map<string, Bytes>)
    requires Sufficient(names, args) && AllGood(seg, names)
    ensures DecodedText(seg, args) in {".", ".."} <==> DotSegment(seg)
  {
    if HasHole(seg) {
      var p :| p in seg && p.Hole?;
      assert GoodPiece(p, names);
      AcceptedIsPlain(args[p.name]);
      var a, b := ValueInside(seg, p.name, args);
      PartOfDots(a, args[p.name], b);
    } else {
      LiteralSegment(seg, args);
    }
  }

  lemma PartOfDots(a: string, v: string, b: string)
    requires v !in {"", ".", ".."}
    ensures a + v + b !in {".", ".."}
  {
    var whole := a + v + b;
    assert |v| == 1 ==> v == [v[0]] && v[0] != '.' && whole[|a|] == v[0];
    assert |v| == 2 && |whole| == 2 ==> whole == v;
  }

  lemma {:induction false} SegmentsPlain(t: seq<Segment>, names: seq<string>, args: map<string, Bytes>)
    requires Sufficient(names, args) && forall seg :: seg in t ==> AllGood(seg, names)
    ensures |DecodedSegments(t, args)| == |t|
    ensures forall d :: d in DecodedSegments(t, args) ==> forall c :: c in d ==> !Reserved(c)
    ensures forall c :: c in Join(DecodedSegments(t, args), '/') ==> !Forbidden(c)
    ensures GoodPieces(Flatten(t), names)
  {
    if t != [] {
      assert t == [t[0]] + t[1..] && AllGood(t[0], names);
      DecodedChars(t[0], names, args);
      SegmentsPlain(t[1..], names, args);
    }
  }

  lemma {:induction false} SegmentAt(t: seq<Segment>, args: map<string, Bytes>, i: nat)
    requires i < |t|
    ensures |DecodedSegments(t, args)| == |t| && DecodedSegments(t, args)[i] == DecodedText(t[i], args)
  {
    if |t| > 1 { SegmentAt(t[1..], args, if i == 0 then 0 else i - 1); }
  }

  lemma DotSegmentsShow(t: seq<Segment>, names: seq<string>, args: map<string, Bytes>)
    requires Sufficient(names, args) && forall seg :: seg in t ==> AllGood(seg, names)
    ensures (forall d :: d in DecodedSegments(t, args) ==> d !in {".", ".."})
            <==> forall seg :: seg in t ==> !DotSegment(seg)
  {
    var ds := DecodedSegments(t, args);
    forall i | 0 <= i < |t| ensures |ds| == |t| && (ds[i] in {".", ".."} <==> DotSegment(t[i])) {
      SegmentAt(t, args, i);
      assert AllGood(t[i], names);
      DotsAreLiteral(t[i], names, args);
    }
    if t != [] { assert |ds| == |t|; }
    forall seg | seg in t ensures DotSegment(seg) ==> exists d :: d in ds && d in {".", ".."} {
      var i :| 0 <= i < |t| && t[i] == seg;
      assert ds[i] in ds;
    }
  }

  lemma LowerKeepsSecond(s: string)
    requires |s| >= 2 && s[1] == 'v'
    ensures |LowerText(s)| >= 2 && LowerText(s)[1] == 'v'
  {
    assert !(KELVIN <= s) && !(KELVIN <= s[1..]);
    assert LowerText(s) == [Lower(s[0])] + ([Lower('v')] + LowerText(s[1..][1..]));
  }

  lemma {:induction false} StripKeepsAt(s: string, i: nat)
    requires i < |s| && s[i] != '/'
    ensures i < |StripSlashes(s)| && StripSlashes(s)[i] == s[i]
  {
    if s[|s| - 1] == '/' { StripKeepsAt(s[..|s| - 1], i); }
  }

  /**
   * Whatever acceptable values it is filled with, an API template gives a path with as many segments as the
   * template has; and the request guard lets it through exactly when the template itself has no dot segment.
   */
  lemma FilledTemplateAccepted(service: string, t: seq<Segment>, names: seq<string>, args: map<string, Bytes>)
    requires service != "business-account" && ApiTemplate(t, names) && Sufficient(names, args)
    ensures var path := Render(Fill(Flatten(t), Encoded(names, args)));
            && Split(Unquote(path), '/') == [""] + DecodedSegments(t, args)
            && (GuardAccepts(service, path) <==> forall seg :: seg in t ==> !DotSegment(seg))
  {
    var path := Render(Fill(Flatten(t), Encoded(names, args)));
    var segments := DecodedSegments(t, args);
    FilledDecodes(t, names, args);
    FilledStart(t, names, args);
    NotTokenEndpoint(Unquote(path));
    DotSegmentsShow(t, names, args);
    assert forall d :: d in [""] + segments <==> d == "" || d in segments;
  }

  lemma FilledDecodes(t: seq<Segment>, names: seq<string>, args: map<string, Bytes>)
    requires ApiTemplate(t, names) && Sufficient(names, args)
    ensures var decoded := Unquote(Render(Fill(Flatten(t), Encoded(names, args))));
            && decoded == Join(DecodedSegments(t, args), '/')
            && Split(decoded, '/') == [""] + DecodedSegments(t, args)
            && forall c :: c in decoded ==> !Forbidden(c)
  {
    SegmentsPlain(t, names, args);
    UnquoteFilled(Flatten(t), names, args);
    FlattenedIsJoined(t, args);
    forall d | d in DecodedSegments(t, args) ensures '/' !in d { assert Reserved('/'); }
    SplitJoin(DecodedSegments(t, args), '/');
  }

  lemma NotTokenEndpoint(decoded: string)
    requires |decoded| >= 2 && decoded[1] == 'v'
    ensures LowerText(StripSlashes(decoded)) !in {"/gettokens", "/oauth/token"}
  {
    StripKeepsAt(decoded, 1);
    LowerKeepsSecond(StripSlashes(decoded));
    assert "/gettokens"[1] == 'g' && "/oauth/token"[1] == 'o';
  }

  lemma FilledStart(t: seq<Segment>, names: seq<string>, args: map<string, Bytes>)
    requires ApiTemplate(t, names) && Sufficient(names, args)
    ensures var path := Render(Fill(Flatten(t), Encoded(names, args)));
            |path| >= 2 && path[0] == '/' && path[1] == 'v'
    ensures var decoded := Join(DecodedSegments(t, args), '/');
            |decoded| >= 2 && decoded[1] == 'v'
  {
    var ps, version := Flatten(t), t[0][0].text;
    var rest := Flatten(t[1..]);
    assert ps == [Lit("/"), Lit(version)] + rest;
    var filled := Fill(ps, Encoded(names, args));
    assert ps[1..] == [Lit(version)] + rest && ps[1..][1..] == rest;
    assert filled[0] == Lit("/") && filled[1..] == Fill(ps[1..], Encoded(names, args));
    assert filled[1..][0] == Lit(version);
    assert Render(filled) == "/" + (version + Render(filled[1..][1..]));
    assert DecodedText(t[0], args) == version + "";
  }

  /** So when the path of a call can be built at all from a template without dot segments, it is let through. */
  lemma BuiltPathAccepted(service: string, t: seq<Segment>, names: seq<string>, args: map<string, Bytes>)
    requires service != "business-account" && ApiTemplate(t, names) && forall seg :: seg in t ==> !DotSegment(seg)
    requires IsTemplate(Flatten(t)) && forall n :: n in names ==> BraceFree(n)
    ensures var r := Substitute(Render(Flatten(t)), names, args);
            r.Ok? ==> GuardAccepts(service, r.value)
  {
    SequentialIsSimultaneous(Flatten(t), names, args);
    if Sufficient(names, args) { FilledTemplateAccepted(service, t, names, args); }
  }

  /******* Encoding and decoding, character by character *******/

  lemma {:induction false} QuoteParts(a: Bytes, b: Bytes)
    ensures Octets(a + b) && Quote(a + b) == Quote(a) + Quote(b)
  {
    if a == "" {
      assert a + b == b;
    } else {
      QuoteParts(a[1..], b);
      ConcatHead(a, b);
      Regroup(QuoteChar(a[0]), Quote(a[1..]), Quote(b));
    }
  }

  /** Letters, digits and four marks stay as they are; every other octet becomes two capital hexadecimal digits. */
  lemma QuotedAs(a: Bytes, c: char, b: Bytes)
    requires c as int < 256
    ensures Octets(a + [c] + b)
    ensures Quote(a + [c] + b) ==
            Quote(a)
            + (if 'a' <= c <= 'z' || 'A' <= c <= 'Z' || '0' <= c <= '9' || c == '-' || c == '.' || c == '_' || c == '~'
               then [c] else ['%', "0123456789ABCDEF"[c as int / 16], "0123456789ABCDEF"[c as int % 16]])
            + Quote(b)
  {
    QuoteParts(a + [c], b);
    QuoteParts(a, [c]);
    assert Quote([c]) == QuoteChar(c) + Quote([c][1..]) == QuoteChar(c);
  }

  /** Decoding copies up to the first percent sign, and that sign too unless two hexadecimal digits follow it. */
  lemma UnquotedAs(a: string, x: char, y: char, m: nat, n: nat, b: string)
    requires '%' !in a
    ensures Unquote(a) == a
    ensures HexOf(x, m) && HexOf(y, n) ==> Unquote(a + (['%', x, y] + b)) == a + ([(16 * m + n) as char] + Unquote(b))
    ensures !(|b| >= 2 && (exists k :: HexOf(b[0], k)) && (exists k :: HexOf(b[1], k))) ==>
              Unquote(a + ("%" + b)) == a + ("%" + Unquote(b))
  {
    UnquotePlain(a, "");
    assert a + "" == a && Unquote(a + "") == a + "";
    UnquotePlain(a, ['%', x, y] + b);
    UnquotePlain(a, "%" + b);
    HexOfValue(x, m);
    HexOfValue(y, n);
    assert (['%', x, y] + b)[3..] == b && ("%" + b)[1..] == b;
    if Escape("%" + b) {
      HexOfValue(b[0], HexValue(b[0]));
      HexOfValue(b[1], HexValue(b[1]));
    }
  }

  /** The text after so many decodings. */
  ghost function DecodedTimes(raw: string, n: nat): string {
    if n == 0 then raw else Unquote(DecodedTimes(raw, n - 1))
  }

  ghost predicate HarmlessPart(s: string) {
    && s != "." && s != ".."
    && '/' !in s && '\\' !in s && '?' !in s && '#' !in s && '\r' !in s && '\n' !in s && '\0' !in s
  }

  lemma DotsStay()
    ensures Unquote(".") == "." && Unquote("..") == ".." && Unquote("") == ""
  {
    assert ".."[1..] == "." && "."[1..] == "";
  }

  lemma HarmlessBefore(s: string)
    requires HarmlessPart(Unquote(s))
    ensures HarmlessPart(s)
  {
    DotsStay();
    forall c | c in s && c in ['/', '\\', '?', '#', '\r', '\n', '\0'] ensures c in Unquote(s) { UnquoteKeeps(s, c); }
  }

  /**
   * A value is acceptable exactly when it is not empty and neither it nor what one, two or three decodings make of it
   * is a dot segment or holds a character that ends or splits a path.
   */
  lemma AcceptableExactlyWhen(raw: string)
    ensures Acceptable(raw) <==> raw != "" && forall n: nat :: n <= 3 ==> HarmlessPart(DecodedTimes(raw, n))
  {
    var one := Unquote(raw);
    assert DecodedTimes(raw, 0) == raw && DecodedTimes(raw, 1) == one && DecodedTimes(raw, 2) == Unquote(one);
    assert DecodedTimes(raw, 3) == Unquote(Unquote(one));
    if HarmlessPart(DecodedTimes(raw, 3)) {
      HarmlessBefore(Unquote(one));
      HarmlessBefore(one);
      HarmlessBefore(raw);
    }
  }

  /******* The guard, on the decoded text *******/

  /** Between two slashes, or a slash and an end of the text, there stand one or two dots and nothing else. */
  ghost predicate DotsBetweenSlashes(text: string) {
    exists a: string, dots, b: string ::
      && text == a + dots + b && (dots == "." || dots == "..")
      && (a == "" || a[|a| - 1] == '/') && (b == "" || b[0] == '/')
  }

  /** The text is the word in either letter case; the Kelvin sign is a capital K as well. */
  ghost predicate InAnyCase(text: string, w: string)
    decreases |w|, text
  {
    if w == "" then text == ""
    else
      || (text != "" && (text[0] == w[0] || ('a' <= w[0] <= 'z' && text[0] as int == w[0] as int - 32))
          && InAnyCase(text[1..], w[1..]))
      || (w[0] == 'k' && KELVIN <= text && InAnyCase(text[3..], w[1..]))
  }

  /** The text is the word in either letter case, and slashes. */
  ghost predicate WordAndSlashes(text: string, w: string) {
    exists head: string, slashes: string ::
      text == head + slashes && InAnyCase(head, w) && forall c :: c in slashes ==> c == '/'
  }

  lemma {:induction false} SplitPart(s: string, k: nat) returns (a: string, b: string)
    requires k < |Split(s, '/')|
    ensures s == a + Split(s, '/')[k] + b
    ensures (if k == 0 then a == "" else a != "" && a[|a| - 1] == '/') && (b == "" || b[0] == '/')
  {
    if s == "" || (s[0] == '/' && k == 0) {
      a, b := "", s;
    } else if s[0] == '/' {
      a, b := SplitPart(s[1..], k - 1);
      Regroup([s[0]], a, Split(s, '/')[k]);
      a := [s[0]] + a;
    } else {
      a, b := SplitPart(s[1..], k);
      assert s == [s[0]] + s[1..];
      if k > 0 {
        assert Split(s, '/')[k] == Split(s[1..], '/')[k];
        a := [s[0]] + a;
      }
    }
  }

  lemma {:induction false} PartAfter(a: string, rest: string, part: string)
    requires part in Split(rest, '/') && (a == "" || a[|a| - 1] == '/')
    ensures part in Split(a + rest, '/') && (a != "" ==> part in Split(a + rest, '/')[1..])
  {
    if a == "" {
      assert a + rest == rest;
    } else {
      ConcatHead(a, rest);
      PartAfter(a[1..], rest, part);
    }
  }

  lemma DotPartsExactlyWhen(text: string)
    ensures (exists part :: part in Split(text, '/') && part in {".", ".."}) <==> DotsBetweenSlashes(text)
  {
    if part :| part in Split(text, '/') && part in {".", ".."} {
      var k :| 0 <= k < |Split(text, '/')| && Split(text, '/')[k] == part;
      var a, b := SplitPart(text, k);
    }
    if a: string, dots: string, b: string :|
      && text == a + dots + b && (dots == "." || dots == "..")
      && (a == "" || a[|a| - 1] == '/') && (b == "" || b[0] == '/')
    {
      SplitHead(dots, b, '/');
      assert dots + "" == dots;
      PartAfter(a, dots + b, dots);
      Regroup(a, dots, b);
    }
  }

  lemma {:induction false} StrippedOf(s: string)
    ensures var head := StripSlashes(s);
            && |head| <= |s| && s[..|head|] == head && (forall c :: c in s[|head|..] ==> c == '/')
            && (head == "" || head[|head| - 1] != '/')
  {
    if s != "" && s[|s| - 1] == '/' {
      StrippedOf(s[..|s| - 1]);
      var n := |StripSlashes(s)|;
      assert s[n..] == s[..|s| - 1][n..] + "/";
    } else {
      assert s[|s|..] == "";
    }
  }

  lemma {:induction false} StrippedAfter(head: string, slashes: string)
    requires head != "" && head[|head| - 1] != '/' && forall c :: c in slashes ==> c == '/'
    ensures StripSlashes(head + slashes) == head
    decreases |slashes|
  {
    var s, n := head + slashes, |slashes| - 1;
    if slashes == "" {
      assert s == head;
    } else {
      assert slashes[n] in slashes;
      forall c | c in slashes[..n] ensures c == '/' { assert c in slashes; }
      assert s[|s| - 1] == slashes[n] && s[..|s| - 1] == head + slashes[..n];
      StrippedAfter(head, slashes[..n]);
    }
  }

  ghost predicate SmallLetters(w: string) { forall i :: 0 <= i < |w| ==> 'a' <= w[i] <= 'z' || w[i] == '/' }

  lemma {:induction false} LowerIsAnyCase(text: string, w: string)
    requires Octets(text) && SmallLetters(w)
    ensures LowerText(text) == w <==> InAnyCase(text, w)
    decreases |w|
  {
    if w != "" && text != "" {
      LowerIsAnyCase(text[1..], w[1..]);
      assert w == [w[0]] + w[1..];
      if KELVIN <= text { LowerIsAnyCase(text[3..], w[1..]); }
    }
  }

  lemma {:induction false} AnyCaseEnds(text: string, w: string)
    requires InAnyCase(text, w) && w != "" && w[|w| - 1] != '/'
    ensures text != "" && text[|text| - 1] != '/'
    decreases |w|
  {
    if |w| > 1 {
      if InAnyCase(text[1..], w[1..]) { AnyCaseEnds(text[1..], w[1..]); } else { AnyCaseEnds(text[3..], w[1..]); }
    }
  }

  lemma StripsToWord(text: string, w: string)
    requires Octets(text) && SmallLetters(w) && w != "" && w[|w| - 1] != '/'
    ensures LowerText(StripSlashes(text)) == w <==> WordAndSlashes(text, w)
  {
    var stripped := StripSlashes(text);
    StrippedOf(text);
    assert text == stripped + text[|stripped|..];
    LowerIsAnyCase(stripped, w);
    if head: string, slashes: string :|
      text == head + slashes && InAnyCase(head, w) && forall c :: c in slashes ==> c == '/'
    {
      AnyCaseEnds(head, w);
      StrippedAfter(head, slashes);
    }
  }

  lemma {:induction false} UnquotedOctets(s: string)
    requires Octets(s)
    ensures Octets(Unquote(s))
  {
    if s != "" { if Escape(s) { UnquotedOctets(s[3..]); } else { UnquotedOctets(s[1..]); } }
  }

  lemma NoTokenEndpoint(text: string)
    requires Octets(text)
    ensures LowerText(StripSlashes(text)) !in {"/gettokens", "/oauth/token"} <==>
              !WordAndSlashes(text, "/gettokens") && !WordAndSlashes(text, "/oauth/token")
  {
    StripsToWord(text, "/gettokens");
    StripsToWord(text, "/oauth/token");
  }

  lemma OneSlashFirst(path: string)
    ensures "/" <= path && !("//" <= path) <==> path != "" && path[0] == '/' && (|path| == 1 || path[1] != '/')
  {
    if |path| >= 2 { assert path[..2] == [path[0], path[1]]; }
  }

  lemma NothingForbidden(text: string)
    ensures (forall c :: c in text ==> !Forbidden(c)) <==>
              && '\\' !in text && '?' !in text && '#' !in text && '\r' !in text && '\n' !in text && '\0' !in text
  {
  }

  /**
   * The guard lets a request through exactly when it is not for the account service, its path starts with one slash,
   * and the decoded path holds none of six characters, has no dot segment and is no token endpoint, in any letter case
   * and with any slashes behind.
   */
  lemma GuardAcceptsExactlyWhen(service: string, path: string)
    requires Octets(path)
    ensures GuardAccepts(service, path) <==>
              && service != "business-account"
              && path != "" && path[0] == '/' && (|path| == 1 || path[1] != '/')
              && var decoded := Unquote(path);
              && '\\' !in decoded && '?' !in decoded && '#' !in decoded
              && '\r' !in decoded && '\n' !in decoded && '\0' !in decoded
              && !DotsBetweenSlashes(decoded)
              && !WordAndSlashes(decoded, "/gettokens") && !WordAndSlashes(decoded, "/oauth/token")
  {
    UnquotedOctets(path);
    OneSlashFirst(path);
    DotPartsExactlyWhen(Unquote(path));
    NothingForbidden(Unquote(path));
    NoTokenEndpoint(Unquote(path));
  }
}
