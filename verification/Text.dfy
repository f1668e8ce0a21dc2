/** Characters, letter case, splitting and joining of text. */
module Text {

  /** What JSON prints between quotes as it is. */
  predicate Verbatim(s: string) {
    forall i :: 0 <= i < |s| ==> s[i] >= ' ' && s[i] != '\"' && s[i] != '\\'
  }

  /** What Python strips from the ends of a text. */
  predicate Blank(c: char) {
    || 9 as char <= c <= 13 as char || 28 as char <= c <= ' '
    || c in {'\U{85}', '\U{a0}', '\U{1680}', '\U{2028}', '\U{2029}', '\U{202f}', '\U{205f}', '\U{3000}'}
    || '\U{2000}' <= c <= '\U{200a}'
  }

  /** The blanks one by one, by their numbers. */
  lemma BlanksListed(c: char)
    ensures Blank(c) <==>
              c as int in {9, 10, 11, 12, 13, 28, 29, 30, 31, 32, 133, 160, 5760, 8192, 8193, 8194, 8195, 8196, 8197,
                           8198, 8199, 8200, 8201, 8202, 8232, 8233, 8239, 8287, 12288}
  {
  }

  predicate IsHex(c: char) { '0' <= c <= '9' || 'a' <= c <= 'f' || 'A' <= c <= 'F' }

  function HexValue(c: char): (n: nat)
    requires IsHex(c)
    ensures n < 16
  {
    if c <= '9' then c as int - '0' as int
    else if c <= 'F' then c as int - 'A' as int + 10
    else c as int - 'a' as int + 10
  }

  function HexDigit(n: nat): (c: char)
    requires n < 16
    ensures IsHex(c) && HexValue(c) == n
  {
    "0123456789ABCDEF"[n]
  }

  /** The hexadecimal digit, in either letter case, of a number below 16. */
  ghost predicate HexOf(x: char, n: nat) {
    n < 16 && (x == "0123456789abcdef"[n] || x == "0123456789ABCDEF"[n])
  }

  lemma HexOfValue(x: char, n: nat)
    ensures HexOf(x, n) <==> IsHex(x) && HexValue(x) == n
  {
  }

  lemma LowerHexDigit(n: nat)
    requires n < 16
    ensures HexOf(Lower(HexDigit(n)), n)
  {
  }

  /** Beside the ASCII letters only the Kelvin sign and the dotted capital I become ASCII letters in lower case. */
  function Lower(c: char): char {
    if 'A' <= c <= 'Z' then ((c as int) + 32) as char
    else if c == '\U{212a}' then 'k' else if c == '\U{130}' then 'i' else c
  }

  /** Beside the ASCII letters only dotless i and long s have an upper-case form that is an ASCII letter alone. */
  function Upper(c: char): char {
    if 'a' <= c <= 'z' then ((c as int) - 32) as char
    else if c == '\U{131}' then 'I' else if c == '\U{17f}' then 'S' else c
  }

  function UpperText(s: string): (r: string)
    ensures |r| == |s|
  {
    seq(|s|, i requires 0 <= i < |s| => Upper(s[i]))
  }

  function Split(s: string, sep: char): (parts: seq<string>)
    ensures parts != []
  {
    if s == "" then [""]
    else if s[0] == sep then [""] + Split(s[1..], sep)
    else
      var rest := Split(s[1..], sep);
      [[s[0]] + rest[0]] + rest[1..]
  }

  lemma Regroup<T>(a: seq<T>, b: seq<T>, c: seq<T>)
    ensures a + (b + c) == a + b + c
  {
  }

  /** The head and tail of a concatenation. */
  lemma ConcatHead<T>(a: seq<T>, b: seq<T>)
    requires a != []
    ensures (a + b)[0] == a[0] && (a + b)[1..] == a[1..] + b
  {
  }

  /** Each part after the separator it follows. */
  function Join(parts: seq<string>, sep: char): string {
    if parts == [] then "" else [sep] + parts[0] + Join(parts[1..], sep)
  }

  lemma {:induction false} SplitHead(part: string, rest: string, sep: char)
    requires sep !in part
    ensures Split(part + rest, sep) == [part + Split(rest, sep)[0]] + Split(rest, sep)[1..]
  {
    if part == "" {
      assert part + rest == rest;
      assert part + Split(rest, sep)[0] == Split(rest, sep)[0];
    } else {
      SplitHead(part[1..], rest, sep);
      ConcatHead(part, rest);
      Regroup([part[0]], part[1..], Split(rest, sep)[0]);
      assert [part[0]] + part[1..] == part;
    }
  }

  /** Splitting what was joined gives the parts back, after the empty text before the first separator. */
  lemma {:induction false} SplitJoin(parts: seq<string>, sep: char)
    requires forall p :: p in parts ==> sep !in p
    ensures Split(Join(parts, sep), sep) == [""] + parts
  {
    if parts != [] {
      var rest := Join(parts[1..], sep);
      SplitJoin(parts[1..], sep);
      SplitHead(parts[0], rest, sep);
      assert Join(parts, sep)[1..] == parts[0] + rest;
      assert parts[0] + "" == parts[0];
      assert parts == [parts[0]] + parts[1..];
    }
  }
}
