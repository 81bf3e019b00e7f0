/**
 JSON as the deduplication key sees it: parsed values and the text parser.

 Text is a sequence of Unicode scalar values; its UTF-8 encoding is not modelled.
 Numbers are represented by the text that the library prints for them, and `shortest`
 stands for "read this literal as a double and print it back": it is undefined for a
 literal out of range.
 */
module JsonText {
  import opened Common

  datatype Json =
    | Null
    | Bool(b: bool)
    | Number(token: string)
    | String(s: string)
    | Array(items: seq<Json>)
    | Object(members: map<string, Json>)

  type Shortest = string -> Option<string>

  // ---------------------------------------------------------------------------
  // Characters
  // ---------------------------------------------------------------------------

  predicate IsSpace(c: char) {
    c == ' ' || c == '\t' || c == '\n' || c == '\r'
  }

  predicate IsDigit(c: char) {
    '0' <= c <= '9'
  }

  predicate IsNumberChar(c: char) {
    IsDigit(c) || c == '-' || c == '+' || c == '.' || c == 'e' || c == 'E'
  }

  predicate IsHex(c: char) {
    IsDigit(c) || 'a' <= c <= 'f' || 'A' <= c <= 'F'
  }

  function HexValue(c: char): (v: nat)
    requires IsHex(c)
    ensures v < 16
  {
    if IsDigit(c) then c as int - '0' as int
    else if 'a' <= c <= 'f' then c as int - 'a' as int + 10
    else c as int - 'A' as int + 10
  }

  predicate IsHex4(s: string) {
    |s| == 4 && IsHex(s[0]) && IsHex(s[1]) && IsHex(s[2]) && IsHex(s[3])
  }

  function Hex4Value(s: string): (v: nat)
    requires IsHex4(s)
    ensures v < 0x1_0000
  {
    HexValue(s[0]) * 0x1000 + HexValue(s[1]) * 0x100 + HexValue(s[2]) * 0x10 + HexValue(s[3])
  }

  predicate IsSurrogate(v: nat) {
    0xD800 <= v < 0xE000
  }

  predicate IsSurrogatePair(hi: nat, lo: nat) {
    0xD800 <= hi < 0xDC00 && 0xDC00 <= lo < 0xE000
  }

  function CombinedSurrogates(hi: nat, lo: nat): char
    requires IsSurrogatePair(hi, lo)
  {
    (0x1_0000 + (hi - 0xD800) * 0x400 + (lo - 0xDC00)) as char
  }

  // ---------------------------------------------------------------------------
  // Number literals
  // ---------------------------------------------------------------------------

  function DropDigits(s: string): string {
    if s != "" && IsDigit(s[0]) then DropDigits(s[1..]) else s
  }

  predicate IsExponent(s: string) {
    s == "" ||
    ((s[0] == 'e' || s[0] == 'E') &&
     var d := if |s| > 1 && (s[1] == '+' || s[1] == '-') then s[2..] else s[1..];
     d != "" && DropDigits(d) == "")
  }

  predicate IsFraction(s: string) {
    if s != "" && s[0] == '.' then |s| > 1 && IsDigit(s[1]) && IsExponent(DropDigits(s[1..]))
    else IsExponent(s)
  }

  /** The grammar of number literals (section 6 of RFC 8259). */
  predicate IsNumber(t: string) {
    && (forall i :: 0 <= i < |t| ==> IsNumberChar(t[i]))
    && var u := if t != "" && t[0] == '-' then t[1..] else t;
    && u != "" && IsDigit(u[0])
    && IsFraction(if u[0] == '0' then u[1..] else DropDigits(u))
  }

  /** Printing a double and reading it back is the identity. */
  ghost predicate PrintsBack(shortest: Shortest) {
    forall t :: shortest(t).Some? ==>
      IsNumber(shortest(t).value) && shortest(shortest(t).value) == shortest(t)
  }

  // ---------------------------------------------------------------------------
  // The parser
  // ---------------------------------------------------------------------------

  function SkipSpace(s: string): (r: string)
    ensures |r| <= |s|
  {
    if s != "" && IsSpace(s[0]) then SkipSpace(s[1..]) else s
  }

  function NumberRun(s: string): (t: string)
    ensures |t| <= |s|
  {
    if s != "" && IsNumberChar(s[0]) then [s[0]] + NumberRun(s[1..]) else ""
  }

  /** The character a one-letter escape stands for. */
  function ShortEscape(c: char): Option<char> {
    if c == '"' || c == '\\' || c == '/' then Some(c)
    else if c == 'b' then Some(8 as char)
    else if c == 'f' then Some(12 as char)
    else if c == 'n' then Some('\n')
    else if c == 'r' then Some('\r')
    else if c == 't' then Some('\t')
    else None
  }

  /** Reads a string body up to and including the closing quote. */
  function ParseChars(s: string): (r: Option<(string, string)>)
    ensures r.Some? ==> |r.value.1| < |s|
    decreases |s|, 1
  {
    if s == "" then None
    else if s[0] == '"' then Some(("", s[1..]))
    else if s[0] == '\\' then ParseEscape(s)
    else if s[0] < ' ' then None
    else Prepend(s[0], ParseChars(s[1..]))
  }

  function ParseEscape(s: string): (r: Option<(string, string)>)
    requires s != "" && s[0] == '\\'
    ensures r.Some? ==> |r.value.1| < |s|
    decreases |s|, 0
  {
    if |s| < 2 then None
    else if s[1] != 'u' then
      var c := ShortEscape(s[1]);
      if c.None? then None else Prepend(c.value, ParseChars(s[2..]))
    else if |s| < 6 || !IsHex4(s[2..6]) then None
    else
      var v := Hex4Value(s[2..6]);
      if !IsSurrogate(v) then Prepend(v as char, ParseChars(s[6..]))
      else if |s| >= 12 && s[6] == '\\' && s[7] == 'u' && IsHex4(s[8..12])
              && IsSurrogatePair(v, Hex4Value(s[8..12])) then
        Prepend(CombinedSurrogates(v, Hex4Value(s[8..12])), ParseChars(s[12..]))
      else Prepend(0xFFFD as char, ParseChars(s[6..]))
  }

  function Prepend(c: char, r: Option<(string, string)>): (q: Option<(string, string)>)
    ensures q.Some? <==> r.Some?
    ensures q.Some? ==> q.value == ([c] + r.value.0, r.value.1)
  {
    if r.None? then None else Some(([c] + r.value.0, r.value.1))
  }

  function ParseValue(s: string, shortest: Shortest): (r: Option<(Json, string)>)
    ensures r.Some? ==> |r.value.1| < |s|
    decreases |s|, 0
  {
    var t := SkipSpace(s);
    if t == "" then None
    else if t[0] == '{' then
      var u := SkipSpace(t[1..]);
      if u != "" && u[0] == '}' then Some((Object(map[]), u[1..]))
      else ParseMembers(t[1..], map[], shortest)
    else if t[0] == '[' then
      var u := SkipSpace(t[1..]);
      if u != "" && u[0] == ']' then Some((Array([]), u[1..]))
      else ParseItems(t[1..], [], shortest)
    else if t[0] == '"' then
      var q := ParseChars(t[1..]);
      if q.None? then None else Some((String(q.value.0), q.value.1))
    else if "null" <= t then Some((Null, t[4..]))
    else if "true" <= t then Some((Bool(true), t[4..]))
    else if "false" <= t then Some((Bool(false), t[5..]))
    else
      var n := NumberRun(t);
      if !IsNumber(n) || shortest(n).None? then None
      else Some((Number(shortest(n).value), t[|n|..]))
  }

  function ParseItems(s: string, acc: seq<Json>, shortest: Shortest): (r: Option<(Json, string)>)
    ensures r.Some? ==> |r.value.1| < |s|
    decreases |s|, 1
  {
    var v := ParseValue(s, shortest);
    if v.None? then None
    else
      var t := SkipSpace(v.value.1);
      if t == "" then None
      else if t[0] == ']' then Some((Array(acc + [v.value.0]), t[1..]))
      else if t[0] == ',' then ParseItems(t[1..], acc + [v.value.0], shortest)
      else None
  }

  /** A repeated member name overwrites the earlier value. */
  function ParseMembers(s: string, acc: map<string, Json>, shortest: Shortest): (r: Option<(Json, string)>)
    ensures r.Some? ==> |r.value.1| < |s|
    decreases |s|, 1
  {
    var t := SkipSpace(s);
    if t == "" || t[0] != '"' then None
    else
      var k := ParseChars(t[1..]);
      if k.None? then None
      else
        var u := SkipSpace(k.value.1);
        if u == "" || u[0] != ':' then None
        else
          var v := ParseValue(u[1..], shortest);
          if v.None? then None
          else
            var w := SkipSpace(v.value.1);
            var acc' := acc[k.value.0 := v.value.0];
            if w == "" then None
            else if w[0] == '}' then Some((Object(acc'), w[1..]))
            else if w[0] == ',' then ParseMembers(w[1..], acc', shortest)
            else None
  }

  /** One value and nothing but whitespace after it. */
  function Parse(s: string, shortest: Shortest): Option<Json> {
    var r := ParseValue(s, shortest);
    if r.Some? && SkipSpace(r.value.1) == "" then Some(r.value.0) else None
  }

  // ---------------------------------------------------------------------------
  // Parsed values
  // ---------------------------------------------------------------------------

  /** Every number in the value is in printed form. */
  ghost predicate Printed(v: Json, shortest: Shortest) {
    match v
    case Number(t) => IsNumber(t) && shortest(t) == Some(t)
    case Array(items) => forall i :: 0 <= i < |items| ==> Printed(items[i], shortest)
    case Object(m) => forall k :: k in m ==> Printed(m[k], shortest)
    case _ => true
  }

  lemma {:induction false} ParsedIsPrinted(s: string, shortest: Shortest)
    requires PrintsBack(shortest)
    requires ParseValue(s, shortest).Some?
    ensures Printed(ParseValue(s, shortest).value.0, shortest)
    decreases |s|, 0
  {
    var t := SkipSpace(s);
    if t[0] == '{' {
      var u := SkipSpace(t[1..]);
      if !(u != "" && u[0] == '}') {
        ParsedMembersArePrinted(t[1..], map[], shortest);
      }
    } else if t[0] == '[' {
      var u := SkipSpace(t[1..]);
      if !(u != "" && u[0] == ']') {
        ParsedItemsArePrinted(t[1..], [], shortest);
      }
    }
  }

  lemma {:induction false} ParsedItemsArePrinted(s: string, acc: seq<Json>, shortest: Shortest)
    requires PrintsBack(shortest)
    requires ParseItems(s, acc, shortest).Some?
    requires Printed(Array(acc), shortest)
    ensures Printed(ParseItems(s, acc, shortest).value.0, shortest)
    decreases |s|, 1
  {
    ParsedIsPrinted(s, shortest);
    var v := ParseValue(s, shortest).value;
    var t := SkipSpace(v.1);
    if t[0] == ',' {
      ParsedItemsArePrinted(t[1..], acc + [v.0], shortest);
    }
  }

  lemma {:induction false} ParsedMembersArePrinted(s: string, acc: map<string, Json>, shortest: Shortest)
    requires PrintsBack(shortest)
    requires ParseMembers(s, acc, shortest).Some?
    requires Printed(Object(acc), shortest)
    ensures Printed(ParseMembers(s, acc, shortest).value.0, shortest)
    decreases |s|, 1
  {
    var k := ParseChars(SkipSpace(s)[1..]).value;
    var u := SkipSpace(k.1)[1..];
    ParsedIsPrinted(u, shortest);
    var v := ParseValue(u, shortest).value;
    var w := SkipSpace(v.1);
    if w[0] == ',' {
      ParsedMembersArePrinted(w[1..], acc[k.0 := v.0], shortest);
    }
  }
}
