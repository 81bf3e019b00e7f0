/**
 Laid-out JSON documents: one value with all its whitespace, its member order and the
 spelling of every character.  Parsing any layout gives the document's value.
 */
module JsonLayout {
  import opened Common
  import opened JsonText

  // ---------------------------------------------------------------------------
  // Laid-out documents
  // ---------------------------------------------------------------------------

  /** One spelling of one character of a string. */
  datatype Piece =
    | Plain(c: char)
    | Short(letter: char)
    | Hex(digits: string)
    | Pair(hi: string, lo: string)

  predicate ValidPiece(p: Piece) {
    match p
    case Plain(c) => c >= ' ' && c != '"' && c != '\\'
    case Short(l) => ShortEscape(l).Some?
    case Hex(d) => IsHex4(d) && !IsSurrogate(Hex4Value(d))
    case Pair(h, l) => IsHex4(h) && IsHex4(l) && IsSurrogatePair(Hex4Value(h), Hex4Value(l))
  }

  function PieceChar(p: Piece): char
    requires ValidPiece(p)
  {
    match p
    case Plain(c) => c
    case Short(l) => ShortEscape(l).value
    case Hex(d) => Hex4Value(d) as char
    case Pair(h, l) => CombinedSurrogates(Hex4Value(h), Hex4Value(l))
  }

  function PieceText(p: Piece): string {
    match p
    case Plain(c) => [c]
    case Short(l) => ['\\', l]
    case Hex(d) => "\\u" + d
    case Pair(h, l) => "\\u" + h + "\\u" + l
  }

  predicate ValidPieces(ps: seq<Piece>) {
    forall i :: 0 <= i < |ps| ==> ValidPiece(ps[i])
  }

  function PiecesString(ps: seq<Piece>): string
    requires ValidPieces(ps)
  {
    if ps == [] then "" else [PieceChar(ps[0])] + PiecesString(ps[1..])
  }

  /** The text of `ps` followed by `rest`. */
  function PiecesText(ps: seq<Piece>, rest: string): string {
    if ps == [] then rest else PieceText(ps[0]) + PiecesText(ps[1..], rest)
  }

  /** A value with all its layout: gaps hold whitespace. */
  datatype Doc =
    | NullDoc
    | BoolDoc(b: bool)
    | NumberDoc(token: string)
    | StringDoc(pieces: seq<Piece>)
    | EmptyArray(gap: string)
    | ArrayDoc(items: Items)
    | EmptyObject(gap: string)
    | ObjectDoc(members: Members)

  datatype Items =
    | LastItem(before: string, item: Doc, after: string)
    | NextItem(before: string, item: Doc, after: string, more: Items)

  datatype Members =
    | LastMember(before: string, key: seq<Piece>, mid: string, gap: string, value: Doc, after: string)
    | NextMember(before: string, key: seq<Piece>, mid: string, gap: string, value: Doc, after: string, more: Members)

  predicate IsGap(s: string) {
    forall i :: 0 <= i < |s| ==> IsSpace(s[i])
  }

  predicate ValidDoc(d: Doc, shortest: Shortest) {
    match d
    case NumberDoc(t) => IsNumber(t) && shortest(t).Some?
    case StringDoc(ps) => ValidPieces(ps)
    case EmptyArray(g) => IsGap(g)
    case ArrayDoc(items) => ValidItems(items, shortest)
    case EmptyObject(g) => IsGap(g)
    case ObjectDoc(ms) => ValidMembers(ms, shortest)
    case _ => true
  }

  predicate ValidItems(s: Items, shortest: Shortest) {
    && IsGap(s.before) && IsGap(s.after) && ValidDoc(s.item, shortest)
    && (s.NextItem? ==> ValidItems(s.more, shortest))
  }

  predicate ValidMembers(s: Members, shortest: Shortest) {
    && IsGap(s.before) && IsGap(s.mid) && IsGap(s.gap) && IsGap(s.after)
    && ValidPieces(s.key) && ValidDoc(s.value, shortest)
    && (s.NextMember? ==> ValidMembers(s.more, shortest))
  }

  /** The text of `d` followed by `rest`. */
  function Text(d: Doc, rest: string): string {
    match d
    case NullDoc => "null" + rest
    case BoolDoc(b) => (if b then "true" else "false") + rest
    case NumberDoc(t) => t + rest
    case StringDoc(ps) => "\"" + PiecesText(ps, "\"" + rest)
    case EmptyArray(g) => "[" + (g + ("]" + rest))
    case ArrayDoc(items) => "[" + ItemsText(items, rest)
    case EmptyObject(g) => "{" + (g + ("}" + rest))
    case ObjectDoc(ms) => "{" + MembersText(ms, rest)
  }

  function ItemsText(s: Items, rest: string): string {
    s.before + Text(s.item, s.after + if s.LastItem? then "]" + rest else "," + ItemsText(s.more, rest))
  }

  function MembersText(s: Members, rest: string): string {
    s.before + ("\"" + PiecesText(s.key, "\"" + (s.mid + (":" + (s.gap +
      Text(s.value, s.after + if s.LastMember? then "}" + rest else "," + MembersText(s.more, rest)))))))
  }

  function DocValue(d: Doc, shortest: Shortest): Json
    requires ValidDoc(d, shortest)
  {
    match d
    case NullDoc => Null
    case BoolDoc(b) => Bool(b)
    case NumberDoc(t) => Number(shortest(t).value)
    case StringDoc(ps) => String(PiecesString(ps))
    case EmptyArray(_) => Array([])
    case ArrayDoc(items) => Array(ItemsValue(items, shortest))
    case EmptyObject(_) => Object(map[])
    case ObjectDoc(ms) => Object(MembersValue(ms, map[], shortest))
  }

  function ItemsValue(s: Items, shortest: Shortest): seq<Json>
    requires ValidItems(s, shortest)
  {
    [DocValue(s.item, shortest)] + if s.LastItem? then [] else ItemsValue(s.more, shortest)
  }

  function MembersValue(s: Members, acc: map<string, Json>, shortest: Shortest): map<string, Json>
    requires ValidMembers(s, shortest)
  {
    var acc' := acc[PiecesString(s.key) := DocValue(s.value, shortest)];
    if s.LastMember? then acc' else MembersValue(s.more, acc', shortest)
  }

  // ---------------------------------------------------------------------------
  // Parsing a laid-out document gives its value
  // ---------------------------------------------------------------------------

  lemma {:induction false} SkipGap(gap: string, rest: string)
    requires IsGap(gap)
    ensures SkipSpace(gap + rest) == SkipSpace(rest)
  {
    if gap == "" {
      assert gap + rest == rest;
    } else {
      assert (gap + rest)[1..] == gap[1..] + rest;
      SkipGap(gap[1..], rest);
    }
  }

  predicate Delimited(rest: string) {
    rest == "" || !IsNumberChar(rest[0])
  }

  lemma {:induction false} NumberRunStops(t: string, rest: string)
    requires forall i :: 0 <= i < |t| ==> IsNumberChar(t[i])
    requires Delimited(rest)
    ensures NumberRun(t + rest) == t
  {
    if t == "" {
      assert t + rest == rest;
    } else {
      assert (t + rest)[1..] == t[1..] + rest;
      NumberRunStops(t[1..], rest);
    }
  }

  lemma ParsePiece(p: Piece, rest: string)
    requires ValidPiece(p)
    ensures ParseChars(PieceText(p) + rest) == Prepend(PieceChar(p), ParseChars(rest))
  {
    var s := PieceText(p) + rest;
    match p
    case Plain(c) =>
      assert s[1..] == rest;
    case Short(l) =>
      assert s[2..] == rest;
    case Hex(d) =>
      assert s[2..6] == d && s[6..] == rest;
    case Pair(h, l) =>
      assert s[2..6] == h && s[6] == '\\' && s[7] == 'u' && s[8..12] == l && s[12..] == rest;
  }

  lemma {:induction false} ParsePieces(ps: seq<Piece>, rest: string)
    requires ValidPieces(ps)
    ensures ParseChars(PiecesText(ps, "\"" + rest)) == Some((PiecesString(ps), rest))
  {
    if ps == [] {
      assert ("\"" + rest)[1..] == rest;
    } else {
      ParsePieces(ps[1..], rest);
      ParsePiece(ps[0], PiecesText(ps[1..], "\"" + rest));
    }
  }

  /** What the first character of a document can be. */
  lemma TextStart(d: Doc, rest: string, shortest: Shortest)
    requires ValidDoc(d, shortest)
    ensures var t := Text(d, rest); t != "" && !IsSpace(t[0]) && t[0] != ']' && t[0] != '}'
    ensures SkipSpace(Text(d, rest)) == Text(d, rest)
  {
  }

  lemma ParseNumberDoc(n: string, rest: string, shortest: Shortest)
    requires IsNumber(n) && shortest(n).Some? && Delimited(rest)
    ensures ParseValue(n + rest, shortest) == Some((Number(shortest(n).value), rest))
  {
    var t := n + rest;
    NumberRunStops(n, rest);
    assert t[|n|..] == rest;
    assert IsDigit(t[0]) || t[0] == '-';
    assert SkipSpace(t) == t;
  }

  lemma ParseEmptyDoc(d: Doc, rest: string, shortest: Shortest)
    requires ValidDoc(d, shortest) && (d.EmptyArray? || d.EmptyObject?)
    ensures ParseValue(Text(d, rest), shortest) == Some((DocValue(d, shortest), rest))
  {
    var t, end := Text(d, rest), if d.EmptyArray? then "]" else "}";
    TextStart(d, rest, shortest);
    assert t[1..] == d.gap + (end + rest);
    SkipGap(d.gap, end + rest);
    assert (end + rest)[1..] == rest;
  }

  /** The leaves and the empty containers. */
  lemma ParseFlatDoc(d: Doc, rest: string, shortest: Shortest)
    requires ValidDoc(d, shortest) && Delimited(rest) && !d.ArrayDoc? && !d.ObjectDoc?
    ensures ParseValue(Text(d, rest), shortest) == Some((DocValue(d, shortest), rest))
  {
    var t := Text(d, rest);
    TextStart(d, rest, shortest);
    if d.NullDoc? {
      assert t[4..] == rest;
    } else if d.BoolDoc? {
      assert t[if d.b then 4 else 5..] == rest;
    } else if d.NumberDoc? {
      ParseNumberDoc(d.token, rest, shortest);
    } else if d.StringDoc? {
      assert t[1..] == PiecesText(d.pieces, "\"" + rest);
      ParsePieces(d.pieces, rest);
    } else {
      ParseEmptyDoc(d, rest, shortest);
    }
  }

  lemma ParseAfterGap(gap: string, s: string, shortest: Shortest)
    requires IsGap(gap)
    ensures ParseValue(gap + s, shortest) == ParseValue(s, shortest)
  {
    SkipGap(gap, s);
  }

  lemma {:induction false} ParseDoc(d: Doc, gap: string, rest: string, shortest: Shortest)
    requires ValidDoc(d, shortest) && IsGap(gap) && Delimited(rest)
    ensures ParseValue(gap + Text(d, rest), shortest) == Some((DocValue(d, shortest), rest))
    decreases d, 0
  {
    var t := Text(d, rest);
    ParseAfterGap(gap, t, shortest);
    TextStart(d, rest, shortest);
    if d.ArrayDoc? {
      assert t[1..] == ItemsText(d.items, rest);
      ItemsStart(d.items, rest, shortest);
      ParseItemsText(d.items, [], rest, shortest);
      assert [] + ItemsValue(d.items, shortest) == ItemsValue(d.items, shortest);
    } else if d.ObjectDoc? {
      assert t[1..] == MembersText(d.members, rest);
      MembersStart(d.members, rest);
      ParseMembersText(d.members, map[], rest, shortest);
    } else {
      ParseFlatDoc(d, rest, shortest);
    }
  }

  lemma ItemsStart(s: Items, rest: string, shortest: Shortest)
    requires ValidItems(s, shortest)
    ensures var u := SkipSpace(ItemsText(s, rest)); u != "" && u[0] != ']'
  {
    var after := s.after + if s.LastItem? then "]" + rest else "," + ItemsText(s.more, rest);
    SkipGap(s.before, Text(s.item, after));
    TextStart(s.item, after, shortest);
  }

  lemma MembersStart(s: Members, rest: string)
    requires IsGap(s.before)
    ensures var u := SkipSpace(MembersText(s, rest)); u != "" && u[0] == '"'
  {
    var after := "\"" + PiecesText(s.key, "\"" + (s.mid + (":" + (s.gap +
      Text(s.value, s.after + if s.LastMember? then "}" + rest else "," + MembersText(s.more, rest))))));
    SkipGap(s.before, after);
  }

  lemma {:induction false} ParseItemsText(s: Items, acc: seq<Json>, rest: string, shortest: Shortest)
    requires ValidItems(s, shortest)
    ensures ParseItems(ItemsText(s, rest), acc, shortest) == Some((Array(acc + ItemsValue(s, shortest)), rest))
    decreases s, 1
  {
    var tail := if s.LastItem? then "]" + rest else "," + ItemsText(s.more, rest);
    ParseDoc(s.item, s.before, s.after + tail, shortest);
    SkipGap(s.after, tail);
    var v := DocValue(s.item, shortest);
    if s.LastItem? {
      assert tail[1..] == rest;
      assert acc + [v] == acc + ItemsValue(s, shortest);
    } else {
      assert tail[1..] == ItemsText(s.more, rest);
      ParseItemsText(s.more, acc + [v], rest, shortest);
      assert acc + [v] + ItemsValue(s.more, shortest) == acc + ItemsValue(s, shortest);
    }
  }

  /** A member's name up to its colon. */
  function MemberHead(s: Members, value: string): string {
    s.before + ("\"" + PiecesText(s.key, "\"" + (s.mid + (":" + value))))
  }

  lemma ParseMemberHead(s: Members, value: string)
    requires IsGap(s.before) && IsGap(s.mid) && ValidPieces(s.key)
    ensures var t := SkipSpace(MemberHead(s, value));
            && t != "" && t[0] == '"'
            && ParseChars(t[1..]) == Some((PiecesString(s.key), s.mid + (":" + value)))
            && SkipSpace(s.mid + (":" + value)) == ":" + value
  {
    var body := PiecesText(s.key, "\"" + (s.mid + (":" + value)));
    SkipGap(s.before, "\"" + body);
    assert ("\"" + body)[1..] == body;
    ParsePieces(s.key, s.mid + (":" + value));
    SkipGap(s.mid, ":" + value);
  }

  /** One round of the member loop: a name, a colon, a value, and then `tail`. */
  lemma ParseMembersStep(s: string, acc: map<string, Json>, shortest: Shortest, key: string, u: string,
                         value: string, v: Json, w: string, tail: string)
    requires var t := SkipSpace(s); t != "" && t[0] == '"' && ParseChars(t[1..]) == Some((key, u))
    requires SkipSpace(u) == ":" + value && ParseValue(value, shortest) == Some((v, w)) && SkipSpace(w) == tail
    ensures tail != "" && tail[0] == '}' ==>
      ParseMembers(s, acc, shortest) == Some((Object(acc[key := v]), tail[1..]))
    ensures tail != "" && tail[0] == ',' ==>
      ParseMembers(s, acc, shortest) == ParseMembers(tail[1..], acc[key := v], shortest)
  {
    assert (":" + value)[1..] == value;
  }

  lemma {:induction false} ParseMembersText(s: Members, acc: map<string, Json>, rest: string, shortest: Shortest)
    requires ValidMembers(s, shortest)
    ensures ParseMembers(MembersText(s, rest), acc, shortest)
         == Some((Object(MembersValue(s, acc, shortest)), rest))
    decreases s, 1
  {
    var tail := if s.LastMember? then "}" + rest else "," + MembersText(s.more, rest);
    var value := s.gap + Text(s.value, s.after + tail);
    var key, v := PiecesString(s.key), DocValue(s.value, shortest);
    assert MembersText(s, rest) == MemberHead(s, value);
    ParseMemberHead(s, value);
    ParseDoc(s.value, s.gap, s.after + tail, shortest);
    SkipGap(s.after, tail);
    assert SkipSpace(tail) == tail;
    ParseMembersStep(MembersText(s, rest), acc, shortest, key, s.mid + (":" + value), value, v, s.after + tail, tail);
    if s.NextMember? {
      assert tail[1..] == MembersText(s.more, rest);
      ParseMembersText(s.more, acc[key := v], rest, shortest);
    } else {
      assert tail[1..] == rest;
    }
  }

  /** Whitespace, member order and escape spelling do not matter: any layout of a document
      parses to the document's value. */
  lemma ParseLayout(d: Doc, before: string, after: string, shortest: Shortest)
    requires ValidDoc(d, shortest) && IsGap(before) && IsGap(after)
    ensures Parse(before + Text(d, after), shortest) == Some(DocValue(d, shortest))
  {
    ParseDoc(d, before, after, shortest);
    SkipGap(after, "");
    assert after + "" == after;
  }
}
