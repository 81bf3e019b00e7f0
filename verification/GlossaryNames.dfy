/**
 Which project names keep the first-write-wins law of the glossary.

 The listing behind a merge is a LIKE match that stops after a thousand rows. A backslash in the
 name hides the project's own entries from it; a wildcard lets other projects' rows crowd them out.
 */
module GlossaryNames {
  import opened Common
  import opened Glossary
  import KeyValue
  import CanonicalJson

  // ---------------------------------------------------------------------------
  // Backslashes
  // ---------------------------------------------------------------------------

  predicate IsShift(u: string) {
    forall i :: 0 <= i < |u| ==> u[i] == '\\' || u[i] == '_'
  }

  /** Behind an escape the pattern runs ahead of the key and never catches up. */
  lemma {:induction false} ShiftedNeverMatches(q: string, u: string, rest: string)
    requires '%' !in q && q != "" && q[|q| - 1] == ':' && u != "" && IsShift(u)
    ensures !KeyValue.Like(q + "%", u + q + rest)
    decreases |q|, 0
  {
    var p, s := q + "%", u + q + rest;
    assert p[0] == q[0] && s[0] == u[0];
    assert q[0] in q;
    if q[0] == '\\' {
      assert |q| > 1 && p[1] == q[1];
      if q[1] == u[0] {
        ShiftBy(q, u, rest, 2);
      }
    } else if q[0] == '_' {
      ShiftBy(q, u, rest, 1);
    }
  }

  /** The pattern has used `n` characters, the key one. */
  lemma {:induction false} ShiftBy(q: string, u: string, rest: string, n: nat)
    requires '%' !in q && q != "" && q[|q| - 1] == ':' && u != "" && IsShift(u)
    requires 1 <= n <= 2 && n < |q| && IsShift(q[..n])
    ensures !KeyValue.Like((q + "%")[n..], (u + q + rest)[1..])
    decreases |q| - n, 1
  {
    var u' := u[1..] + q[..n];
    assert q == q[..n] + q[n..];
    assert (q + "%")[n..] == q[n..] + "%";
    assert (u + q + rest)[1..] == u' + q[n..] + rest;
    ShiftedNeverMatches(q[n..], u', rest);
  }

  lemma {:induction false} EscapedPrefixMatchesNothing(q: string, rest: string)
    requires '%' !in q && '\\' in q && q[|q| - 1] == ':'
    ensures !KeyValue.Like(q + "%", q + rest)
    decreases |q|
  {
    var p, s := q + "%", q + rest;
    assert p[0] == q[0] == s[0];
    assert q[0] in q;
    if q[0] == '\\' {
      assert |q| > 1 && p[1] == q[1];
      if q[1] == '\\' {
        assert |q| > 2;
        assert p[2..] == q[2..] + "%";
        assert s[1..] == "\\" + q[2..] + rest;
        ShiftedNeverMatches(q[2..], "\\", rest);
      }
    } else {
      assert p[1..] == q[1..] + "%" && s[1..] == q[1..] + rest;
      EscapedPrefixMatchesNothing(q[1..], rest);
    }
  }

  /** A project (without a percent sign in its name) sees its own entries exactly when its name
      has no backslash. */
  lemma OwnEntriesListedIffNoBackslash(project: string, abbrev: string)
    requires '%' !in project && Storable(abbrev)
    ensures KeyValue.Like(Prefix(project) + "%", EntryKey(project, abbrev)) <==> '\\' !in project
  {
    EntryKeyShape(project, abbrev);
    if '\\' in project {
      BackslashHidesAll(project, abbrev);
    } else {
      KeyValue.LikeSelectsPrefix(Prefix(project), abbrev);
    }
  }

  lemma BackslashHidesAll(project: string, rest: string)
    requires '%' !in project && '\\' in project
    ensures !KeyValue.Like(Prefix(project) + "%", Prefix(project) + rest)
  {
    EntryKeyShape(project, "x");
    var prefix := Prefix(project);
    assert prefix == SCOPE + ":" + project + ":";
    assert forall i :: 0 <= i < |SCOPE| ==> SCOPE[i] != '\\' && SCOPE[i] != '%' && SCOPE[i] != '_';
    var i :| 0 <= i < |project| && project[i] == '\\';
    assert prefix[|SCOPE| + 1 + i] == '\\';
    EscapedPrefixMatchesNothing(prefix, rest);
  }

  /** With a backslash in the name nothing is ever seen as known, so a valid pair overwrites
      whatever is stored for its abbreviation. */
  lemma BackslashLosesFirstWrite(rows: Rows, leq: KeyValue.Collation, c: Call, pair: (string, string),
                                 fold: EqualFold)
    requires '%' !in c.project && '\\' in c.project
    requires KeyValue.IsListing(rows, Prefix(c.project), leq, c.listing) && c.order == [pair]
    requires ValidAbbrev(TrimSpace(pair.0), TrimSpace(pair.1), fold)
    ensures Abbrevs(c.listing, c.project) == {}
    ensures Merged(rows, c, fold).rows
         == rows[EntryKey(c.project, TrimSpace(pair.0)) := CanonicalJson.Quote(TrimSpace(pair.1))]
  {
    var prefix := Prefix(c.project);
    forall k | k in c.listing ensures AbbrevFromKey(prefix, k) == "" {
      if KeyValue.IsPrefix(prefix, k) {
        assert k == prefix + k[|prefix|..];
        BackslashHidesAll(c.project, k[|prefix|..]);
      }
    }
    assert Abbrevs(c.listing, c.project) == {};
    var start := Merge(rows, {}, 0);
    assert c.order[..0] == [];
    assert MergeAll(start, c.project, c.order, fold) == MergeOne(start, c.project, pair, fold);
  }

  // ---------------------------------------------------------------------------
  // What a filled pattern looks like
  // ---------------------------------------------------------------------------

  /** `f` leaves `s` at a lesser character. */
  predicate Before(f: string, s: string) {
    f != "" && s != "" && (f[0] < s[0] || (f[0] == s[0] && Before(f[1..], s[1..])))
  }

  lemma {:induction false} BeforeIsAhead(f: string, s: string, b: string, a: string)
    requires Before(f, s)
    ensures CanonicalJson.Leq(f + b, s + a) && !KeyValue.IsPrefix(s, f + b)
  {
    assert (f + b)[0] == f[0] && (s + a)[0] == s[0];
    PrefixTail(s, f + b);
    if f[0] == s[0] {
      BeforeIsAhead(f[1..], s[1..], b, a);
      assert (f + b)[1..] == f[1..] + b && (s + a)[1..] == s[1..] + a;
    }
  }

  lemma PrefixTail(s: string, t: string)
    requires s != "" && t != ""
    ensures KeyValue.IsPrefix(s, t) ==> s[0] == t[0] && KeyValue.IsPrefix(s[1..], t[1..])
  {
    if KeyValue.IsPrefix(s, t) {
      assert t[..|s|][0] == t[0] && t[..|s|][1..] == t[1..][..|s[1..]|];
    }
  }

  lemma {:induction false} FillEnds(r: string, x: char)
    requires r != "" && r[|r| - 1] == ':'
    ensures var f := KeyValue.Fill(r + "%", x); f != "" && f[|f| - 1] == ':'
    ensures |KeyValue.Fill(r + "%", x)| == |KeyValue.Fill(r + "%", 'x')|
    decreases |r|
  {
    var n := if r[0] == '\\' then 2 else 1;
    assert (r + "%")[n..] == r[n..] + "%";
    if n < |r| {
      FillEnds(r[n..], x);
      FillEnds(r[n..], 'x');
    } else {
      assert r[n..] + "%" == "%";
    }
  }

  lemma {:induction false} FillKeepsLiteral(l: string, r: string, x: char)
    requires KeyValue.Literal(l) && r != ""
    ensures KeyValue.Fill(l + r + "%", x) == l + KeyValue.Fill(r + "%", x)
  {
    if l == "" {
      assert l + r + "%" == r + "%";
    } else {
      assert (l + r + "%")[1..] == l[1..] + r + "%";
      FillKeepsLiteral(l[1..], r, x);
    }
  }

  // ---------------------------------------------------------------------------
  // Hidden or crowded out
  // ---------------------------------------------------------------------------

  predicate AllBackslashes(u: string) {
    forall i :: 0 <= i < |u| ==> u[i] == '\\'
  }

  /** The pattern matches none of the project's own keys. */
  ghost predicate Hides(r: string, own: string) {
    forall a: string :: !KeyValue.Like(r + "%", own + a)
  }

  /** Two fillings of the pattern come ahead of all of the project's own keys. */
  predicate Crowds(r: string, own: string) {
    && Before(KeyValue.Fill(r + "%", '!'), own) && Before(KeyValue.Fill(r + "%", '"'), own)
    && KeyValue.Fill(r + "%", '!') != KeyValue.Fill(r + "%", '"')
  }

  /** Either kind of special character does its damage, whichever comes first. */
  lemma {:induction false} HiddenOrCrowded(r: string, u: string)
    requires r != "" && r[|r| - 1] == ':' && AllBackslashes(u) && (u == "" ==> !KeyValue.Literal(r))
    ensures Hides(r, u + r) || Crowds(r, u + r)
    decreases |r|, 1
  {
    var own := u + r;
    if r[0] == '\\' {
      EscapeHidesOrCrowds(r, u);
    } else if r[0] == '%' || r[0] == '_' {
      WildcardCrowds(r, own);
    } else if u != "" {
      MismatchHides(r, own);
    } else {
      assert own == r;
      var i :| 0 <= i < |r| && KeyValue.IsSpecial(r[i]);
      assert i != |r| - 1;
      HiddenOrCrowded(r[1..], "");
      assert "" + r[1..] == own[1..];
      StepHidesOrCrowds(r, own, 1);
    }
  }

  lemma {:induction false} EscapeHidesOrCrowds(r: string, u: string)
    requires r != "" && r[0] == '\\' && r[|r| - 1] == ':' && AllBackslashes(u)
    ensures Hides(r, u + r) || Crowds(r, u + r)
    decreases |r|, 0
  {
    var own := u + r;
    assert own[0] == '\\';
    if r[1] == '\\' {
      var u' := (u + "\\\\")[1..];
      assert r == "\\\\" + r[2..];
      assert own[1..] == u' + r[2..];
      HiddenOrCrowded(r[2..], u');
      StepHidesOrCrowds(r, own, 2);
    } else {
      MismatchHides(r, own);
    }
  }

  lemma WildcardCrowds(r: string, own: string)
    requires r != "" && own != "" && (r[0] == '%' || r[0] == '_') && (own[0] == '\\' || own[0] == r[0])
    requires r[|r| - 1] == ':'
    ensures Crowds(r, own)
  {
    assert (r + "%")[0] == r[0];
    assert KeyValue.Fill(r + "%", '!')[0] == '!' && KeyValue.Fill(r + "%", '"')[0] == '"';
  }

  /** The character the pattern demands first. */
  function Demanded(r: string): char
    requires r != "" && r[|r| - 1] == ':'
  {
    if r[0] == '\\' then r[1] else r[0]
  }

  lemma MismatchHides(r: string, own: string)
    requires r != "" && r[|r| - 1] == ':' && r[0] != '%' && r[0] != '_'
    requires own != "" && own[0] != Demanded(r)
    ensures Hides(r, own)
  {
    forall a: string ensures !KeyValue.Like(r + "%", own + a) {
      assert (own + a)[0] == own[0] && (r + "%")[0] == r[0];
      if r[0] == '\\' {
        assert (r + "%")[1] == r[1];
      }
    }
  }

  lemma StepHidesOrCrowds(r: string, own: string, n: nat)
    requires r != "" && r[|r| - 1] == ':' && r[0] != '%' && r[0] != '_'
    requires n == (if r[0] == '\\' then 2 else 1) < |r| && own != "" && own[0] == Demanded(r)
    requires Hides(r[n..], own[1..]) || Crowds(r[n..], own[1..])
    ensures Hides(r, own) || Crowds(r, own)
  {
    var q := r + "%";
    assert q[n..] == r[n..] + "%";
    if Hides(r[n..], own[1..]) {
      forall a: string ensures !KeyValue.Like(q, own + a) {
        assert (own + a)[0] == own[0] && (own + a)[1..] == own[1..] + a;
        assert !KeyValue.Like(r[n..] + "%", own[1..] + a);
      }
    } else {
      assert KeyValue.Fill(q, '!') == [own[0]] + KeyValue.Fill(q[n..], '!');
      assert KeyValue.Fill(q, '"') == [own[0]] + KeyValue.Fill(q[n..], '"');
      assert KeyValue.Fill(q, '!')[1..] == KeyValue.Fill(q[n..], '!');
      assert KeyValue.Fill(q, '"')[1..] == KeyValue.Fill(q[n..], '"');
    }
  }

  // ---------------------------------------------------------------------------
  // A store full of other projects' entries
  // ---------------------------------------------------------------------------

  function Code(i: nat): (a: string)
    ensures |a| == 2
  {
    [('a' as int + i / 26 % 26) as char, ('a' as int + i % 26) as char]
  }

  lemma CodeIsInjective(i: nat, j: nat)
    requires i < 676 && j < 676 && Code(i) == Code(j)
    ensures i == j
  {
    assert Code(i)[0] == Code(j)[0] && Code(i)[1] == Code(j)[1];
    assert i / 26 == j / 26 && i % 26 == j % 26;
  }

  function Stored(): string {
    CanonicalJson.Quote("xxx")
  }

  lemma CodeIsValid(i: nat, fold: EqualFold)
    requires IsFold(fold)
    ensures ValidEntry(Code(i), "xxx", fold)
  {
    var a := Code(i);
    assert forall c :: c in a ==> 'a' <= c <= 'z';
    assert ByteLength(a[1..]) == 1 && ByteLength("xxx"[2..]) == 1;
    assert TrimLeft(a) == a && TrimRight(a) == a;
    assert TrimLeft("xxx") == "xxx" && TrimRight("xxx") == "xxx";
  }

  function Codes(n: nat): set<string> {
    set i: nat | i < n :: Code(i)
  }

  function CrowdKeys(q: string, n: nat): set<string> {
    set i: nat | i < n :: EntryKey(q, Code(i))
  }

  lemma {:induction false} CodesSize(n: nat)
    ensures |Codes(n)| <= n
  {
    if n > 0 {
      CodesSize(n - 1);
      assert Codes(n) == Codes(n - 1) + {Code(n - 1)};
    }
  }

  lemma CodeKeysDiffer(q: string, i: nat, r: string, j: nat)
    requires i < MAX_ENTRIES && j < MAX_ENTRIES && (q != r || i != j)
    ensures EntryKey(q, Code(i)) != EntryKey(r, Code(j))
  {
    CodeIsStorable(i);
    CodeIsStorable(j);
    EntryKeyInjective(q, Code(i), r, Code(j));
    if Code(i) == Code(j) {
      CodeIsInjective(i, j);
    }
  }

  lemma {:induction false} CrowdSize(q: string, n: nat)
    requires n <= MAX_ENTRIES
    ensures |CrowdKeys(q, n)| == n
  {
    if n > 0 {
      CrowdSize(q, n - 1);
      OneMoreKey(q, n - 1);
    }
  }

  lemma OneMoreKey(q: string, n: nat)
    requires n < MAX_ENTRIES
    ensures CrowdKeys(q, n + 1) == CrowdKeys(q, n) + {EntryKey(q, Code(n))} && EntryKey(q, Code(n)) !in CrowdKeys(q, n)
  {
    forall i: nat | i < n ensures EntryKey(q, Code(i)) != EntryKey(q, Code(n)) {
      CodeKeysDiffer(q, i, q, n);
    }
  }

  lemma CodeIsStorable(i: nat)
    ensures Storable(Code(i))
  {
  }

  function StoreOf(keys: set<string>): Rows {
    map k | k in keys :: Stored()
  }

  ghost predicate AreCodeKeys(keys: set<string>) {
    forall k :: k in keys ==> exists q, i: nat :: i < MAX_ENTRIES && k == EntryKey(q, Code(i))
  }

  lemma CodeStoreIsSound(keys: set<string>, fold: EqualFold)
    requires AreCodeKeys(keys) && IsFold(fold)
    ensures Sound(StoreOf(keys), fold)
  {
    var rows := StoreOf(keys);
    forall k | k in rows ensures RowValid(k, rows[k], fold) {
      var q, i: nat :| i < MAX_ENTRIES && k == EntryKey(q, Code(i));
      CodeIsValid(i, fold);
    }
    forall p ensures |OwnAbbrevs(rows, p)| <= MAX_ENTRIES {
      forall a | a in OwnAbbrevs(rows, p) ensures a in Codes(MAX_ENTRIES) {
        OwnMeansRow(rows, p, a);
        var q, i: nat :| i < MAX_ENTRIES && EntryKey(p, a) == EntryKey(q, Code(i));
        CodeIsStorable(i);
        EntryKeyInjective(p, a, q, Code(i));
      }
      CodesSize(MAX_ENTRIES);
      SubsetIsSmaller(OwnAbbrevs(rows, p), Codes(MAX_ENTRIES));
    }
  }

  function OwnKey(project: string): string {
    EntryKey(project, Code(0))
  }

  /** The listing shows no entry of the project, though one is stored. */
  lemma OwnIsUnseen(rows: Rows, project: string, listing: Rows)
    requires OwnKey(project) in rows
    requires forall k :: k in listing ==> !KeyValue.IsPrefix(Prefix(project), k)
    ensures Abbrevs(listing, project) == {} && !Suffices(rows, project, listing)
  {
    CodeIsStorable(0);
    OwnMeansRow(rows, project, Code(0));
  }

  /** The rows that crowd a project out: all of two other glossaries. */
  function Crowd(q1: string, q2: string): set<string> {
    CrowdKeys(q1, MAX_ENTRIES) + CrowdKeys(q2, MAX_ENTRIES)
  }

  lemma CrowdIsThousand(q1: string, q2: string)
    requires q1 != q2
    ensures |Crowd(q1, q2)| == KeyValue.LIST_CAP && AreCodeKeys(Crowd(q1, q2))
  {
    CrowdSize(q1, MAX_ENTRIES);
    CrowdSize(q2, MAX_ENTRIES);
    forall k | k in CrowdKeys(q1, MAX_ENTRIES) ensures k !in CrowdKeys(q2, MAX_ENTRIES) {
      var i: nat :| i < MAX_ENTRIES && k == EntryKey(q1, Code(i));
      forall j: nat | j < MAX_ENTRIES ensures k != EntryKey(q2, Code(j)) {
        CodeKeysDiffer(q1, i, q2, j);
      }
    }
    assert CrowdKeys(q1, MAX_ENTRIES) !! CrowdKeys(q2, MAX_ENTRIES);
  }

  /** A thousand other rows that the project's pattern selects ahead of its own key leave no room
      for it in a listing. */
  lemma CrowdedOut(p: string, crowd: set<string>, leq: KeyValue.Collation, fold: EqualFold)
    requires IsFold(fold) && |crowd| == KeyValue.LIST_CAP && AreCodeKeys(crowd)
    requires forall k :: k in crowd ==> CrowdsOut(p, leq, k)
    ensures var rows, listing := StoreOf(crowd + {OwnKey(p)}), StoreOf(crowd);
      && Sound(rows, fold) && KeyValue.IsListing(rows, Prefix(p), leq, listing) && !Suffices(rows, p, listing)
  {
    CrowdListing(crowd, p, leq);
    WithOwnKey(crowd, p);
    CodeStoreIsSound(crowd + {OwnKey(p)}, fold);
    OwnIsUnseen(StoreOf(crowd + {OwnKey(p)}), p, StoreOf(crowd));
  }

  /** The key is selected for the project, ahead of its own key, and not one of its entries. */
  predicate CrowdsOut(p: string, leq: KeyValue.Collation, k: string) {
    KeyValue.Like(Prefix(p) + "%", k) && leq(k, OwnKey(p)) && !KeyValue.IsPrefix(Prefix(p), k)
  }

  lemma WithOwnKey(crowd: set<string>, p: string)
    requires AreCodeKeys(crowd)
    ensures AreCodeKeys(crowd + {OwnKey(p)})
  {
    forall k | k in crowd + {OwnKey(p)}
      ensures exists q, i: nat :: i < MAX_ENTRIES && k == EntryKey(q, Code(i))
    {
      if k == OwnKey(p) {
        assert k == EntryKey(p, Code(0));
      }
    }
  }

  lemma CrowdListing(crowd: set<string>, p: string, leq: KeyValue.Collation)
    requires |crowd| == KeyValue.LIST_CAP
    requires forall k :: k in crowd ==> CrowdsOut(p, leq, k)
    ensures KeyValue.IsListing(StoreOf(crowd + {OwnKey(p)}), Prefix(p), leq, StoreOf(crowd))
  {
    assert StoreOf(crowd).Keys == crowd;
  }

  /** A project whose keys no pattern matches sees an empty listing. */
  lemma HiddenIsUnseen(p: string, leq: KeyValue.Collation, fold: EqualFold)
    requires IsFold(fold) && Hides(Prefix(p), Prefix(p))
    ensures var rows := StoreOf({OwnKey(p)});
      && Sound(rows, fold) && KeyValue.IsListing(rows, Prefix(p), leq, map[]) && !Suffices(rows, p, map[])
  {
    var rows := StoreOf({OwnKey(p)});
    CodeStoreIsSound({OwnKey(p)}, fold);
    OwnIsUnseen(rows, p, map[]);
    EntryKeyShape(p, Code(0));
    assert !KeyValue.Like(Prefix(p) + "%", Prefix(p) + Code(0));
    assert KeyValue.Selected(rows, Prefix(p)) == {};
  }

  // ---------------------------------------------------------------------------
  // Which names keep the law
  // ---------------------------------------------------------------------------

  /** A project whose prefix is the filled pattern. */
  function FilledProject(p: string, x: char): string {
    var f := KeyValue.Fill(p + ":" + "%", x);
    if f == "" then "" else f[..|f| - 1]
  }

  lemma FilledPrefix(p: string, x: char)
    requires p != ""
    ensures KeyValue.Fill(Prefix(p) + "%", x) == (SCOPE + ":") + (FilledProject(p, x) + ":")
    ensures |FilledProject(p, x)| == |FilledProject(p, 'x')|
    ensures FilledProject(p, x) != "" ==> KeyValue.Fill(Prefix(p) + "%", x) == Prefix(FilledProject(p, x))
  {
    PrefixParts(p);
    FillEnds(p + ":", x);
    FillEnds(p + ":", 'x');
    FillKeepsLiteral(SCOPE + ":", p + ":", x);
    EndsInColon(KeyValue.Fill(p + ":" + "%", x));
    if FilledProject(p, x) != "" {
      PrefixParts(FilledProject(p, x));
    }
  }

  lemma PrefixParts(p: string)
    requires p != ""
    ensures Prefix(p) == (SCOPE + ":") + (p + ":") && KeyValue.Literal(SCOPE + ":")
  {
    EntryKeyShape(p, "x");
    assert Prefix(p) == (SCOPE + ":") + (p + ":");
  }

  lemma EndsInColon(f: string)
    requires f != "" && f[|f| - 1] == ':'
    ensures f == f[..|f| - 1] + ":"
  {
  }

  lemma CrowdKeyIsAhead(p: string, x: char, i: nat)
    requires p != "" && Before(KeyValue.Fill(Prefix(p) + "%", x), Prefix(p)) && FilledProject(p, x) != ""
    ensures CrowdsOut(p, CanonicalJson.Leq, EntryKey(FilledProject(p, x), Code(i)))
  {
    var f := KeyValue.Fill(Prefix(p) + "%", x);
    FilledPrefix(p, x);
    EntryKeyShape(FilledProject(p, x), Code(i));
    EntryKeyShape(p, Code(0));
    KeyValue.FillMatches(Prefix(p), x, Code(i));
    BeforeIsAhead(f, Prefix(p), Code(i), Code(0));
  }

  /** A name with a special character has a store and a listing that shows too little of it. */
  lemma SpecialNameIsUnseen(p: string, fold: EqualFold) returns (rows: Rows, listing: Rows)
    requires IsFold(fold) && !KeyValue.Literal(p)
    ensures Sound(rows, fold) && KeyValue.IsListing(rows, Prefix(p), CanonicalJson.Leq, listing)
    ensures !Suffices(rows, p, listing)
  {
    LiteralPrefix(p);
    EntryKeyShape(p, "x");
    HiddenOrCrowded(Prefix(p), "");
    assert "" + Prefix(p) == Prefix(p);
    if Hides(Prefix(p), Prefix(p)) {
      HiddenIsUnseen(p, CanonicalJson.Leq, fold);
      return StoreOf({OwnKey(p)}), map[];
    }
    var q1, q2 := FilledProject(p, '!'), FilledProject(p, '"');
    FilledPrefix(p, '!');
    FilledPrefix(p, '"');
    assert q1 != q2 && |q1| == |q2|;
    forall k | k in Crowd(q1, q2) ensures CrowdsOut(p, CanonicalJson.Leq, k) {
      var i: nat :| i < MAX_ENTRIES && (k == EntryKey(q1, Code(i)) || k == EntryKey(q2, Code(i)));
      CrowdKeyIsAhead(p, '!', i);
      CrowdKeyIsAhead(p, '"', i);
    }
    CrowdIsThousand(q1, q2);
    CrowdedOut(p, Crowd(q1, q2), CanonicalJson.Leq, fold);
    return StoreOf(Crowd(q1, q2) + {OwnKey(p)}), StoreOf(Crowd(q1, q2));
  }

  /** Whatever is stored and whatever is merged, stored expansions stay. */
  ghost predicate KeepsFirstWrites(project: string, leq: KeyValue.Collation, fold: EqualFold) {
    forall rows: Rows, listing: Rows, order: seq<(string, string)> ::
      Sound(rows, fold) && KeyValue.IsListing(rows, Prefix(project), leq, listing) ==>
        Extends(rows, Merged(rows, Call(project, order, listing), fold).rows)
  }

  lemma LiteralNamesKeepFirstWrites(project: string, leq: KeyValue.Collation, fold: EqualFold)
    requires KeyValue.Literal(project)
    ensures KeepsFirstWrites(project, leq, fold)
  {
    forall rows: Rows, listing: Rows, order: seq<(string, string)>
      | Sound(rows, fold) && KeyValue.IsListing(rows, Prefix(project), leq, listing)
      ensures Extends(rows, Merged(rows, Call(project, order, listing), fold).rows)
    {
      LiteralSuffices(rows, leq, project, listing);
      MergeKeepsStore(rows, leq, Call(project, order, listing), fold);
    }
  }

  /** With keys in code point order, first write wins for exactly the projects whose names hold no
      percent sign, underscore or backslash. */
  lemma FirstWriteWinsIffLiteral(project: string, fold: EqualFold)
    requires IsFold(fold)
    ensures KeepsFirstWrites(project, CanonicalJson.Leq, fold) <==> KeyValue.Literal(project)
  {
    if KeyValue.Literal(project) {
      LiteralNamesKeepFirstWrites(project, CanonicalJson.Leq, fold);
    } else {
      var rows, listing := SpecialNameIsUnseen(project, fold);
      var order := UnshownOverwrites(rows, project, listing, fold);
    }
  }

  lemma CodePointsAreCollation()
    ensures KeyValue.IsCollation(CanonicalJson.Leq)
  {
    forall a, b ensures CanonicalJson.Leq(a, b) || CanonicalJson.Leq(b, a) {
      CanonicalJson.LeqTotal(a, b);
    }
    forall a, b | CanonicalJson.Leq(a, b) && CanonicalJson.Leq(b, a) ensures a == b {
      CanonicalJson.LeqAntisymmetric(a, b);
    }
    forall a, b, c | CanonicalJson.Leq(a, b) && CanonicalJson.Leq(b, c) ensures CanonicalJson.Leq(a, c) {
      CanonicalJson.LeqTransitive(a, b, c);
    }
  }

  /** No backslash is needed: the glossaries of `a-b` and `a.b` together hide what `a_b` stored. */
  lemma UnderscoreIsCrowdedOut(fold: EqualFold) returns (order: seq<(string, string)>)
    requires IsFold(fold)
    ensures var rows, listing := StoreOf(Crowd("a-b", "a.b") + {OwnKey("a_b")}), StoreOf(Crowd("a-b", "a.b"));
      && Sound(rows, fold) && KeyValue.IsListing(rows, Prefix("a_b"), CanonicalJson.Leq, listing)
      && !Extends(rows, Merged(rows, Call("a_b", order, listing), fold).rows)
  {
    var p := "a_b";
    forall k | k in Crowd("a-b", "a.b") ensures CrowdsOut(p, CanonicalJson.Leq, k) {
      var i: nat :| i < MAX_ENTRIES && (k == EntryKey("a-b", Code(i)) || k == EntryKey("a.b", Code(i)));
      DashOrDotIsAhead('-', i);
      DashOrDotIsAhead('.', i);
    }
    CrowdIsThousand("a-b", "a.b");
    CrowdedOut(p, Crowd("a-b", "a.b"), CanonicalJson.Leq, fold);
    order := UnshownOverwrites(StoreOf(Crowd("a-b", "a.b") + {OwnKey(p)}), p, StoreOf(Crowd("a-b", "a.b")), fold);
  }

  lemma DashOrDotIsAhead(x: char, i: nat)
    requires x == '-' || x == '.'
    ensures CrowdsOut("a_b", CanonicalJson.Leq, EntryKey(['a', x, 'b'], Code(i)))
  {
    FilledUnderscore(x);
    FilledPrefix("a_b", x);
    EntryKeyShape("a_b", "x");
    BeforeAfter(SCOPE + ":" + "a", [x] + "b:", "_b:");
    assert KeyValue.Fill(Prefix("a_b") + "%", x) == SCOPE + ":" + "a" + ([x] + "b:");
    assert Prefix("a_b") == SCOPE + ":" + "a" + "_b:";
    CrowdKeyIsAhead("a_b", x, i);
  }

  lemma FilledUnderscore(x: char)
    ensures FilledProject("a_b", x) == ['a', x, 'b']
  {
    FillCharacter("a", "_b:", x);
    FillCharacter("_", "b:", x);
    FillCharacter("b", ":", x);
    assert "a_b" + ":" == "a" + "_b:" && "_" + "b:" == "_b:" && "b" + ":" == "b:";
    assert ":" + "%" == ":%" && ":%"[1..] == "%";
    assert KeyValue.Fill(":%", x) == ":";
    assert KeyValue.Fill("a_b" + ":" + "%", x) == "a" + ([x] + ("b" + ":"));
  }

  lemma FillCharacter(c: string, r: string, x: char)
    requires |c| == 1 && r != "" && c[0] != '\\'
    ensures KeyValue.Fill(c + r + "%", x)
         == (if c[0] == '%' || c[0] == '_' then [x] else c) + KeyValue.Fill(r + "%", x)
  {
    assert (c + r + "%")[1..] == r + "%";
  }

  lemma {:induction false} BeforeAfter(l: string, f: string, s: string)
    requires Before(f, s)
    ensures Before(l + f, l + s)
  {
    if l == "" {
      assert l + f == f && l + s == s;
    } else {
      BeforeAfter(l[1..], f, s);
      assert (l + f)[1..] == l[1..] + f && (l + s)[1..] == l[1..] + s;
    }
  }
}
