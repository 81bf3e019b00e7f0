/**
 Claiming a growing transcript.

 Hook processes claim byte ranges under the trace lock and ingest them later, while the
 file keeps growing.  The claims of one session tile the file; the texts ingested claim by
 claim are those of one pass over the whole file exactly when every inner boundary touches
 a newline and the size cap cut off nothing but newlines.
 */
module TranscriptClaims {
  import opened Common
  import opened TranscriptText

  /** The per-session state file; every method body runs under its lock. */
  class TraceState {
    var turn: nat
    var transcriptOffset: nat
    var injectedIds: seq<string>

    /** A missing state file reads as this. */
    constructor ()
      ensures turn == 0 && transcriptOffset == 0 && injectedIds == []
    {
      turn, transcriptOffset, injectedIds := 0, 0, [];
    }

    /** The claim shared by the Stop, SessionEnd and PreCompact hooks; `size` is absent when
        the hook has no transcript path or the file cannot be examined. */
    method Claim(size: Option<nat>) returns (from: nat, to: nat)
      modifies this`transcriptOffset
      ensures from == old(transcriptOffset)
      ensures size.Some? ==> to == size.value && transcriptOffset == size.value
      ensures size.None? ==> to == 0 && transcriptOffset == old(transcriptOffset)
      ensures (Range(from, to), transcriptOffset) == ClaimAt(old(transcriptOffset), size)
    {
      from := transcriptOffset;
      to := 0;
      if size.Some? {
        to := size.value;
        transcriptOffset := to;
      }
    }

    method BeginSession(source: string)
      modifies this
      ensures if source == "startup" || source == "clear" || source == ""
              then turn == 0 && transcriptOffset == 0 && injectedIds == []
              else turn == old(turn) && transcriptOffset == old(transcriptOffset) && injectedIds == old(injectedIds)
    {
      if source == "startup" || source == "clear" || source == "" {
        turn := 0;
        transcriptOffset := 0;
        injectedIds := [];
      }
    }
  }

  predicate Resets(source: string) {
    source == "startup" || source == "clear" || source == ""
  }

  // ---------------------------------------------------------------------------
  // Interleavings
  // ---------------------------------------------------------------------------

  datatype Range = Range(from: nat, to: nat)

  /** The range claimed from an offset and the offset stored afterwards. */
  function ClaimAt(offset: nat, size: Option<nat>): (Range, nat) {
    match size
    case Some(n) => (Range(offset, n), n)
    case None => (Range(offset, 0), offset)
  }

  /** The file, the claimed offset, all claims so far and for each of them the bytes its ingest
      has read, if it has run yet; those before `start` were made before the last reset of the
      trace state. */
  datatype Session = Session(file: Bytes, offset: nat, claims: seq<Range>, taken: seq<Option<Bytes>>, start: nat)

  /** The claims since the last reset. */
  datatype Round = Round(file: Bytes, offset: nat, claims: seq<Range>, taken: seq<Option<Bytes>>)

  function Current(s: Session): Round
    requires s.start <= |s.claims| == |s.taken|
  {
    Round(s.file, s.offset, s.claims[s.start..], s.taken[s.start..])
  }

  datatype Event =
    | Append(more: Bytes)
    | TakeClaim(stat: bool)
    | Ingest(i: nat)
    | BeginSession(source: string)
    | DeleteState

  predicate Enabled(s: Session, e: Event) {
    e.Ingest? ==> e.i < |s.taken| && e.i < |s.claims| && s.taken[e.i].None?
  }

  function Apply(s: Session, e: Event): Session
    requires Enabled(s, e)
  {
    match e
    case Append(more) => s.(file := s.file + more)
    case TakeClaim(stat) =>
      var (range, offset) := ClaimAt(s.offset, if stat then Some(|s.file|) else None);
      var s' := s.(offset := offset);
      if range.to > range.from then s'.(claims := s.claims + [range], taken := s.taken + [None]) else s'
    case Ingest(i) =>
      s.(taken := s.taken[i := Some(ReadRange(s.file, s.claims[i].from, s.claims[i].to))])
    case BeginSession(source) => if Resets(source) then Reset(s) else s
    case DeleteState => Reset(s)
  }

  function Reset(s: Session): Session {
    s.(offset := 0, start := |s.claims|)
  }

  function Unclaimed(file: Bytes): Session {
    Session(file, 0, [], [], 0)
  }

  /** `run` leads from `s` to `t`. */
  ghost predicate Leads(s: Session, run: seq<Event>, t: Session)
    decreases |run|
  {
    if run == [] then s == t
    else Enabled(s, run[0]) && Leads(Apply(s, run[0]), run[1..], t)
  }

  ghost predicate Tiles(claims: seq<Range>, end: nat) {
    && (forall i :: 0 <= i < |claims| ==> claims[i].from < claims[i].to)
    && (forall i, j :: 0 <= i < j < |claims| && j == i + 1 ==> claims[i].to == claims[j].from)
    && if claims == [] then end == 0 else claims[0].from == 0 && claims[|claims| - 1].to == end
  }

  /** Every ingest so far read exactly its own range. */
  ghost predicate ReadsMatch(file: Bytes, claims: seq<Range>, taken: seq<Option<Bytes>>)
    requires |taken| == |claims| && forall i :: 0 <= i < |claims| ==> claims[i].from < claims[i].to <= |file|
  {
    forall i :: 0 <= i < |claims| && taken[i].Some? ==> taken[i].value == Cap(file[claims[i].from..claims[i].to])
  }

  ghost predicate Consistent(s: Round) {
    && s.offset <= |s.file| && |s.taken| == |s.claims|
    && Tiles(s.claims, s.offset)
    && (forall i :: 0 <= i < |s.claims| ==> s.claims[i].to <= s.offset)
    && ReadsMatch(s.file, s.claims, s.taken)
  }

  lemma ReadsMatchLonger(file: Bytes, more: Bytes, claims: seq<Range>, taken: seq<Option<Bytes>>)
    requires |taken| == |claims| && forall i :: 0 <= i < |claims| ==> claims[i].from < claims[i].to <= |file|
    requires ReadsMatch(file, claims, taken)
    ensures ReadsMatch(file + more, claims, taken)
  {
    forall i | 0 <= i < |claims| && taken[i].Some?
      ensures taken[i].value == Cap((file + more)[claims[i].from..claims[i].to])
    {
      assert (file + more)[claims[i].from..claims[i].to] == file[claims[i].from..claims[i].to];
    }
  }

  lemma ReadIsCapped(file: Bytes, r: Range)
    requires r.from < r.to <= |file|
    ensures ReadRange(file, r.from, r.to) == Cap(file[r.from..r.to])
  {
    if r.to - r.from > MAX_DELTA {
      assert file[r.from..r.to][..MAX_DELTA] == file[r.from..r.from + MAX_DELTA];
    }
  }

  /** The current round is consistent, and the earlier claims are those of the same file, with
      ingests that read exactly their ranges too. */
  ghost predicate Sound(s: Session) {
    && s.start <= |s.claims| == |s.taken|
    && (forall i :: 0 <= i < |s.claims| ==> s.claims[i].from < s.claims[i].to <= |s.file|)
    && ReadsMatch(s.file, s.claims, s.taken)
    && s.offset <= |s.file|
    && Tiles(s.claims[s.start..], s.offset)
  }

  lemma {:induction false} TilesAreBelow(claims: seq<Range>, end: nat)
    requires Tiles(claims, end)
    ensures forall i :: 0 <= i < |claims| ==> claims[i].to <= end
    ensures forall i, j :: 0 <= i < j < |claims| ==> claims[i].to <= claims[j].from
    decreases |claims|
  {
    if claims != [] {
      var init, last := claims[..|claims| - 1], claims[|claims| - 1];
      TilesAreBelow(init, last.from);
      assert claims == init + [last];
    }
  }

  lemma SoundIsConsistent(s: Session)
    requires Sound(s)
    ensures Consistent(Current(s))
  {
    TilesAreBelow(s.claims[s.start..], s.offset);
    forall i | 0 <= i < |s.claims| - s.start && s.taken[s.start..][i].Some?
      ensures s.taken[s.start..][i].value == Cap(s.file[s.claims[s.start..][i].from..s.claims[s.start..][i].to])
    {
      assert s.taken[s.start + i].Some?;
    }
  }

  lemma TilesExtend(claims: seq<Range>, end: nat, to: nat)
    requires Tiles(claims, end) && end < to
    ensures Tiles(claims + [Range(end, to)], to)
  {
  }

  lemma ClaimKeepsSound(s: Session, stat: bool)
    requires Sound(s)
    ensures Sound(Apply(s, TakeClaim(stat)))
  {
    var s' := Apply(s, TakeClaim(stat));
    if stat && |s.file| > s.offset {
      TilesExtend(s.claims[s.start..], s.offset, |s.file|);
      assert s'.claims[s.start..] == s.claims[s.start..] + [Range(s.offset, |s.file|)];
    }
  }

  lemma IngestKeepsSound(s: Session, i: nat)
    requires Sound(s) && Enabled(s, Ingest(i))
    ensures Sound(Apply(s, Ingest(i)))
  {
    ReadIsCapped(s.file, s.claims[i]);
  }

  lemma StepKeepsSound(s: Session, e: Event)
    requires Sound(s) && Enabled(s, e)
    ensures Sound(Apply(s, e))
  {
    if e.Append? {
      ReadsMatchLonger(s.file, e.more, s.claims, s.taken);
    } else if e.TakeClaim? {
      ClaimKeepsSound(s, e.stat);
    } else if e.Ingest? {
      IngestKeepsSound(s, e.i);
    } else {
      assert s.claims[|s.claims|..] == [];
    }
  }

  lemma {:induction false} RunKeepsSound(s: Session, run: seq<Event>, t: Session)
    requires Sound(s) && Leads(s, run, t)
    ensures Sound(t)
    decreases |run|
  {
    if run != [] {
      StepKeepsSound(s, run[0]);
      RunKeepsSound(Apply(s, run[0]), run[1..], t);
    }
  }

  /** In every interleaving the claims since the last reset tile the claimed part of the file,
      and every ingest, of those and of all earlier claims, read exactly its own range, however
      late it ran. */
  lemma ClaimsTile(file: Bytes, run: seq<Event>, t: Session)
    requires Leads(Unclaimed(file), run, t)
    ensures Sound(t) && Consistent(Current(t))
  {
    RunKeepsSound(Unclaimed(file), run, t);
    SoundIsConsistent(t);
  }

  predicate Covers(r: Range, p: nat) {
    r.from <= p < r.to
  }

  lemma {:induction false} CoveringClaim(claims: seq<Range>, end: nat, p: nat) returns (i: nat)
    requires Tiles(claims, end) && p < end
    ensures i < |claims| && Covers(claims[i], p)
    decreases |claims|
  {
    var init, last := claims[..|claims| - 1], claims[|claims| - 1];
    assert claims == init + [last];
    if last.from <= p {
      i := |init|;
    } else {
      i := CoveringClaim(init, last.from, p);
    }
  }

  /** No byte is claimed twice and none is skipped. */
  lemma EveryByteClaimedOnce(claims: seq<Range>, end: nat, p: nat)
    requires Tiles(claims, end)
    ensures p < end <==> exists i :: 0 <= i < |claims| && Covers(claims[i], p)
    ensures forall i, j :: 0 <= i < j < |claims| ==> !(Covers(claims[i], p) && Covers(claims[j], p))
  {
    TilesAreBelow(claims, end);
    if p < end {
      var i := CoveringClaim(claims, end, p);
    }
  }

  // ---------------------------------------------------------------------------
  // Claims before and after a reset
  // ---------------------------------------------------------------------------

  predicate Disjoint(a: Range, b: Range) {
    a.to <= b.from || b.to <= a.from
  }

  /** No byte lies in two claims. */
  ghost predicate AllDisjoint(claims: seq<Range>) {
    forall i, j :: 0 <= i < j < |claims| ==> Disjoint(claims[i], claims[j])
  }

  /** The event makes a non-empty claim. */
  predicate Claims(s: Session, e: Event) {
    e.TakeClaim? && e.stat && |s.file| > s.offset
  }

  predicate Clears(e: Event) {
    e.DeleteState? || (e.BeginSession? && Resets(e.source))
  }

  /** A claim. */
  predicate ClaimsLater(s: Session, run: seq<Event>)
    decreases |run|
  {
    run != [] && Enabled(s, run[0]) && (Claims(s, run[0]) || ClaimsLater(Apply(s, run[0]), run[1..]))
  }

  /** A reset, and later a claim. */
  predicate ClaimsAfterReset(s: Session, run: seq<Event>)
    decreases |run|
  {
    run != [] && Enabled(s, run[0]) &&
    ((Clears(run[0]) && ClaimsLater(Apply(s, run[0]), run[1..])) || ClaimsAfterReset(Apply(s, run[0]), run[1..]))
  }

  /** A claim, later a reset, and later still a claim. */
  predicate ClaimsTwice(s: Session, run: seq<Event>)
    decreases |run|
  {
    run != [] && Enabled(s, run[0]) &&
    ((Claims(s, run[0]) && ClaimsAfterReset(Apply(s, run[0]), run[1..])) || ClaimsTwice(Apply(s, run[0]), run[1..]))
  }

  lemma {:induction false} AfterResetIsLater(s: Session, run: seq<Event>)
    requires ClaimsAfterReset(s, run)
    ensures ClaimsLater(s, run)
    decreases |run|
  {
    if ClaimsAfterReset(Apply(s, run[0]), run[1..]) {
      AfterResetIsLater(Apply(s, run[0]), run[1..]);
    }
  }

  lemma {:induction false} TwiceIsAfterReset(s: Session, run: seq<Event>)
    requires ClaimsTwice(s, run)
    ensures ClaimsAfterReset(s, run)
    decreases |run|
  {
    if ClaimsTwice(Apply(s, run[0]), run[1..]) {
      TwiceIsAfterReset(Apply(s, run[0]), run[1..]);
    }
  }

  /** All claims form one tiling. */
  ghost predicate OneRound(claims: seq<Range>) {
    Tiles(claims, if claims == [] then 0 else claims[|claims| - 1].to)
  }

  ghost predicate TwoRounds(claims: seq<Range>) {
    exists i, j :: 0 <= i < j < |claims| && claims[i].from == 0 && claims[j].from == 0
  }

  lemma OneRoundIsDisjoint(claims: seq<Range>)
    requires OneRound(claims)
    ensures AllDisjoint(claims)
  {
    TilesAreBelow(claims, if claims == [] then 0 else claims[|claims| - 1].to);
  }

  lemma TwoRoundsOverlap(claims: seq<Range>)
    requires TwoRounds(claims) && forall i :: 0 <= i < |claims| ==> claims[i].from < claims[i].to
    ensures !AllDisjoint(claims)
  {
    var i, j :| 0 <= i < j < |claims| && claims[i].from == 0 && claims[j].from == 0;
    assert !Disjoint(claims[i], claims[j]);
  }

  lemma {:induction false} ClaimsAreKept(s: Session, run: seq<Event>, t: Session)
    requires Leads(s, run, t)
    ensures |s.claims| <= |t.claims| && t.claims[..|s.claims|] == s.claims
    decreases |run|
  {
    if run != [] {
      var s' := Apply(s, run[0]);
      ClaimsAreKept(s', run[1..], t);
      assert s'.claims[..|s.claims|] == s.claims;
      assert t.claims[..|s.claims|] == t.claims[..|s'.claims|][..|s.claims|];
    }
  }

  lemma TwoRoundsStay(s: Session, run: seq<Event>, t: Session)
    requires Leads(s, run, t) && TwoRounds(s.claims)
    ensures TwoRounds(t.claims)
  {
    ClaimsAreKept(s, run, t);
    var i, j :| 0 <= i < j < |s.claims| && s.claims[i].from == 0 && s.claims[j].from == 0;
    assert t.claims[i] == t.claims[..|s.claims|][i] && t.claims[j] == t.claims[..|s.claims|][j];
  }

  /** What makes a state with a single round so far get a second one. */
  predicate Doubles(s: Session, run: seq<Event>) {
    if s.claims == [] then ClaimsTwice(s, run)
    else if s.start == |s.claims| then ClaimsLater(s, run)
    else ClaimsAfterReset(s, run)
  }

  ghost predicate Single(s: Session) {
    Sound(s) && OneRound(s.claims) && (s.start == 0 || s.start == |s.claims|)
  }

  /** A claim after a reset starts a second round. */
  lemma SecondRound(s: Session, e: Event)
    requires Single(s) && s.claims != [] && s.start == |s.claims| && Claims(s, e)
    ensures TwoRounds(Apply(s, e).claims)
  {
    var claims := Apply(s, e).claims;
    assert s.claims[s.start..] == [] && s.offset == 0;
    assert claims[0].from == 0 && claims[|s.claims|].from == 0;
  }

  lemma StepStaysSingle(s: Session, e: Event)
    requires Single(s) && Enabled(s, e) && !(s.claims != [] && s.start == |s.claims| && Claims(s, e))
    ensures Single(Apply(s, e))
  {
    StepKeepsSound(s, e);
    if Claims(s, e) {
      ClaimStaysOneRound(s);
    }
  }

  lemma ClaimStaysOneRound(s: Session)
    requires Single(s) && |s.file| > s.offset && (s.claims == [] || s.start < |s.claims|)
    ensures OneRound(s.claims + [Range(s.offset, |s.file|)]) && s.start == 0
  {
    assert s.claims[0..] == s.claims;
    TilesExtend(s.claims, s.offset, |s.file|);
  }

  lemma ClaimsNest(s: Session, run: seq<Event>)
    ensures ClaimsTwice(s, run) ==> ClaimsAfterReset(s, run)
    ensures ClaimsAfterReset(s, run) ==> ClaimsLater(s, run)
  {
    if ClaimsTwice(s, run) {
      TwiceIsAfterReset(s, run);
    }
    if ClaimsAfterReset(s, run) {
      AfterResetIsLater(s, run);
    }
  }

  lemma QuietDoubles(s: Session, run: seq<Event>)
    requires Single(s) && run != [] && Enabled(s, run[0]) && !Claims(s, run[0])
    ensures Doubles(s, run) <==> Doubles(Apply(s, run[0]), run[1..])
  {
    ClaimsNest(Apply(s, run[0]), run[1..]);
  }

  lemma ClaimDoubles(s: Session, run: seq<Event>)
    requires Single(s) && run != [] && Enabled(s, run[0]) && Claims(s, run[0])
    requires s.claims == [] || s.start < |s.claims|
    ensures Doubles(s, run) <==> Doubles(Apply(s, run[0]), run[1..])
  {
    ClaimsNest(Apply(s, run[0]), run[1..]);
  }

  lemma DoublesStep(s: Session, run: seq<Event>)
    requires Single(s) && run != [] && Enabled(s, run[0])
    requires !(s.claims != [] && s.start == |s.claims| && Claims(s, run[0]))
    ensures Doubles(s, run) <==> Doubles(Apply(s, run[0]), run[1..])
  {
    if Claims(s, run[0]) {
      ClaimDoubles(s, run);
    } else {
      QuietDoubles(s, run);
    }
  }

  lemma {:induction false} DoublesIffTwoRounds(s: Session, run: seq<Event>, t: Session)
    requires Single(s) && Leads(s, run, t)
    ensures if Doubles(s, run) then TwoRounds(t.claims) else OneRound(t.claims)
    decreases |run|
  {
    if run != [] {
      if s.claims != [] && s.start == |s.claims| && Claims(s, run[0]) {
        SecondRound(s, run[0]);
        TwoRoundsStay(Apply(s, run[0]), run[1..], t);
      } else {
        StepStaysSingle(s, run[0]);
        DoublesStep(s, run);
        DoublesIffTwoRounds(Apply(s, run[0]), run[1..], t);
      }
    }
  }

  /** Over a whole run, resets and deletions included, no byte is claimed twice exactly when no
      claim follows a reset that itself follows a claim. */
  lemma ClaimsDisjointIff(file: Bytes, run: seq<Event>, t: Session)
    requires Leads(Unclaimed(file), run, t)
    ensures AllDisjoint(t.claims) <==> !ClaimsTwice(Unclaimed(file), run)
  {
    RunKeepsSound(Unclaimed(file), run, t);
    DoublesIffTwoRounds(Unclaimed(file), run, t);
    if ClaimsTwice(Unclaimed(file), run) {
      TwoRoundsOverlap(t.claims);
    } else {
      OneRoundIsDisjoint(t.claims);
    }
  }

  // ---------------------------------------------------------------------------
  // Claim by claim against one pass
  // ---------------------------------------------------------------------------

  function Pieces(file: Bytes, claims: seq<Range>): (r: seq<Bytes>)
    requires forall i :: 0 <= i < |claims| ==> claims[i].from <= claims[i].to <= |file|
    ensures |r| == |claims|
  {
    seq(|claims|, i requires 0 <= i < |claims| => file[claims[i].from..claims[i].to])
  }

  lemma {:induction false} PiecesConcat(file: Bytes, claims: seq<Range>, end: nat)
    requires Tiles(claims, end) && forall i :: 0 <= i < |claims| ==> claims[i].to <= |file|
    ensures end <= |file| && Concat(Pieces(file, claims)) == file[..end]
    decreases |claims|
  {
    if claims != [] {
      var init, last := claims[..|claims| - 1], claims[|claims| - 1];
      PiecesConcat(file, init, last.from);
      assert Pieces(file, claims)[..|init|] == Pieces(file, init);
      assert file[..last.from] + file[last.from..last.to] == file[..end];
    }
  }

  ghost predicate AllIngested(s: Round) {
    forall i :: 0 <= i < |s.taken| ==> s.taken[i].Some?
  }

  /** The texts of the first `n` claims, in claim order. */
  function IngestedTexts(taken: seq<Option<Bytes>>, decode: Decoder): seq<string>
    requires forall i :: 0 <= i < |taken| ==> taken[i].Some?
  {
    if taken == [] then []
    else IngestedTexts(taken[..|taken| - 1], decode) + Texts(taken[|taken| - 1].value, decode)
  }

  lemma {:induction false} IngestedAreEntries(taken: seq<Option<Bytes>>, chunks: seq<Bytes>, decode: Decoder)
    requires |taken| == |chunks| && forall i :: 0 <= i < |taken| ==> taken[i] == Some(chunks[i])
    ensures IngestedTexts(taken, decode) == Collect(EntriesOf(chunks), decode)
    decreases |taken|
  {
    if taken != [] {
      var n := |taken| - 1;
      IngestedAreEntries(taken[..n], chunks[..n], decode);
      CollectAppends(EntriesOf(chunks[..n]), Entries(chunks[n]), decode);
    }
  }

  /** Every inner boundary touches a newline, and the cap cuts off only newlines. */
  ghost predicate BoundariesSafe(s: Round)
    requires Consistent(s)
  {
    && (forall i :: 0 <= i < |s.claims| && s.claims[i].to < s.offset ==>
          s.file[s.claims[i].to - 1] == NEWLINE || s.file[s.claims[i].to] == NEWLINE)
    && (forall i :: 0 <= i < |s.claims| && s.claims[i].to - s.claims[i].from > MAX_DELTA ==>
          OnlyNewlines(s.file[s.claims[i].from + MAX_DELTA..s.claims[i].to]))
  }

  lemma InnerBoundary(s: Round, i: nat)
    requires Consistent(s) && i < |s.claims|
    ensures s.claims[i].to < s.offset <==> i + 1 < |s.claims|
    ensures i + 1 < |s.claims| ==> s.claims[i].to == s.claims[i + 1].from < s.claims[i + 1].to
  {
    if i + 1 < |s.claims| {
      assert s.claims[i + 1].from < s.claims[i + 1].to;
    }
  }

  lemma PieceMeaning(file: Bytes, r: Range)
    requires r.from < r.to <= |file|
    ensures NothingLost(file[r.from..r.to]) <==>
            (r.to - r.from > MAX_DELTA ==> OnlyNewlines(file[r.from + MAX_DELTA..r.to]))
  {
    if r.to - r.from > MAX_DELTA {
      assert file[r.from..r.to][MAX_DELTA..] == file[r.from + MAX_DELTA..r.to];
    }
  }

  lemma JoinMeaning(file: Bytes, from: nat, mid: nat, to: nat)
    requires from < mid < to <= |file|
    ensures CleanJoin(file[from..mid], file[mid..to]) <==> file[mid - 1] == NEWLINE || file[mid] == NEWLINE
  {
  }

  /** What joins and caps mean in terms of file positions. */
  lemma BoundaryMeaning(s: Round, i: nat)
    requires Consistent(s) && i < |s.claims|
    ensures var r, piece := s.claims[i], Pieces(s.file, s.claims)[i];
      && piece != []
      && (NothingLost(piece) <==>
          (r.to - r.from > MAX_DELTA ==> OnlyNewlines(s.file[r.from + MAX_DELTA..r.to])))
      && (r.to < s.offset <==> i + 1 < |s.claims|)
      && (i + 1 < |s.claims| ==>
            var next := Pieces(s.file, s.claims)[i + 1];
            next != [] && (CleanJoin(piece, next) <==> s.file[r.to - 1] == NEWLINE || s.file[r.to] == NEWLINE))
  {
    InnerBoundary(s, i);
    PieceMeaning(s.file, s.claims[i]);
    if i + 1 < |s.claims| {
      JoinMeaning(s.file, s.claims[i].from, s.claims[i].to, s.claims[i + 1].to);
    }
  }

  lemma SafeIsClean(s: Round)
    requires Consistent(s)
    ensures forall i :: 0 <= i < |s.claims| ==> Pieces(s.file, s.claims)[i] != []
    ensures BoundariesSafe(s) <==> CleanJoins(Pieces(s.file, s.claims)) && AllKept(Pieces(s.file, s.claims))
  {
    var pieces := Pieces(s.file, s.claims);
    forall i | 0 <= i < |s.claims| ensures pieces[i] != [] {
      BoundaryMeaning(s, i);
    }
    if BoundariesSafe(s) {
      forall i | 0 <= i < |pieces| ensures NothingLost(pieces[i]) {
        BoundaryMeaning(s, i);
      }
      forall i, j | 0 <= i < j < |pieces| && j == i + 1 ensures CleanJoin(pieces[i], pieces[j]) {
        BoundaryMeaning(s, i);
      }
    }
    if CleanJoins(pieces) && AllKept(pieces) {
      CleanIsSafe(s);
    }
  }

  lemma CleanIsSafe(s: Round)
    requires Consistent(s)
    requires forall i :: 0 <= i < |s.claims| ==> Pieces(s.file, s.claims)[i] != []
    requires CleanJoins(Pieces(s.file, s.claims)) && AllKept(Pieces(s.file, s.claims))
    ensures BoundariesSafe(s)
  {
    var pieces := Pieces(s.file, s.claims);
    forall i | 0 <= i < |s.claims| && s.claims[i].to < s.offset
      ensures s.file[s.claims[i].to - 1] == NEWLINE || s.file[s.claims[i].to] == NEWLINE
    {
      BoundaryMeaning(s, i);
      var j := i + 1;
      assert CleanJoin(pieces[i], pieces[j]);
    }
    forall i | 0 <= i < |s.claims| && s.claims[i].to - s.claims[i].from > MAX_DELTA
      ensures OnlyNewlines(s.file[s.claims[i].from + MAX_DELTA..s.claims[i].to])
    {
      BoundaryMeaning(s, i);
      assert NothingLost(pieces[i]);
    }
  }

  /** Different entries can be told apart by some decoder. */
  lemma TellingDecoder(a: seq<Bytes>, b: seq<Bytes>) returns (decode: Decoder)
    requires (forall i :: 0 <= i < |a| ==> a[i] != []) && (forall i :: 0 <= i < |b| ==> b[i] != [])
    requires a != b
    ensures Collect(a, decode) != Collect(b, decode)
  {
    decode := Spell;
    if Collect(a, Spell) == Collect(b, Spell) {
      SpelledEntries(a, b);
    }
  }

  lemma EntriesSeenIffSafe(s: Round)
    requires Consistent(s)
    ensures EntriesOf(Caps(Pieces(s.file, s.claims))) == Entries(s.file[..s.offset]) <==> BoundariesSafe(s)
  {
    SafeIsClean(s);
    PiecesConcat(s.file, s.claims, s.offset);
    PiecesSeeAllEntries(Pieces(s.file, s.claims));
  }

  lemma IngestedTextsAre(s: Round, decode: Decoder)
    requires Consistent(s) && AllIngested(s)
    ensures IngestedTexts(s.taken, decode) == Collect(EntriesOf(Caps(Pieces(s.file, s.claims))), decode)
  {
    IngestedAreEntries(s.taken, Caps(Pieces(s.file, s.claims)), decode);
  }

  /** Once every claim was ingested, the texts taken claim by claim are those of one pass over
      the claimed part of the file, whatever a line decodes to, exactly when the boundaries
      are safe. */
  lemma OnePassIffBoundariesSafe(s: Round)
    requires Consistent(s) && AllIngested(s)
    ensures (forall decode :: IngestedTexts(s.taken, decode) == Texts(s.file[..s.offset], decode))
       <==> BoundariesSafe(s)
  {
    var a, b := EntriesOf(Caps(Pieces(s.file, s.claims))), Entries(s.file[..s.offset]);
    EntriesSeenIffSafe(s);
    forall decode ensures IngestedTexts(s.taken, decode) == Collect(a, decode) {
      IngestedTextsAre(s, decode);
    }
    if a != b {
      EntriesOfAreNonEmpty(Caps(Pieces(s.file, s.claims)));
      NonEmptyAreNonEmpty(Lines(s.file[..s.offset]));
      var decode := TellingDecoder(a, b);
      assert IngestedTexts(s.taken, decode) != Texts(s.file[..s.offset], decode);
    }
  }

  /** The promise in the form the hooks rely on: whole lines, at most two mebibytes a time. */
  lemma WholeLinesAreNeverSplit(file: Bytes, run: seq<Event>, t: Session, s: Round, decode: Decoder)
    requires Leads(Unclaimed(file), run, t) && t.start <= |t.claims| == |t.taken|
    requires s == Current(t) && AllIngested(s)
    requires forall i :: 0 <= i < |s.claims| ==>
      s.claims[i].to - s.claims[i].from <= MAX_DELTA &&
      0 < s.claims[i].to <= |s.file| && s.file[s.claims[i].to - 1] == NEWLINE
    ensures s.offset <= |s.file| && IngestedTexts(s.taken, decode) == Texts(s.file[..s.offset], decode)
  {
    ClaimsTile(file, run, t);
    OnePassIffBoundariesSafe(s);
  }

  /** A new session starts over at the front of the file, a resumed or compacted one goes on where the
      last claim ended. */
  lemma NextClaimAfterBegin(s: Session, source: string)
    ensures var from := if source == "startup" || source == "clear" || source == "" then 0 else s.offset;
      var t := Apply(Apply(s, BeginSession(source)), TakeClaim(true));
      && t.offset == |s.file|
      && (|s.file| > from ==> t.claims == s.claims + [Range(from, |s.file|)])
      && (|s.file| <= from ==> t.claims == s.claims)
  {
  }
}
