/**
 Merging the entities of successive extraction stages: one record per (lower-cased name,
 type), the one with the highest confidence.
 */
module EntityMerge {
  datatype Entity = Entity(name: string, entityType: string, confidence: real, sources: seq<string>)

  /** Lower-casing of the library. */
  type Lower = string -> string

  type Key = (string, string)

  function KeyOf(e: Entity, lower: Lower): Key {
    (lower(e.name), e.entityType)
  }

  // ---------------------------------------------------------------------------
  // The code
  // ---------------------------------------------------------------------------

  /** The position of each key; a repeated key gets its last position. */
  function IndexOf(base: seq<Entity>, lower: Lower): (r: map<Key, nat>)
    ensures forall k :: k in r ==> r[k] < |base| && KeyOf(base[r[k]], lower) == k
    ensures forall i :: 0 <= i < |base| ==> KeyOf(base[i], lower) in r
  {
    if base == [] then map[]
    else IndexOf(base[..|base| - 1], lower)[KeyOf(base[|base| - 1], lower) := |base| - 1]
  }

  /** Merging one more entity into `out`. */
  function MergeOne(out: seq<Entity>, index: map<Key, nat>, e: Entity, lower: Lower): (seq<Entity>, map<Key, nat>) {
    var key := KeyOf(e, lower);
    if key !in index then (out + [e], index[key := |out|])
    else if index[key] < |out| && e.confidence > out[index[key]].confidence then (out[index[key] := e], index)
    else (out, index)
  }

  function MergeFrom(out: seq<Entity>, index: map<Key, nat>, more: seq<Entity>, lower: Lower)
    : (seq<Entity>, map<Key, nat>)
  {
    if more == [] then (out, index)
    else
      var (o, i) := MergeFrom(out, index, more[..|more| - 1], lower);
      MergeOne(o, i, more[|more| - 1], lower)
  }

  function Merged(base: seq<Entity>, more: seq<Entity>, lower: Lower): seq<Entity> {
    MergeFrom(base, IndexOf(base, lower), more, lower).0
  }

  /** The copies the original makes of the kept record change none of its modelled fields. */
  method Merge(base: seq<Entity>, more: seq<Entity>, lower: Lower) returns (out: seq<Entity>)
    ensures out == Merged(base, more, lower)
  {
    var index: map<Key, nat> := map[];
    for i := 0 to |base|
      invariant index == IndexOf(base[..i], lower)
    {
      assert base[..i + 1][..i] == base[..i];
      index := index[KeyOf(base[i], lower) := i];
    }
    assert base[..|base|] == base;
    out := base;
    for i := 0 to |more|
      invariant (out, index) == MergeFrom(base, IndexOf(base, lower), more[..i], lower)
      invariant forall k :: k in index ==> index[k] < |out|
    {
      assert more[..i + 1][..i] == more[..i];
      var e := more[i];
      var key := KeyOf(e, lower);
      if key in index {
        var existing := out[index[key]];
        if e.confidence > existing.confidence {
          out := out[index[key] := e];
        }
      } else {
        index := index[key := |out|];
        out := out + [e];
      }
    }
    assert more[..|more|] == more;
  }

  /** The stages' results, merged one stage after the other. */
  function Extracted(stages: seq<seq<Entity>>, lower: Lower): seq<Entity> {
    if stages == [] then []
    else Merged(Extracted(stages[..|stages| - 1], lower), stages[|stages| - 1], lower)
  }

  method Extract(stages: seq<seq<Entity>>, lower: Lower) returns (entities: seq<Entity>)
    ensures entities == Extracted(stages, lower)
  {
    entities := [];
    for i := 0 to |stages|
      invariant entities == Extracted(stages[..i], lower)
    {
      assert stages[..i + 1][..i] == stages[..i];
      entities := Merge(entities, stages[i], lower);
    }
    assert stages[..|stages|] == stages;
  }

  // ---------------------------------------------------------------------------
  // Stages do not matter
  // ---------------------------------------------------------------------------

  ghost predicate UniqueKeys(s: seq<Entity>, lower: Lower) {
    forall i, j :: 0 <= i < j < |s| ==> KeyOf(s[i], lower) != KeyOf(s[j], lower)
  }

  /** The index is the one that would be rebuilt from the list. */
  ghost predicate Indexed(s: seq<Entity>, index: map<Key, nat>, lower: Lower) {
    && UniqueKeys(s, lower)
    && (forall k :: k in index ==> index[k] < |s| && KeyOf(s[index[k]], lower) == k)
    && (forall i :: 0 <= i < |s| ==> KeyOf(s[i], lower) in index)
  }

  lemma IndexIsUnique(s: seq<Entity>, a: map<Key, nat>, b: map<Key, nat>, lower: Lower)
    requires Indexed(s, a, lower) && Indexed(s, b, lower)
    ensures a == b
  {
    forall k | k in a ensures k in b && a[k] == b[k] {
      assert KeyOf(s[a[k]], lower) == k;
    }
    forall k | k in b ensures k in a {
      assert KeyOf(s[b[k]], lower) == k;
    }
  }

  lemma MergeOneKeepsIndexed(s: seq<Entity>, index: map<Key, nat>, e: Entity, lower: Lower)
    requires Indexed(s, index, lower)
    ensures Indexed(MergeOne(s, index, e, lower).0, MergeOne(s, index, e, lower).1, lower)
  {
  }

  lemma {:induction false} MergeKeepsIndexed(s: seq<Entity>, index: map<Key, nat>, more: seq<Entity>, lower: Lower)
    requires Indexed(s, index, lower)
    ensures Indexed(MergeFrom(s, index, more, lower).0, MergeFrom(s, index, more, lower).1, lower)
    decreases |more|
  {
    if more != [] {
      var init := more[..|more| - 1];
      MergeKeepsIndexed(s, index, init, lower);
      var r := MergeFrom(s, index, init, lower);
      MergeOneKeepsIndexed(r.0, r.1, more[|more| - 1], lower);
    }
  }

  lemma {:induction false} MergeAppends(s: seq<Entity>, index: map<Key, nat>, a: seq<Entity>, b: seq<Entity>,
                                        lower: Lower)
    ensures MergeFrom(s, index, a + b, lower)
         == MergeFrom(MergeFrom(s, index, a, lower).0, MergeFrom(s, index, a, lower).1, b, lower)
    decreases |b|
  {
    if b == [] {
      assert a + b == a;
    } else {
      assert (a + b)[..|a + b| - 1] == a + b[..|b| - 1];
      MergeAppends(s, index, a, b[..|b| - 1], lower);
    }
  }

  function Concat(stages: seq<seq<Entity>>): seq<Entity> {
    if stages == [] then [] else Concat(stages[..|stages| - 1]) + stages[|stages| - 1]
  }

  /** Merging stage by stage is one merge of everything. */
  lemma {:induction false} StagesDoNotMatter(stages: seq<seq<Entity>>, lower: Lower)
    ensures Extracted(stages, lower) == MergeFrom([], map[], Concat(stages), lower).0
    decreases |stages|
  {
    if stages != [] {
      var init, last := stages[..|stages| - 1], stages[|stages| - 1];
      StagesDoNotMatter(init, lower);
      var r := MergeFrom([], map[], Concat(init), lower);
      MergeKeepsIndexed([], map[], Concat(init), lower);
      IndexIsUnique(r.0, r.1, IndexOf(r.0, lower), lower);
      MergeAppends([], map[], Concat(init), last, lower);
    }
  }

  // ---------------------------------------------------------------------------
  // What comes out
  // ---------------------------------------------------------------------------

  /** Entity `i` is the first of its key. */
  ghost predicate FirstOfKey(all: seq<Entity>, i: int, lower: Lower) {
    0 <= i < |all| && forall j :: 0 <= j < i ==> KeyOf(all[j], lower) != KeyOf(all[i], lower)
  }

  /** Entity `i` has the highest confidence of its key, and is the earliest to have it. */
  ghost predicate EarliestBest(all: seq<Entity>, i: int, lower: Lower) {
    && 0 <= i < |all|
    && (forall j :: 0 <= j < |all| && KeyOf(all[j], lower) == KeyOf(all[i], lower) ==>
          all[j].confidence <= all[i].confidence)
    && (forall j :: 0 <= j < i && KeyOf(all[j], lower) == KeyOf(all[i], lower) ==>
          all[j].confidence < all[i].confidence)
  }

  /** The kept record `o`: its key first appeared at `first`, and `o` is the record at `best`. */
  ghost predicate Explained(all: seq<Entity>, o: Entity, first: int, best: int, lower: Lower) {
    && FirstOfKey(all, first, lower) && EarliestBest(all, best, lower)
    && o == all[best] && KeyOf(o, lower) == KeyOf(all[first], lower)
  }

  /** Every record is located, in the order in which the keys first appeared. */
  ghost predicate Located(all: seq<Entity>, out: seq<Entity>, first: seq<int>, best: seq<int>, lower: Lower) {
    && |first| == |out| == |best|
    && (forall n :: 0 <= n < |out| ==> Explained(all, out[n], first[n], best[n], lower))
    && (forall m, n :: 0 <= m < n < |out| ==> first[m] < first[n])
  }

  ghost predicate Knows(index: map<Key, nat>, all: seq<Entity>, lower: Lower) {
    forall i :: 0 <= i < |all| ==> KeyOf(all[i], lower) in index
  }

  lemma {:induction false} MergeKnowsAll(s: seq<Entity>, index: map<Key, nat>, more: seq<Entity>, lower: Lower)
    ensures Knows(MergeFrom(s, index, more, lower).1, more, lower)
    ensures forall k :: k in index ==> k in MergeFrom(s, index, more, lower).1
    decreases |more|
  {
    if more != [] {
      MergeKnowsAll(s, index, more[..|more| - 1], lower);
    }
  }

  lemma StaysExplained(init: seq<Entity>, e: Entity, o: Entity, first: int, best: int, lower: Lower)
    requires Explained(init, o, first, best, lower)
    requires KeyOf(o, lower) == KeyOf(e, lower) ==> e.confidence <= o.confidence
    ensures Explained(init + [e], o, first, best, lower)
  {
    var all := init + [e];
    assert all[best] == init[best] && all[first] == init[first];
  }

  lemma BetterExplained(init: seq<Entity>, e: Entity, o: Entity, first: int, best: int, lower: Lower)
    requires Explained(init, o, first, best, lower)
    requires KeyOf(o, lower) == KeyOf(e, lower) && e.confidence > o.confidence
    ensures Explained(init + [e], e, first, |init|, lower)
  {
    var all := init + [e];
    assert all[|init|] == e && all[first] == init[first];
    forall j | 0 <= j < |init| && KeyOf(all[j], lower) == KeyOf(e, lower) ensures all[j].confidence < e.confidence {
      assert init[j].confidence <= init[best].confidence;
    }
  }

  lemma NewExplained(init: seq<Entity>, e: Entity, lower: Lower)
    requires forall j :: 0 <= j < |init| ==> KeyOf(init[j], lower) != KeyOf(e, lower)
    ensures Explained(init + [e], e, |init|, |init|, lower)
  {
  }

  lemma FirstsAreOld(all: seq<Entity>, out: seq<Entity>, first: seq<int>, best: seq<int>, lower: Lower)
    requires Located(all, out, first, best, lower)
    ensures forall n :: 0 <= n < |out| ==> 0 <= first[n] < |all|
  {
    forall n | 0 <= n < |out| ensures 0 <= first[n] < |all| {
      assert Explained(all, out[n], first[n], best[n], lower);
    }
  }

  lemma ExplainNew(init: seq<Entity>, e: Entity, out: seq<Entity>, first: seq<int>, best: seq<int>, lower: Lower)
    requires Located(init, out, first, best, lower)
    requires forall j :: 0 <= j < |init| ==> KeyOf(init[j], lower) != KeyOf(e, lower)
    ensures Located(init + [e], out + [e], first + [|init|], best + [|init|], lower)
  {
    var all, out', first', best' := init + [e], out + [e], first + [|init|], best + [|init|];
    FirstsAreOld(init, out, first, best, lower);
    forall n | 0 <= n < |out'| ensures Explained(all, out'[n], first'[n], best'[n], lower) {
      if n == |out| {
        NewExplained(init, e, lower);
      } else {
        assert KeyOf(out[n], lower) == KeyOf(init[first[n]], lower);
        StaysExplained(init, e, out[n], first[n], best[n], lower);
      }
    }
  }

  lemma ExplainKnown(init: seq<Entity>, e: Entity, out: seq<Entity>, at: nat,
                     first: seq<int>, best: seq<int>, lower: Lower)
    requires Located(init, out, first, best, lower) && UniqueKeys(out, lower)
    requires at < |out| && KeyOf(out[at], lower) == KeyOf(e, lower)
    ensures e.confidence > out[at].confidence ==> Located(init + [e], out[at := e], first, best[at := |init|], lower)
    ensures e.confidence <= out[at].confidence ==> Located(init + [e], out, first, best, lower)
  {
    var all, better := init + [e], e.confidence > out[at].confidence;
    var out', best' := if better then out[at := e] else out, if better then best[at := |init|] else best;
    forall n | 0 <= n < |out| ensures Explained(all, out'[n], first[n], best'[n], lower) {
      assert Explained(init, out[n], first[n], best[n], lower);
      if n == at && better {
        BetterExplained(init, e, out[n], first[n], best[n], lower);
      } else {
        assert n != at ==> KeyOf(out[n], lower) != KeyOf(out[at], lower);
        StaysExplained(init, e, out[n], first[n], best[n], lower);
      }
    }
  }

  lemma ExplainOneMore(init: seq<Entity>, e: Entity, out: seq<Entity>, index: map<Key, nat>,
                       first: seq<int>, best: seq<int>, lower: Lower)
    returns (first': seq<int>, best': seq<int>)
    requires Indexed(out, index, lower) && Knows(index, init, lower) && Located(init, out, first, best, lower)
    ensures Located(init + [e], MergeOne(out, index, e, lower).0, first', best', lower)
  {
    var key := KeyOf(e, lower);
    if key in index {
      ExplainKnown(init, e, out, index[key], first, best, lower);
      first', best' := first, if e.confidence > out[index[key]].confidence then best[index[key] := |init|] else best;
    } else {
      ExplainNew(init, e, out, first, best, lower);
      first', best' := first + [|init|], best + [|init|];
    }
  }

  lemma MergeFromAppend(s: seq<Entity>, index: map<Key, nat>, more: seq<Entity>, e: Entity, lower: Lower)
    ensures MergeFrom(s, index, more + [e], lower)
         == MergeOne(MergeFrom(s, index, more, lower).0, MergeFrom(s, index, more, lower).1, e, lower)
  {
    assert (more + [e])[..|more|] == more;
  }

  lemma {:induction false} MergeExplained(all: seq<Entity>, lower: Lower)
    returns (first: seq<int>, best: seq<int>)
    ensures Located(all, MergeFrom([], map[], all, lower).0, first, best, lower)
    decreases |all|
  {
    if all == [] {
      first, best := [], [];
    } else {
      var init, e := all[..|all| - 1], all[|all| - 1];
      first, best := MergeExplained(init, lower);
      MergeKeepsIndexed([], map[], init, lower);
      MergeKnowsAll([], map[], init, lower);
      var r := MergeFrom([], map[], init, lower);
      first, best := ExplainOneMore(init, e, r.0, r.1, first, best, lower);
      MergeFromAppend([], map[], init, e, lower);
      assert all == init + [e];
    }
  }

  /** The pipeline's result over all stages: each key once, in the order of first appearance, and
      for each key the earliest of its most confident records. */
  lemma PipelineKeepsBest(stages: seq<seq<Entity>>, lower: Lower) returns (first: seq<int>, best: seq<int>)
    ensures UniqueKeys(Extracted(stages, lower), lower)
    ensures Located(Concat(stages), Extracted(stages, lower), first, best, lower)
    ensures forall e :: e in Concat(stages) ==>
              exists o :: o in Extracted(stages, lower) && KeyOf(o, lower) == KeyOf(e, lower)
  {
    var all := Concat(stages);
    StagesDoNotMatter(stages, lower);
    MergeKeepsIndexed([], map[], all, lower);
    MergeKnowsAll([], map[], all, lower);
    first, best := MergeExplained(all, lower);
    var r := MergeFrom([], map[], all, lower);
    forall e | e in all ensures exists o :: o in r.0 && KeyOf(o, lower) == KeyOf(e, lower) {
      var i :| 0 <= i < |all| && all[i] == e;
      assert KeyOf(all[i], lower) in r.1;
      assert r.0[r.1[KeyOf(e, lower)]] in r.0;
    }
  }

  /** In the records' own fields: no two that come out agree in lower-cased name and type, each was
      extracted in some stage, and each extracted entity is outdone in confidence by none but the
      record of its own name and type. */
  lemma OneRecordPerNameAndType(stages: seq<seq<Entity>>, lower: Lower)
    ensures var out := Extracted(stages, lower);
      && (forall i, j :: 0 <= i < j < |out| ==>
            lower(out[i].name) != lower(out[j].name) || out[i].entityType != out[j].entityType)
      && (forall o :: o in out ==> o in Concat(stages))
      && (forall e :: e in Concat(stages) ==>
            exists o :: o in out && lower(o.name) == lower(e.name) && o.entityType == e.entityType
              && o.confidence >= e.confidence)
  {
    var out, all := Extracted(stages, lower), Concat(stages);
    var first, best := PipelineKeepsBest(stages, lower);
    forall i, j | 0 <= i < j < |out|
      ensures lower(out[i].name) != lower(out[j].name) || out[i].entityType != out[j].entityType
    {
      assert KeyOf(out[i], lower) != KeyOf(out[j], lower);
    }
    forall o | o in out ensures o in all {
      var n :| 0 <= n < |out| && out[n] == o;
      assert Explained(all, out[n], first[n], best[n], lower);
    }
    forall e | e in all
      ensures exists o :: o in out && lower(o.name) == lower(e.name) && o.entityType == e.entityType
                && o.confidence >= e.confidence
    {
      var o := BestOf(all, out, first, best, lower, e);
    }
  }

  lemma BestOf(all: seq<Entity>, out: seq<Entity>, first: seq<int>, best: seq<int>, lower: Lower, e: Entity)
    returns (o: Entity)
    requires Located(all, out, first, best, lower) && e in all
    requires exists x :: x in out && KeyOf(x, lower) == KeyOf(e, lower)
    ensures o in out && lower(o.name) == lower(e.name) && o.entityType == e.entityType && o.confidence >= e.confidence
  {
    o :| o in out && KeyOf(o, lower) == KeyOf(e, lower);
    var n :| 0 <= n < |out| && out[n] == o;
    assert Explained(all, out[n], first[n], best[n], lower);
    var i :| 0 <= i < |all| && all[i] == e;
  }
}
