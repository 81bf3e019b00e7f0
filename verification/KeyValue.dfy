/**
 Key/value rows of one scope: how keys are composed and how a prefix listing selects rows.

 The listing is a LIKE match, so percent signs and underscores in a prefix act as
 wildcards and a backslash escapes the character after it.
 */
module KeyValue {
  import opened Common

  const LIST_CAP := 1000

  function Key(scope: string, project: string, id: string): string {
    scope + (if project != "" then ":" + project else "") + (if id != "" then ":" + id else "")
  }

  predicate IsPrefix(p: string, s: string) {
    |p| <= |s| && s[..|p|] == p
  }

  /** SQL LIKE with the default escape character. */
  predicate Like(p: string, s: string)
    decreases |p| + |s|
  {
    if p == "" then s == ""
    else if p[0] == '%' then Like(p[1..], s) || (s != "" && Like(p, s[1..]))
    else if s == "" then false
    else if p[0] == '_' then Like(p[1..], s[1..])
    else if p[0] == '\\' then |p| > 1 && s[0] == p[1] && Like(p[2..], s[1..])
    else p[0] == s[0] && Like(p[1..], s[1..])
  }

  /** What one more character at the front of a pattern means: a percent sign skips any number of
      characters, an underscore one, a backslash takes the next character as it is. */
  lemma {:induction false} LikeByFirst(c: char, p: string, s: string)
    ensures c == '%' ==> (Like([c] + p, s) <==> exists n :: 0 <= n <= |s| && Like(p, s[n..]))
    ensures c == '_' ==> (Like([c] + p, s) <==> s != "" && Like(p, s[1..]))
    ensures c == '\\' ==> (Like([c] + p, s) <==> p != "" && s != "" && s[0] == p[0] && Like(p[1..], s[1..]))
    ensures c != '%' && c != '_' && c != '\\' ==> (Like([c] + p, s) <==> s != "" && s[0] == c && Like(p, s[1..]))
    decreases |s|
  {
    var q := [c] + p;
    assert q[1..] == p;
    if c == '\\' && p != "" {
      assert q[2..] == p[1..];
    }
    if c == '%' {
      assert s[0..] == s;
      if s != "" {
        LikeByFirst(c, p, s[1..]);
        if n :| 0 <= n <= |s[1..]| && Like(p, s[1..][n..]) {
          assert s[1..][n..] == s[n + 1..];
        }
        if n :| 0 < n <= |s| && Like(p, s[n..]) {
          assert s[1..][n - 1..] == s[n..];
        }
      }
    }
  }

  lemma {:induction false} PercentMatchesAll(s: string)
    ensures Like("%", s)
  {
    if s != "" {
      PercentMatchesAll(s[1..]);
    }
  }

  /** Without backslashes every key that starts with the prefix is selected, though wildcards
      may select others as well. */
  lemma {:induction false} LikeSelectsPrefix(p: string, rest: string)
    requires '\\' !in p
    ensures Like(p + "%", p + rest)
  {
    if p == "" {
      assert p + "%" == "%" && p + rest == rest;
      PercentMatchesAll(rest);
    } else {
      LikeSelectsPrefix(p[1..], rest);
      var q, s := p + "%", p + rest;
      assert q[1..] == p[1..] + "%" && s[1..] == p[1..] + rest;
      assert p[0] in p;
      if p[0] == '%' {
        assert Like(q, s[1..]);
      }
    }
  }

  // ---------------------------------------------------------------------------
  // When a LIKE match is a prefix match
  // ---------------------------------------------------------------------------

  predicate IsSpecial(c: char) {
    c == '%' || c == '_' || c == '\\'
  }

  /** No character of the text means anything but itself in a pattern. */
  predicate Literal(p: string) {
    forall i :: 0 <= i < |p| ==> !IsSpecial(p[i])
  }

  /** A text that the pattern matches: wildcards become `x`, a final percent sign nothing. */
  function Fill(q: string, x: char): string {
    if q == "" || q == "%" then ""
    else if q[0] == '%' || q[0] == '_' then [x] + Fill(q[1..], x)
    else if q[0] == '\\' && |q| > 1 then [q[1]] + Fill(q[2..], x)
    else [q[0]] + Fill(q[1..], x)
  }

  /** The filled pattern, whatever follows it, is matched. */
  lemma {:induction false} FillMatches(p: string, x: char, rest: string)
    requires p != "" && p[|p| - 1] == ':'
    ensures Like(p + "%", Fill(p + "%", x) + rest)
    decreases |p|
  {
    var q := p + "%";
    var s := Fill(q, x) + rest;
    if p[0] == '%' || p[0] == '_' {
      FillMatches(p[1..], x, rest);
      assert q[1..] == p[1..] + "%";
      assert s[1..] == Fill(q[1..], x) + rest;
      if p[0] == '%' {
        assert Like(q, s[1..]);
      }
    } else if p[0] == '\\' {
      assert q[2..] == p[2..] + "%" && s[1..] == Fill(q[2..], x) + rest;
      if |p| == 2 {
        EndMatches(s[1..]);
      } else {
        FillMatches(p[2..], x, rest);
      }
    } else {
      assert q[1..] == p[1..] + "%" && s[1..] == Fill(q[1..], x) + rest;
      if |p| == 1 {
        EndMatches(s[1..]);
      } else {
        FillMatches(p[1..], x, rest);
      }
    }
  }

  lemma EndMatches(s: string)
    ensures Like("" + "%", s)
  {
    assert "" + "%" == "%";
    PercentMatchesAll(s);
  }

  lemma {:induction false} FillIsMatched(p: string, x: char)
    ensures Like(p + "%", Fill(p + "%", x))
    decreases |p|
  {
    var q := p + "%";
    if p == "" {
      PercentMatchesAll("");
    } else if p[0] == '\\' {
      if |p| == 1 {
        assert q[2..] == "";
      } else {
        assert q[2..] == p[2..] + "%";
        FillIsMatched(p[2..], x);
        assert Fill(q, x)[1..] == Fill(q[2..], x);
      }
    } else {
      assert q[1..] == p[1..] + "%";
      FillIsMatched(p[1..], x);
      assert Fill(q, x)[1..] == Fill(q[1..], x);
      if p[0] == '%' {
        assert Like(q, Fill(q, x)[1..]);
      }
    }
  }

  lemma {:induction false} FillIsShort(p: string, x: char)
    requires !IsSpecial(x)
    ensures |Fill(p + "%", x)| <= |p|
    ensures Fill(p + "%", x) == p ==> Literal(p)
    decreases |p|
  {
    var q := p + "%";
    if p != "" {
      if p[0] == '\\' {
        if |p| > 1 {
          assert q[2..] == p[2..] + "%";
          FillIsShort(p[2..], x);
        } else {
          assert q[2..] == "";
        }
      } else {
        assert q[1..] == p[1..] + "%";
        FillIsShort(p[1..], x);
        if Fill(q, x) == p {
          assert Fill(q, x)[1..] == p[1..];
        }
      }
    }
  }

  lemma {:induction false} LiteralLike(p: string, k: string)
    requires Literal(p)
    ensures Like(p + "%", k) <==> IsPrefix(p, k)
    decreases |p|
  {
    var q := p + "%";
    if p == "" {
      assert q == "%" && k[..0] == "";
      PercentMatchesAll(k);
    } else {
      assert q[1..] == p[1..] + "%" && q[0] == p[0];
      if k != "" {
        LiteralLike(p[1..], k[1..]);
        assert IsPrefix(p, k) <==> p[0] == k[0] && IsPrefix(p[1..], k[1..]) by {
          assert p == [p[0]] + p[1..] && k == [k[0]] + k[1..];
          if p[0] == k[0] && IsPrefix(p[1..], k[1..]) {
            assert k[..|p|] == [k[0]] + k[1..][..|p[1..]|];
          }
          if IsPrefix(p, k) {
            assert k[1..][..|p[1..]|] == k[..|p|][1..];
          }
        }
      }
    }
  }

  /** A listing selects exactly the keys that start with the prefix, as documented, exactly when
      the prefix has no percent sign, underscore or backslash. */
  lemma LikeIsPrefixIff(p: string)
    ensures (forall k :: Like(p + "%", k) <==> IsPrefix(p, k)) <==> Literal(p)
  {
    if Literal(p) {
      forall k ensures Like(p + "%", k) <==> IsPrefix(p, k) {
        LiteralLike(p, k);
      }
    } else {
      var k := Fill(p + "%", 'x');
      FillIsMatched(p, 'x');
      FillIsShort(p, 'x');
      ShortPrefixIsAll(p, k);
    }
  }

  lemma ShortPrefixIsAll(p: string, k: string)
    requires |k| <= |p|
    ensures IsPrefix(p, k) <==> k == p
  {
    if |k| == |p| {
      assert k[..|p|] == k;
    }
  }

  // ---------------------------------------------------------------------------
  // Listings
  // ---------------------------------------------------------------------------

  /** The order of keys in the database. */
  type Collation = (string, string) -> bool

  ghost predicate IsCollation(leq: Collation) {
    && (forall a, b :: leq(a, b) || leq(b, a))
    && (forall a, b :: leq(a, b) && leq(b, a) ==> a == b)
    && (forall a, b, c :: leq(a, b) && leq(b, c) ==> leq(a, c))
  }

  function Selected<V>(rows: map<string, V>, prefix: string): set<string> {
    set k | k in rows && Like(prefix + "%", k)
  }

  /** The rows a listing returns: all selected rows, or the thousand with the least keys. */
  ghost predicate IsListing<V>(rows: map<string, V>, prefix: string, leq: Collation, out: map<string, V>) {
    && (forall k :: k in out ==> k in Selected(rows, prefix) && out[k] == rows[k])
    && |out| <= LIST_CAP
    && (|out| < LIST_CAP ==> out.Keys == Selected(rows, prefix))
    && (forall k, l :: k in out && l in Selected(rows, prefix) && l !in out ==> leq(k, l))
  }

  lemma ShortListingIsAll<V>(rows: map<string, V>, prefix: string, leq: Collation, out: map<string, V>)
    requires IsListing(rows, prefix, leq, out) && |Selected(rows, prefix)| <= LIST_CAP
    ensures out.Keys == Selected(rows, prefix)
  {
    if l :| l in Selected(rows, prefix) && l !in out {
      SubsetIsSmaller(out.Keys + {l}, Selected(rows, prefix));
    }
  }

  /** The selected keys ahead of this one. */
  ghost function Ahead<V>(rows: map<string, V>, prefix: string, leq: Collation, key: string): set<string> {
    set k | k in Selected(rows, prefix) && k != key && leq(k, key)
  }

  /** A row is returned exactly when it is selected and fewer than a thousand selected rows come
      ahead of it. */
  lemma ListedIffAhead<V>(rows: map<string, V>, prefix: string, leq: Collation, out: map<string, V>, key: string)
    requires IsCollation(leq) && IsListing(rows, prefix, leq, out)
    ensures key in out <==> key in Selected(rows, prefix) && |Ahead(rows, prefix, leq, key)| < 1000
  {
    var ahead := Ahead(rows, prefix, leq, key);
    if key in out {
      forall k | k in ahead ensures k in out.Keys - {key} {
        assert k in out;
      }
      SubsetIsSmaller(ahead, out.Keys - {key});
      assert |out.Keys - {key}| == |out.Keys| - 1;
    } else if key in Selected(rows, prefix) {
      forall k | k in out ensures k in ahead {
        assert leq(k, key);
      }
      SubsetIsSmaller(out.Keys, ahead);
    }
  }

  lemma {:induction false} LeastKey(ks: set<string>, leq: Collation) returns (k: string)
    requires ks != {} && IsCollation(leq)
    ensures k in ks && forall x :: x in ks ==> leq(k, x)
    decreases |ks|
  {
    k :| k in ks;
    if ks != {k} {
      var least := LeastKey(ks - {k}, leq);
      if leq(least, k) {
        k := least;
      }
    }
  }

  method PickLeast(ks: set<string>, leq: Collation) returns (k: string)
    requires ks != {} && IsCollation(leq)
    ensures k in ks && forall x :: x in ks ==> leq(k, x)
  {
    assert exists k :: k in ks && forall x :: x in ks ==> leq(k, x) by {
      var least := LeastKey(ks, leq);
    }
    k :| k in ks && forall x :: x in ks ==> leq(k, x);
  }

  method ListByPrefix<V>(rows: map<string, V>, prefix: string, leq: Collation) returns (out: map<string, V>)
    requires IsCollation(leq)
    ensures IsListing(rows, prefix, leq, out)
    ensures |out| <= 1000 && (|out| < 1000 ==> forall k :: k in out <==> k in rows && Like(prefix + "%", k))
  {
    out := map[];
    var todo := Selected(rows, prefix);
    while todo != {} && |out| < LIST_CAP
      invariant todo <= Selected(rows, prefix) && out.Keys == Selected(rows, prefix) - todo
      invariant forall k :: k in out ==> out[k] == rows[k]
      invariant forall k, l :: k in out && l in todo ==> leq(k, l)
      invariant |out| <= LIST_CAP
      decreases |todo|
    {
      var k := PickLeast(todo, leq);
      out := out[k := rows[k]];
      todo := todo - {k};
    }
  }

  /** How keys are composed: scope, project and id, separated by colons, empty parts left out. */
  lemma KeyParts(scope: string, project: string, id: string)
    ensures project != "" && id != "" ==> Key(scope, project, id) == scope + ":" + project + ":" + id
    ensures project != "" ==> Key(scope, project, "") == scope + ":" + project
    ensures id != "" ==> Key(scope, "", id) == scope + ":" + id
    ensures Key(scope, "", "") == scope
  {
    assert project != "" && id != "" ==> scope + (":" + project) + (":" + id) == scope + ":" + project + ":" + id;
  }
}
