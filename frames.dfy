/**
 * The table operations of pandas that the population page relies on,
 * written over sequences of rows: boolean-mask selection, `head`, and a
 * left merge on a string key.
 */
module Frames {
  import opened Wrappers

  /** `df[mask]`: the rows for which `keep` holds, in their original order. */
  function Where<T(!new)>(s: seq<T>, keep: T -> bool): (r: seq<T>)
    ensures |r| <= |s|
    ensures forall x :: x in r <==> x in s && keep(x)
    decreases |s|
  {
    if s == [] then []
    else
      assert s == [s[0]] + s[1..];
      (if keep(s[0]) then [s[0]] else []) + Where(s[1..], keep)
  }

  /** Selection distributes over concatenation: it never reorders rows. */
  lemma {:induction false} WhereConcat<T(!new)>(a: seq<T>, b: seq<T>, keep: T -> bool)
    ensures Where(a + b, keep) == Where(a, keep) + Where(b, keep)
    decreases |a|
  {
    if a == [] {
      assert a + b == b;
    } else {
      assert (a + b)[1..] == a[1..] + b;
      WhereConcat(a[1..], b, keep);
    }
  }

  /** A mask that holds on every row selects the whole table. */
  lemma {:induction false} WhereKeepsAll<T(!new)>(s: seq<T>, keep: T -> bool)
    requires forall x :: x in s ==> keep(x)
    ensures Where(s, keep) == s
    decreases |s|
  {
    if s != [] {
      WhereKeepsAll(s[1..], keep);
    }
  }

  /** A mask that holds on no row selects nothing. */
  lemma {:induction false} WhereDropsAll<T(!new)>(s: seq<T>, keep: T -> bool)
    requires forall x :: x in s ==> !keep(x)
    ensures Where(s, keep) == []
    decreases |s|
  {
    if s != [] {
      WhereDropsAll(s[1..], keep);
    }
  }

  /** Applying the same mask twice selects the same rows as applying it once. */
  lemma WhereIdempotent<T(!new)>(s: seq<T>, keep: T -> bool)
    ensures Where(Where(s, keep), keep) == Where(s, keep)
  {
    WhereKeepsAll(Where(s, keep), keep);
  }

  /** Two masks applied one after the other select the same rows in either order. */
  lemma {:induction false} WhereCommute<T(!new)>(s: seq<T>, p: T -> bool, q: T -> bool)
    ensures Where(Where(s, p), q) == Where(Where(s, q), p)
    decreases |s|
  {
    if s != [] {
      WhereCommute(s[1..], p, q);
      var head := if p(s[0]) then [s[0]] else [];
      WhereConcat(head, Where(s[1..], p), q);
      var head' := if q(s[0]) then [s[0]] else [];
      WhereConcat(head', Where(s[1..], q), p);
    }
  }

  /** `df.head(n)`: the first `n` rows, or all of them when there are fewer. */
  function Head<T>(s: seq<T>, n: nat): (r: seq<T>)
    ensures |r| == if |s| < n then |s| else n
    ensures r <= s
  {
    if |s| <= n then s else s[..n]
  }

  /** No two right rows share a join key. */
  predicate UniqueKeys<R>(right: seq<R>, rkey: R -> string)
  {
    forall i, j :: 0 <= i < j < |right| ==> rkey(right[i]) != rkey(right[j])
  }

  /** The first right row whose key equals `key`; a missing key matches nothing. */
  function Lookup<R(!new)>(key: Option<string>, right: seq<R>, rkey: R -> string): (m: Option<R>)
    ensures m.Some? ==> m.value in right && key == Some(rkey(m.value))
    ensures m.None? <==> forall x :: x in right ==> key != Some(rkey(x))
    decreases |right|
  {
    if right == [] then None
    else if key == Some(rkey(right[0])) then Some(right[0])
    else Lookup(key, right[1..], rkey)
  }

  /** The right rows whose key equals `key`, in right-table order. */
  function Matches<R(!new)>(key: Option<string>, right: seq<R>, rkey: R -> string): seq<R>
  {
    Where(right, x => key == Some(rkey(x)))
  }

  /** The rows a left merge emits for one left row: one per match, or one unmatched row. */
  function JoinRow<L(!new), R(!new)>(l: L, matches: seq<R>): (r: seq<(L, Option<R>)>)
    ensures |r| == if matches == [] then 1 else |matches|
    ensures forall p :: p in r ==> p.0 == l
    ensures forall p :: p in r ==> (p.1.None? <==> matches == [])
    ensures forall p :: p in r && p.1.Some? ==> p.1.value in matches
  {
    if matches == [] then [(l, None)]
    else seq(|matches|, i requires 0 <= i < |matches| => (l, Some(matches[i])))
  }

  /**
   * `left.merge(right, left_on=..., right_on=..., how="left")`: for each left
   * row in order, one output row per right row with an equal key, or a single
   * row with the right side missing when there is none.
   */
  function LeftJoin<L(!new), R(!new)>(left: seq<L>, right: seq<R>, lkey: L -> Option<string>, rkey: R -> string)
    : (r: seq<(L, Option<R>)>)
    ensures |r| >= |left|
    ensures forall p :: p in r ==> p.0 in left
    ensures forall p :: p in r && p.1.Some? ==> p.1.value in right && lkey(p.0) == Some(rkey(p.1.value))
    ensures forall p :: p in r && p.1.None? ==> forall x :: x in right ==> lkey(p.0) != Some(rkey(x))
    decreases |left|
  {
    if left == [] then []
    else JoinRow(left[0], Matches(lkey(left[0]), right, rkey)) + LeftJoin(left[1..], right, lkey, rkey)
  }

  /** Each match of a left row gets its own output row. */
  lemma JoinRowComplete<L(!new), R(!new)>(l: L, matches: seq<R>)
    ensures forall x :: x in matches ==> (l, Some(x)) in JoinRow(l, matches)
  {
    var r := JoinRow(l, matches);
    forall x | x in matches ensures (l, Some(x)) in r {
      var i :| 0 <= i < |matches| && matches[i] == x;
      assert r[i] == (l, Some(x));
    }
  }

  /**
   * The left merge drops no left row, and pairs each left row with every
   * right row whose key equals its own (one output row per such pair).
   */
  lemma {:induction false} LeftJoinComplete<L(!new), R(!new)>(left: seq<L>, right: seq<R>, lkey: L -> Option<string>, rkey: R -> string)
    ensures forall l :: l in left ==> exists p :: p in LeftJoin(left, right, lkey, rkey) && p.0 == l
    ensures forall l, x :: l in left && x in right && lkey(l) == Some(rkey(x)) ==>
      (l, Some(x)) in LeftJoin(left, right, lkey, rkey)
    decreases |left|
  {
    if left != [] {
      var first := JoinRow(left[0], Matches(lkey(left[0]), right, rkey));
      var rest := LeftJoin(left[1..], right, lkey, rkey);
      assert LeftJoin(left, right, lkey, rkey) == first + rest;
      LeftJoinComplete(left[1..], right, lkey, rkey);
      JoinRowComplete(left[0], Matches(lkey(left[0]), right, rkey));
      assert first[0] in first;
      forall l | l in left ensures l == left[0] || l in left[1..] {
        var i :| 0 <= i < |left| && left[i] == l;
        if i > 0 { assert left[1..][i - 1] == l; }
      }
    }
  }

  /** The merge keeps the left table's order: it distributes over concatenation. */
  lemma {:induction false} LeftJoinConcat<L(!new), R(!new)>(a: seq<L>, b: seq<L>, right: seq<R>, lkey: L -> Option<string>, rkey: R -> string)
    ensures LeftJoin(a + b, right, lkey, rkey) == LeftJoin(a, right, lkey, rkey) + LeftJoin(b, right, lkey, rkey)
    decreases |a|
  {
    if a == [] {
      assert a + b == b;
    } else {
      assert (a + b)[0] == a[0] && (a + b)[1..] == a[1..] + b;
      LeftJoinConcat(a[1..], b, right, lkey, rkey);
      AppendAssoc(JoinRow(a[0], Matches(lkey(a[0]), right, rkey)),
        LeftJoin(a[1..], right, lkey, rkey), LeftJoin(b, right, lkey, rkey));
    }
  }

  /** Concatenation is associative; stated once so that proofs can name the regrouping. */
  lemma AppendAssoc<T>(x: seq<T>, y: seq<T>, z: seq<T>)
    ensures x + (y + z) == (x + y) + z
  {
  }

  /** With unique right keys a key matches at most one right row: the one `Lookup` finds. */
  lemma {:induction false} MatchesUnique<R(!new)>(key: Option<string>, right: seq<R>, rkey: R -> string)
    requires UniqueKeys(right, rkey)
    ensures Matches(key, right, rkey) == match Lookup(key, right, rkey) case Some(x) => [x] case None => []
    decreases |right|
  {
    if right != [] {
      assert UniqueKeys(right[1..], rkey);
      if key == Some(rkey(right[0])) {
        forall x | x in right[1..] ensures key != Some(rkey(x)) {
          var j :| 0 <= j < |right[1..]| && right[1..][j] == x;
          assert right[j + 1] == x;
        }
      }
      MatchesUnique(key, right[1..], rkey);
    }
  }

  /**
   * With unique right keys the left merge emits exactly one row per left row,
   * in the left table's order, carrying the matching right row if there is one.
   */
  lemma {:induction false} LeftJoinUnique<L(!new), R(!new)>(left: seq<L>, right: seq<R>, lkey: L -> Option<string>, rkey: R -> string)
    requires UniqueKeys(right, rkey)
    ensures |LeftJoin(left, right, lkey, rkey)| == |left|
    ensures forall i :: 0 <= i < |left| ==>
      LeftJoin(left, right, lkey, rkey)[i] == (left[i], Lookup(lkey(left[i]), right, rkey))
    decreases |left|
  {
    if left != [] {
      JoinRowUnique(left[0], right, lkey, rkey);
      LeftJoinUnique(left[1..], right, lkey, rkey);
      PrependJoinedRow(left, right, lkey, rkey,
        JoinRow(left[0], Matches(lkey(left[0]), right, rkey)), LeftJoin(left[1..], right, lkey, rkey));
    }
  }

  /** With unique right keys one left row yields exactly one output row. */
  lemma JoinRowUnique<L(!new), R(!new)>(l: L, right: seq<R>, lkey: L -> Option<string>, rkey: R -> string)
    requires UniqueKeys(right, rkey)
    ensures JoinRow(l, Matches(lkey(l), right, rkey)) == [(l, Lookup(lkey(l), right, rkey))]
  {
    MatchesUnique(lkey(l), right, rkey);
  }

  /** The step of LeftJoinUnique that puts the first left row's output in front. */
  lemma PrependJoinedRow<L, R(!new)>(left: seq<L>, right: seq<R>, lkey: L -> Option<string>, rkey: R -> string,
                               first: seq<(L, Option<R>)>, rest: seq<(L, Option<R>)>)
    requires left != [] && first == [(left[0], Lookup(lkey(left[0]), right, rkey))]
    requires |rest| == |left| - 1
    requires forall i :: 0 <= i < |left| - 1 ==> rest[i] == (left[1..][i], Lookup(lkey(left[1..][i]), right, rkey))
    ensures |first + rest| == |left|
    ensures forall i :: 0 <= i < |left| ==> (first + rest)[i] == (left[i], Lookup(lkey(left[i]), right, rkey))
  {
    forall i | 0 < i < |left|
      ensures (first + rest)[i] == (left[i], Lookup(lkey(left[i]), right, rkey))
    {
      assert (first + rest)[i] == rest[i - 1] && left[1..][i - 1] == left[i];
    }
  }


}
