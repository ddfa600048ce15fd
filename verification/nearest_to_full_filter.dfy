/** `NearestToFullFilter#apply`: among candidate deliveries, keep those whose
    bag has the least remaining size (the ones nearest to full).

    The source does this as `group_by { |d| d.bag.size }.min.last`.  The model
    follows the same three steps (`GroupBySize`, `MinKeyIndex`, then the
    members of that group) in `Apply`, and proves that the outcome is the
    reference `Nearest`: the minimal-size deliveries, in input order. */
module NearestToFullFilter {
  import opened Wrappers
  import opened DeliveryBag

  /** A delivery worker as the filter sees it: a user name and a bag. */
  datatype Delivery = Delivery(username: string, bag: Bag)

  /** `a` is `b` with some elements dropped, the rest kept in order. */
  ghost predicate Subseq<T>(a: seq<T>, b: seq<T>)
    decreases |b|
  {
    if |a| == 0 then true
    else if |b| == 0 then false
    else (a[|a| - 1] == b[|b| - 1] && Subseq(a[..|a| - 1], b[..|b| - 1])) || Subseq(a, b[..|b| - 1])
  }

  /** The deliveries of `ds` whose bag size is `k`, in input order: the
      group `group_by` builds for key `k`. */
  function WithSize(ds: seq<Delivery>, k: int): (r: seq<Delivery>)
    ensures forall i | 0 <= i < |r| :: r[i].bag.size == k
  {
    if |ds| == 0 then []
    else WithSize(ds[..|ds| - 1], k) + (if ds[|ds| - 1].bag.size == k then [ds[|ds| - 1]] else [])
  }

  lemma WithSizeSnoc(s: seq<Delivery>, d: Delivery, k: int)
    ensures WithSize(s + [d], k) == WithSize(s, k) + (if d.bag.size == k then [d] else [])
  {
  }

  /** The group for `k` holds each size-`k` delivery exactly as often as the
      input does, and nothing else. */
  lemma {:induction false} WithSizeCounts(ds: seq<Delivery>, k: int)
    ensures forall d :: multiset(WithSize(ds, k))[d] == if d.bag.size == k then multiset(ds)[d] else 0
    decreases |ds|
  {
    if |ds| > 0 {
      var p := ds[..|ds| - 1];
      assert ds == p + [ds[|ds| - 1]];
      WithSizeCounts(p, k);
    }
  }

  /** The group for `k` keeps the input order. */
  lemma {:induction false} WithSizeSubseq(ds: seq<Delivery>, k: int)
    ensures Subseq(WithSize(ds, k), ds)
    decreases |ds|
  {
    if |ds| > 0 {
      var p := ds[..|ds| - 1];
      var d := ds[|ds| - 1];
      WithSizeSubseq(p, k);
      var r := WithSize(ds, k);
      if d.bag.size == k {
        assert r[..|r| - 1] == WithSize(p, k);
      } else {
        assert r == WithSize(p, k);
        assert |r| == 0 || Subseq(r, ds[..|ds| - 1]);
      }
    }
  }

  /** No group is built for a size that does not occur. */
  lemma {:induction false} WithSizeAbsent(ds: seq<Delivery>, k: int)
    requires forall i | 0 <= i < |ds| :: ds[i].bag.size != k
    ensures WithSize(ds, k) == []
    decreases |ds|
  {
    if |ds| > 0 {
      WithSizeAbsent(ds[..|ds| - 1], k);
    }
  }

  /** The least bag size among the candidates. */
  function MinSize(ds: seq<Delivery>): (m: int)
    requires |ds| > 0
    ensures forall i | 0 <= i < |ds| :: m <= ds[i].bag.size
    ensures exists i | 0 <= i < |ds| :: ds[i].bag.size == m
  {
    if |ds| == 1 then ds[0].bag.size
    else
      var p := ds[..|ds| - 1];
      var m := MinSize(p);
      assert forall i | 0 <= i < |p| :: ds[i] == p[i];
      if ds[|ds| - 1].bag.size < m then ds[|ds| - 1].bag.size else m
  }

  /** Reference definition of the filter's answer: every candidate of least
      bag size, in input order. */
  function Nearest(ds: seq<Delivery>): (r: seq<Delivery>)
    requires |ds| > 0
    ensures |r| > 0
    ensures forall i | 0 <= i < |r| :: r[i].bag.size == MinSize(ds)
    ensures forall i | 0 <= i < |ds| :: ds[i].bag.size == MinSize(ds) ==> ds[i] in r
    ensures Subseq(r, ds)
  {
    var r := WithSize(ds, MinSize(ds));
    WithSizeCounts(ds, MinSize(ds));
    WithSizeSubseq(ds, MinSize(ds));
    assert forall i | 0 <= i < |ds| :: ds[i].bag.size == MinSize(ds) ==> multiset(r)[ds[i]] > 0;
    r
  }

  // ---------------------------------------------------------------------------
  // The source's algorithm
  // ---------------------------------------------------------------------------

  /** One entry of the hash built by `group_by`. */
  datatype Group = Group(key: int, members: seq<Delivery>)

  /** Index of the group with key `k`, or `|gs|` when there is none. */
  function FindKey(gs: seq<Group>, k: int): (j: nat)
    ensures j <= |gs|
    ensures j < |gs| ==> gs[j].key == k
    ensures j == |gs| ==> forall i | 0 <= i < |gs| :: gs[i].key != k
  {
    if |gs| == 0 then 0
    else if gs[0].key == k then 0
    else 1 + FindKey(gs[1..], k)
  }

  /** One step of `group_by`: append `d` to the group of its bag size,
      opening a new group at the end when that size has not been seen. */
  function Insert(gs: seq<Group>, d: Delivery): seq<Group>
  {
    var j := FindKey(gs, d.bag.size);
    if j < |gs| then gs[j := Group(gs[j].key, gs[j].members + [d])]
    else gs + [Group(d.bag.size, [d])]
  }

  /** `gs` is the hash `group_by` has built after reading `s`: distinct keys,
      each group the non-empty in-order selection of its size, and a group
      for every size that occurs in `s`. */
  ghost predicate GroupsOf(gs: seq<Group>, s: seq<Delivery>)
  {
    && (forall i, j | 0 <= i < j < |gs| :: gs[i].key != gs[j].key)
    && (forall i | 0 <= i < |gs| :: gs[i].members == WithSize(s, gs[i].key) && |gs[i].members| > 0)
    && (forall i | 0 <= i < |s| :: exists g | 0 <= g < |gs| :: gs[g].key == s[i].bag.size)
  }

  lemma InsertStep(gs: seq<Group>, s: seq<Delivery>, d: Delivery)
    requires GroupsOf(gs, s)
    ensures GroupsOf(Insert(gs, d), s + [d])
  {
    var s' := s + [d];
    var gs' := Insert(gs, d);
    var j := FindKey(gs, d.bag.size);
    forall i | 0 <= i < |gs'|
      ensures gs'[i].members == WithSize(s', gs'[i].key) && |gs'[i].members| > 0
    {
      WithSizeSnoc(s, d, gs'[i].key);
      if i < |gs| && i != j {
        assert gs'[i] == gs[i];
      } else if i == |gs| {
        forall i' | 0 <= i' < |s|
          ensures s[i'].bag.size != d.bag.size
        {
          var g :| 0 <= g < |gs| && gs[g].key == s[i'].bag.size;
        }
        WithSizeAbsent(s, d.bag.size);
      }
    }
    forall i | 0 <= i < |s'|
      ensures exists g | 0 <= g < |gs'| :: gs'[g].key == s'[i].bag.size
    {
      if i < |s| {
        var g :| 0 <= g < |gs| && gs[g].key == s[i].bag.size;
        assert gs'[g].key == s'[i].bag.size;
      } else if j < |gs| {
        assert gs'[j].key == s'[i].bag.size;
      } else {
        assert gs'[|gs|].key == s'[i].bag.size;
      }
    }
  }

  /** `group_by { |d| d.bag.size }`: one group per distinct bag size, in the
      order the sizes first appear, each holding its deliveries in input order. */
  method GroupBySize(ds: seq<Delivery>) returns (gs: seq<Group>)
    ensures forall i, j | 0 <= i < j < |gs| :: gs[i].key != gs[j].key
    ensures forall i | 0 <= i < |gs| :: gs[i].members == WithSize(ds, gs[i].key) && |gs[i].members| > 0
    ensures forall i | 0 <= i < |ds| :: FindKey(gs, ds[i].bag.size) < |gs|
  {
    gs := [];
    var n := 0;
    while n < |ds|
      invariant 0 <= n <= |ds|
      invariant GroupsOf(gs, ds[..n])
    {
      InsertStep(gs, ds[..n], ds[n]);
      assert ds[..n + 1] == ds[..n] + [ds[n]];
      gs := Insert(gs, ds[n]);
      n := n + 1;
    }
    assert ds[..|ds|] == ds;
    forall i | 0 <= i < |ds|
      ensures FindKey(gs, ds[i].bag.size) < |gs|
    {
      var g :| 0 <= g < |gs| && gs[g].key == ds[i].bag.size;
    }
  }

  /** `Hash#min`: the entry with the least key.  Entries compare as
      `[key, members]` arrays, and the keys are distinct, so the key alone
      decides. */
  method MinKeyIndex(gs: seq<Group>) returns (m: nat)
    requires |gs| > 0
    ensures m < |gs|
    ensures forall i | 0 <= i < |gs| :: gs[m].key <= gs[i].key
  {
    m := 0;
    var i := 1;
    while i < |gs|
      invariant 1 <= i <= |gs|
      invariant m < i
      invariant forall j | 0 <= j < i :: gs[m].key <= gs[j].key
    {
      if gs[i].key < gs[m].key {
        m := i;
      }
      i := i + 1;
    }
  }

  /** `apply(deliveries, _order)`.  On an empty candidate list `min` is `nil`
      and `nil.last` raises, which the model reports as `None`.  The order
      argument is ignored, and `apply` itself does not use the successor filter. */
  method Apply(ds: seq<Delivery>, order: int) returns (r: Option<seq<Delivery>>)
    ensures r.None? <==> |ds| == 0
    ensures r.Some? ==> r.value == Nearest(ds)
  {
    if |ds| == 0 {
      return None;
    }
    var gs := GroupBySize(ds);
    assert FindKey(gs, ds[0].bag.size) < |gs|;
    var m := MinKeyIndex(gs);
    var k := gs[m].key;
    var w := gs[m].members;
    WithSizeCounts(ds, k);
    assert multiset(w)[w[0]] > 0;
    var i0 :| 0 <= i0 < |ds| && ds[i0] == w[0];
    assert MinSize(ds) <= k;
    var i1 :| 0 <= i1 < |ds| && ds[i1].bag.size == MinSize(ds);
    assert k <= MinSize(ds) by {
      var j := FindKey(gs, ds[i1].bag.size);
      assert gs[m].key <= gs[j].key;
    }
    return Some(w);
  }

  // ---------------------------------------------------------------------------
  // Properties of the filter
  // ---------------------------------------------------------------------------

  lemma {:induction false} SubseqMultiset<T>(a: seq<T>, b: seq<T>)
    requires Subseq(a, b)
    ensures multiset(a) <= multiset(b)
    decreases |b|
  {
    if |a| > 0 {
      var b' := b[..|b| - 1];
      assert b == b' + [b[|b| - 1]];
      if a[|a| - 1] == b[|b| - 1] && Subseq(a[..|a| - 1], b') {
        SubseqMultiset(a[..|a| - 1], b');
        assert a == a[..|a| - 1] + [a[|a| - 1]];
      } else {
        SubseqMultiset(a, b');
      }
    }
  }

  lemma {:induction false} SubseqReflexive<T>(a: seq<T>)
    ensures Subseq(a, a)
    decreases |a|
  {
    if |a| > 0 {
      SubseqReflexive(a[..|a| - 1]);
    }
  }

  /** The group for key `k` is pinned down by three facts: it is an in-order
      subsequence of the input, it holds only size-`k` deliveries, and it
      holds each size-`k` delivery as often as the input does. */
  lemma {:induction false} WithSizeUnique(ds: seq<Delivery>, r: seq<Delivery>, k: int)
    requires Subseq(r, ds)
    requires forall i | 0 <= i < |r| :: r[i].bag.size == k
    requires forall d: Delivery | d.bag.size == k :: multiset(r)[d] == multiset(ds)[d]
    ensures r == WithSize(ds, k)
    decreases |ds|
  {
    if |ds| == 0 {
      assert |r| == 0;
    } else {
      var p := ds[..|ds| - 1];
      var d := ds[|ds| - 1];
      assert ds == p + [d];
      if d.bag.size == k {
        assert multiset(r)[d] > 0;
        assert |r| > 0;
        var r' := r[..|r| - 1];
        assert r == r' + [r[|r| - 1]];
        if !(r[|r| - 1] == d && Subseq(r', p)) {
          SubseqMultiset(r, p);
          assert false;
        }
        WithSizeUnique(p, r', k);
      } else {
        if |r| > 0 {
          assert r[|r| - 1] != d;
        }
        assert Subseq(r, p);
        WithSizeUnique(p, r, k);
      }
    }
  }

  /** The reference answer is the only one with the properties the source
      promises: an in-order subsequence of the input, only minimal-size
      deliveries, and none of the minimal-size deliveries dropped. */
  lemma NearestUnique(ds: seq<Delivery>, r: seq<Delivery>)
    requires |ds| > 0
    requires Subseq(r, ds)
    requires forall i | 0 <= i < |r| :: r[i].bag.size == MinSize(ds)
    requires forall d: Delivery | d.bag.size == MinSize(ds) :: multiset(r)[d] == multiset(ds)[d]
    ensures r == Nearest(ds)
  {
    WithSizeUnique(ds, r, MinSize(ds));
  }

  /** When every candidate has the same bag size, the filter keeps them all. */
  lemma NearestAllSame(ds: seq<Delivery>)
    requires |ds| > 0
    requires forall i | 0 <= i < |ds| :: ds[i].bag.size == ds[0].bag.size
    ensures Nearest(ds) == ds
  {
    SubseqReflexive(ds);
    NearestUnique(ds, ds);
  }

  /** Filtering the filter's own answer changes nothing. */
  lemma NearestIdempotent(ds: seq<Delivery>)
    requires |ds| > 0
    ensures Nearest(Nearest(ds)) == Nearest(ds)
  {
    NearestAllSame(Nearest(ds));
  }
}
