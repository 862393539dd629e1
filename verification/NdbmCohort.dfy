/**
 When does dbm_store come to an end?  Pairs whose keys have the same hash can never be split
 apart, so a new pair finds room exactly when it fits on one page with those of equal hash.
 */
module NdbmCohort {
  import opened NdbmPage
  import opened NdbmTrie
  import opened NdbmMap
  import opened NdbmHash

  /** The pairs of `ps` that no split can separate from key `k`, in order. */
  function Cohort(ps: seq<Pair>, hash: Hash, k: seq<byte>): seq<Pair> {
    if ps == [] then [] else
      var p := ps[|ps| - 1];
      Cohort(ps[..|ps| - 1], hash, k) + if hash(p.key) == hash(k) && p.key != k then [p] else []
  }

  lemma {:induction false} CohortHalf(ps: seq<Pair>, hash: Hash, k: seq<byte>, w: nat)
    requires w >= 1
    ensures Cohort(Half(ps, hash, w, HasBit(hash(k), w)), hash, k) == Cohort(ps, hash, k)
  {
    if ps != [] {
      var n, up := |ps| - 1, HasBit(hash(k), w);
      CohortHalf(ps[..n], hash, k, w);
      var q := Half(ps[..n], hash, w, up);
      assert (q + [ps[n]])[..|q|] == q && q + [] == q;
    }
  }

  lemma {:induction false} CohortWithout(ps: seq<Pair>, hash: Hash, k: seq<byte>, j: nat)
    requires j < |ps| && ps[j].key == k
    ensures Cohort(Without(ps, j), hash, k) == Cohort(ps, hash, k)
  {
    var n := |ps| - 1;
    if j < n {
      CohortWithout(ps[..n], hash, k, j);
      var q := Without(ps[..n], j);
      assert Without(ps, j) == q + [ps[n]];
      assert (q + [ps[n]])[..|q|] == q;
    } else {
      assert Without(ps, j) == ps[..n];
    }
  }

  lemma {:induction false} CohortAll(ps: seq<Pair>, hash: Hash, k: seq<byte>)
    requires forall p :: p in ps ==> hash(p.key) == hash(k) && p.key != k
    ensures Cohort(ps, hash, k) == ps
  {
    CohortEnds(ps, hash, k);
    hide Cohort;
    if ps != [] {
      var n := |ps| - 1;
      forall p | p in ps[..n]
        ensures hash(p.key) == hash(k) && p.key != k
      {
        assert p in ps;
      }
      CohortAll(ps[..n], hash, k);
      assert ps[n] in ps && ps == ps[..n] + [ps[n]];
    }
  }

  lemma CohortEnds(ps: seq<Pair>, hash: Hash, k: seq<byte>)
    ensures ps == [] ==> Cohort(ps, hash, k) == []
    ensures ps != [] ==>
      var n := |ps| - 1;
      Cohort(ps, hash, k) ==
      Cohort(ps[..n], hash, k) + if hash(ps[n].key) == hash(k) && ps[n].key != k then [ps[n]] else []
  {
  }

  /** A cohort needs no more room than the whole page. */
  lemma {:induction false} CohortRoom(ps: seq<Pair>, hash: Hash, k: seq<byte>)
    ensures |Cohort(ps, hash, k)| <= |ps|
    ensures Top(Cohort(ps, hash, k), |Cohort(ps, hash, k)|) >= Top(ps, |ps|)
  {
    if ps != [] {
      var n := |ps| - 1;
      CohortRoom(ps[..n], hash, k);
      assert ps == ps[..n] + [ps[n]];
      TopAppend(ps[..n], [ps[n]], n);
      var q := Cohort(ps[..n], hash, k);
      TopAppend(q, [ps[n]], |q|);
      assert q + [] == q;
    }
  }

  /** If the new pair does not fit with its cohort, it does not fit on the page. */
  lemma CohortBlocks(ps: seq<Pair>, hash: Hash, p: Pair)
    requires Fits(ps + [p])
    ensures Fits(Cohort(ps, hash, p.key) + [p])
  {
    CohortRoom(ps, hash, p.key);
    TopAppend(ps, [p], |ps|);
    var q := Cohort(ps, hash, p.key);
    TopAppend(q, [p], |q|);
  }

  /** The ENOSPC test rejects exactly the pairs that do not fit an empty page. */
  lemma EnospcExact(p: Pair)
    ensures |p.key| + |p.val| + 3 * 2 >= PBLKSIZ <==> !Fits([p])
  {
    assert Top([p], 1) == Top([p], 0) - Size(p);
  }

  /** A pair that fits on no empty page fits on no page. */
  lemma FitsAlone(ps: seq<Pair>, p: Pair)
    requires Fits(ps + [p])
    ensures Fits([p])
  {
    TopAppend(ps, [p], |ps|);
    TopDescends(ps, |ps|, |ps|);
    assert Top([p], 1) == Top([p], 0) - Size(p);
  }

  // ----- enough splits -----

  ghost predicate Bounded(ps: seq<Pair>, hash: Hash, bound: nat) {
    forall p :: p in ps ==> hash(p.key) < P(bound)
  }

  lemma {:induction false} BoundExists(ps: seq<Pair>, hash: Hash, h: nat) returns (bound: nat)
    ensures h < P(bound) && Bounded(ps, hash, bound)
  {
    if ps == [] {
      bound := h;
      PExceeds(h);
    } else {
      var n := |ps| - 1;
      var b := BoundExists(ps[..n], hash, h);
      bound := if b < hash(ps[n].key) then hash(ps[n].key) else b;
      PExceeds(hash(ps[n].key));
      PMonotone(b, bound);
      PMonotone(hash(ps[n].key), bound);
      assert ps == ps[..n] + [ps[n]];
    }
  }

  /** At depth `bound` a leaf page holds nothing but the cohort, so an additem that failed was higher up. */
  lemma FailsAboveBound(lists: seq<seq<Pair>>, bits: set<nat>, hash: Hash, m: Contents,
                        ps: seq<Pair>, p: Pair, bound: nat)
    requires var i := Home(bits, hash(p.key)); Denotes(PutList(lists, i, ps), bits, hash, m)
    requires p.key !in m && Bounded(ps, hash, bound) && hash(p.key) < P(bound)
    requires !Fits(ps + [p]) && Fits(Cohort(ps, hash, p.key) + [p])
    ensures Leaf(bits, hash(p.key), 0) < bound
  {
    var i, h := Home(bits, hash(p.key)), hash(p.key);
    if Leaf(bits, h, 0) >= bound {
      forall q | q in ps
        ensures hash(q.key) == h && q.key != p.key
      {
        assert q in ListAt(PutList(lists, i, ps), i);
        assert Belongs(q, i, bits, hash, m);
        DeepLeaf(bits, h, hash(q.key), bound);
      }
      CohortAll(ps, hash, p.key);
    }
  }

  lemma BoundedHalf(ps: seq<Pair>, hash: Hash, w: nat, up: bool, bound: nat)
    requires w >= 1 && Bounded(ps, hash, bound)
    ensures Bounded(Half(ps, hash, w, up), hash, bound)
  {
    forall p | p in Half(ps, hash, w, up) {
      HalfMembers(ps, hash, w, up, p);
    }
  }

  // ----- the page of a pair about to be stored -----

  /** `ps` is the home page of `key` without `key`, and without `key` the data base denotes the rest of `m`. */
  ghost predicate Reduced(lists: seq<seq<Pair>>, bits: set<nat>, hash: Hash, m: Contents,
                          key: seq<byte>, ps: seq<Pair>)
  {
    var i := Home(bits, hash(key));
    && Denotes(PutList(lists, i, ps), bits, hash, m - {key})
    && Cohort(ps, hash, key) == Cohort(ListAt(lists, i), hash, key)
    && forall p :: p in ps ==> p in ListAt(lists, i)
  }

  lemma ReducedByDelete(lists: seq<seq<Pair>>, bits: set<nat>, hash: Hash, m: Contents, key: seq<byte>, j: nat)
    requires Denotes(lists, bits, hash, m)
    requires var ps := ListAt(lists, Home(bits, hash(key))); j < |ps| && ps[j].key == key
    ensures Reduced(lists, bits, hash, m, key, Without(ListAt(lists, Home(bits, hash(key))), j))
  {
    var ps := ListAt(lists, Home(bits, hash(key)));
    RemoveDenotes(lists, bits, hash, m, key, j);
    CohortWithout(ps, hash, key, j);
    forall p | p in Without(ps, j) {
      WithoutMembers(ps, j, p);
    }
  }

  lemma ReducedAlready(lists: seq<seq<Pair>>, bits: set<nat>, hash: Hash, m: Contents, key: seq<byte>)
    requires Denotes(lists, bits, hash, m) && key !in m
    ensures Reduced(lists, bits, hash, m, key, ListAt(lists, Home(bits, hash(key))))
  {
    SamePage(lists, bits, hash, m, Home(bits, hash(key)));
    assert m - {key} == m;
  }

  /** The pairs of `ps` but for that of key `k`. */
  function WithoutKey(ps: seq<Pair>, k: seq<byte>): seq<Pair> {
    var j := IndexOf(ps, k);
    if j < |ps| then Without(ps, j) else ps
  }

  lemma WithoutAbsent(lists: seq<seq<Pair>>, bits: set<nat>, hash: Hash, m: Contents, key: seq<byte>)
    requires Denotes(lists, bits, hash, m) && key !in m
    ensures WithoutKey(ListAt(lists, Home(bits, hash(key))), key) == ListAt(lists, Home(bits, hash(key)))
  {
    var ps := ListAt(lists, Home(bits, hash(key)));
    SearchDecides(lists, bits, hash, m, key);
    forall j | 0 <= j < |ps|
      ensures ps[j].key != key
    {
      assert ps[j] in ps;
    }
  }

  lemma WithoutPresent(lists: seq<seq<Pair>>, bits: set<nat>, hash: Hash, m: Contents, key: seq<byte>, b: nat, j: nat)
    requires Denotes(lists, bits, hash, m) && j < |ListAt(lists, b)| && ListAt(lists, b)[j].key == key
    ensures WithoutKey(ListAt(lists, b), key) == Without(ListAt(lists, b), j)
  {
    PlaceOf(lists, bits, hash, m, b, key, j);
  }

  lemma ReducedStart(lists: seq<seq<Pair>>, bits: set<nat>, hash: Hash, m: Contents, key: seq<byte>)
    requires Denotes(lists, bits, hash, m)
    ensures Reduced(lists, bits, hash, m, key, WithoutKey(ListAt(lists, Home(bits, hash(key))), key))
  {
    var ps := ListAt(lists, Home(bits, hash(key)));
    SearchDecides(lists, bits, hash, m, key);
    if IndexOf(ps, key) < |ps| {
      ReducedByDelete(lists, bits, hash, m, key, IndexOf(ps, key));
    } else {
      ReducedAlready(lists, bits, hash, m, key);
    }
  }

  /** Room on one page for the new pair and those of its page that it can never be split from. */
  ghost predicate PageRoom(lists: seq<seq<Pair>>, bits: set<nat>, hash: Hash, p: Pair) {
    Fits(Cohort(ListAt(lists, Home(bits, hash(p.key))), hash, p.key) + [p])
  }

  // ----- the pairs of equal hash in the map -----

  /** `qs` lists, each once, the pairs of `m` that have the hash of `k` and another key. */
  ghost predicate Kin(qs: seq<Pair>, m: Contents, hash: Hash, k: seq<byte>) {
    && Distinct(qs)
    && forall p :: p in qs <==> p.key in m && m[p.key] == p.val && hash(p.key) == hash(k) && p.key != k
  }

  /** The new pair fits on one page together with the stored pairs of the same hash and other keys. */
  ghost predicate RoomFor(m: Contents, hash: Hash, p: Pair) {
    exists qs :: Kin(qs, m, hash, p.key) && Fits(qs + [p])
  }

  lemma {:induction false} CohortMembers(ps: seq<Pair>, hash: Hash, k: seq<byte>, p: Pair)
    ensures p in Cohort(ps, hash, k) <==> p in ps && hash(p.key) == hash(k) && p.key != k
  {
    if ps != [] {
      var n := |ps| - 1;
      CohortMembers(ps[..n], hash, k, p);
      assert ps == ps[..n] + [ps[n]];
    }
  }

  lemma {:induction false} CohortDistinct(ps: seq<Pair>, hash: Hash, k: seq<byte>)
    requires Distinct(ps)
    ensures Distinct(Cohort(ps, hash, k))
  {
    if ps != [] {
      var n := |ps| - 1;
      var q := Cohort(ps[..n], hash, k);
      CohortDistinct(ps[..n], hash, k);
      forall i | 0 <= i < |q|
        ensures q[i].key != ps[n].key
      {
        CohortMembers(ps[..n], hash, k, q[i]);
      }
    }
  }

  /** The cohort on the home page is all the stored pairs of equal hash. */
  lemma CohortIsKin(lists: seq<seq<Pair>>, bits: set<nat>, hash: Hash, m: Contents, k: seq<byte>)
    requires Denotes(lists, bits, hash, m)
    ensures Kin(Cohort(ListAt(lists, Home(bits, hash(k))), hash, k), m, hash, k)
  {
    var ps := ListAt(lists, Home(bits, hash(k)));
    assert Distinct(ListAt(lists, Home(bits, hash(k))));
    CohortDistinct(ps, hash, k);
    forall p
      ensures p in Cohort(ps, hash, k) <==>
              p.key in m && m[p.key] == p.val && hash(p.key) == hash(k) && p.key != k
    {
      CohortMembers(ps, hash, k, p);
      SearchDecides(lists, bits, hash, m, p.key);
    }
  }

  lemma SomeMember(ps: seq<Pair>)
    ensures ps != [] ==> exists p :: p in ps
  {
    if ps != [] {
      assert ps[0] in ps;
    }
  }

  /** Lists of the same pairs, each once, need the same room. */
  lemma {:induction false} SameRoom(qs: seq<Pair>, rs: seq<Pair>)
    requires Distinct(qs) && Distinct(rs) && forall p :: p in qs <==> p in rs
    ensures |qs| == |rs| && Top(qs, |qs|) == Top(rs, |rs|)
    decreases |qs|
  {
    if qs == [] {
      SomeMember(rs);
    } else {
      var n := |qs| - 1;
      assert qs[n] in rs;
      var j :| 0 <= j < |rs| && rs[j] == qs[n];
      assert qs[..n] + [] == Without(qs, n);
      forall p
        ensures p in qs[..n] <==> p in Without(rs, j)
      {
        WithoutMembers(qs, n, p);
        WithoutMembers(rs, j, p);
      }
      WithoutMembers(rs, j, rs[j]);
      SameRoom(qs[..n], Without(rs, j));
      TopWithout(rs, j, |rs| - 1);
      TopAppend(qs[..n], [qs[n]], n);
      assert qs[..n] + [qs[n]] == qs;
    }
  }

  /** Any list of those pairs decides whether there is room. */
  lemma KinDecides(qs: seq<Pair>, m: Contents, hash: Hash, p: Pair)
    requires Kin(qs, m, hash, p.key)
    ensures RoomFor(m, hash, p) <==> Fits(qs + [p])
  {
    forall rs | Kin(rs, m, hash, p.key)
      ensures Fits(rs + [p]) <==> Fits(qs + [p])
    {
      SameRoom(qs, rs);
      TopAppend(qs, [p], |qs|);
      TopAppend(rs, [p], |rs|);
    }
  }

  /** Room among the pairs of the page is room among those of the map. */
  lemma RoomDecides(lists: seq<seq<Pair>>, bits: set<nat>, hash: Hash, m: Contents, p: Pair)
    requires Denotes(lists, bits, hash, m)
    ensures RoomFor(m, hash, p) <==> PageRoom(lists, bits, hash, p)
  {
    CohortIsKin(lists, bits, hash, m, p.key);
    KinDecides(Cohort(ListAt(lists, Home(bits, hash(p.key))), hash, p.key), m, hash, p);
  }

  // ----- splits without end -----

  ghost predicate NoRoom(lists: seq<seq<Pair>>, bits: set<nat>, hash: Hash, p: Pair) {
    !Fits(ListAt(lists, Home(bits, hash(p.key))) + [p])
  }

  /** The page that `p` belongs to has no room for it, not even without the pairs of other hashes. */
  ghost predicate Stuck(lists: seq<seq<Pair>>, bits: set<nat>, hash: Hash, p: Pair) {
    PrefixClosed(bits) && !Fits(Cohort(ListAt(lists, Home(bits, hash(p.key))), hash, p.key) + [p])
  }

  lemma StuckNoRoom(lists: seq<seq<Pair>>, bits: set<nat>, hash: Hash, p: Pair)
    requires Stuck(lists, bits, hash, p)
    ensures NoRoom(lists, bits, hash, p)
  {
    var ps := ListAt(lists, Home(bits, hash(p.key)));
    if Fits(ps + [p]) {
      CohortBlocks(ps, hash, p);
    }
  }

  ghost function SplitBits(bits: set<nat>, h: nat): set<nat> {
    bits + {Node(h, Leaf(bits, h, 0))}
  }

  lemma SplitStuck(lists: seq<seq<Pair>>, bits: set<nat>, hash: Hash, p: Pair)
    requires Stuck(lists, bits, hash, p)
    ensures Stuck(SplitLists(lists, bits, hash, hash(p.key)), SplitBits(bits, hash(p.key)), hash, p)
  {
    var h := hash(p.key);
    SplitClosed(bits, h);
    SplitHome(bits, h, h);
    CohortHalf(ListAt(lists, Home(bits, h)), hash, p.key, P(Leaf(bits, h, 0)));
  }

  /** The data base after `n` splits of the leaf that hash `h` reaches. */
  ghost function SplitTimes(lists: seq<seq<Pair>>, bits: set<nat>, hash: Hash, h: nat, n: nat):
      (seq<seq<Pair>>, set<nat>)
    decreases n
  {
    if n == 0 then (lists, bits)
    else SplitTimes(SplitLists(lists, bits, hash, h), SplitBits(bits, h), hash, h, n - 1)
  }

  lemma {:induction false} StuckForEver(lists: seq<seq<Pair>>, bits: set<nat>, hash: Hash, p: Pair, n: nat)
    requires Stuck(lists, bits, hash, p)
    ensures var db := SplitTimes(lists, bits, hash, hash(p.key), n); NoRoom(db.0, db.1, hash, p)
    decreases n
  {
    if n == 0 {
      StuckNoRoom(lists, bits, hash, p);
    } else {
      SplitStuck(lists, bits, hash, p);
      StuckForEver(SplitLists(lists, bits, hash, hash(p.key)), SplitBits(bits, hash(p.key)), hash, p, n - 1);
    }
  }

  lemma SplitStep(lists: seq<seq<Pair>>, bits: set<nat>, hash: Hash, m: Contents, h: nat)
    requires Denotes(lists, bits, hash, m) && PrefixClosed(bits)
    ensures Denotes(SplitLists(lists, bits, hash, h), SplitBits(bits, h), hash, m) && PrefixClosed(SplitBits(bits, h))
  {
    hide Denotes, PrefixClosed, SplitLists;
    SplitDenotes(lists, bits, hash, m, h);
    SplitClosed(bits, h);
  }

  /** Splits keep what the pages denote. */
  lemma {:induction false} SplitTimesDenote(lists: seq<seq<Pair>>, bits: set<nat>, hash: Hash, m: Contents, h: nat,
                                            n: nat)
    requires Denotes(lists, bits, hash, m) && PrefixClosed(bits)
    ensures var db := SplitTimes(lists, bits, hash, h, n); Denotes(db.0, db.1, hash, m)
    decreases n
  {
    hide Denotes, PrefixClosed, SplitLists, SplitBits;
    if n > 0 {
      SplitStep(lists, bits, hash, m, h);
      SplitTimesDenote(SplitLists(lists, bits, hash, h), SplitBits(bits, h), hash, m, h, n - 1);
    }
  }

  /** If the pair fits with its cohort, some number of splits makes room for it. */
  lemma {:induction false} RoomComes(lists: seq<seq<Pair>>, bits: set<nat>, hash: Hash, m: Contents, p: Pair,
                                     bound: nat)
    returns (n: nat)
    requires Denotes(lists, bits, hash, m) && PrefixClosed(bits) && p.key !in m && PageRoom(lists, bits, hash, p)
    requires Bounded(ListAt(lists, Home(bits, hash(p.key))), hash, bound) && hash(p.key) < P(bound)
    ensures var db := SplitTimes(lists, bits, hash, hash(p.key), n); !NoRoom(db.0, db.1, hash, p)
    decreases bound - Leaf(bits, hash(p.key), 0)
  {
    hide Denotes, PrefixClosed, Bounded, PageRoom, SplitLists, SplitBits;
    var h := hash(p.key);
    n := 0;
    if NoRoom(lists, bits, hash, p) {
      RoomNearer(lists, bits, hash, m, p, bound);
      var n' := RoomComes(SplitLists(lists, bits, hash, h), SplitBits(bits, h), hash, m, p, bound);
      n := n' + 1;
    }
  }

  /** The home page of a hash after a split: the half of the old one that the hash belongs to, one level down. */
  lemma HomeHalf(lists: seq<seq<Pair>>, bits: set<nat>, hash: Hash, h: nat)
    requires PrefixClosed(bits)
    ensures var w := P(Leaf(bits, h, 0));
            && ListAt(SplitLists(lists, bits, hash, h), Home(SplitBits(bits, h), h))
               == Half(ListAt(lists, Home(bits, h)), hash, w, HasBit(h, w))
            && Leaf(SplitBits(bits, h), h, 0) == Leaf(bits, h, 0) + 1
  {
    hide Half, PrefixClosed;
    SplitLeaf(bits, h, h);
    SplitHome(bits, h, h);
  }

  /** A split of a page without room keeps the map and the promise of room, one level nearer to the bound. */
  lemma RoomNearer(lists: seq<seq<Pair>>, bits: set<nat>, hash: Hash, m: Contents, p: Pair, bound: nat)
    requires Denotes(lists, bits, hash, m) && PrefixClosed(bits) && p.key !in m && PageRoom(lists, bits, hash, p)
    requires Bounded(ListAt(lists, Home(bits, hash(p.key))), hash, bound) && hash(p.key) < P(bound)
    requires NoRoom(lists, bits, hash, p)
    ensures var h := hash(p.key);
            var ls, bs := SplitLists(lists, bits, hash, h), SplitBits(bits, h);
            && Denotes(ls, bs, hash, m) && PrefixClosed(bs) && PageRoom(ls, bs, hash, p)
            && Bounded(ListAt(ls, Home(bs, h)), hash, bound)
            && Leaf(bits, h, 0) < bound && Leaf(bs, h, 0) == Leaf(bits, h, 0) + 1
  {
    hide Denotes, PrefixClosed, Bounded, Half, Cohort, Fits, SplitLists, SplitBits, Leaf;
    var h := hash(p.key);
    var b, w := Home(bits, h), P(Leaf(bits, h, 0));
    var ps := ListAt(lists, b);
    SamePage(lists, bits, hash, m, b);
    FailsAboveBound(lists, bits, hash, m, ps, p, bound);
    SplitStep(lists, bits, hash, m, h);
    HomeHalf(lists, bits, hash, h);
    CohortHalf(ps, hash, p.key, w);
    BoundedHalf(ps, hash, w, HasBit(h, w), bound);
  }

  /**
   The data base as dbm_store sees it in round `n`: the old pair of the key is gone, and `n` pages have been split.
   */
  ghost function StoreRound(lists: seq<seq<Pair>>, bits: set<nat>, hash: Hash, p: Pair, n: nat):
      (seq<seq<Pair>>, set<nat>)
  {
    var b := Home(bits, hash(p.key));
    SplitTimes(PutList(lists, b, WithoutKey(ListAt(lists, b), p.key)), bits, hash, hash(p.key), n)
  }

  lemma {:induction false} SplitTimesMore(lists: seq<seq<Pair>>, bits: set<nat>, hash: Hash, h: nat, n: nat)
    ensures var db := SplitTimes(lists, bits, hash, h, n);
            SplitTimes(lists, bits, hash, h, n + 1) == (SplitLists(db.0, db.1, hash, h), SplitBits(db.1, h))
    decreases n
  {
    hide SplitLists, SplitBits;
    if n > 0 {
      SplitTimesMore(SplitLists(lists, bits, hash, h), SplitBits(bits, h), hash, h, n - 1);
    }
  }

  /** What a round leaves that had no room: the old pair of the key gone, and the page split. */
  ghost function RoundEnd(lists: seq<seq<Pair>>, bits: set<nat>, hash: Hash, p: Pair): (seq<seq<Pair>>, set<nat>) {
    var h := hash(p.key);
    var b := Home(bits, h);
    (SplitLists(PutList(lists, b, WithoutKey(ListAt(lists, b), p.key)), bits, hash, h), SplitBits(bits, h))
  }

  /** What the last round leaves: the pair is the last one of its page. */
  ghost function LastRound(lists: seq<seq<Pair>>, bits: set<nat>, hash: Hash, p: Pair): (seq<seq<Pair>>, set<nat>) {
    var b := Home(bits, hash(p.key));
    (PutList(lists, b, WithoutKey(ListAt(lists, b), p.key) + [p]), bits)
  }

  /** The data base after a store that took `n` splits. */
  ghost function StoreResult(lists: seq<seq<Pair>>, bits: set<nat>, hash: Hash, p: Pair, n: nat):
      (seq<seq<Pair>>, set<nat>)
  {
    var db := StoreRound(lists, bits, hash, p, n);
    var b := Home(db.1, hash(p.key));
    (PutList(db.0, b, ListAt(db.0, b) + [p]), db.1)
  }

  /** Round `n` is the first one with room. */
  ghost predicate FirstRoom(lists: seq<seq<Pair>>, bits: set<nat>, hash: Hash, p: Pair, n: nat) {
    && (forall i {:trigger StoreRound(lists, bits, hash, p, i)} :: 0 <= i < n ==>
          var db := StoreRound(lists, bits, hash, p, i); NoRoom(db.0, db.1, hash, p))
    && var db := StoreRound(lists, bits, hash, p, n); !NoRoom(db.0, db.1, hash, p)
  }

  /** The lists and bits at the beginning of round `n`, of which `n` rounds before had no room. */
  ghost predicate AtRound(l0: seq<seq<Pair>>, b0: set<nat>, hash: Hash, p: Pair, n: nat,
                          lists: seq<seq<Pair>>, bits: set<nat>)
  {
    && (n == 0 ==> lists == l0 && bits == b0)
    && (n > 0 ==> (lists, bits) == StoreRound(l0, b0, hash, p, n) && Home(bits, hash(p.key)) < |lists|)
    && forall i {:trigger StoreRound(l0, b0, hash, p, i)} :: 0 <= i < n ==>
         var db := StoreRound(l0, b0, hash, p, i); NoRoom(db.0, db.1, hash, p)
  }

  /** The lists and bits are those after a store of `p` that took as many splits as it needed, and no more. */
  ghost predicate Placed(l0: seq<seq<Pair>>, b0: set<nat>, hash: Hash, p: Pair, lists: seq<seq<Pair>>, bits: set<nat>) {
    exists n: nat :: FirstRoom(l0, b0, hash, p, n) && (lists, bits) == StoreResult(l0, b0, hash, p, n)
  }

  lemma StartsAt(lists: seq<seq<Pair>>, bits: set<nat>, hash: Hash, p: Pair)
    ensures AtRound(lists, bits, hash, p, 0, lists, bits)
  {
  }

  /** A page without the key, put back, is the page. */
  lemma NothingDropped(lists: seq<seq<Pair>>, bits: set<nat>, hash: Hash, m: Contents, p: Pair)
    requires Denotes(lists, bits, hash, m) && p.key !in m && Home(bits, hash(p.key)) < |lists|
    ensures var b := Home(bits, hash(p.key));
            && WithoutKey(ListAt(lists, b), p.key) == ListAt(lists, b)
            && PutList(lists, b, ListAt(lists, b)) == lists
  {
    WithoutAbsent(lists, bits, hash, m, p.key);
  }

  /** The page of the pair in round `n`, without the old pair of its key. */
  lemma RoundPage(l0: seq<seq<Pair>>, b0: set<nat>, hash: Hash, p: Pair, n: nat, lists: seq<seq<Pair>>, bits: set<nat>,
                  m: Contents)
    requires AtRound(l0, b0, hash, p, n, lists, bits) && Denotes(lists, bits, hash, m) && (n > 0 ==> p.key !in m)
    ensures var db, b := StoreRound(l0, b0, hash, p, n), Home(bits, hash(p.key));
            && db.1 == bits && ListAt(db.0, b) == WithoutKey(ListAt(lists, b), p.key)
            && db.0 == PutList(lists, b, WithoutKey(ListAt(lists, b), p.key))
  {
    hide SplitTimes, WithoutKey;
    if n > 0 {
      NothingDropped(lists, bits, hash, m, p);
    } else {
      var b := Home(b0, hash(p.key));
      SplitNever(PutList(l0, b, WithoutKey(ListAt(l0, b), p.key)), b0, hash, hash(p.key));
    }
  }

  lemma SplitNever(lists: seq<seq<Pair>>, bits: set<nat>, hash: Hash, h: nat)
    ensures SplitTimes(lists, bits, hash, h, 0) == (lists, bits)
  {
  }

  /** A round without room is followed by the next one. */
  lemma RoundFull(l0: seq<seq<Pair>>, b0: set<nat>, hash: Hash, p: Pair, n: nat, lists: seq<seq<Pair>>, bits: set<nat>,
                  m: Contents)
    requires AtRound(l0, b0, hash, p, n, lists, bits) && Denotes(lists, bits, hash, m) && (n > 0 ==> p.key !in m)
    requires PrefixClosed(bits) && !Fits(WithoutKey(ListAt(lists, Home(bits, hash(p.key))), p.key) + [p])
    ensures var db := RoundEnd(lists, bits, hash, p); AtRound(l0, b0, hash, p, n + 1, db.0, db.1)
  {
    hide SplitTimes, WithoutKey, Fits, SplitLists, SplitBits, PrefixClosed, Denotes;
    var h, b := hash(p.key), Home(b0, hash(p.key));
    var start := PutList(l0, b, WithoutKey(ListAt(l0, b), p.key));
    RoundPage(l0, b0, hash, p, n, lists, bits, m);
    SplitTimesMore(start, b0, hash, h, n);
    HomeWritten(PutList(lists, Home(bits, h), WithoutKey(ListAt(lists, Home(bits, h)), p.key)), bits, hash, h);
  }

  lemma HomeWritten(lists: seq<seq<Pair>>, bits: set<nat>, hash: Hash, h: nat)
    requires PrefixClosed(bits)
    ensures Home(SplitBits(bits, h), h) < |SplitLists(lists, bits, hash, h)|
  {
    hide PrefixClosed, Half;
    SplitHome(bits, h, h);
  }

  /** The round with room is the last one. */
  lemma RoundAdded(l0: seq<seq<Pair>>, b0: set<nat>, hash: Hash, p: Pair, n: nat, lists: seq<seq<Pair>>, bits: set<nat>,
                   m: Contents)
    requires AtRound(l0, b0, hash, p, n, lists, bits) && Denotes(lists, bits, hash, m) && (n > 0 ==> p.key !in m)
    requires Fits(WithoutKey(ListAt(lists, Home(bits, hash(p.key))), p.key) + [p])
    ensures var db := LastRound(lists, bits, hash, p); Placed(l0, b0, hash, p, db.0, db.1)
  {
    hide WithoutKey, Fits, Denotes, StoreRound;
    var b := Home(bits, hash(p.key));
    var qs := WithoutKey(ListAt(lists, b), p.key);
    RoundPage(l0, b0, hash, p, n, lists, bits, m);
    PutTwice(lists, b, qs, qs + [p]);
    assert FirstRoom(l0, b0, hash, p, n) && LastRound(lists, bits, hash, p) == StoreResult(l0, b0, hash, p, n);
  }

  /** A round that takes none of the exits of the loop: no such key, no room, and no ENOSPC. */
  ghost predicate SplitsAgain(db: (seq<seq<Pair>>, set<nat>), hash: Hash, p: Pair) {
    && !HasKey(ListAt(db.0, Home(db.1, hash(p.key))), p.key)
    && NoRoom(db.0, db.1, hash, p)
    && |p.key| + |p.val| + 3 * 2 < PBLKSIZ
  }

  /**
   For a pair that fits an empty page, and that dbm_store may write, the loop goes on for ever exactly
   if the pair does not fit on one page with the stored pairs of equal hash.
   */
  lemma StoreNeverEnds(lists: seq<seq<Pair>>, bits: set<nat>, hash: Hash, m: Contents, p: Pair)
    requires Denotes(lists, bits, hash, m) && PrefixClosed(bits) && Fits([p])
    ensures (forall n: nat :: SplitsAgain(StoreRound(lists, bits, hash, p, n), hash, p))
       <==> !RoomFor(m, hash, p)
  {
    RoomDecides(lists, bits, hash, m, p);
    var h := hash(p.key);
    var b := Home(bits, h);
    var qs := WithoutKey(ListAt(lists, b), p.key);
    var start := PutList(lists, b, qs);
    ReducedStart(lists, bits, hash, m, p.key);
    EnospcExact(p);
    if PageRoom(lists, bits, hash, p) {
      var bound := BoundExists(qs, hash, h);
      var n := RoomComes(start, bits, hash, m - {p.key}, p, bound);
      assert !SplitsAgain(StoreRound(lists, bits, hash, p, n), hash, p);
    } else {
      forall n: nat
        ensures SplitsAgain(StoreRound(lists, bits, hash, p, n), hash, p)
      {
        StuckForEver(start, bits, hash, p, n);
        SplitTimesDenote(start, bits, hash, m - {p.key}, h, n);
        var db := SplitTimes(start, bits, hash, h, n);
        SearchDecides(db.0, db.1, hash, m - {p.key}, p.key);
      }
    }
  }

  lemma OnePairDenotes(hash: Hash, p: Pair)
    ensures Denotes([[p]], {}, hash, map[p.key := p.val])
  {
    assert forall h :: Home({}, h) == 0;
    assert ListAt([[p]], 0) == [p];
    assert HasKey([p], p.key) by {
      assert p in [p];
    }
  }

  lemma LargePairsClash(hash: Hash, p: Pair, q: Pair)
    requires |p.key| == |q.key| == 3 && p.key != q.key && |p.val| == |q.val| == 600 && hash(p.key) == hash(q.key)
    ensures Fits([p]) && Fits([q]) && !RoomFor(map[p.key := p.val], hash, q)
  {
    EnospcExact(p);
    EnospcExact(q);
    assert Kin([p], map[p.key := p.val], hash, q.key);
    KinDecides([p], map[p.key := p.val], hash, q);
    TopAppend([p], [q], 1);
    assert [p] + [q] == [p, q] && Top([p, q], 2) == Top([p, q], 1) - Size(q);
    assert Top([p], 1) == Top([p], 0) - Size(p);
  }

  /**
   The keys "aco" and "bbn" have the same hash.  With values of 600 bytes each of them fits a page, but once one is
   stored, storing the other never ends.
   */
  lemma TwoLargePairs(p: Pair, q: Pair)
    requires p.key == [97, 99, 111] && q.key == [98, 98, 110] && |p.val| == |q.val| == 600
    ensures Denotes([[p]], {}, Dcalchash, map[p.key := p.val]) && Fits([p]) && Fits([q])
    ensures forall n: nat :: SplitsAgain(StoreRound([[p]], {}, Dcalchash, q, n), Dcalchash, q)
  {
    assert PrefixClosed({});
    hide *;
    SameHash(p.key, q.key);
    assert p.key[0] != q.key[0];
    OnePairDenotes(Dcalchash, p);
    LargePairsClash(Dcalchash, p, q);
    StoreNeverEnds([[p]], {}, Dcalchash, map[p.key := p.val], q);
  }
}
