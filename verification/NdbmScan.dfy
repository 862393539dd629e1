/** The order in which dbm_firstkey and dbm_nextkey visit the keys of a data base. */
module NdbmScan {
  import opened NdbmPage
  import opened NdbmTrie
  import opened NdbmMap

  /**
   The keys that the scan still visits when it stands at place `i` of page `blk`.  At the end of
   a page the place is reset, but not on a page that is empty.
   */
  function Remaining(lists: seq<seq<Pair>>, blk: nat, i: nat): seq<seq<byte>>
    decreases |lists| - blk, |ListAt(lists, blk)| - i
  {
    if blk >= |lists| then []
    else if i < |ListAt(lists, blk)| then [ListAt(lists, blk)[i].key] + Remaining(lists, blk, i + 1)
    else Remaining(lists, blk + 1, if ListAt(lists, blk) == [] then i else 0)
  }

  lemma RemainingStep(lists: seq<seq<Pair>>, blk: nat, i: nat)
    ensures var ks := Remaining(lists, blk, i);
            if i < |ListAt(lists, blk)|
            then ks != [] && ks[0] == ListAt(lists, blk)[i].key && ks[1..] == Remaining(lists, blk, i + 1)
            else ks == Remaining(lists, blk + 1, if ListAt(lists, blk) == [] then i else 0)
  {
  }

  ghost predicate Ahead(lists: seq<seq<Pair>>, blk: nat, i: nat, b: nat, j: nat, k: seq<byte>) {
    && (b > blk || (b == blk && j >= i))
    && j < |ListAt(lists, b)| && ListAt(lists, b)[j].key == k
  }

  lemma {:induction false} RemainingFinds(lists: seq<seq<Pair>>, blk: nat, i: nat, k: seq<byte>)
    returns (b: nat, j: nat)
    requires k in Remaining(lists, blk, i)
    ensures Ahead(lists, blk, i, b, j, k)
    decreases |lists| - blk, |ListAt(lists, blk)| - i
  {
    if i < |ListAt(lists, blk)| {
      if ListAt(lists, blk)[i].key == k {
        return blk, i;
      }
      b, j := RemainingFinds(lists, blk, i + 1, k);
    } else {
      b, j := RemainingFinds(lists, blk + 1, if ListAt(lists, blk) == [] then i else 0, k);
    }
  }

  lemma {:induction false} RemainingHas(lists: seq<seq<Pair>>, blk: nat, i: nat, b: nat, j: nat)
    requires j < |ListAt(lists, b)| && Ahead(lists, blk, i, b, j, ListAt(lists, b)[j].key)
    requires i == 0 || ListAt(lists, blk) != []
    ensures ListAt(lists, b)[j].key in Remaining(lists, blk, i)
    decreases |lists| - blk, |ListAt(lists, blk)| - i
  {
    if i < |ListAt(lists, blk)| {
      if blk != b || i != j {
        RemainingHas(lists, blk, i + 1, b, j);
      }
    } else {
      RemainingHas(lists, blk + 1, 0, b, j);
    }
  }

  lemma {:induction false} RemainingOnce(lists: seq<seq<Pair>>, bits: set<nat>, hash: Hash, m: Contents, blk: nat,
                                         i: nat)
    requires Denotes(lists, bits, hash, m)
    ensures forall a, c :: 0 <= a < c < |Remaining(lists, blk, i)| ==>
              Remaining(lists, blk, i)[a] != Remaining(lists, blk, i)[c]
    decreases |lists| - blk, |ListAt(lists, blk)| - i
  {
    if blk < |lists| {
      var ps := ListAt(lists, blk);
      assert Distinct(ListAt(lists, blk));
      if i < |ps| {
        RemainingOnce(lists, bits, hash, m, blk, i + 1);
        var rest := Remaining(lists, blk, i + 1);
        if ps[i].key in rest {
          var b, j := RemainingFinds(lists, blk, i + 1, ps[i].key);
          assert ps[i] in ps && ListAt(lists, b)[j] in ListAt(lists, b);
          KeyOnOnePage(lists, bits, hash, m, blk, b, ps[i], ListAt(lists, b)[j]);
        }
      } else {
        RemainingOnce(lists, bits, hash, m, blk + 1, if ps == [] then i else 0);
      }
    }
  }

  /** `ks` lists every key of `m`, and each one exactly once. */
  ghost predicate EachOnce(ks: seq<seq<byte>>, m: Contents) {
    && (forall k :: k in ks <==> k in m)
    && (forall a, c :: 0 <= a < c < |ks| ==> ks[a] != ks[c])
  }

  lemma EachStored(ks: seq<seq<byte>>, m: Contents, i: nat)
    requires EachOnce(ks, m) && i < |ks|
    ensures ks[i] in m
  {
    assert ks[i] in ks;
  }

  /** A scan from the start visits every key of the map, and each one exactly once. */
  lemma ScanVisitsAll(lists: seq<seq<Pair>>, bits: set<nat>, hash: Hash, m: Contents)
    requires Denotes(lists, bits, hash, m)
    ensures EachOnce(Remaining(lists, 0, 0), m)
  {
    RemainingOnce(lists, bits, hash, m, 0, 0);
    forall k
      ensures k in Remaining(lists, 0, 0) <==> k in m
    {
      if k in Remaining(lists, 0, 0) {
        var b, j := RemainingFinds(lists, 0, 0, k);
        assert ListAt(lists, b)[j] in ListAt(lists, b);
        assert Belongs(ListAt(lists, b)[j], b, bits, hash, m);
      }
      if k in m {
        var b := Home(bits, hash(k));
        assert HasKey(ListAt(lists, Home(bits, hash(k))), k);
        var p :| p in ListAt(lists, b) && p.key == k;
        var j :| 0 <= j < |ListAt(lists, b)| && ListAt(lists, b)[j] == p;
        RemainingHas(lists, 0, 0, b, j);
      }
    }
  }

  // ----- a scan with deletions between its calls -----

  /** The page that the scan really stands on: it runs over empty pages without resetting its place. */
  function StandsOn(lists: seq<seq<Pair>>, blk: nat): (s: nat)
    ensures s >= blk && (s < |lists| ==> ListAt(lists, s) != [])
    ensures forall i :: blk <= i < s ==> ListAt(lists, i) == []
    decreases |lists| - blk
  {
    if blk < |lists| && ListAt(lists, blk) == [] then StandsOn(lists, blk + 1) else blk
  }

  lemma {:induction false} StandsOnVisits(lists: seq<seq<Pair>>, blk: nat, i: nat)
    ensures Remaining(lists, blk, i) == Remaining(lists, StandsOn(lists, blk), i)
    decreases |lists| - blk
  {
    if blk < |lists| && ListAt(lists, blk) == [] {
      StandsOnVisits(lists, blk + 1, i);
    }
  }

  /** The lists after pair `j` of page `b` was deleted. */
  function Dropped(lists: seq<seq<Pair>>, b: nat, j: nat): seq<seq<Pair>>
    requires j < |ListAt(lists, b)|
  {
    PutList(lists, b, Without(ListAt(lists, b), j))
  }

  /** All keys of `ks` but `x` are still to be visited. */
  ghost predicate Spares(ks: seq<seq<byte>>, ks': seq<seq<byte>>, x: seq<byte>) {
    forall k :: k in ks && k != x ==> k in ks'
  }

  /**
   When does a deletion of pair `j` of page `b` take no other key from a scan at place `i` of page `blk`?
   When it is on another page, or still ahead; when its page was done and is not emptied; or when
   its page is emptied and no later page holds a pair.
   */
  ghost predicate Harmless(lists: seq<seq<Pair>>, blk: nat, i: nat, b: nat, j: nat) {
    var s := StandsOn(lists, blk);
    || b != s
    || j >= i
    || (if |ListAt(lists, s)| > 1 then i >= |ListAt(lists, s)| else StandsOn(lists, s + 1) >= |lists|)
  }

  /** The place of pair `c` of page `a` after pair `j` of page `b` was deleted. */
  function Shifted(b: nat, j: nat, a: nat, c: nat): nat {
    if a == b && c > j then c - 1 else c
  }

  lemma DroppedAt(lists: seq<seq<Pair>>, b: nat, j: nat, a: nat, c: nat)
    requires j < |ListAt(lists, b)| && c < |ListAt(lists, a)| && (a != b || c != j)
    ensures var e := Shifted(b, j, a, c);
            e < |ListAt(Dropped(lists, b, j), a)| && ListAt(Dropped(lists, b, j), a)[e] == ListAt(lists, a)[c]
  {
  }

  /** Where a pair that is left stood before, and that it is not the one deleted. */
  lemma DroppedFrom(lists: seq<seq<Pair>>, bits: set<nat>, hash: Hash, m: Contents, b: nat, j: nat, a: nat, e: nat)
    returns (c: nat)
    requires Denotes(lists, bits, hash, m) && j < |ListAt(lists, b)| && e < |ListAt(Dropped(lists, b, j), a)|
    ensures c < |ListAt(lists, a)| && e == Shifted(b, j, a, c) && (a != b || c != j)
    ensures ListAt(lists, a)[c] == ListAt(Dropped(lists, b, j), a)[e]
    ensures ListAt(lists, a)[c].key != ListAt(lists, b)[j].key
  {
    c := if a == b && e >= j then e + 1 else e;
    DroppedAt(lists, b, j, a, c);
    if ListAt(lists, a)[c].key == ListAt(lists, b)[j].key {
      SamePlace(lists, bits, hash, m, a, c, b, j);
    }
  }

  /** A key has one place only. */
  lemma SamePlace(lists: seq<seq<Pair>>, bits: set<nat>, hash: Hash, m: Contents, a: nat, c: nat, b: nat, j: nat)
    requires Denotes(lists, bits, hash, m) && c < |ListAt(lists, a)| && j < |ListAt(lists, b)|
    requires ListAt(lists, a)[c].key == ListAt(lists, b)[j].key
    ensures a == b && c == j
  {
    assert ListAt(lists, a)[c] in ListAt(lists, a) && ListAt(lists, b)[j] in ListAt(lists, b);
    KeyOnOnePage(lists, bits, hash, m, a, b, ListAt(lists, a)[c], ListAt(lists, b)[j]);
    assert Distinct(ListAt(lists, a));
  }

  /** A deletion makes no key come twice: whatever is visited after it would have been visited without it. */
  lemma NeverTwice(lists: seq<seq<Pair>>, bits: set<nat>, hash: Hash, m: Contents, blk: nat, i: nat, b: nat, j: nat,
                   k: seq<byte>)
    requires Denotes(lists, bits, hash, m) && j < |ListAt(lists, b)|
    requires k in Remaining(Dropped(lists, b, j), blk, i)
    ensures k in Remaining(lists, blk, i) && k != ListAt(lists, b)[j].key
  {
    var s, r := StandsOn(lists, blk), Dropped(lists, b, j);
    StandsOnVisits(r, blk, i);
    var a, e := RemainingFinds(r, StandsOn(r, blk), i, k);
    var c := DroppedFrom(lists, bits, hash, m, b, j, a, e);
    StandsOnVisits(lists, blk, i);
    assert ListAt(lists, a) != [] && a >= s;
    RemainingHas(lists, s, i, a, c);
  }

  /** The keys that a harmless deletion leaves to be visited. */
  lemma HarmlessSpares(lists: seq<seq<Pair>>, bits: set<nat>, hash: Hash, m: Contents, blk: nat, i: nat, b: nat, j: nat,
                       k: seq<byte>)
    requires Denotes(lists, bits, hash, m) && j < |ListAt(lists, b)| && Harmless(lists, blk, i, b, j)
    requires k in Remaining(lists, blk, i) && k != ListAt(lists, b)[j].key
    ensures k in Remaining(Dropped(lists, b, j), blk, i)
  {
    var s, r := StandsOn(lists, blk), Dropped(lists, b, j);
    StandsOnVisits(lists, blk, i);
    var a, c := RemainingFinds(lists, s, i, k);
    DroppedAt(lists, b, j, a, c);
    StandsOnVisits(r, blk, i);
    var s' := StandsOn(r, blk);
    assert ListAt(r, a) != [] && a >= s';
    if b == s && |ListAt(lists, s)| == 1 {
      assert a > s && i == 0;
    } else {
      assert ListAt(r, s) != [];
      assert s' <= s;
    }
    RemainingHas(r, s', i, a, Shifted(b, j, a, c));
  }

  /** The key that any other deletion takes away: the one that moves down into the place already passed. */
  lemma HarmfulLoses(lists: seq<seq<Pair>>, bits: set<nat>, hash: Hash, m: Contents, blk: nat, i: nat, b: nat, j: nat)
    returns (k: seq<byte>)
    requires Denotes(lists, bits, hash, m) && j < |ListAt(lists, b)| && !Harmless(lists, blk, i, b, j)
    ensures k in Remaining(lists, blk, i) && k != ListAt(lists, b)[j].key
    ensures k !in Remaining(Dropped(lists, b, j), blk, i)
  {
    var s, r := StandsOn(lists, blk), Dropped(lists, b, j);
    var a, c := b, i;
    if |ListAt(lists, s)| == 1 {
      a, c := StandsOn(lists, s + 1), 0;
    }
    k := ListAt(lists, a)[c].key;
    StandsOnVisits(lists, blk, i);
    RemainingHas(lists, s, i, a, c);
    StandsOnVisits(r, blk, i);
    if k in Remaining(r, blk, i) {
      var a', e := RemainingFinds(r, StandsOn(r, blk), i, k);
      var c' := DroppedFrom(lists, bits, hash, m, b, j, a', e);
      SamePlace(lists, bits, hash, m, a', c', a, c);
    }
    if k == ListAt(lists, b)[j].key {
      SamePlace(lists, bits, hash, m, a, c, b, j);
    }
  }

  /**
   A deletion between two calls of dbm_nextkey makes no key come twice, and it takes no other key
   from the scan exactly if it is harmless.
   */
  lemma DeleteDuringScan(lists: seq<seq<Pair>>, bits: set<nat>, hash: Hash, m: Contents, blk: nat, i: nat, b: nat,
                         j: nat)
    requires Denotes(lists, bits, hash, m) && j < |ListAt(lists, b)|
    ensures var ks, ks' := Remaining(lists, blk, i), Remaining(Dropped(lists, b, j), blk, i);
            var x := ListAt(lists, b)[j].key;
            && (forall k :: k in ks' ==> k in ks && k != x)
            && (Spares(ks, ks', x) <==> Harmless(lists, blk, i, b, j))
  {
    forall k | k in Remaining(Dropped(lists, b, j), blk, i) {
      NeverTwice(lists, bits, hash, m, blk, i, b, j, k);
    }
    if Harmless(lists, blk, i, b, j) {
      forall k | k in Remaining(lists, blk, i) && k != ListAt(lists, b)[j].key {
        HarmlessSpares(lists, bits, hash, m, blk, i, b, j, k);
      }
    } else {
      var k := HarmfulLoses(lists, bits, hash, m, blk, i, b, j);
    }
  }

  /**
   In a scan that has just returned the key of pair `j` of page `blk`, deleting that key is harmless
   exactly if it was the last of several on its page, or the last of all.
   */
  lemma DeleteWhatCame(lists: seq<seq<Pair>>, bits: set<nat>, hash: Hash, m: Contents, blk: nat, j: nat)
    requires Denotes(lists, bits, hash, m) && j < |ListAt(lists, blk)|
    ensures var n, x := |ListAt(lists, blk)|, ListAt(lists, blk)[j].key;
            Spares(Remaining(lists, blk, j + 1), Remaining(Dropped(lists, blk, j), blk, j + 1), x)
            <==> j == n - 1 && (n > 1 || Remaining(lists, blk, j + 1) == [])
  {
    var s := StandsOn(lists, blk + 1);
    DeleteDuringScan(lists, bits, hash, m, blk, j + 1, blk, j);
    assert StandsOn(lists, blk) == blk;
    if j == |ListAt(lists, blk)| - 1 {
      RemainingStep(lists, blk, j + 1);
      StandsOnVisits(lists, blk + 1, 0);
      RemainingStep(lists, s, 0);
    }
  }

  lemma OnePageScan(p: Pair, q: Pair, r: Pair)
    ensures Remaining([[p, q, r]], 0, 0) == [p.key, q.key, r.key]
    ensures Remaining([[p, q, r]], 0, 1) == [q.key, r.key]
    ensures Remaining(Dropped([[p, q, r]], 0, 0), 0, 1) == [r.key]
  {
    var lists := [[p, q, r]];
    assert Remaining(lists, 0, 3) == Remaining(lists, 1, 0);
    assert Remaining(lists, 0, 2) == [r.key] + Remaining(lists, 0, 3);
    assert Without([p, q, r], 0) == [q, r];
    assert lists[0 := [q, r]] == [[q, r]];
    assert Remaining([[q, r]], 0, 2) == Remaining([[q, r]], 1, 0);
  }

  lemma OnePageDenotes(hash: Hash, p: Pair, q: Pair, r: Pair)
    requires p.key != q.key && q.key != r.key && p.key != r.key
    ensures Denotes([[p, q, r]], {}, hash, map[p.key := p.val, q.key := q.val, r.key := r.val])
  {
    var ps := [p, q, r];
    assert forall h :: Home({}, h) == 0;
    assert p in ps && q in ps && r in ps && ListAt([ps], 0) == ps;
    forall k | k == p.key || k == q.key || k == r.key
      ensures HasKey(ListAt([ps], Home({}, hash(k))), k)
    {
    }
  }

  /** Three keys on one page: the first comes, is deleted, and then the second never comes. */
  lemma DeletionLosesKey(hash: Hash)
    ensures var lists := [[Pair([1], []), Pair([2], []), Pair([3], [])]];
            && Denotes(lists, {}, hash, map[[1] := [], [2] := [], [3] := []])
            && Remaining(lists, 0, 0) == [[1], [2], [3]]
            && Remaining(lists, 0, 1) == [[2], [3]]
            && Remaining(Dropped(lists, 0, 0), 0, 1) == [[3]]
  {
    var p, q, r := Pair([1], []), Pair([2], []), Pair([3], []);
    assert p.key[0] != q.key[0] && q.key[0] != r.key[0] && p.key[0] != r.key[0];
    OnePageDenotes(hash, p, q, r);
    OnePageScan(p, q, r);
  }
}
