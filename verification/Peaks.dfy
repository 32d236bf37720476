/** Peak hashes (section 5.6 of RFC 7574): which nodes a seeder sends, and what a peer that knows
    nothing but the root hash makes of them. */
module Peaks {
  import opened Bits
  import opened Bytes
  import opened Dyadic
  import opened Merkle
  import opened Paths
  import opened Verification
  import opened Completeness

  // ------------------------------------------------------------------- reference definition

  datatype Range = Range(start: nat, size: nat)

  /** The maximal ranges inside [start, start+size) that hold no padding, from left to right. */
  function Cover(start: nat, size: nat, n: nat): seq<Range>
    decreases size
  {
    if n <= start then []
    else if start + size <= n then [Range(start, size)]
    else if size <= 1 then []
    else Cover(start, size / 2, n) + Cover(start + size / 2, size / 2, n)
  }

  function Nodes(rs: seq<Range>): set<int> {
    set r | r in rs :: Index(r.start, r.size)
  }

  /** The ranges follow each other without gap or overlap from `start` to `end`. */
  predicate Tiles(rs: seq<Range>, start: nat, end: nat) {
    if rs == [] then start == end
    else rs[0].start == start && rs[0].size > 0 && Tiles(rs[1..], start + rs[0].size, end)
  }

  predicate Shrinking(rs: seq<Range>) {
    forall i, j | 0 <= i < j < |rs| :: rs[i].size > rs[j].size
  }

  lemma {:induction false} TilesJoin(a: seq<Range>, b: seq<Range>, start: nat, mid: nat, end: nat)
    requires Tiles(a, start, mid) && Tiles(b, mid, end)
    ensures Tiles(a + b, start, end)
  {
    if a == [] {
      assert a + b == b;
    } else {
      assert (a + b)[1..] == a[1..] + b;
      TilesJoin(a[1..], b, start + a[0].size, mid, end);
    }
  }

  /** The cover tiles the chunks, its ranges are dyadic and no larger than the whole. */
  lemma {:induction false} CoverTiles(start: nat, size: nat, n: nat)
    requires IsDyadic(start, size)
    ensures Tiles(Cover(start, size, n), start, if n <= start then start else if n <= start + size then n else start + size)
    ensures forall i | 0 <= i < |Cover(start, size, n)| ::
              && IsDyadic(Cover(start, size, n)[i].start, Cover(start, size, n)[i].size)
              && 0 < Cover(start, size, n)[i].size <= size
              && Cover(start, size, n)[i].start + Cover(start, size, n)[i].size <= n
              && start <= Cover(start, size, n)[i].start
              && Cover(start, size, n)[i].start + Cover(start, size, n)[i].size <= start + size
    decreases size
  {
    if start < n < start + size && size > 1 {
      var h := size / 2;
      DyadicSize(start, size);
      assert 2 * h == size;
      ChildrenOf(start, h);
      CoverTiles(start, h, n);
      CoverTiles(start + h, h, n);
      if n <= start + h {
        assert Cover(start + h, h, n) == [];
        TilesJoin(Cover(start, h, n), [], start, n, n);
      } else {
        TilesJoin(Cover(start, h, n), Cover(start + h, h, n), start, start + h, n);
      }
    } else if start + size <= n {
      assert Tiles([], start + size, start + size);
    }
  }

  /** The sizes strictly decrease, so every power of two occurs at most once. */
  lemma {:induction false} CoverShrinks(start: nat, size: nat, n: nat)
    requires IsDyadic(start, size)
    ensures Shrinking(Cover(start, size, n))
    ensures n < start + size ==> forall i | 0 <= i < |Cover(start, size, n)| :: Cover(start, size, n)[i].size < size
    decreases size
  {
    if start < n < start + size && size > 1 {
      var h := size / 2;
      DyadicSize(start, size);
      assert 2 * h == size;
      ChildrenOf(start, h);
      CoverShrinks(start, h, n);
      CoverShrinks(start + h, h, n);
      CoverTiles(start, h, n);
      CoverTiles(start + h, h, n);
      var a, b := Cover(start, h, n), Cover(start + h, h, n);
      if n > start + h {
        assert a == [Range(start, h)];
      } else {
        assert b == [];
      }
      assert Cover(start, size, n) == a + b;
    }
  }

  lemma {:induction false} PopCountStep(m: nat, h: nat)
    requires PowerOfTwo(h) && h <= m < 2 * h
    ensures PopCount(m) == 1 + PopCount(m - h)
  {
    if h > 1 {
      PopCountStep(m / 2, h / 2);
      assert (m - h) / 2 == m / 2 - h / 2;
    } else {
      assert m == 1 && PopCount(1) == PopCount(0) + 1;
    }
  }

  lemma {:induction false} PopCountOfPower(p: nat)
    requires PowerOfTwo(p)
    ensures PopCount(p) == 1
  {
    if p > 1 { PopCountOfPower(p / 2); } else { assert PopCount(1) == PopCount(0) + 1; }
  }

  /** There are as many peaks as one-bits in the chunk count. */
  lemma {:induction false} CoverCount(start: nat, size: nat, n: nat)
    requires IsDyadic(start, size) && start <= n <= start + size
    ensures |Cover(start, size, n)| == PopCount(n - start)
    decreases size
  {
    DyadicSize(start, size);
    if n == start + size {
      PopCountOfPower(size);
    } else if n > start && size > 1 {
      var h := size / 2;
      assert 2 * h == size;
      ChildrenOf(start, h);
      if n <= start + h {
        CoverCount(start, h, n);
        assert Cover(start + h, h, n) == [];
      } else {
        CoverCount(start + h, h, n);
        PopCountStep(n - start, h);
        assert Cover(start, h, n) == [Range(start, h)];
      }
    }
  }

  // ----------------------------------------------------------------------- the upward walk

  /** The peaks met when walking to the root from a range that ends with or after chunk n-1. */
  function Climb(leaves: nat, n: nat, start: nat, size: nat): set<int>
    requires size >= 1
    decreases leaves - size
  {
    if size >= leaves then {}
    else
      (if start + size == n && start < SiblingStart(start, size) then {Index(start, size)}
       else if start + size > n && SiblingStart(start, size) < start then {SiblingIndex(start, size)}
       else {})
      + Climb(leaves, n, ParentStart(start, size), 2 * size)
  }

  lemma NodesJoin(a: seq<Range>, b: seq<Range>)
    ensures Nodes(a + b) == Nodes(a) + Nodes(b)
  {
    forall r ensures r in a + b <==> r in a || r in b {
    }
  }

  lemma CoverOfParent(start: nat, size: nat, n: nat)
    requires IsDyadic(start, 2 * size) && size > 0 && start < n < start + 2 * size
    ensures Nodes(Cover(start, 2 * size, n)) ==
            if n <= start + size then Nodes(Cover(start, size, n))
            else {Index(start, size)} + Nodes(Cover(start + size, size, n))
  {
    NodesJoin(Cover(start, size, n), Cover(start + size, size, n));
    assert (2 * size) / 2 == size;
    assert Cover(start, 2 * size, n) == Cover(start, size, n) + Cover(start + size, size, n);
    if n <= start + size {
      assert Nodes([]) == {};
    } else {
      assert Cover(start, size, n) == [Range(start, size)];
      assert Nodes([Range(start, size)]) == {Index(start, size)};
    }
  }

  /** The walk up from any range around chunk n-1 collects the cover of the whole tree. */
  lemma {:induction false} ClimbFindsCover(leaves: nat, n: nat, start: nat, size: nat)
    requires IsDyadic(start, size) && PowerOfTwo(leaves) && start + size <= leaves && start < n <= start + size && n < leaves
    ensures Nodes(Cover(0, leaves, n))
         == Climb(leaves, n, start, size) + (if start + size > n then Nodes(Cover(start, size, n)) else {})
    decreases leaves - size
  {
    hide IsRightHalf, Nodes, Cover;
    if size >= leaves {
      AtRoot(leaves, start, size);
    } else {
      OneUp(leaves, start, size);
      var p := ParentStart(start, size);
      ClimbFindsCover(leaves, n, p, 2 * size);
      if p + 2 * size > n {
        CoverOfParent(p, size, n);
      }
      CoverWhole(start, size, n);
    }
  }

  lemma CoverWhole(start: nat, size: nat, n: nat)
    requires start < n && size > 0
    ensures start + size == n ==> Nodes(Cover(start, size, n)) == {Index(start, size)}
  {
    if start + size == n {
      assert Cover(start, size, n) == [Range(start, size)];
    }
  }

  /** Peaks are exactly the ranges without padding whose parent has some. */
  lemma {:induction false} CoverIsMaximal(start: nat, size: nat, n: nat, s: nat, z: nat)
    requires IsDyadic(start, size) && IsDyadic(s, z)
    requires start <= s && s + z <= start + size && n < start + size
    ensures Range(s, z) in Cover(start, size, n) <==> s + z <= n && ParentStart(s, z) + 2 * z > n
    decreases size
  {
    hide IsRightHalf;
    SiblingFacts(s, z);
    DyadicSize(start, size);
    DyadicSize(s, z);
    if start < n && size > 1 {
      var h := size / 2;
      assert 2 * h == size;
      ChildrenOf(start, h);
      CoverShrinks(start, size, n);
      if z == size {
        assert s == start;
      } else {
        PowersAreSparse(z, size);
        HalfOf(start, h, s, z);
        CoverTiles(start, h, n);
        CoverTiles(start + h, h, n);
        if s + z <= start + h {
          if n < start + h { CoverIsMaximal(start, h, n, s, z); }
          else if z == h { WholeHalf(start, h); }
          else { HalfOfParent(start, h, s, z); }
        } else {
          CoverIsMaximal(start + h, h, n, s, z);
        }
      }
    }
  }

  /** A smaller dyadic range inside [start, start + 2h) lies in one of the halves. */
  lemma HalfOf(start: nat, h: nat, s: nat, z: nat)
    requires IsDyadic(start, 2 * h) && IsDyadic(s, z) && z <= h && PowerOfTwo(h) && start <= s && s + z <= start + 2 * h
    ensures s + z <= start + h || start + h <= s
  {
    ChildrenOf(start, h);
    DyadicSize(s, z);
    if s < start + h {
      Coarser(start + h, h, z);
      Separated(s, start + h, z);
    }
  }

  lemma {:induction false} Coarser(start: nat, size: nat, z: nat)
    requires IsDyadic(start, size) && PowerOfTwo(z) && z <= size
    ensures IsDyadic(start, z)
    decreases z
  {
    if z > 1 { Coarser(start / 2, size / 2, z / 2); }
  }

  lemma WholeHalf(start: nat, h: nat)
    requires IsDyadic(start, 2 * h) && h > 0
    ensures IsDyadic(start, h) && ParentStart(start, h) == start
  {
    ChildrenOf(start, h);
    SiblingFacts(start, h);
  }

  lemma HalfOfParent(start: nat, h: nat, s: nat, z: nat)
    requires IsDyadic(start, h) && IsDyadic(s, z) && z < h && PowerOfTwo(h) && start <= s && s + z <= start + h
    ensures ParentStart(s, z) + 2 * z <= start + h
  {
    hide IsRightHalf, IsDyadic, PowerOfTwo;
    SiblingFacts(s, z);
    DyadicSize(s, z);
    PowersAreSparse(z, h);
    DyadicSize(ParentStart(s, z), 2 * z);
    Coarser(start, h, 2 * z);
    NextOf(start, h);
    Coarser(start + h, h, 2 * z);
    if ParentStart(s, z) < start { Separated(ParentStart(s, z), start, 2 * z); }
    Separated(ParentStart(s, z), start + h, 2 * z);
  }
}
