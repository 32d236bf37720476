/** One call of SetHave with any range on any list, in terms of the ranges: which of them change, and where
    the prefix pointer ends up. */
module Prefixes {
  import opened RangeLists

  /** The least range that spans both. */
  function Hull(r: ChunkRange, s: ChunkRange): ChunkRange {
    ChunkRange(if r.start < s.start then r.start else s.start, if r.end > s.end then r.end else s.end)
  }

  /** r ends within h or just before it, but not where h ends or later; or it begins just behind h. */
  predicate Reaches(r: ChunkRange, h: ChunkRange) {
    h.start <= r.end + 1 <= h.end || r.start == h.end + 1
  }

  /** Range j is the first that overlaps or touches the new one. */
  predicate FirstNear(rs: seq<ChunkRange>, n: ChunkRange, j: nat) {
    j < |rs| && !Apart(rs[j], n) && forall i | 0 <= i < j :: Apart(rs[i], n)
  }

  lemma StopsNear(r: ChunkRange, a: nat, b: nat)
    requires r.start <= r.end && a <= b
    ensures Stops(r, a, b) <==> !Apart(r, ChunkRange(a, b))
    ensures Stops(r, a, b) && !Covers(r, a, b) ==> Grown(r, a, b) == Hull(r, ChunkRange(a, b))
  {
  }

  lemma JoinsReaches(r: ChunkRange, h: ChunkRange)
    requires r.start <= r.end && h.start <= h.end
    ensures Joins(r, h) <==> Reaches(r, h)
    ensures Joins(r, h) && r.start <= h.start ==> Joined(r, h) == Hull(r, h)
    ensures Joins(r, h) && r.start > h.end ==> Joined(r, h) == Hull(r, h)
    ensures Joins(r, h) && h.start < r.start <= h.end ==> Joined(r, h) == ChunkRange(r.start, h.end)
  {
  }

  lemma FirstNearIs(rs: seq<ChunkRange>, a: nat, b: nat, j: nat)
    requires WellFormed(rs) && a <= b && FirstNear(rs, ChunkRange(a, b), j)
    ensures FirstStop(rs, a, b) == j
  {
    hide Apart, Stops;
    forall i | 0 <= i < |rs| ensures Stops(rs[i], a, b) <==> !Apart(rs[i], ChunkRange(a, b)) {
      StopsNear(rs[i], a, b);
    }
  }

  /** A range apart from all others is put at the end, and the pointer stays, wherever it begins. */
  lemma PushedRange(l: Listed, a: nat, b: nat)
    requires WellFormed(l.ranges) && a <= b
    requires forall i | 0 <= i < |l.ranges| :: Apart(l.ranges[i], ChunkRange(a, b))
    ensures Insert(l, a, b) == Listed(l.ranges + [ChunkRange(a, b)], l.cp)
  {
    hide Apart, Stops;
    forall i | 0 <= i < |l.ranges| ensures !Stops(l.ranges[i], a, b) {
      StopsNear(l.ranges[i], a, b);
    }
    assert FirstStop(l.ranges, a, b) == |l.ranges|;
  }

  /** A range that the first near one covers changes nothing. */
  lemma CoveredRange(l: Listed, a: nat, b: nat, j: nat)
    requires WellFormed(l.ranges) && a <= b && FirstNear(l.ranges, ChunkRange(a, b), j)
    requires l.ranges[j].start <= a && b <= l.ranges[j].end
    ensures Insert(l, a, b) == l
  {
    FirstNearIs(l.ranges, a, b, j);
  }

  /** Otherwise the first near range grows. If no other range reaches it, that is all; the pointer is its
      end if it starts at 0, else it stays. */
  lemma GrownRange(l: Listed, a: nat, b: nat, j: nat)
    requires WellFormed(l.ranges) && a <= b && FirstNear(l.ranges, ChunkRange(a, b), j)
    requires !(l.ranges[j].start <= a && b <= l.ranges[j].end)
    requires var h := Hull(l.ranges[j], ChunkRange(a, b)); forall i | 0 <= i < |l.ranges| && i != j :: !Reaches(l.ranges[i], h)
    ensures var h := Hull(l.ranges[j], ChunkRange(a, b));
            Insert(l, a, b) == Listed(l.ranges[j := h], if h.start == 0 then h.end else l.cp)
  {
    hide Joins, Reaches;
    var rs, h := l.ranges, Hull(l.ranges[j], ChunkRange(a, b));
    FirstNearIs(rs, a, b, j);
    StopsNear(rs[j], a, b);
    NotItself(h);
    var u := rs[j := h];
    forall i | 0 <= i < |u| ensures !Joins(u[i], h) {
      if i != j { JoinsReaches(rs[i], h); }
    }
    assert FirstJoin(u, h) == |rs|;
  }

  /** If another range reaches it, the first that does takes its place, grown over it, and the pointer is
      the end of the joined range if that starts at 0. A range strictly inside grows to the right only; the
      chunks before it are lost, and the pointer may then point to a range that is not listed. */
  lemma JoinedRange(l: Listed, a: nat, b: nat, j: nat, k: nat)
    requires WellFormed(l.ranges) && a <= b && FirstNear(l.ranges, ChunkRange(a, b), j)
    requires !(l.ranges[j].start <= a && b <= l.ranges[j].end)
    requires k < |l.ranges| && k != j
    requires var h := Hull(l.ranges[j], ChunkRange(a, b));
             Reaches(l.ranges[k], h) && forall i | 0 <= i < k && i != j :: !Reaches(l.ranges[i], h)
    ensures var rs, h := l.ranges, Hull(l.ranges[j], ChunkRange(a, b));
            var inside := h.start < rs[k].start <= h.end;
            var m := if inside then ChunkRange(rs[k].start, h.end) else Hull(rs[k], h);
            && Insert(l, a, b).ranges == Without(rs[j := h][k := m], j)
            && Insert(l, a, b).cp == (if inside then if h.start == 0 then h.end else l.cp
                                      else if m.start > 0 then l.cp
                                      else if h.start == 0 || l.cp < m.end then m.end
                                      else l.cp)
  {
    hide Without;
    var rs, h := l.ranges, Hull(l.ranges[j], ChunkRange(a, b));
    FirstNearIs(rs, a, b, j);
    StopsNear(rs[j], a, b);
    NotItself(h);
    FirstJoinAt(rs, j, h, k);
    JoinsReaches(rs[k], h);
  }

  lemma FirstJoinAt(rs: seq<ChunkRange>, j: nat, h: ChunkRange, k: nat)
    requires WellFormed(rs) && j < |rs| && k < |rs| && k != j && h.start <= h.end
    requires Reaches(rs[k], h) && forall i | 0 <= i < k && i != j :: !Reaches(rs[i], h)
    ensures FirstJoin(rs[j := h], h) == k
  {
    hide Joins, Reaches;
    NotItself(h);
    var u := rs[j := h];
    forall i | 0 <= i <= k ensures Joins(u[i], h) <==> i == k {
      if i != j { JoinsReaches(rs[i], h); }
    }
    var f := FirstJoin(u, h);
    assert Joins(u[k], h) && (f < |u| ==> Joins(u[f], h));
  }

  /** The call changes a listed range. */
  predicate Changes(rs: seq<ChunkRange>, n: ChunkRange) {
    exists j :: 0 <= j < |rs| && FirstNear(rs, n, j) && !(rs[j].start <= n.start && n.end <= rs[j].end)
  }

  /** The pointer moves only when a listed range changes. */
  lemma PointerMoves(l: Listed, a: nat, b: nat)
    requires WellFormed(l.ranges) && a <= b
    ensures Insert(l, a, b).cp != l.cp ==> Changes(l.ranges, ChunkRange(a, b))
    ensures Changes(l.ranges, ChunkRange(a, b)) || Insert(l, a, b) == l || Insert(l, a, b).ranges == l.ranges + [ChunkRange(a, b)]
  {
    hide Apart, Insert;
    var rs, n := l.ranges, ChunkRange(a, b);
    if forall i | 0 <= i < |rs| :: Apart(rs[i], n) {
      PushedRange(l, a, b);
    } else {
      var j := FirstNearExists(rs, n);
      if rs[j].start <= a && b <= rs[j].end {
        CoveredRange(l, a, b, j);
      }
    }
  }

  lemma {:induction false} FirstNearExists(rs: seq<ChunkRange>, n: ChunkRange) returns (j: nat)
    requires !forall i | 0 <= i < |rs| :: Apart(rs[i], n)
    ensures FirstNear(rs, n, j)
    decreases |rs|
  {
    hide Apart;
    if !Apart(rs[0], n) {
      j := 0;
    } else {
      var i :| 0 <= i < |rs| && !Apart(rs[i], n);
      assert rs[1..][i - 1] == rs[i];
      var k := FirstNearExists(rs[1..], n);
      j := k + 1;
      forall i | 0 <= i < j ensures Apart(rs[i], n) {
        if i > 0 { assert rs[i] == rs[1..][i - 1]; }
      }
    }
  }

  // ------------------------------------------------------------------------------------- runs

  function InsertRanges(l: Listed, ns: seq<ChunkRange>): Listed {
    if ns == [] then l
    else
      var n := ns[|ns| - 1];
      Insert(InsertRanges(l, ns[..|ns| - 1]), n.start, n.end)
  }

  const NONE: Listed := Listed([], -1)

  /** After any run of calls with any ranges, the pointer is set only if some call changed a listed range. */
  lemma {:induction false} PointerNeedsChange(ns: seq<ChunkRange>)
    requires WellFormed(ns)
    ensures WellFormed(InsertRanges(NONE, ns).ranges)
    ensures InsertRanges(NONE, ns).cp != -1 ==>
              exists k :: 0 <= k < |ns| && Changes(InsertRanges(NONE, ns[..k]).ranges, ns[k])
    decreases |ns|
  {
    hide Changes, Insert;
    if ns != [] {
      var init, n := ns[..|ns| - 1], ns[|ns| - 1];
      PointerNeedsChange(init);
      var l := InsertRanges(NONE, init);
      InsertAddsNothingElse(l, n.start, n.end, 0);
      PointerMoves(l, n.start, n.end);
      if l.cp != -1 {
        var k :| 0 <= k < |init| && Changes(InsertRanges(NONE, init[..k]).ranges, init[k]);
        assert ns[..k] == init[..k] && ns[k] == init[k];
      }
      assert ns[..|ns| - 1] == init;
    }
  }

  /** Ranges that are all apart are listed as they come and leave the pointer unset, also one that begins
      at 0, such as the range of the whole content that a seeder inserts first. */
  lemma {:induction false} ApartRun(ns: seq<ChunkRange>)
    requires Canonical(ns)
    ensures InsertRanges(NONE, ns) == Listed(ns, -1)
    decreases |ns|
  {
    hide Apart, Insert;
    if ns != [] {
      var init, n := ns[..|ns| - 1], ns[|ns| - 1];
      ApartRun(init);
      PushedRange(Listed(init, -1), n.start, n.end);
      assert init + [n] == ns;
    }
  }

  /** A seeder's first call; and the input on which the pointer is left behind by a lost range. */
  lemma PointerExamples(e: nat)
    ensures Insert(NONE, 0, e) == Listed([ChunkRange(0, e)], -1)
    ensures Insert(Listed([ChunkRange(0, 2), ChunkRange(5, 6)], 2), 1, 10) == Listed([ChunkRange(5, 10)], 10)
  {
    PushedRange(NONE, 0, e);
    SwallowingExample();
  }
}
