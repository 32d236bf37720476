/** Lists of chunk ranges as Binmap keeps them, and what inserting a range does to them. */
module RangeLists {

  datatype ChunkRange = ChunkRange(start: nat, end: nat)

  predicate In(r: ChunkRange, x: int) {
    r.start <= x <= r.end
  }

  /** Chunk x is recorded in the list. */
  predicate Has(rs: seq<ChunkRange>, x: int) {
    exists i :: 0 <= i < |rs| && In(rs[i], x)
  }

  predicate WellFormed(rs: seq<ChunkRange>) {
    forall i | 0 <= i < |rs| :: rs[i].start <= rs[i].end
  }

  /** The two ranges neither overlap nor touch. */
  predicate Apart(r: ChunkRange, s: ChunkRange) {
    r.end + 1 < s.start || s.end + 1 < r.start
  }

  /** Disjoint, non-adjacent ranges, in any order. */
  predicate Canonical(rs: seq<ChunkRange>) {
    && WellFormed(rs)
    && forall i, j | 0 <= i < |rs| && 0 <= j < |rs| && i != j :: Apart(rs[i], rs[j])
  }

  // ------------------------------------------------------------------------------- insertion

  /** The four cases in which the first loop of SetHave stops at a range. */
  predicate Covers(r: ChunkRange, a: nat, b: nat) { r.start <= a && r.end >= b }
  predicate GrowsRight(r: ChunkRange, a: nat, b: nat) { r.start <= a && r.end + 1 >= a && r.end < b }
  predicate GrowsLeft(r: ChunkRange, a: nat, b: nat) { r.start > a && r.end >= b && r.start - 1 <= b }
  predicate IsInside(r: ChunkRange, a: nat, b: nat) { r.start > a && r.end < b }

  predicate Stops(r: ChunkRange, a: nat, b: nat) {
    Covers(r, a, b) || GrowsRight(r, a, b) || GrowsLeft(r, a, b) || IsInside(r, a, b)
  }

  function Grown(r: ChunkRange, a: nat, b: nat): ChunkRange {
    if GrowsRight(r, a, b) then r.(end := b)
    else if GrowsLeft(r, a, b) then r.(start := a)
    else ChunkRange(a, b)
  }

  function FirstStop(rs: seq<ChunkRange>, a: nat, b: nat): (j: nat)
    ensures j <= |rs|
    ensures j < |rs| ==> Stops(rs[j], a, b)
    ensures forall i | 0 <= i < j :: !Stops(rs[i], a, b)
  {
    if rs == [] then 0
    else if Stops(rs[0], a, b) then 0
    else 1 + FirstStop(rs[1..], a, b)
  }

  /** The conditions under which the second loop joins a range with the changed one. */
  predicate JoinsLeft(r: ChunkRange, h: ChunkRange) { r.end + 1 >= h.start && r.end < h.end }
  predicate JoinsRight(r: ChunkRange, h: ChunkRange) { r.start - 1 <= h.end && r.start > h.end }

  predicate Joins(r: ChunkRange, h: ChunkRange) { JoinsLeft(r, h) || JoinsRight(r, h) }

  function Joined(r: ChunkRange, h: ChunkRange): ChunkRange {
    var r1 := if JoinsLeft(r, h) then r.(end := h.end) else r;
    if JoinsRight(r1, h) then r1.(start := h.start) else r1
  }

  function FirstJoin(rs: seq<ChunkRange>, h: ChunkRange): (k: nat)
    ensures k <= |rs|
    ensures k < |rs| ==> Joins(rs[k], h)
    ensures forall i | 0 <= i < k :: !Joins(rs[i], h)
  {
    if rs == [] then 0
    else if Joins(rs[0], h) then 0
    else 1 + FirstJoin(rs[1..], h)
  }

  /** A prefix pointer moves when a range that starts at 0 changes. */
  function Raise(cp: int, r: ChunkRange): int {
    if r.start == 0 && cp < r.end then r.end else cp
  }

  datatype Listed = Listed(ranges: seq<ChunkRange>, cp: int)

  function Without(rs: seq<ChunkRange>, j: nat): seq<ChunkRange>
    requires j < |rs|
  {
    rs[..j] + rs[j + 1..]
  }

  /** SetHave. */
  function Insert(l: Listed, a: nat, b: nat): Listed {
    var rs, j := l.ranges, FirstStop(l.ranges, a, b);
    if j == |rs| then l.(ranges := rs + [ChunkRange(a, b)])
    else if Covers(rs[j], a, b) then l
    else
      var h := Grown(rs[j], a, b);
      var changed := Listed(rs[j := h], if h.start == 0 then h.end else l.cp);
      var k := FirstJoin(changed.ranges, h);
      if |rs| == 1 || k == |rs| then changed
      else
        var r := changed.ranges[k];
        var r1 := if JoinsLeft(r, h) then r.(end := h.end) else r;
        var cp1 := if JoinsLeft(r, h) then Raise(changed.cp, r1) else changed.cp;
        var cp2 := if JoinsRight(r1, h) then Raise(cp1, Joined(r, h)) else cp1;
        Listed(Without(changed.ranges[k := Joined(r, h)], j), cp2)
  }

  // ------------------------------------------------------------------ one insertion in general

  lemma HasAt(rs: seq<ChunkRange>, i: nat, x: int)
    requires i < |rs| && In(rs[i], x)
    ensures Has(rs, x)
  {
  }

  lemma HasWithout(rs: seq<ChunkRange>, j: nat, x: int)
    requires j < |rs|
    ensures Has(rs, x) <==> Has(Without(rs, j), x) || In(rs[j], x)
  {
    var w := Without(rs, j);
    if i :| 0 <= i < |rs| && In(rs[i], x) {
      if i < j { assert w[i] == rs[i]; } else if i > j { assert w[i - 1] == rs[i]; }
    }
    if i :| 0 <= i < |w| && In(w[i], x) {
      assert w[i] == rs[if i < j then i else i + 1];
    }
  }

  lemma HasUpdated(rs: seq<ChunkRange>, j: nat, r: ChunkRange, x: int)
    requires j < |rs|
    ensures Has(rs[j := r], x) ==> Has(rs, x) || In(r, x)
    ensures Has(rs, x) ==> Has(rs[j := r], x) || In(rs[j], x)
    ensures In(r, x) ==> Has(rs[j := r], x)
  {
    var u := rs[j := r];
    if In(r, x) { HasAt(u, j, x); }
    if i :| 0 <= i < |rs| && In(rs[i], x) {
      if i != j { assert u[i] == rs[i]; }
    }
    if i :| 0 <= i < |u| && In(u[i], x) {
      if i != j { assert u[i] == rs[i]; }
    }
  }

  /** A grown range spans its old self and the new chunks, and nothing else. */
  lemma GrownSpan(r: ChunkRange, a: nat, b: nat, x: int)
    requires Stops(r, a, b) && !Covers(r, a, b) && r.start <= r.end && a <= b
    ensures In(Grown(r, a, b), x) <==> In(r, x) || a <= x <= b
    ensures Grown(r, a, b).start <= Grown(r, a, b).end
  {
  }

  /** A joined range spans nothing that neither part spans; it misses chunks exactly if the joined
      range lay strictly inside. */
  lemma JoinedSpan(r: ChunkRange, h: ChunkRange, x: int)
    requires Joins(r, h) && r.start <= r.end && h.start <= h.end
    ensures In(Joined(r, h), x) ==> In(r, x) || In(h, x)
    ensures r.start <= h.start || r.end > h.end ==> (In(Joined(r, h), x) <==> In(r, x) || In(h, x))
    ensures Joined(r, h).start <= Joined(r, h).end
  {
  }

  /** One call never records a chunk that was neither listed before nor in the new range. */
  lemma InsertAddsNothingElse(l: Listed, a: nat, b: nat, x: int)
    requires WellFormed(l.ranges) && a <= b
    ensures Has(Insert(l, a, b).ranges, x) ==> Has(l.ranges, x) || a <= x <= b
    ensures WellFormed(Insert(l, a, b).ranges)
  {
    hide Has;
    var rs, j := l.ranges, FirstStop(l.ranges, a, b);
    if j == |rs| {
      PushSpan(rs, a, b, x);
    } else if !Covers(rs[j], a, b) {
      var h := Grown(rs[j], a, b);
      var changed := rs[j := h];
      GrownSpan(rs[j], a, b, x);
      HasUpdated(rs, j, h, x);
      if In(rs[j], x) { HasAt(rs, j, x); }
      var k := FirstJoin(changed, h);
      if |rs| > 1 && k < |rs| {
        var m := Joined(changed[k], h);
        JoinedSpan(changed[k], h, x);
        HasUpdated(changed, k, m, x);
        if In(changed[k], x) { HasAt(changed, k, x); }
        if In(h, x) { HasAt(changed, j, x); }
        HasWithout(changed[k := m], j, x);
      }
    }
  }

  lemma PushSpan(rs: seq<ChunkRange>, a: nat, b: nat, x: int)
    ensures Has(rs + [ChunkRange(a, b)], x) <==> Has(rs, x) || a <= x <= b
  {
    var p := rs + [ChunkRange(a, b)];
    if a <= x <= b { assert In(p[|rs|], x); }
    if i :| 0 <= i < |rs| && In(rs[i], x) { assert p[i] == rs[i]; }
    if i :| 0 <= i < |p| && In(p[i], x) { if i < |rs| { assert p[i] == rs[i]; } }
  }

  // ----------------------------------------------------------------- when insertion is exact

  /** The changed range swallows a listed one: the second loop meets, first of all ranges it can
      join, one that lies strictly inside the changed range, and erases the changed range. */
  predicate Swallows(rs: seq<ChunkRange>, a: nat, b: nat) {
    var j := FirstStop(rs, a, b);
    j < |rs| && !Covers(rs[j], a, b) && |rs| > 1
    && var h := Grown(rs[j], a, b);
       var k := FirstJoin(rs[j := h], h);
       k < |rs| && h.start < rs[j := h][k].start && rs[j := h][k].end < h.end
  }

  /** Without swallowing, exactly the new chunks are added, whatever the list. */
  lemma InsertAddsAll(l: Listed, a: nat, b: nat, x: int)
    requires WellFormed(l.ranges) && a <= b && !Swallows(l.ranges, a, b)
    ensures Has(Insert(l, a, b).ranges, x) <==> Has(l.ranges, x) || a <= x <= b
  {
    hide Has;
    InsertAddsNothingElse(l, a, b, x);
    var rs, j := l.ranges, FirstStop(l.ranges, a, b);
    if j == |rs| {
      PushSpan(rs, a, b, x);
    } else if Covers(rs[j], a, b) {
      if a <= x <= b { HasAt(rs, j, x); }
    } else {
      var h := Grown(rs[j], a, b);
      var changed := rs[j := h];
      GrownSpan(rs[j], a, b, x);
      HasUpdated(rs, j, h, x);
      var k := FirstJoin(changed, h);
      if |rs| > 1 && k < |rs| {
        var m := Joined(changed[k], h);
        JoinedSpan(changed[k], h, x);
        HasUpdated(changed, k, m, x);
        HasWithout(changed[k := m], j, x);
        NotItself(h);
        if In(h, x) {
          HasAt(Without(changed[k := m], j), if k < j then k else k - 1, x);
        }
      }
    }
  }

  lemma NotItself(h: ChunkRange)
    requires h.start <= h.end
    ensures !Joins(h, h)
  {
  }

  /** Swallowing in a canonical list loses the chunk just before the swallowed range. */
  lemma SwallowingLoses(l: Listed, a: nat, b: nat) returns (x: int)
    requires Canonical(l.ranges) && a <= b && Swallows(l.ranges, a, b)
    ensures (Has(l.ranges, x) || a <= x <= b) && !Has(Insert(l, a, b).ranges, x)
  {
    var rs, j := l.ranges, FirstStop(l.ranges, a, b);
    var h := Grown(rs[j], a, b);
    var changed := rs[j := h];
    var k := FirstJoin(changed, h);
    GrownSpan(rs[j], a, b, 0);
    NotItself(h);
    x := changed[k].start - 1;
    GrownSpan(rs[j], a, b, x);
    if In(rs[j], x) { HasAt(rs, j, x); }
    var w := Without(changed[k := Joined(changed[k], h)], j);
    forall i | 0 <= i < |w| ensures !In(w[i], x) {
      var i0 := if i < j then i else i + 1;
      assert w[i] == changed[k := Joined(changed[k], h)][i0];
      if i0 != k { assert Apart(rs[i0], rs[k]); }
    }
  }

  /** On a canonical list a call of SetHave records exactly the old and the new chunks if and only if
      it does not swallow a listed range. */
  lemma InsertExactIff(l: Listed, a: nat, b: nat)
    requires Canonical(l.ranges) && a <= b
    ensures (forall x :: Has(Insert(l, a, b).ranges, x) <==> Has(l.ranges, x) || a <= x <= b)
       <==> !Swallows(l.ranges, a, b)
  {
    hide Has, Insert;
    if Swallows(l.ranges, a, b) {
      var x := SwallowingLoses(l, a, b);
    } else {
      forall x ensures Has(Insert(l, a, b).ranges, x) <==> Has(l.ranges, x) || a <= x <= b {
        InsertAddsAll(l, a, b, x);
      }
    }
  }

  /** For instance, inserting 1..10 into 0..2 and 5..6 leaves 5..10 only. */
  lemma SwallowingExample()
    ensures Insert(Listed([ChunkRange(0, 2), ChunkRange(5, 6)], 2), 1, 10) == Listed([ChunkRange(5, 10)], 10)
  {
    var rs := [ChunkRange(0, 2), ChunkRange(5, 6)];
    var changed := [ChunkRange(0, 10), ChunkRange(5, 6)];
    assert FirstStop(rs, 1, 10) == 0 && rs[0 := ChunkRange(0, 10)] == changed;
    assert !Joins(changed[0], ChunkRange(0, 10)) && Joins(changed[1], ChunkRange(0, 10));
    assert changed[1..][0] == ChunkRange(5, 6);
    assert FirstJoin(changed, ChunkRange(0, 10)) == 1;
    assert Without(changed[1 := ChunkRange(5, 10)], 0) == [ChunkRange(5, 10)];
  }

  // --------------------------------------------------------------- runs of single insertions

  /** The prefix pointer: the end of the listed range 0..e, if e is at least 1. */
  predicate PrefixRight(l: Listed) {
    if l.cp >= 0 then l.cp >= 1 && ChunkRange(0, l.cp) in l.ranges
    else l.cp == -1 && forall i | 0 <= i < |l.ranges| :: l.ranges[i].start == 0 ==> l.ranges[i].end == 0
  }

  lemma CanonicalUpdate(rs: seq<ChunkRange>, j: nat, r: ChunkRange)
    requires Canonical(rs) && j < |rs| && r.start <= r.end
    requires forall i | 0 <= i < |rs| && i != j :: Apart(rs[i], r)
    ensures Canonical(rs[j := r])
  {
    hide Apart;
    var u := rs[j := r];
    forall i, k | 0 <= i < |u| && 0 <= k < |u| && i != k ensures Apart(u[i], u[k]) {
      ApartSymmetric(rs[i], r);
      ApartSymmetric(rs[k], r);
    }
  }

  lemma ApartSymmetric(r: ChunkRange, s: ChunkRange)
    ensures Apart(r, s) <==> Apart(s, r)
  {
  }

  lemma CanonicalWithout(rs: seq<ChunkRange>, j: nat)
    requires j < |rs|
    requires forall i, k | 0 <= i < |rs| && 0 <= k < |rs| && i != k && i != j && k != j :: Apart(rs[i], rs[k])
    requires WellFormed(rs)
    ensures Canonical(Without(rs, j))
  {
    hide Apart;
    var w := Without(rs, j);
    forall i | 0 <= i < |w| ensures w[i] == rs[if i < j then i else i + 1] {
    }
  }

  /** Single chunks never swallow, so they are always recorded exactly. */
  lemma SingleIsExact(l: Listed, c: nat, x: int)
    requires Canonical(l.ranges)
    ensures Has(Insert(l, c, c).ranges, x) <==> Has(l.ranges, x) || x == c
  {
    hide Insert, Has;
    NoSingleSwallows(l.ranges, c);
    InsertAddsAll(l, c, c, x);
  }

  lemma NoSingleSwallows(rs: seq<ChunkRange>, c: nat)
    requires Canonical(rs)
    ensures !Swallows(rs, c, c)
  {
    if Swallows(rs, c, c) {
      var j := FirstStop(rs, c, c);
      var h := Grown(rs[j], c, c);
      var k := FirstJoin(rs[j := h], h);
      NotItself(h);
      ThroughOneChunk(rs[j], rs[k], h, c);
    }
  }

  /** Nothing fits into the one chunk between a range and a grown range. */
  lemma ThroughOneChunk(r: ChunkRange, s: ChunkRange, h: ChunkRange, c: nat)
    requires r.start <= r.end && s.start <= s.end
    requires Stops(r, c, c) && !Covers(r, c, c) && h == Grown(r, c, c)
    ensures h.start < s.start && s.end < h.end ==> !Apart(s, r)
  {
  }

  lemma SingleKeepsCanonical(l: Listed, c: nat)
    requires Canonical(l.ranges)
    ensures Canonical(Insert(l, c, c).ranges)
  {
    var rs, j := l.ranges, FirstStop(l.ranges, c, c);
    if j < |rs| && !Covers(rs[j], c, c) {
      var h := Grown(rs[j], c, c);
      var changed := rs[j := h];
      var k := FirstJoin(changed, h);
      NotItself(h);
      if k == |rs| {
        forall i | 0 <= i < |rs| && i != j ensures Apart(rs[i], h) {
          assert Apart(rs[i], rs[j]) && !Joins(changed[i], h);
        }
        CanonicalUpdate(rs, j, h);
      } else {
        var m := Joined(rs[k], h);
        forall i | 0 <= i < |rs| && i != j && i != k ensures Apart(rs[i], m) {
          assert Apart(rs[i], rs[j]) && Apart(rs[i], rs[k]) && Apart(rs[j], rs[k]);
        }
        JoinKeepsCanonical(rs, j, k, h, m);
      }
    } else if j == |rs| {
      forall i | 0 <= i < |rs| ensures Apart(rs[i], ChunkRange(c, c)) {
        assert !Stops(rs[i], c, c);
      }
    }
  }

  lemma JoinKeepsCanonical(rs: seq<ChunkRange>, j: nat, k: nat, h: ChunkRange, m: ChunkRange)
    requires Canonical(rs) && j < |rs| && k < |rs| && j != k && h.start <= h.end && m.start <= m.end
    requires forall i | 0 <= i < |rs| && i != j && i != k :: Apart(rs[i], m)
    ensures Canonical(Without(rs[j := h][k := m], j))
  {
    hide Apart;
    var u := rs[j := h][k := m];
    forall i, i' | 0 <= i < |u| && 0 <= i' < |u| && i != i' && i != j && i' != j ensures Apart(u[i], u[i']) {
      ApartSymmetric(u[i], m);
      ApartSymmetric(u[i'], m);
    }
    CanonicalWithout(u, j);
  }

  lemma SingleKeepsPrefix(l: Listed, c: nat)
    requires Canonical(l.ranges) && PrefixRight(l)
    ensures PrefixRight(Insert(l, c, c))
  {
    hide Canonical;
    var rs, j, after := l.ranges, FirstStop(l.ranges, c, c), Insert(l, c, c);
    SingleKeepsCanonical(l, c);
    if j == |rs| {
      PushKeepsPrefix(l, c);
    } else if !Covers(rs[j], c, c) {
      ChangeKeepsPrefix(l, c);
    }
  }

  lemma PushKeepsPrefix(l: Listed, c: nat)
    requires PrefixRight(l)
    ensures PrefixRight(l.(ranges := l.ranges + [ChunkRange(c, c)]))
  {
  }

  lemma ChangeKeepsPrefix(l: Listed, c: nat)
    requires Canonical(l.ranges) && PrefixRight(l)
    requires var j := FirstStop(l.ranges, c, c); j < |l.ranges| && !Covers(l.ranges[j], c, c)
    ensures PrefixRight(Insert(l, c, c))
  {
    hide Canonical, PrefixRight, Without, Joins, Apart, Stops, Grown;
    var rs, j := l.ranges, FirstStop(l.ranges, c, c);
    var h := Grown(rs[j], c, c);
    var k := FirstJoin(rs[j := h], h);
    if k == |rs| {
      GrowKeepsPrefix(l, j, h, c);
    } else {
      JoinKeepsPrefix(l, j, k, h, c);
    }
  }

  lemma GrowKeepsPrefix(l: Listed, j: nat, h: ChunkRange, c: nat)
    requires Canonical(l.ranges) && PrefixRight(l) && j < |l.ranges|
    requires Stops(l.ranges[j], c, c) && !Covers(l.ranges[j], c, c) && h == Grown(l.ranges[j], c, c)
    ensures PrefixRight(Listed(l.ranges[j := h], if h.start == 0 then h.end else l.cp))
  {
    var rs := l.ranges;
    var changed := rs[j := h];
    assert changed[j] == h;
    if h.start > 0 && l.cp >= 0 {
      var z :| 0 <= z < |rs| && rs[z] == ChunkRange(0, l.cp);
      assert changed[z] == rs[z];
    }
  }

  lemma JoinKeepsPrefix(l: Listed, j: nat, k: nat, h: ChunkRange, c: nat)
    requires Canonical(l.ranges) && PrefixRight(l) && j < |l.ranges| && k < |l.ranges|
    requires Stops(l.ranges[j], c, c) && !Covers(l.ranges[j], c, c) && h == Grown(l.ranges[j], c, c)
    requires Joins(l.ranges[j := h][k], h)
    ensures |l.ranges| > 1 && k != j
    ensures var r, m := l.ranges[k], Joined(l.ranges[k], h);
            var cp := if h.start == 0 then h.end else l.cp;
            var cp1 := if JoinsLeft(r, h) then Raise(cp, r.(end := h.end)) else cp;
            var r1 := if JoinsLeft(r, h) then r.(end := h.end) else r;
            var cp2 := if JoinsRight(r1, h) then Raise(cp1, m) else cp1;
            PrefixRight(Listed(Without(l.ranges[j := h][k := m], j), cp2))
  {
    hide Without;
    var rs := l.ranges;
    NotItself(h);
    assert k != j;
    assert Apart(rs[k], rs[j]);
    var m := Joined(rs[k], h);
    var u := rs[j := h][k := m];
    JoinedEnds(rs[j], rs[k], h, c);
    PlacesWithout(u, j);
    assert u[k] == m;
    if l.cp >= 0 {
      var z :| 0 <= z < |rs| && rs[z] == ChunkRange(0, l.cp);
      if z != j { assert Apart(rs[z], rs[j]); }
      if z != k { assert Apart(rs[z], rs[k]); }
      if z != j && z != k { assert u[z] == rs[z]; }
    } else {
      OnlyFrom(rs, u, j, k);
      var w := Without(u, j);
      if m.start > 0 {
        forall i | 0 <= i < |w| ensures w[i].start == 0 ==> w[i].end == 0 {
          assert w[i] in w;
        }
      } else {
        assert m in w;
      }
    }
  }

  lemma OnlyFrom(rs: seq<ChunkRange>, u: seq<ChunkRange>, j: nat, k: nat)
    requires |u| == |rs| && j < |rs| && k < |rs|
    requires forall i | 0 <= i < |rs| && i != j && i != k :: u[i] == rs[i]
    ensures forall r | r in Without(u, j) :: r == u[k] || r in rs
  {
    PlacesWithout(u, j);
  }

  /** The ends of two ranges joined over a single chunk. */
  lemma JoinedEnds(r: ChunkRange, s: ChunkRange, h: ChunkRange, c: nat)
    requires r.start <= r.end && s.start <= s.end && Apart(s, r)
    requires Stops(r, c, c) && !Covers(r, c, c) && h == Grown(r, c, c) && Joins(s, h)
    ensures if JoinsLeft(s, h) then s.end + 1 == c == h.start && r.start == c + 1 && Joined(s, h) == ChunkRange(s.start, r.end)
            else r.end + 1 == c == h.end && s.start == c + 1 && Joined(s, h) == ChunkRange(r.start, s.end)
  {
  }

  /** Removing one place keeps the others. */
  lemma PlacesWithout(u: seq<ChunkRange>, j: nat)
    requires j < |u|
    ensures forall i | 0 <= i < |u| && i != j :: u[i] in Without(u, j)
    ensures forall r | r in Without(u, j) :: exists i :: 0 <= i < |u| && i != j && u[i] == r
  {
    var w := Without(u, j);
    forall i | 0 <= i < |u| && i != j ensures u[i] in w {
      assert w[if i < j then i else i - 1] == u[i];
    }
    forall r | r in w ensures exists i :: 0 <= i < |u| && i != j && u[i] == r {
      var i :| 0 <= i < |w| && w[i] == r;
      assert u[if i < j then i else i + 1] == r;
    }
  }

  function InsertAll(l: Listed, cs: seq<nat>): Listed {
    if cs == [] then l
    else
      var c := cs[|cs| - 1];
      Insert(InsertAll(l, cs[..|cs| - 1]), c, c)
  }

  /** After any run of single-chunk insertions the ranges are disjoint and non-adjacent, they cover
      exactly the inserted chunks, and the prefix pointer is right. */
  lemma {:induction false} RunIsExact(cs: seq<nat>, x: int)
    ensures var l := InsertAll(Listed([], -1), cs);
            Canonical(l.ranges) && PrefixRight(l) && (Has(l.ranges, x) <==> x in cs)
    decreases |cs|
  {
    hide Canonical, PrefixRight, Insert, Has;
    if cs == [] {
      EmptyList(x);
    } else {
      var init, c := cs[..|cs| - 1], cs[|cs| - 1];
      RunIsExact(init, x);
      var l := InsertAll(Listed([], -1), init);
      SingleKeepsCanonical(l, c);
      SingleKeepsPrefix(l, c);
      SingleIsExact(l, c, x);
    }
  }

  lemma EmptyList(x: int)
    ensures Canonical([]) && PrefixRight(Listed([], -1)) && !Has([], x)
  {
  }
}
