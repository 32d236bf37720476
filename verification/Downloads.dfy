/** Whole downloads: the request scheduler against the plain set of chunks. */
module Downloads {
  import opened Bytes
  import opened RangeLists
  import opened Binmaps

  // --------------------------------------------------------------- fast path against full scan

  /** A chunk of the content that the peer has and that is neither held nor outstanding. */
  predicate Requestable(l: Listed, requested: set<int>, last: int, peer: seq<ChunkRange>, x: int) {
    0 <= x <= last && Has(peer, x) && !Has(l.ranges, x) && x !in requested
  }

  /** With a right prefix pointer, skipping the prefix loses nothing: the answer is the least
      requestable chunk of the whole content, and -1 exactly when there is none. */
  lemma PrefixSkipsNothing(l: Listed, requested: set<int>, last: int, peer: seq<ChunkRange>, r: int)
    requires PrefixRight(l) && l.cp >= 0 && r >= -1
    requires IsNextRequest(l, requested, last, peer, r)
    ensures r == -1 <==> forall x: int :: !Requestable(l, requested, last, peer, x)
    ensures r >= 0 ==> Requestable(l, requested, last, peer, r)
    ensures r >= 0 ==> forall x: int | x < r :: !Requestable(l, requested, last, peer, x)
  {
    forall x: int ensures 0 <= x <= l.cp ==> Has(l.ranges, x) {
      if 0 <= x <= l.cp {
        var i :| 0 <= i < |l.ranges| && l.ranges[i] == ChunkRange(0, l.cp);
        HasAt(l.ranges, i, x);
      }
    }
    forall x: int ensures Taken(l.ranges, requested, x) <==> Has(l.ranges, x) || x in requested {
      TakenIsHeld(l.ranges, requested, x);
    }
    forall x: int ensures 0 <= x <= last ==>
      (Requestable(l, requested, last, peer, x) <==> l.cp < x && Wanted(l.ranges, requested, peer, x)) {
    }
  }

  lemma TakenIsHeld(own: seq<ChunkRange>, requested: set<int>, x: int)
    requires own != []
    ensures Taken(own, requested, x) <==> Has(own, x) || x in requested
  {
    if Has(own, x) {
      var i :| 0 <= i < |own| && In(own[i], x);
    } else if x in requested {
      assert In(own[0], x) || x in requested;
    }
  }

  /** Without a prefix pointer the answer is still requestable, once something is held. */
  lemma ScanFindsRequestable(l: Listed, requested: set<int>, last: int, peer: seq<ChunkRange>, r: int)
    requires l.cp < 0 && l.ranges != [] && r >= -1 && Within(peer, last)
    requires IsNextRequest(l, requested, last, peer, r)
    ensures r == -1 <==> forall x: int :: !Requestable(l, requested, last, peer, x)
    ensures r >= 0 ==> Requestable(l, requested, last, peer, r)
  {
    forall x: int ensures Taken(l.ranges, requested, x) <==> Has(l.ranges, x) || x in requested {
      TakenIsHeld(l.ranges, requested, x);
    }
    forall x: int ensures Has(peer, x) ==> 0 <= x <= last {
      if Has(peer, x) {
        var i :| 0 <= i < |peer| && In(peer[i], x);
      }
    }
    if r >= 0 {
      var i :| 0 <= i < |peer| && In(peer[i], r);
      HasAt(peer, i, r);
      assert Requestable(l, requested, last, peer, r);
    } else {
      forall x: int ensures !Requestable(l, requested, last, peer, x) {
        assert !Wanted(l.ranges, requested, peer, x);
      }
    }
  }

  /** Without a prefix pointer, the answer is the first requestable chunk in the order of the peer's list. */
  lemma ScanIsFirst(l: Listed, requested: set<int>, last: int, peer: seq<ChunkRange>, r: int) returns (i: nat)
    requires l.cp < 0 && l.ranges != [] && r >= 0
    requires IsNextRequest(l, requested, last, peer, r)
    ensures i < |peer| && In(peer[i], r)
    ensures forall k, x: int | 0 <= k < |peer| && In(peer[k], x) && Requestable(l, requested, last, peer, x) ::
              k > i || (k == i && x >= r)
  {
    forall x: int ensures Taken(l.ranges, requested, x) <==> Has(l.ranges, x) || x in requested {
      TakenIsHeld(l.ranges, requested, x);
    }
    i :| 0 <= i < |peer| && In(peer[i], r)
         && (forall x | peer[i].start <= x < r :: Taken(l.ranges, requested, x))
         && forall k, x | 0 <= k < i && In(peer[k], x) :: Taken(l.ranges, requested, x);
  }

  /** While nothing is held, the answer is the first chunk of the peer's list, if it has one. */
  lemma FirstAnswer(l: Listed, requested: set<int>, last: int, peer: seq<ChunkRange>, r: int)
    requires PrefixRight(l) && l.ranges == [] && WellFormed(peer) && r >= -1
    requires IsNextRequest(l, requested, last, peer, r)
    ensures r == if peer == [] then -1 else peer[0].start
  {
    if peer != [] {
      HasAt(peer, 0, peer[0].start);
      assert Wanted(l.ranges, requested, peer, peer[0].start);
    }
    if r >= 0 {
      OutstandingAgainIff(l, requested, last, peer, r);
    }
  }

  // ------------------------------------------------------------------------------------- runs

  datatype Download = Download(l: Listed, requested: set<int>)

  datatype Step =
    | Ask(peer: seq<ChunkRange>, answer: int)
    | Got(chunk: nat)
    | Release(index: int)

  const NOTHING: Download := Download(Listed([], -1), {})

  /** The answer is the scheduler's, peers and data stay within the content. */
  ghost predicate Possible(s: Download, last: nat, step: Step) {
    match step
    case Ask(peer, r) => r >= -1 && Within(peer, last) && IsNextRequest(s.l, s.requested, last, peer, r)
    case Got(c) => c <= last
    case Release(i) => true
  }

  function Next(s: Download, step: Step): Download {
    match step
    case Ask(peer, r) => if r >= 0 then s.(requested := s.requested + {r}) else s
    case Got(c) => Download(Insert(s.l, c, c), s.requested - {c})
    case Release(i) => if i < 0 then s else s.(requested := s.requested - {i})
  }

  function After(s: Download, steps: seq<Step>): Download {
    if steps == [] then s else Next(After(s, steps[..|steps| - 1]), steps[|steps| - 1])
  }

  ghost predicate PossibleRun(s: Download, last: nat, steps: seq<Step>) {
    forall i | 0 <= i < |steps| :: Possible(After(s, steps[..i]), last, steps[i])
  }

  /** What every step keeps: the list is exact and nothing is both held and outstanding. */
  predicate Consistent(s: Download) {
    && Canonical(s.l.ranges) && PrefixRight(s.l)
    && forall x | x in s.requested :: !Has(s.l.ranges, x)
  }

  lemma StepKeeps(s: Download, last: nat, step: Step)
    requires Consistent(s) && Possible(s, last, step)
    ensures Consistent(Next(s, step))
    ensures step.Ask? && step.answer >= 0 ==> !Has(s.l.ranges, step.answer) && Has(step.peer, step.answer)
    ensures step.Ask? && step.answer >= 0 && s.l.ranges != [] ==> step.answer !in s.requested
    ensures forall x :: Has(Next(s, step).l.ranges, x) <==> Has(s.l.ranges, x) || (step.Got? && x == step.chunk)
  {
    hide Canonical, PrefixRight, Insert, Has;
    match step
    case Ask(peer, r) =>
      if r >= 0 {
        AnswerIsNew(s, last, peer, r);
      }
    case Got(c) =>
      SingleKeepsCanonical(s.l, c);
      SingleKeepsPrefix(s.l, c);
      forall x ensures Has(Insert(s.l, c, c).ranges, x) <==> Has(s.l.ranges, x) || x == c {
        SingleIsExact(s.l, c, x);
      }
    case Release(i) =>
  }

  lemma AnswerIsNew(s: Download, last: nat, peer: seq<ChunkRange>, r: int)
    requires r >= 0 && IsNextRequest(s.l, s.requested, last, peer, r)
    ensures !Has(s.l.ranges, r) && Has(peer, r)
    ensures s.l.ranges != [] ==> r !in s.requested
  {
    if s.l.ranges != [] {
      TakenIsHeld(s.l.ranges, s.requested, r);
    }
    if s.l.cp < 0 {
      var i :| 0 <= i < |peer| && In(peer[i], r);
      HasAt(peer, i, r);
    }
  }

  /** Every interleaving of requests, deliveries and releases keeps held and outstanding chunks
      disjoint, and what is held is exactly what was delivered. */
  lemma {:induction false} RunKeeps(last: nat, steps: seq<Step>, x: nat)
    requires PossibleRun(NOTHING, last, steps)
    ensures Consistent(After(NOTHING, steps))
    ensures Has(After(NOTHING, steps).l.ranges, x) <==> Got(x) in steps
    decreases |steps|
  {
    hide Consistent, Possible, Has, Next;
    if steps == [] {
      EmptyList(x);
      NothingConsistent();
    } else {
      var init, step := steps[..|steps| - 1], steps[|steps| - 1];
      forall i | 0 <= i < |init| ensures Possible(After(NOTHING, init[..i]), last, init[i]) {
        assert init[..i] == steps[..i];
      }
      RunKeeps(last, init, x);
      StepKeeps(After(NOTHING, init), last, step);
      assert steps == init + [step];
    }
  }

  lemma NothingConsistent()
    ensures Consistent(NOTHING)
  {
    EmptyList(0);
  }

  /** Once something is held, no chunk is handed out again while it is outstanding. */
  lemma NeverAskedTwice(last: nat, steps: seq<Step>, j: nat, k: nat)
    requires PossibleRun(NOTHING, last, steps) && j < k < |steps|
    requires steps[j].Ask? && steps[k].Ask? && steps[j].answer == steps[k].answer >= 0
    requires After(NOTHING, steps[..k]).l.ranges != []
    ensures exists i :: j < i < k && (steps[i] == Got(steps[j].answer) || steps[i] == Release(steps[j].answer))
  {
    hide Consistent, Has, PossibleRun, IsNextRequest;
    var r := steps[j].answer;
    var before := steps[..k];
    assert Possible(After(NOTHING, before), last, steps[k]) by { PossibleAt(last, steps, k); }
    AnswerIsNew(After(NOTHING, before), last, steps[k].peer, r);
    StillOutstanding(steps, j, k);
  }

  lemma PossibleAt(last: nat, steps: seq<Step>, k: nat)
    requires PossibleRun(NOTHING, last, steps) && k < |steps|
    ensures Possible(After(NOTHING, steps[..k]), last, steps[k])
  {
  }

  /** A chunk stays outstanding until it is delivered or released. */
  lemma {:induction false} StillOutstanding(steps: seq<Step>, j: nat, k: nat)
    requires j < k <= |steps| && steps[j].Ask? && steps[j].answer >= 0
    ensures steps[j].answer in After(NOTHING, steps[..k]).requested
         || exists i :: j < i < k && (steps[i] == Got(steps[j].answer) || steps[i] == Release(steps[j].answer))
    decreases k
  {
    var now := steps[..k];
    assert now[..|now| - 1] == steps[..k - 1] && now[|now| - 1] == steps[k - 1];
    if k > j + 1 {
      StillOutstanding(steps, j, k - 1);
    }
  }

  /** Exactly when an outstanding chunk is handed out again: while nothing is held, IsHaveData ignores
      the outstanding chunks, and the answer is always the first chunk of the peer's list. */
  lemma OutstandingAgainIff(l: Listed, requested: set<int>, last: int, peer: seq<ChunkRange>, r: int)
    requires PrefixRight(l) && WellFormed(peer) && r >= 0
    requires IsNextRequest(l, requested, last, peer, r)
    ensures peer != []
    ensures r in requested <==> l.ranges == [] && peer[0].start in requested
    ensures l.ranges == [] ==> r == peer[0].start
  {
    if l.ranges != [] {
      TakenIsHeld(l.ranges, requested, r);
    } else {
      assert l.cp < 0;
      forall x: int ensures !Taken(l.ranges, requested, x) {
      }
      var i :| 0 <= i < |peer| && In(peer[i], r)
               && (forall x | peer[i].start <= x < r :: Taken(l.ranges, requested, x))
               && forall k, x | 0 <= k < i && In(peer[k], x) :: Taken(l.ranges, requested, x);
      var first := peer[i].start;
      assert r == first || Taken(l.ranges, requested, first);
      assert In(peer[0], peer[0].start) && !Taken(l.ranges, requested, peer[0].start);
    }
  }

  /** The same over runs. An answer r was handed out before, without a delivery or release of it since,
      exactly if nothing has been delivered yet and the first chunk of the asked peer's list is
      outstanding in this sense. */
  lemma AskedAgainIff(last: nat, steps: seq<Step>, k: nat)
    requires PossibleRun(NOTHING, last, steps) && k < |steps|
    requires steps[k].Ask? && steps[k].answer >= 0 && WellFormed(steps[k].peer)
    ensures steps[k].peer != []
    ensures Outstanding(steps, k, steps[k].answer) <==>
              && (forall i | 0 <= i < k :: !steps[i].Got?)
              && Outstanding(steps, k, steps[k].peer[0].start)
  {
    hide IsNextRequest, PossibleRun, Canonical, PrefixRight;
    var now, r, peer := After(NOTHING, steps[..k]), steps[k].answer, steps[k].peer;
    PossibleAt(last, steps, k);
    assert PossibleRun(NOTHING, last, steps[..k]) by { RunPrefix(last, steps, k); }
    RunKeeps(last, steps[..k], 0);
    OutstandingAgainIff(now.l, now.requested, last, peer, r);
    OutstandingIsRequested(steps, k, r);
    OutstandingIsRequested(steps, k, peer[0].start);
    NothingHeld(last, steps, k);
  }

  /** Handed out by a step before k, and neither delivered nor released since. */
  ghost predicate Outstanding(steps: seq<Step>, k: nat, r: int)
    requires k <= |steps|
  {
    exists j :: 0 <= j < k && steps[j].Ask? && steps[j].answer == r >= 0 && Untouched(steps, j, k, r)
  }

  predicate Untouched(steps: seq<Step>, j: nat, k: nat, r: int)
    requires k <= |steps|
  {
    forall i | j < i < k :: steps[i] != Release(r) && !(steps[i].Got? && steps[i].chunk == r)
  }

  lemma {:induction false} OutstandingIsRequested(steps: seq<Step>, k: nat, r: int)
    requires k <= |steps| && r >= 0
    ensures Outstanding(steps, k, r) <==> r in After(NOTHING, steps[..k]).requested
    decreases k
  {
    if k > 0 {
      var now := steps[..k];
      assert now[..|now| - 1] == steps[..k - 1] && now[|now| - 1] == steps[k - 1];
      OutstandingIsRequested(steps, k - 1, r);
      var step := steps[k - 1];
      if step.Ask? && step.answer == r {
        assert Untouched(steps, k - 1, k, r);
      } else if Outstanding(steps, k - 1, r) && r in After(NOTHING, now).requested {
        var j :| 0 <= j < k - 1 && steps[j].Ask? && steps[j].answer == r && Untouched(steps, j, k - 1, r);
        assert Untouched(steps, j, k, r);
      } else if Outstanding(steps, k, r) {
        var j :| 0 <= j < k && steps[j].Ask? && steps[j].answer == r && Untouched(steps, j, k, r);
        assert Untouched(steps, j, k - 1, r);
      }
    }
  }

  lemma RunPrefix(last: nat, steps: seq<Step>, k: nat)
    requires PossibleRun(NOTHING, last, steps) && k <= |steps|
    ensures PossibleRun(NOTHING, last, steps[..k])
  {
    hide Possible;
    forall i | 0 <= i < k ensures Possible(After(NOTHING, steps[..k][..i]), last, steps[..k][i]) {
      assert steps[..k][..i] == steps[..i];
    }
  }

  lemma NothingHeld(last: nat, steps: seq<Step>, k: nat)
    requires PossibleRun(NOTHING, last, steps) && k <= |steps|
    ensures After(NOTHING, steps[..k]).l.ranges == [] <==> forall i | 0 <= i < k :: !steps[i].Got?
  {
    hide Possible, After, Next;
    RunPrefix(last, steps, k);
    var own := After(NOTHING, steps[..k]).l.ranges;
    forall x: nat ensures Has(own, x) <==> Got(x) in steps[..k] {
      RunKeeps(last, steps[..k], x);
    }
    if i :| 0 <= i < k && steps[i].Got? {
      assert steps[..k][i] == Got(steps[i].chunk);
      assert Has(own, steps[i].chunk);
    }
    if own != [] {
      RunKeeps(last, steps[..k], 0);
      assert Has(own, own[0].start) by { HasAt(own, 0, own[0].start); }
      var i :| 0 <= i < k && steps[..k][i] == Got(own[0].start);
      assert steps[i].Got?;
    }
  }

  /** A concrete run in which the same chunk is handed out twice. */
  lemma AskedTwiceAtFirst()
    ensures var peer := [ChunkRange(0, 3)];
            var steps := [Ask(peer, 0), Ask(peer, 0)];
            PossibleRun(NOTHING, 3, steps) && steps[0].answer == steps[1].answer && Outstanding(steps, 1, 0)
  {
    var peer := [ChunkRange(0, 3)];
    var steps := [Ask(peer, 0), Ask(peer, 0)];
    forall i | 0 <= i < 2 ensures Possible(After(NOTHING, steps[..i]), 3, steps[i]) {
      assert steps[..0] == [] && steps[..1] == [Ask(peer, 0)];
      assert After(NOTHING, steps[..1]).l == NOTHING.l by { assert steps[..1][..0] == []; }
      assert In(peer[0], 0);
    }
    assert Untouched(steps, 0, 1, 0);
  }

  // -------------------------------------------------------------------------- missing chunks

  function Missing(s: Download, last: nat): set<int> {
    set x: int | 0 <= x <= last && !Has(s.l.ranges, x)
  }

  /** The number of missing chunks never grows, and drops by one with every new delivery. */
  lemma MissingShrinks(s: Download, last: nat, step: Step)
    requires Consistent(s) && Possible(s, last, step)
    ensures |Missing(Next(s, step), last)|
         == |Missing(s, last)| - (if step.Got? && !Has(s.l.ranges, step.chunk) then 1 else 0)
  {
    hide Consistent, Possible, Has, Next;
    StepKeeps(s, last, step);
    if step.Got? {
      GotWithin(s, last, step);
      assert Missing(Next(s, step), last) == Missing(s, last) - {step.chunk};
    } else {
      assert Missing(Next(s, step), last) == Missing(s, last);
    }
  }

  lemma GotWithin(s: Download, last: nat, step: Step)
    requires Possible(s, last, step)
    ensures step.Got? ==> step.chunk <= last
  {
  }

  /** When nothing is missing, the download is complete and nothing is asked for any more. */
  lemma NothingMissing(s: Download, last: nat, peer: seq<ChunkRange>, r: int)
    requires Consistent(s) && Possible(s, last, Ask(peer, r))
    ensures Missing(s, last) == {} <==> Complete(s.l.ranges, last)
    ensures Missing(s, last) == {} ==> r == -1
  {
    hide Canonical, PrefixRight, IsNextRequest;
    if forall x | 0 <= x <= last :: Has(s.l.ranges, x) {
      assert Missing(s, last) == {};
    } else {
      var x :| 0 <= x <= last && !Has(s.l.ranges, x);
      assert x in Missing(s, last);
    }
    if Missing(s, last) == {} && r >= 0 {
      AnswerIsNew(s, last, peer, r);
      PeerWithin(peer, last, r);
    }
  }

  lemma PeerWithin(peer: seq<ChunkRange>, last: nat, x: int)
    requires Within(peer, last) && Has(peer, x)
    ensures 0 <= x <= last
  {
  }
}
