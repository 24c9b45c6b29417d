/**
 A run-length ("hysteresis") counter over a stream of boolean samples: a
 qualifying sample extends the current run, any other sample resets it, and an
 event fires once, at the sample where the run reaches the threshold exactly.
 The eye tracker keeps one such counter for gaze aversion and one for blinks.

 `Feed` is the counter as the video loop runs it; `Episodes` is an independent
 reference definition (the number of maximal qualifying runs that are at least
 `threshold` long), and `FeedCountsEpisodes` proves the two agree.
 */
module Hysteresis {

  /** State of one counter: the length of the current qualifying run and the events fired so far. */
  datatype Counter = Counter(run: nat, events: nat)

  const Idle := Counter(0, 0)

  /** One sample. The run is never reset after firing, so a longer run stays silent. */
  function Tick(c: Counter, hit: bool, threshold: nat): (r: Counter)
    ensures r.run == if hit then c.run + 1 else 0
    ensures c.events <= r.events <= c.events + 1
    ensures r.events == c.events + 1 <==> hit && c.run + 1 == threshold
  {
    if hit then
      var run := c.run + 1;
      Counter(run, if run == threshold then c.events + 1 else c.events)
    else
      Counter(0, c.events)
  }

  /** The counter after consuming `hits` in order. */
  function Feed(c: Counter, hits: seq<bool>, threshold: nat): (r: Counter)
    ensures c.events <= r.events <= c.events + |hits|
    decreases |hits|
  {
    if hits == [] then c else Feed(Tick(c, hits[0], threshold), hits[1..], threshold)
  }

  /** Length of the run of qualifying samples at the front of `hits`. */
  function LeadingRun(hits: seq<bool>): (k: nat)
    ensures k <= |hits|
    ensures forall i :: 0 <= i < k ==> hits[i]
    ensures k < |hits| ==> !hits[k]
  {
    if hits == [] || !hits[0] then 0 else 1 + LeadingRun(hits[1..])
  }

  /** Length of the run of qualifying samples at the back of `hits`. */
  function TrailingRun(hits: seq<bool>): (k: nat)
    ensures k <= |hits|
    ensures forall i :: |hits| - k <= i < |hits| ==> hits[i]
    ensures k < |hits| ==> !hits[|hits| - 1 - k]
  {
    if hits == [] || !hits[|hits| - 1] then 0 else 1 + TrailingRun(hits[..|hits| - 1])
  }

  /** Reference definition: the number of maximal runs of qualifying samples of length at least `threshold`. */
  function Episodes(hits: seq<bool>, threshold: nat): nat
    decreases |hits|
  {
    if hits == [] then 0
    else if !hits[0] then Episodes(hits[1..], threshold)
    else
      var k := LeadingRun(hits);
      (if k >= threshold then 1 else 0) + Episodes(hits[k..], threshold)
  }

  /** `Episodes` split at the end of its leading run (which may be empty). */
  lemma EpisodesSplit(hits: seq<bool>, threshold: nat)
    requires threshold >= 1
    ensures Episodes(hits, threshold)
            == (if LeadingRun(hits) >= threshold then 1 else 0) + Episodes(hits[LeadingRun(hits)..], threshold)
  {
    if hits == [] || !hits[0] {
      assert hits[0..] == hits;
    }
  }

  /** Feeding a stream from an arbitrary state: the leading run continues the state's run,
      and everything after it is counted as `Episodes`. */
  lemma {:induction false} FeedFromState(f: nat, c: nat, hits: seq<bool>, threshold: nat)
    requires threshold >= 1
    ensures Feed(Counter(f, c), hits, threshold).events
            == c + (if f < threshold <= f + LeadingRun(hits) then 1 else 0)
                 + Episodes(hits[LeadingRun(hits)..], threshold)
    decreases |hits|
  {
    if hits == [] {
    } else if !hits[0] {
      FeedFromState(0, c, hits[1..], threshold);
      EpisodesSplit(hits[1..], threshold);
      assert hits[0..] == hits;
    } else {
      var c' := if f + 1 == threshold then c + 1 else c;
      assert Tick(Counter(f, c), true, threshold) == Counter(f + 1, c');
      FeedFromState(f + 1, c', hits[1..], threshold);
      assert hits[1..][LeadingRun(hits[1..])..] == hits[LeadingRun(hits)..];
    }
  }

  /** The counter, started idle, fires exactly once per maximal run of length at least `threshold`. */
  lemma FeedCountsEpisodes(hits: seq<bool>, threshold: nat)
    requires threshold >= 1
    ensures Feed(Idle, hits, threshold).events == Episodes(hits, threshold)
  {
    FeedFromState(0, 0, hits, threshold);
    EpisodesSplit(hits, threshold);
  }

  /** Every counted run is at least `threshold` samples long, so the runs fit in the stream. */
  lemma {:induction false} EpisodesBound(hits: seq<bool>, threshold: nat)
    ensures threshold * Episodes(hits, threshold) <= |hits|
    decreases |hits|
  {
    if hits == [] {
    } else if !hits[0] {
      EpisodesBound(hits[1..], threshold);
    } else {
      var k := LeadingRun(hits);
      var rest := Episodes(hits[k..], threshold);
      EpisodesBound(hits[k..], threshold);
      var first := if k >= threshold then 1 else 0;
      assert threshold * first <= k;
      assert threshold * (first + rest) == threshold * first + threshold * rest;
    }
  }

  /** Feeding one more sample is one more `Tick`. */
  lemma {:induction false} FeedSnoc(c: Counter, hits: seq<bool>, hit: bool, threshold: nat)
    ensures Feed(c, hits + [hit], threshold) == Tick(Feed(c, hits, threshold), hit, threshold)
    decreases |hits|
  {
    if hits == [] {
      assert [hit][1..] == [];
    } else {
      assert (hits + [hit])[1..] == hits[1..] + [hit];
      FeedSnoc(Tick(c, hits[0], threshold), hits[1..], hit, threshold);
    }
  }

  /** The run counter of an idle-started counter is the length of the current trailing run:
      it is 0 right after any non-qualifying sample. */
  lemma {:induction false} FeedRunIsTrailingRun(hits: seq<bool>, threshold: nat)
    ensures Feed(Idle, hits, threshold).run == TrailingRun(hits)
    decreases |hits|
  {
    if hits != [] {
      var init := hits[..|hits| - 1];
      assert hits == init + [hits[|hits| - 1]];
      FeedSnoc(Idle, init, hits[|hits| - 1], threshold);
      FeedRunIsTrailingRun(init, threshold);
    }
  }

  /** A single unbroken run fires exactly once if it reaches the threshold, however long it is. */
  lemma {:induction false} SteadyRunFiresOnce(n: nat, threshold: nat)
    requires threshold >= 1
    ensures Episodes(seq(n, _ => true), threshold) == if n >= threshold then 1 else 0
  {
    var hits := seq(n, _ => true);
    if n > 0 {
      assert LeadingRun(hits) == n;
      assert hits[n..] == [];
    }
  }

  /** A stream with no qualifying sample never fires. */
  lemma {:induction false} QuietStreamNeverFires(n: nat, threshold: nat)
    ensures Episodes(seq(n, _ => false), threshold) == 0
    decreases n
  {
    if n > 0 {
      assert seq(n, _ => false)[1..] == seq(n - 1, _ => false);
      QuietStreamNeverFires(n - 1, threshold);
    }
  }
}
