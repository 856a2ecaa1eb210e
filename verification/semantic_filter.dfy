/**
 * The semantic filter of the quick demo ("silence is default"): every input
 * text is embedded, the first one is sent as the baseline, and each later
 * one is sent only when its cosine distance from the LAST SENT vector
 * exceeds `THRESHOLD`; otherwise it is suppressed and the reference stays.
 *
 * The embedding model and the cosine distance are parameters (`encode`,
 * `dist`); `dist(last, current)` is called in that order, as in the demo.
 */
module SemanticFilter {
  import opened Wrappers

  /** Cosine distance above which an input counts as a new event. */
  const THRESHOLD: real := 0.35

  /** The three lines the demo prints: first input, sent, suppressed. */
  datatype Decision = Baseline | Transmit | Silence

  /** `last_vector`, `transmitted` and `suppressed` of the demo loop. */
  datatype FilterState<V> = FilterState(lastVector: Option<V>, transmitted: nat, suppressed: nat)

  function Initial<V>(): FilterState<V>
  {
    FilterState(None, 0, 0)
  }

  /** What the loop does with `current` given the reference vector so far. */
  function Decide<V>(lastVector: Option<V>, current: V, dist: (V, V) -> real): Decision
  {
    if lastVector.None? then Baseline
    else if dist(lastVector.value, current) > THRESHOLD then Transmit
    else Silence
  }

  /**
   * One pass of the loop body: the input is counted exactly once; afterwards
   * there is always a reference, either the old one (suppressed) or the
   * input itself (sent).
   */
  function Observe<V>(state: FilterState<V>, current: V, dist: (V, V) -> real): (next: FilterState<V>)
    ensures next.transmitted + next.suppressed == state.transmitted + state.suppressed + 1
    ensures next.suppressed == state.suppressed + 1 <==> Decide(state.lastVector, current, dist) == Silence
    ensures next.lastVector == if next.suppressed > state.suppressed then state.lastVector else Some(current)
    ensures next.lastVector.Some?
  {
    match Decide(state.lastVector, current, dist)
    case Silence => state.(suppressed := state.suppressed + 1)
    case _ => FilterState(Some(current), state.transmitted + 1, state.suppressed)
  }

  /** The state after the loop has seen `vectors`. */
  function Run<V>(vectors: seq<V>, dist: (V, V) -> real): FilterState<V>
  {
    if vectors == [] then Initial()
    else Observe(Run(vectors[..|vectors| - 1], dist), vectors[|vectors| - 1], dist)
  }

  /** The decision taken for each of `vectors`, in order. */
  function Decisions<V>(vectors: seq<V>, dist: (V, V) -> real): (ds: seq<Decision>)
    ensures |ds| == |vectors|
  {
    if vectors == [] then []
    else
      var front := vectors[..|vectors| - 1];
      Decisions(front, dist) + [Decide(Run(front, dist).lastVector, vectors[|vectors| - 1], dist)]
  }

  /** Number of entries of `ds` equal to `d`. */
  function Count(ds: seq<Decision>, d: Decision): (c: nat)
    ensures c <= |ds|
  {
    if ds == [] then 0
    else Count(ds[..|ds| - 1], d) + (if ds[|ds| - 1] == d then 1 else 0)
  }

  /**
   * The counters of the demo: each input is counted exactly once, as sent
   * (baseline or transmit) or as suppressed; exactly the first input is a
   * baseline; so a non-empty stream always sends at least one message.
   */
  lemma {:induction false} RunCounts<V>(vectors: seq<V>, dist: (V, V) -> real)
    ensures Run(vectors, dist).transmitted + Run(vectors, dist).suppressed == |vectors|
    ensures Run(vectors, dist).suppressed == Count(Decisions(vectors, dist), Silence)
    ensures Run(vectors, dist).transmitted
            == Count(Decisions(vectors, dist), Baseline) + Count(Decisions(vectors, dist), Transmit)
    ensures Count(Decisions(vectors, dist), Baseline) == if vectors == [] then 0 else 1
    ensures vectors != [] ==> Decisions(vectors, dist)[0] == Baseline && Run(vectors, dist).transmitted >= 1
    ensures Run(vectors, dist).lastVector.None? <==> vectors == []
  {
    if vectors != [] {
      var front := vectors[..|vectors| - 1];
      RunCounts(front, dist);
      var before := Run(front, dist);
      var d := Decide(before.lastVector, vectors[|vectors| - 1], dist);
      var fs := Decisions(front, dist);
      assert Decisions(vectors, dist) == fs + [d];
      assert Run(vectors, dist) == Observe(before, vectors[|vectors| - 1], dist);
      CountStep(fs, d, Silence);
      CountStep(fs, d, Baseline);
      CountStep(fs, d, Transmit);
      assert d == Baseline <==> front == [];
      if front != [] {
        assert (fs + [d])[0] == fs[0];
      }
    }
  }

  lemma CountStep(ds: seq<Decision>, d: Decision, x: Decision)
    ensures Count(ds + [d], x) == Count(ds, x) + (if d == x then 1 else 0)
  {
    assert (ds + [d])[..|ds|] == ds;
  }

  /**
   * The reference vector is the last one SENT, not the last one seen: it is
   * the input at the last non-silent decision, and every later input was
   * suppressed.
   */
  lemma {:induction false} ReferenceIsLastSent<V>(vectors: seq<V>, dist: (V, V) -> real)
    requires vectors != []
    ensures exists k :: 0 <= k < |vectors| && Decisions(vectors, dist)[k] != Silence
                        && Run(vectors, dist).lastVector == Some(vectors[k])
                        && forall j :: k < j < |vectors| ==> Decisions(vectors, dist)[j] == Silence
  {
    var last := |vectors| - 1;
    var front := vectors[..last];
    var fs := Decisions(front, dist);
    var d := Decide(Run(front, dist).lastVector, vectors[last], dist);
    assert Decisions(vectors, dist) == fs + [d];
    if d != Silence {
      assert Run(vectors, dist).lastVector == Some(vectors[last]);
    } else {
      assert front != [];
      assert Run(vectors, dist) == Run(front, dist).(suppressed := Run(front, dist).suppressed + 1);
      ReferenceIsLastSent(front, dist);
      var k :| 0 <= k < |front| && fs[k] != Silence
               && Run(front, dist).lastVector == Some(front[k])
               && forall j :: k < j < |front| ==> fs[j] == Silence;
      assert (fs + [d])[k] == fs[k] && front[k] == vectors[k];
      assert forall j :: k < j < |vectors| ==> (fs + [d])[j] == Silence by {
        forall j | k < j < |vectors| ensures (fs + [d])[j] == Silence {
          if j < last {
            assert (fs + [d])[j] == fs[j];
          }
        }
      }
    }
  }

  /**
   * One step after the baseline: the input is sent exactly when its
   * distance from the reference exceeds the threshold; a sent input becomes
   * the new reference; a suppressed one changes nothing but the
   * `suppressed` counter.
   */
  lemma ObserveAfterBaseline<V>(state: FilterState<V>, current: V, dist: (V, V) -> real)
    requires state.lastVector.Some?
    ensures var next := Observe(state, current, dist);
            (next.transmitted == state.transmitted + 1 <==> dist(state.lastVector.value, current) > THRESHOLD)
            && (next.suppressed == state.suppressed + 1 <==> dist(state.lastVector.value, current) <= THRESHOLD)
            && next.transmitted + next.suppressed == state.transmitted + state.suppressed + 1
            && (dist(state.lastVector.value, current) > THRESHOLD ==> next.lastVector == Some(current))
            && (dist(state.lastVector.value, current) <= THRESHOLD ==> next == state.(suppressed := state.suppressed + 1))
  {
  }

  /**
   * Repeating the current reference verbatim is suppressed whenever the
   * distance of a vector from itself is within the threshold (cosine
   * distance gives 0 for a non-zero vector).
   */
  lemma RepeatIsSuppressed<V>(vectors: seq<V>, dist: (V, V) -> real)
    requires vectors != []
    requires forall v :: dist(v, v) <= THRESHOLD
    ensures var state := Run(vectors, dist);
            state.lastVector.Some?
            && Decisions(vectors + [state.lastVector.value], dist)[|vectors|] == Silence
            && Run(vectors + [state.lastVector.value], dist) == state.(suppressed := state.suppressed + 1)
  {
    RunCounts(vectors, dist);
    var extended := vectors + [Run(vectors, dist).lastVector.value];
    assert extended[..|vectors|] == vectors;
  }

  /**
   * `Bandwidth reduction`, the percentage of suppressed inputs; the
   * division fails (`None`) when no input was seen.
   */
  function BandwidthReduction(transmitted: nat, suppressed: nat): (r: Option<real>)
    ensures r.None? <==> transmitted + suppressed == 0
  {
    if transmitted + suppressed == 0 then None
    else Some(suppressed as real / (transmitted + suppressed) as real * 100.0)
  }

  /** For a non-empty stream the reduction is defined and lies in [0, 100). */
  lemma ReductionBelowHundred<V>(vectors: seq<V>, dist: (V, V) -> real)
    requires vectors != []
    ensures var state := Run(vectors, dist);
            var r := BandwidthReduction(state.transmitted, state.suppressed);
            r.Some? && 0.0 <= r.value < 100.0
  {
    RunCounts(vectors, dist);
    var state := Run(vectors, dist);
    FractionBelowOne(state.suppressed as real, (state.transmitted + state.suppressed) as real);
  }

  lemma FractionBelowOne(part: real, total: real)
    requires 0.0 <= part < total
    ensures 0.0 <= part / total * 100.0 < 100.0
  {
    var q := part / total;
    assert q * total == part;
  }

  /** The embeddings of the input texts, in order. */
  function Encoded<V>(texts: seq<string>, encode: string -> V): (vectors: seq<V>)
    ensures |vectors| == |texts|
  {
    seq(|texts|, i requires 0 <= i < |texts| => encode(texts[i]))
  }

  /**
   * The filtering loop of the demo: embeds each text, decides, and updates
   * the reference and the counters; the printed lines are returned as
   * `decisions`.
   */
  method FilterStream<V>(texts: seq<string>, encode: string -> V, dist: (V, V) -> real)
    returns (decisions: seq<Decision>, transmitted: nat, suppressed: nat)
    ensures decisions == Decisions(Encoded(texts, encode), dist)
    ensures transmitted == Run(Encoded(texts, encode), dist).transmitted
    ensures suppressed == Run(Encoded(texts, encode), dist).suppressed
    ensures transmitted + suppressed == |texts|
    ensures texts != [] ==> transmitted >= 1
  {
    var vectors := Encoded(texts, encode);
    var lastVector: Option<V> := None;
    transmitted, suppressed := 0, 0;
    decisions := [];
    var i := 0;
    while i < |texts|
      invariant 0 <= i <= |texts|
      invariant Run(vectors[..i], dist) == FilterState(lastVector, transmitted, suppressed)
      invariant decisions == Decisions(vectors[..i], dist)
    {
      var current := encode(texts[i]);
      assert vectors[..i + 1][..i] == vectors[..i];
      if lastVector.None? {
        decisions := decisions + [Baseline];
        lastVector := Some(current);
        transmitted := transmitted + 1;
      } else {
        var d := dist(lastVector.value, current);
        if d > THRESHOLD {
          decisions := decisions + [Transmit];
          lastVector := Some(current);
          transmitted := transmitted + 1;
        } else {
          decisions := decisions + [Silence];
          suppressed := suppressed + 1;
        }
      }
      i := i + 1;
    }
    assert vectors[..|texts|] == vectors;
    RunCounts(vectors, dist);
  }
}
