/**
 The two superstep handlers of WCC as functions of the fragment, the labels,
 the bitsets and the inbox: what one call of `PEval` or `IncEval` leaves
 behind, and the properties of a whole round.
 */
module Rounds {
  import opened Bitset
  import opened Propagation

  /** The activity threshold of the push/pull switch, as the fraction 1/10. */
  const RATE_DENOMINATOR: nat := 10

  /**
   The strategy test `(double) |currModified| / innerNum > 0.1`. For a
   positive `innerNum` it is the exact comparison of the rate with one tenth.
   For `innerNum == 0` the double division gives NaN when the count is zero
   (the comparison fails: push) and +Infinity otherwise (pull).
   */
  function UsePull(card: nat, innerNum: nat): (pull: bool)
    ensures innerNum > 0 ==> (pull <==> (card as real) / (innerNum as real) > 1.0 / (RATE_DENOMINATOR as real))
    ensures innerNum == 0 ==> (pull <==> card > 0)
  {
    if innerNum == 0 then card > 0
    else
      RateComparison(card, innerNum);
      RATE_DENOMINATOR * card > innerNum
  }

  lemma RateComparison(card: nat, innerNum: nat)
    requires innerNum > 0
    ensures (card as real) / (innerNum as real) > 1.0 / (RATE_DENOMINATOR as real)
            <==> RATE_DENOMINATOR * card > innerNum
  {
    var q := (card as real) / (innerNum as real);
    assert q * (innerNum as real) == card as real;
    if q > 0.1 {
      assert q * (innerNum as real) > 0.1 * (innerNum as real);
    }
    if (RATE_DENOMINATOR * card) as real > innerNum as real {
      assert (card as real) > 0.1 * (innerNum as real);
    }
  }

  /**
   The state a superstep leaves: the labels, the modified bitset (both
   `currModified` and `nextModified` hold it, after `assign`), whether the
   worker forces another superstep, and the messages sent.
   */
  datatype Round = Round(labels: seq<Label>, modified: seq<bool>, cont: bool, outbox: seq<Msg>)

  /**
   The labels right after seeding: every vertex holds its own global id. A
   plain definition; its properties are those of the fragment's `gid`.
   */
  function Seeded(frag: Fragment): (labels: seq<Label>)
  {
    frag.gid
  }

  /**
   The tail shared by both handlers, given the labels `before` and `after` the
   strategy round and the `nextModified` bits it left: continue iff some inner
   bit is set, and send the outer vertices whose label dropped.
   */
  function Finish(frag: Fragment, before: seq<Label>, after: seq<Label>, next: seq<bool>): (r: Round)
    requires frag.Valid() && |before| == |after| == |next| == frag.VertexNum()
    ensures |r.labels| == |r.modified| == frag.VertexNum()
    ensures r.cont <==> exists v :: 0 <= v < frag.innerNum && next[v]
  {
    Round(after, next, !PartialEmpty(next, 0, frag.innerNum),
          MsgsFor(after, Dropped(before, after), frag.innerNum, frag.VertexNum()))
  }

  /** `PEval`: seed every label with its global id, then one pull round. */
  function PEvalRound(frag: Fragment, next: seq<bool>): (r: Round)
    requires frag.Valid() && |next| == frag.VertexNum()
    ensures |r.labels| == |r.modified| == frag.VertexNum()
  {
    var seeded := Seeded(frag);
    var after := Pull(seeded, frag.inAdj);
    Finish(frag, seeded, after, Union(next, Dropped(seeded, after)))
  }

  /**
   `IncEval`: clear `nextModified`; apply the inbox, marking in the current
   set every vertex it lowers; then a pull or a push round as the rate of the
   current set decides.
   */
  function IncEvalRound(frag: Fragment, labels: seq<Label>, curr: seq<bool>, inbox: seq<Msg>): (r: Round)
    requires frag.Valid() && |labels| == |curr| == frag.VertexNum()
    requires InboxInRange(inbox, frag.VertexNum())
    ensures |r.labels| == |r.modified| == frag.VertexNum()
  {
    var received := ReceiveAll(labels, inbox);
    var active := Union(curr, Dropped(labels, received));
    var after := if UsePull(Cardinality(active), frag.innerNum)
                 then Pull(received, frag.inAdj)
                 else Push(received, active, frag.outAdj, frag.innerNum);
    Finish(frag, received, after, Dropped(received, after))
  }

  // ---------------------------------------------------------------------------
  // Properties of whole rounds

  /**
   Seeding and the first pull round: every label is at most the vertex's own
   global id and at most the global id of each incoming neighbour, every
   label is some vertex's global id, and a vertex is marked exactly when its
   label dropped below its global id (or was already marked).
   */
  lemma PEvalSeeds(frag: Fragment, next: seq<bool>)
    requires frag.Valid() && |next| == frag.VertexNum()
    ensures var r := PEvalRound(frag, next);
            |r.labels| == frag.VertexNum() &&
            (forall v :: 0 <= v < |r.labels| ==> r.labels[v] <= frag.gid[v]) &&
            (forall v, j :: 0 <= v < |r.labels| && 0 <= j < |frag.inAdj[v]| ==>
               r.labels[v] <= frag.gid[frag.inAdj[v][j]]) &&
            LabelsIn(r.labels, Values(frag.gid)) &&
            (forall v :: 0 <= v < |r.labels| ==> (r.modified[v] <==> next[v] || r.labels[v] < frag.gid[v]))
  {
    PullLowers(frag.gid, frag.inAdj);
    PullDrawsFrom(frag.gid, frag.inAdj, frag.VertexNum(), Values(frag.gid));
  }

  /**
   Continuation and messages of `PEval`: it continues iff an inner vertex was
   already marked or its label dropped below its global id, and exactly the
   outer vertices whose label dropped below their global id send their new
   label.
   */
  lemma PEvalBookkeeping(frag: Fragment, next: seq<bool>)
    requires frag.Valid() && |next| == frag.VertexNum()
    ensures var r := PEvalRound(frag, next);
            (r.cont <==> exists v :: 0 <= v < frag.innerNum && (next[v] || r.labels[v] < frag.gid[v])) &&
            (forall i :: 0 <= i < |r.outbox| ==>
               frag.innerNum <= r.outbox[i].vertex < frag.VertexNum() &&
               r.outbox[i].cid == r.labels[r.outbox[i].vertex] < frag.gid[r.outbox[i].vertex]) &&
            (forall v :: frag.innerNum <= v < frag.VertexNum() && r.labels[v] < frag.gid[v] ==>
               exists i :: 0 <= i < |r.outbox| && r.outbox[i].vertex == v)
  {
    var r := PEvalRound(frag, next);
    var d := Dropped(frag.gid, r.labels);
    var marks := Union(next, d);
    assert r == Finish(frag, frag.gid, r.labels, marks);
    assert forall v :: 0 <= v < frag.VertexNum() ==> (marks[v] <==> next[v] || r.labels[v] < frag.gid[v]);
    MsgsForSound(r.labels, d, frag.innerNum, frag.VertexNum());
    forall v | frag.innerNum <= v < frag.VertexNum() && r.labels[v] < frag.gid[v]
      ensures exists i :: 0 <= i < |r.outbox| && r.outbox[i].vertex == v
    {
      MsgsForComplete(r.labels, d, frag.innerNum, frag.VertexNum(), v);
    }
  }

  /** Marks, continuation and messages of `IncEval`, stated on its strategy round. */
  lemma IncEvalBookkeeping(frag: Fragment, labels: seq<Label>, curr: seq<bool>, inbox: seq<Msg>)
    requires frag.Valid() && |labels| == |curr| == frag.VertexNum()
    requires InboxInRange(inbox, frag.VertexNum())
    ensures var received := ReceiveAll(labels, inbox);
            var r := IncEvalRound(frag, labels, curr, inbox);
            |r.labels| == |r.modified| == frag.VertexNum() &&
            (forall v :: 0 <= v < frag.VertexNum() ==> (r.modified[v] <==> r.labels[v] < received[v])) &&
            (r.cont <==> exists v :: 0 <= v < frag.innerNum && r.labels[v] < received[v]) &&
            (forall i :: 0 <= i < |r.outbox| ==>
               frag.innerNum <= r.outbox[i].vertex < frag.VertexNum() &&
               r.outbox[i].cid == r.labels[r.outbox[i].vertex] < received[r.outbox[i].vertex]) &&
            (forall v :: frag.innerNum <= v < frag.VertexNum() && r.labels[v] < received[v] ==>
               exists i :: 0 <= i < |r.outbox| && r.outbox[i].vertex == v)
  {
    var received := ReceiveAll(labels, inbox);
    var r := IncEvalRound(frag, labels, curr, inbox);
    var d := Dropped(received, r.labels);
    MsgsForSound(r.labels, d, frag.innerNum, frag.VertexNum());
    forall v | frag.innerNum <= v < frag.VertexNum() && r.labels[v] < received[v]
      ensures exists i :: 0 <= i < |r.outbox| && r.outbox[i].vertex == v
    {
      MsgsForComplete(r.labels, d, frag.innerNum, frag.VertexNum(), v);
    }
  }

  /**
   `IncEval` never raises a label, and every label it leaves is one the
   vertex held before or one a message carried.
   */
  lemma IncEvalLowers(frag: Fragment, labels: seq<Label>, curr: seq<bool>, inbox: seq<Msg>, pool: set<Label>)
    requires frag.Valid() && |labels| == |curr| == frag.VertexNum()
    requires InboxInRange(inbox, frag.VertexNum())
    requires LabelsIn(labels, pool)
    ensures var r := IncEvalRound(frag, labels, curr, inbox);
            Lowered(labels, r.labels) && LabelsIn(r.labels, pool + InboxLabels(inbox))
  {
    var received := ReceiveAll(labels, inbox);
    var active := Union(curr, Dropped(labels, received));
    var all := pool + InboxLabels(inbox);
    ReceiveLowers(labels, inbox, pool);
    if UsePull(Cardinality(active), frag.innerNum) {
      PullLowers(received, frag.inAdj);
      PullDrawsFrom(received, frag.inAdj, frag.VertexNum(), all);
    } else {
      PushPrefixLowers(received, active, frag.outAdj, 0, frag.innerNum);
      PushDrawsFrom(received, active, frag.outAdj, frag.innerNum, all);
    }
  }

  /**
   Quiescence: with nothing active and nothing received, `IncEval` takes the
   push path, changes no label, marks nothing, sends nothing and does not ask
   for another superstep. In particular a superstep that marked nothing is
   followed by one that changes nothing.
   */
  lemma IncEvalQuiescent(frag: Fragment, labels: seq<Label>, curr: seq<bool>)
    requires frag.Valid() && |labels| == |curr| == frag.VertexNum()
    requires NoneSet(curr)
    ensures !UsePull(Cardinality(curr), frag.innerNum)
    ensures IncEvalRound(frag, labels, curr, []) == Round(labels, curr, false, [])
  {
    var active := Union(curr, Dropped(labels, labels));
    assert active == curr;
    assert !UsePull(Cardinality(active), frag.innerNum);
    PushIdle(labels, active, frag.outAdj, frag.innerNum);
    var r := IncEvalRound(frag, labels, curr, []);
    assert r.labels == labels;
    assert Dropped(labels, labels) == curr;
    MsgsForNone(labels, curr, frag.innerNum, frag.VertexNum());
  }

  /**
   Choosing pull when no vertex would be lowered by it: a pull round leaves
   the labels unchanged and marks nothing exactly when every label is at most
   each incoming neighbour's label.
   */
  lemma IncEvalPullFixpoint(frag: Fragment, labels: seq<Label>, curr: seq<bool>)
    requires frag.Valid() && |labels| == |curr| == frag.VertexNum()
    requires UsePull(Cardinality(curr), frag.innerNum)
    ensures var r := IncEvalRound(frag, labels, curr, []);
            (r.labels == labels && NoneSet(r.modified) && !r.cont && r.outbox == []) <==> PullStable(labels, frag.inAdj)
  {
    var f := Pull(labels, frag.inAdj);
    assert ReceiveAll(labels, []) == labels;
    assert Union(curr, Dropped(labels, labels)) == curr;
    assert IncEvalRound(frag, labels, curr, []) == Finish(frag, labels, f, Dropped(labels, f));
    PullFixpoint(labels, frag.inAdj);
    if f == labels {
      NoDropNoMsgs(frag, labels, f);
    }
  }

  /** Where no label dropped, `Finish` sends nothing. */
  lemma NoDropNoMsgs(frag: Fragment, before: seq<Label>, after: seq<Label>)
    requires frag.Valid() && |before| == |after| == frag.VertexNum()
    requires NoneSet(Dropped(before, after))
    ensures MsgsFor(after, Dropped(before, after), frag.innerNum, frag.VertexNum()) == []
  {
    MsgsForNone(after, Dropped(before, after), frag.innerNum, frag.VertexNum());
  }
}
