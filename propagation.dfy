/**
 Min-label propagation over one graph fragment, as values.

 Local vertices are `0 .. VertexNum()-1`; the inner (owned) vertices are
 `[0, innerNum)` and the outer (ghost) vertices follow them. A label is an
 unsigned 64-bit component id; since every label lies in `[0, 2^64)`, the
 unsigned comparison of the source is the ordinary order on these integers.

 The vertex loops of the source run on a thread pool; here they run one vertex
 at a time in index order, so a vertex reads the labels its predecessors in the
 same loop have already written. This is one of the schedules the source allows.
 */
module Propagation {
  import opened Bitset

  const LABEL_LIMIT: int := 0x1_0000_0000_0000_0000

  /** An unsigned 64-bit label. */
  type Label = x: int | 0 <= x < LABEL_LIMIT

  /** Every entry of `nbrs` is a local vertex index below `n`. */
  predicate InRange(nbrs: seq<nat>, n: nat)
  {
    forall j :: 0 <= j < |nbrs| ==> nbrs[j] < n
  }

  /** Every adjacency list of `adj` names local vertices below `n`. */
  predicate AdjInRange(adj: seq<seq<nat>>, n: nat)
  {
    forall v, j :: 0 <= v < |adj| && 0 <= j < |adj[v]| ==> adj[v][j] < n
  }

  /**
   The read-only view of a fragment the kernel uses: the number of inner
   vertices, the global id of every local vertex, and the incoming and
   outgoing neighbour lists of every local vertex.
   */
  datatype Fragment = Fragment(innerNum: nat, gid: seq<Label>,
                               inAdj: seq<seq<nat>>, outAdj: seq<seq<nat>>)
  {
    function VertexNum(): nat
    {
      |gid|
    }

    predicate Valid()
    {
      innerNum <= |gid| && |inAdj| == |gid| && |outAdj| == |gid| &&
      AdjInRange(inAdj, |gid|) && AdjInRange(outAdj, |gid|)
    }
  }

  /** A label message: the target local vertex and the label it carries. */
  datatype Msg = Msg(vertex: nat, cid: Label)

  /** Every message of `inbox` targets a local vertex below `n`. */
  predicate InboxInRange(inbox: seq<Msg>, n: nat)
  {
    forall i :: 0 <= i < |inbox| ==> inbox[i].vertex < n
  }

  /** The labels carried by the messages of `inbox`. */
  ghost function InboxLabels(inbox: seq<Msg>): set<Label>
  {
    set i | 0 <= i < |inbox| :: inbox[i].cid
  }

  /** Every label of `labels` is drawn from `pool`. */
  ghost predicate LabelsIn(labels: seq<Label>, pool: set<Label>)
  {
    forall v :: 0 <= v < |labels| ==> labels[v] in pool
  }

  /** The set of values of a label sequence. */
  ghost function Values(labels: seq<Label>): set<Label>
  {
    set v | 0 <= v < |labels| :: labels[v]
  }

  /** Bit `v` is set exactly when the label of `v` went strictly down from `before` to `after`. */
  function Dropped(before: seq<Label>, after: seq<Label>): (d: seq<bool>)
    requires |before| == |after|
    ensures |d| == |before|
  {
    seq(|before|, v requires 0 <= v < |before| => after[v] < before[v])
  }

  /** No label increased. */
  ghost predicate Lowered(before: seq<Label>, after: seq<Label>)
  {
    |before| == |after| && forall v :: 0 <= v < |before| ==> after[v] <= before[v]
  }

  // ---------------------------------------------------------------------------
  // Messages

  /**
   The messages for the vertices of `[lo, hi)` whose `send` bit is set, in
   index order, each carrying that vertex's label.
   */
  function MsgsFor(labels: seq<Label>, send: seq<bool>, lo: nat, hi: nat): (out: seq<Msg>)
    requires hi <= |labels| && hi <= |send|
    ensures hi <= lo ==> out == []
    ensures lo <= hi ==> |out| <= hi - lo
    decreases hi
  {
    if hi <= lo then []
    else MsgsFor(labels, send, lo, hi - 1) + (if send[hi - 1] then [Msg(hi - 1, labels[hi - 1])] else [])
  }

  /**
   Every message is for a vertex of `[lo, hi)` whose bit is set and carries
   that vertex's label; the targets strictly ascend, so no vertex sends twice.
   */
  lemma {:induction false} MsgsForSound(labels: seq<Label>, send: seq<bool>, lo: nat, hi: nat)
    requires hi <= |labels| && hi <= |send|
    ensures forall i :: 0 <= i < |MsgsFor(labels, send, lo, hi)| ==>
              var m := MsgsFor(labels, send, lo, hi)[i];
              lo <= m.vertex < hi && send[m.vertex] && m.cid == labels[m.vertex]
    ensures forall i, j :: 0 <= i < j < |MsgsFor(labels, send, lo, hi)| ==>
              MsgsFor(labels, send, lo, hi)[i].vertex < MsgsFor(labels, send, lo, hi)[j].vertex
    decreases hi
  {
    if lo < hi {
      MsgsForSound(labels, send, lo, hi - 1);
      var front := MsgsFor(labels, send, lo, hi - 1);
      var tail := if send[hi - 1] then [Msg(hi - 1, labels[hi - 1])] else [];
      var out := MsgsFor(labels, send, lo, hi);
      assert out == front + tail;
      forall i | 0 <= i < |out|
        ensures lo <= out[i].vertex < hi && send[out[i].vertex] && out[i].cid == labels[out[i].vertex]
      {
        if i < |front| {
          assert out[i] == front[i];
          assert lo <= front[i].vertex < hi - 1;
        } else {
          assert out[i] == tail[i - |front|];
        }
      }
      forall i, j | 0 <= i < j < |out| ensures out[i].vertex < out[j].vertex {
        assert out[i] == front[i];
        if j < |front| { assert out[j] == front[j]; }
      }
    }
  }

  /** Every vertex of `[lo, hi)` whose `send` bit is set has a message. */
  lemma {:induction false} MsgsForComplete(labels: seq<Label>, send: seq<bool>, lo: nat, hi: nat, v: nat)
    requires hi <= |labels| && hi <= |send|
    requires lo <= v < hi && send[v]
    ensures exists i :: 0 <= i < |MsgsFor(labels, send, lo, hi)| && MsgsFor(labels, send, lo, hi)[i].vertex == v
  {
    var front := MsgsFor(labels, send, lo, hi - 1);
    if v == hi - 1 {
      assert MsgsFor(labels, send, lo, hi)[|front|].vertex == v;
    } else {
      MsgsForComplete(labels, send, lo, hi - 1, v);
      var i :| 0 <= i < |front| && front[i].vertex == v;
      assert MsgsFor(labels, send, lo, hi)[i] == front[i];
    }
  }

  /** No bit set in `[lo, hi)`: no message. */
  lemma {:induction false} MsgsForNone(labels: seq<Label>, send: seq<bool>, lo: nat, hi: nat)
    requires hi <= |labels| && hi <= |send|
    requires forall v :: lo <= v < hi ==> !send[v]
    ensures MsgsFor(labels, send, lo, hi) == []
    decreases hi
  {
    if lo < hi {
      MsgsForNone(labels, send, lo, hi - 1);
    }
  }

  /** The messages depend only on the labels and bits inside `[lo, hi)`. */
  lemma {:induction false} MsgsForFrame(l1: seq<Label>, s1: seq<bool>, l2: seq<Label>, s2: seq<bool>, lo: nat, hi: nat)
    requires hi <= |l1| && hi <= |s1| && hi <= |l2| && hi <= |s2|
    requires forall v :: lo <= v < hi ==> l1[v] == l2[v] && s1[v] == s2[v]
    ensures MsgsFor(l1, s1, lo, hi) == MsgsFor(l2, s2, lo, hi)
    decreases hi
  {
    if lo < hi {
      MsgsForFrame(l1, s1, l2, s2, lo, hi - 1);
      assert l1[hi - 1] == l2[hi - 1] && s1[hi - 1] == s2[hi - 1];
    }
  }

  /**
   One more vertex `v` of a round that started from `orig`: if only `v`'s
   label changed, the messages for the dropped vertices grow by `v`'s exactly
   when `v`'s label is now below its original one.
   */
  lemma DroppedMsgsStep(orig: seq<Label>, before: seq<Label>, after: seq<Label>, lo: nat, v: nat)
    requires |orig| == |before| == |after| && v < |orig|
    requires forall u :: 0 <= u < |orig| && u != v ==> before[u] == after[u]
    ensures MsgsFor(after, Dropped(orig, after), lo, v + 1) ==
            MsgsFor(before, Dropped(orig, before), lo, v) +
            (if lo <= v && after[v] < orig[v] then [Msg(v, after[v])] else [])
  {
    MsgsForFrame(before, Dropped(orig, before), after, Dropped(orig, after), lo, v);
  }

  // ---------------------------------------------------------------------------
  // Pull round

  /**
   The value of `newCid` after the scan of the incoming neighbours `nbrs`,
   starting from `init`: the minimum of `init` and the neighbours' labels.
   */
  function NbrMin(labels: seq<Label>, nbrs: seq<nat>, init: Label): (m: Label)
    requires InRange(nbrs, |labels|)
    ensures m <= init
    ensures forall j :: 0 <= j < |nbrs| ==> m <= labels[nbrs[j]]
  {
    if |nbrs| == 0 then init
    else
      var m := NbrMin(labels, nbrs[..|nbrs| - 1], init);
      var value := labels[nbrs[|nbrs| - 1]];
      if value < m then value else m
  }

  /** The neighbour minimum is attained: it is `init` or some neighbour's label. */
  lemma {:induction false} NbrMinAttained(labels: seq<Label>, nbrs: seq<nat>, init: Label)
    requires InRange(nbrs, |labels|)
    ensures NbrMin(labels, nbrs, init) == init ||
            exists j :: 0 <= j < |nbrs| && NbrMin(labels, nbrs, init) == labels[nbrs[j]]
  {
    if |nbrs| > 0 {
      var front := nbrs[..|nbrs| - 1];
      NbrMinAttained(labels, front, init);
      if NbrMin(labels, nbrs, init) != init && NbrMin(labels, nbrs, init) == NbrMin(labels, front, init) {
        var j :| 0 <= j < |front| && NbrMin(labels, front, init) == labels[front[j]];
        assert front[j] == nbrs[j];
      }
    }
  }

  /** The labels after the pull step of vertex `v`, whose incoming neighbours are `nbrs`. */
  function PullAt(labels: seq<Label>, nbrs: seq<nat>, v: nat): (r: seq<Label>)
    requires v < |labels| && InRange(nbrs, |labels|)
    ensures |r| == |labels|
  {
    var newCid := NbrMin(labels, nbrs, labels[v]);
    if newCid < labels[v] then labels[v := newCid] else labels
  }

  /** The labels after the pull steps of vertices `0 .. k-1`, in that order. */
  function PullPrefix(labels: seq<Label>, adj: seq<seq<nat>>, k: nat): (r: seq<Label>)
    requires k <= |labels| == |adj| && AdjInRange(adj, |labels|)
    ensures |r| == |labels|
  {
    if k == 0 then labels else PullAt(PullPrefix(labels, adj, k - 1), adj[k - 1], k - 1)
  }

  /** A whole pull round: every local vertex, inner ones first, then outer ones. */
  function Pull(labels: seq<Label>, adj: seq<seq<nat>>): (r: seq<Label>)
    requires |labels| == |adj| && AdjInRange(adj, |labels|)
    ensures |r| == |labels|
  {
    PullPrefix(labels, adj, |labels|)
  }

  /** After `k` pull steps, the vertices from `k` on still hold their original labels. */
  lemma {:induction false} PullPrefixRest(labels: seq<Label>, adj: seq<seq<nat>>, k: nat)
    requires k <= |labels| == |adj| && AdjInRange(adj, |labels|)
    ensures forall u :: k <= u < |labels| ==> PullPrefix(labels, adj, k)[u] == labels[u]
  {
    if k > 0 {
      PullPrefixRest(labels, adj, k - 1);
    }
  }

  /** A vertex below `i` keeps the label its own step gave it through the later steps. */
  lemma {:induction false} PullPrefixDone(labels: seq<Label>, adj: seq<seq<nat>>, i: nat, k: nat)
    requires k <= |labels| == |adj| && AdjInRange(adj, |labels|)
    requires i <= k
    ensures forall u :: 0 <= u < i ==> PullPrefix(labels, adj, k)[u] == PullPrefix(labels, adj, i)[u]
  {
    if i < k {
      PullPrefixDone(labels, adj, i, k - 1);
    }
  }

  /**
   Pull, vertex by vertex: the new label of `v` is the minimum of its old label
   and the labels of its incoming neighbours as `v` reads them, which are the
   round results for the vertices before `v` and the old labels for the rest.
   */
  lemma PullAtVertex(labels: seq<Label>, adj: seq<seq<nat>>, v: nat)
    requires |labels| == |adj| && AdjInRange(adj, |labels|)
    requires v < |labels|
    ensures var f := Pull(labels, adj);
            f[v] == NbrMin(f[..v] + labels[v..], adj[v], labels[v])
  {
    var f := Pull(labels, adj);
    var seen := PullPrefix(labels, adj, v);
    PullPrefixRest(labels, adj, v);
    PullPrefixDone(labels, adj, v, |labels|);
    PullPrefixDone(labels, adj, v + 1, |labels|);
    assert seen == f[..v] + labels[v..];
    assert PullPrefix(labels, adj, v + 1)[v] == f[v];
  }

  /**
   Pull never raises a label, and afterwards every vertex's label is at most
   the old label of each of its incoming neighbours.
   */
  lemma PullLowers(labels: seq<Label>, adj: seq<seq<nat>>)
    requires |labels| == |adj| && AdjInRange(adj, |labels|)
    ensures Lowered(labels, Pull(labels, adj))
    ensures var f := Pull(labels, adj);
            forall v, j :: 0 <= v < |labels| && 0 <= j < |adj[v]| ==> f[v] <= labels[adj[v][j]]
  {
    var f := Pull(labels, adj);
    forall v | 0 <= v < |labels| ensures f[v] <= labels[v] {
      PullAtVertex(labels, adj, v);
    }
    forall v, j | 0 <= v < |labels| && 0 <= j < |adj[v]| ensures f[v] <= labels[adj[v][j]] {
      PullAtVertex(labels, adj, v);
      var u := adj[v][j];
      assert (f[..v] + labels[v..])[u] <= labels[u] by {
        if u < v { assert (f[..v] + labels[v..])[u] == f[u]; }
        else { assert (f[..v] + labels[v..])[u] == labels[u]; }
      }
    }
  }

  /** Every label after pull is one of the labels before it. */
  lemma {:induction false} PullDrawsFrom(labels: seq<Label>, adj: seq<seq<nat>>, k: nat, pool: set<Label>)
    requires k <= |labels| == |adj| && AdjInRange(adj, |labels|)
    requires LabelsIn(labels, pool)
    ensures LabelsIn(PullPrefix(labels, adj, k), pool)
  {
    if k > 0 {
      PullDrawsFrom(labels, adj, k - 1, pool);
      var prev := PullPrefix(labels, adj, k - 1);
      var m := NbrMin(prev, adj[k - 1], prev[k - 1]);
      NbrMinAttained(prev, adj[k - 1], prev[k - 1]);
      assert m in pool;
    }
  }

  /** Every vertex's label is at most the label of each of its incoming neighbours. */
  ghost predicate PullStable(labels: seq<Label>, adj: seq<seq<nat>>)
    requires |labels| == |adj| && AdjInRange(adj, |labels|)
  {
    forall v, j :: 0 <= v < |labels| && 0 <= j < |adj[v]| ==> labels[v] <= labels[adj[v][j]]
  }

  /**
   Fixpoint: a pull round changes (and hence marks) no vertex exactly when
   every label is already at most each incoming neighbour's label.
   */
  lemma PullFixpoint(labels: seq<Label>, adj: seq<seq<nat>>)
    requires |labels| == |adj| && AdjInRange(adj, |labels|)
    ensures Pull(labels, adj) == labels <==> PullStable(labels, adj)
  {
    if Pull(labels, adj) == labels {
      PullLowers(labels, adj);
    }
    if PullStable(labels, adj) {
      PullStableUnchanged(labels, adj, |labels|);
    }
  }

  lemma {:induction false} PullStableUnchanged(labels: seq<Label>, adj: seq<seq<nat>>, k: nat)
    requires k <= |labels| == |adj| && AdjInRange(adj, |labels|)
    requires PullStable(labels, adj)
    ensures PullPrefix(labels, adj, k) == labels
  {
    if k > 0 {
      PullStableUnchanged(labels, adj, k - 1);
      var m := NbrMin(labels, adj[k - 1], labels[k - 1]);
      NbrMinAttained(labels, adj[k - 1], labels[k - 1]);
      assert m == labels[k - 1];
    }
  }

  // ---------------------------------------------------------------------------
  // Push round

  /**
   The labels after source label `cid` is pushed along the outgoing neighbours
   `nbrs`, in order: each neighbour whose label is greater is lowered to `cid`.
   */
  function PushNbrs(labels: seq<Label>, nbrs: seq<nat>, cid: Label): (r: seq<Label>)
    requires InRange(nbrs, |labels|)
    ensures |r| == |labels|
  {
    if |nbrs| == 0 then labels
    else
      var l := PushNbrs(labels, nbrs[..|nbrs| - 1], cid);
      var cur := nbrs[|nbrs| - 1];
      if l[cur] > cid then l[cur := cid] else l
  }

  /**
   After pushing `cid`, a listed neighbour holds the minimum of its label and
   `cid`; every other vertex is untouched. The order of the list is irrelevant.
   */
  lemma {:induction false} PushNbrsAt(labels: seq<Label>, nbrs: seq<nat>, cid: Label, w: nat)
    requires InRange(nbrs, |labels|) && w < |labels|
    ensures PushNbrs(labels, nbrs, cid)[w] == if w in nbrs && labels[w] > cid then cid else labels[w]
  {
    if |nbrs| > 0 {
      var front := nbrs[..|nbrs| - 1];
      PushNbrsAt(labels, front, cid, w);
      assert w in nbrs <==> w in front || w == nbrs[|nbrs| - 1] by {
        assert nbrs == front + [nbrs[|nbrs| - 1]];
      }
    }
  }

  /** The labels after the inner vertices `0 .. k-1` that are set in `curr` have pushed. */
  function PushPrefix(labels: seq<Label>, curr: seq<bool>, adj: seq<seq<nat>>, k: nat): (r: seq<Label>)
    requires k <= |labels| == |adj| && |curr| == |labels| && AdjInRange(adj, |labels|)
    ensures |r| == |labels|
  {
    if k == 0 then labels
    else
      var l := PushPrefix(labels, curr, adj, k - 1);
      if curr[k - 1] then PushNbrs(l, adj[k - 1], l[k - 1]) else l
  }

  /** A whole push round: the active inner vertices, in index order. */
  function Push(labels: seq<Label>, curr: seq<bool>, adj: seq<seq<nat>>, innerNum: nat): (r: seq<Label>)
    requires innerNum <= |labels| == |adj| && |curr| == |labels| && AdjInRange(adj, |labels|)
    ensures |r| == |labels|
  {
    PushPrefix(labels, curr, adj, innerNum)
  }

  /** Later push states are pointwise no greater than earlier ones. */
  lemma {:induction false} PushPrefixLowers(labels: seq<Label>, curr: seq<bool>, adj: seq<seq<nat>>, i: nat, k: nat)
    requires k <= |labels| == |adj| && |curr| == |labels| && AdjInRange(adj, |labels|)
    requires i <= k
    ensures Lowered(PushPrefix(labels, curr, adj, i), PushPrefix(labels, curr, adj, k))
  {
    if i < k {
      PushPrefixLowers(labels, curr, adj, i, k - 1);
      var prev := PushPrefix(labels, curr, adj, k - 1);
      if curr[k - 1] {
        forall w | 0 <= w < |labels| ensures PushPrefix(labels, curr, adj, k)[w] <= prev[w] {
          PushNbrsAt(prev, adj[k - 1], prev[k - 1], w);
        }
      }
    }
  }

  /**
   Push never raises a label. For every source (an inner vertex set in
   `curr`), each outgoing neighbour ends at most at the label the source had
   when it acted: a neighbour above it was lowered to it.
   */
  lemma PushSourceBound(labels: seq<Label>, curr: seq<bool>, adj: seq<seq<nat>>, innerNum: nat, v: nat, j: nat)
    requires innerNum <= |labels| == |adj| && |curr| == |labels| && AdjInRange(adj, |labels|)
    requires v < innerNum && curr[v] && j < |adj[v]|
    ensures Lowered(labels, Push(labels, curr, adj, innerNum))
    ensures var acted := PushPrefix(labels, curr, adj, v);
            var u := adj[v][j];
            PushPrefix(labels, curr, adj, v + 1)[u] == (if acted[u] > acted[v] then acted[v] else acted[u]) &&
            Push(labels, curr, adj, innerNum)[u] <= acted[v]
  {
    PushPrefixLowers(labels, curr, adj, 0, innerNum);
    var acted := PushPrefix(labels, curr, adj, v);
    var u := adj[v][j];
    PushNbrsAt(acted, adj[v], acted[v], u);
    assert u in adj[v];
    PushPrefixLowers(labels, curr, adj, v + 1, innerNum);
  }

  /** A push round with no active inner vertex changes no label. */
  lemma {:induction false} PushIdle(labels: seq<Label>, curr: seq<bool>, adj: seq<seq<nat>>, k: nat)
    requires k <= |labels| == |adj| && |curr| == |labels| && AdjInRange(adj, |labels|)
    requires forall v :: 0 <= v < k ==> !curr[v]
    ensures PushPrefix(labels, curr, adj, k) == labels
  {
    if k > 0 {
      PushIdle(labels, curr, adj, k - 1);
    }
  }

  /** Every label after push is one of the labels before it. */
  lemma {:induction false} PushDrawsFrom(labels: seq<Label>, curr: seq<bool>, adj: seq<seq<nat>>, k: nat, pool: set<Label>)
    requires k <= |labels| == |adj| && |curr| == |labels| && AdjInRange(adj, |labels|)
    requires LabelsIn(labels, pool)
    ensures LabelsIn(PushPrefix(labels, curr, adj, k), pool)
  {
    if k > 0 {
      PushDrawsFrom(labels, curr, adj, k - 1, pool);
      var prev := PushPrefix(labels, curr, adj, k - 1);
      if curr[k - 1] {
        forall w | 0 <= w < |labels| ensures PushPrefix(labels, curr, adj, k)[w] in pool {
          PushNbrsAt(prev, adj[k - 1], prev[k - 1], w);
        }
      }
    }
  }

  /**
   Only active inner vertices act as sources: after the pushes of `0 .. k-1`, a
   vertex keeps its label unless some vertex `v < k` set in `curr` lists it as
   an outgoing neighbour, and then it holds the label `v` had when it acted.
   */
  lemma {:induction false} PushOnlySources(labels: seq<Label>, curr: seq<bool>, adj: seq<seq<nat>>, k: nat, w: nat)
    requires k <= |labels| == |adj| && |curr| == |labels| && AdjInRange(adj, |labels|)
    requires w < |labels|
    ensures PushPrefix(labels, curr, adj, k)[w] == labels[w] ||
            exists v :: 0 <= v < k && curr[v] && w in adj[v] &&
              PushPrefix(labels, curr, adj, k)[w] == PushPrefix(labels, curr, adj, v)[v]
  {
    if k > 0 {
      PushOnlySources(labels, curr, adj, k - 1, w);
      var prev := PushPrefix(labels, curr, adj, k - 1);
      if curr[k - 1] {
        PushNbrsAt(prev, adj[k - 1], prev[k - 1], w);
      }
    }
  }

  // ---------------------------------------------------------------------------
  // Receive

  /** The labels after the messages of `inbox` are applied in order. */
  function ReceiveAll(labels: seq<Label>, inbox: seq<Msg>): (r: seq<Label>)
    requires InboxInRange(inbox, |labels|)
    ensures |r| == |labels|
  {
    if |inbox| == 0 then labels
    else
      var l := ReceiveAll(labels, inbox[..|inbox| - 1]);
      var m := inbox[|inbox| - 1];
      if l[m.vertex] > m.cid then l[m.vertex := m.cid] else l
  }

  /**
   Receive, vertex by vertex: each label ends at the minimum of its old value
   and the labels of the messages addressed to it.
   */
  lemma {:induction false} ReceiveAt(labels: seq<Label>, inbox: seq<Msg>, w: nat)
    requires InboxInRange(inbox, |labels|) && w < |labels|
    ensures var r := ReceiveAll(labels, inbox);
            r[w] <= labels[w] &&
            (forall i :: 0 <= i < |inbox| && inbox[i].vertex == w ==> r[w] <= inbox[i].cid) &&
            (r[w] == labels[w] || exists i :: 0 <= i < |inbox| && inbox[i].vertex == w && r[w] == inbox[i].cid)
  {
    if |inbox| > 0 {
      var front := inbox[..|inbox| - 1];
      ReceiveAt(labels, front, w);
      assert forall i :: 0 <= i < |front| ==> front[i] == inbox[i];
    }
  }

  /** Receive never raises a label, and every label it writes is a message's. */
  lemma ReceiveLowers(labels: seq<Label>, inbox: seq<Msg>, pool: set<Label>)
    requires InboxInRange(inbox, |labels|)
    requires LabelsIn(labels, pool)
    ensures Lowered(labels, ReceiveAll(labels, inbox))
    ensures LabelsIn(ReceiveAll(labels, inbox), pool + InboxLabels(inbox))
  {
    forall w | 0 <= w < |labels|
      ensures ReceiveAll(labels, inbox)[w] <= labels[w]
      ensures ReceiveAll(labels, inbox)[w] in pool + InboxLabels(inbox)
    {
      ReceiveAt(labels, inbox, w);
    }
  }

  /** The messages may be applied in any order: only which messages arrived matters. */
  lemma ReceiveOrderFree(labels: seq<Label>, inbox1: seq<Msg>, inbox2: seq<Msg>)
    requires InboxInRange(inbox1, |labels|)
    requires multiset(inbox1) == multiset(inbox2)
    ensures InboxInRange(inbox2, |labels|)
    ensures ReceiveAll(labels, inbox1) == ReceiveAll(labels, inbox2)
  {
    forall i | 0 <= i < |inbox2| ensures inbox2[i].vertex < |labels| {
      assert inbox2[i] in multiset(inbox1);
    }
    var r1, r2 := ReceiveAll(labels, inbox1), ReceiveAll(labels, inbox2);
    forall w | 0 <= w < |labels| ensures r1[w] == r2[w] {
      ReceiveAt(labels, inbox1, w);
      ReceiveAt(labels, inbox2, w);
      if r1[w] != labels[w] {
        var i :| 0 <= i < |inbox1| && inbox1[i].vertex == w && r1[w] == inbox1[i].cid;
        assert inbox1[i] in multiset(inbox2);
        var k :| 0 <= k < |inbox2| && inbox2[k] == inbox1[i];
      }
      if r2[w] != labels[w] {
        var i :| 0 <= i < |inbox2| && inbox2[i].vertex == w && r2[w] == inbox2[i].cid;
        assert inbox2[i] in multiset(inbox1);
        var k :| 0 <= k < |inbox1| && inbox1[k] == inbox2[i];
      }
    }
  }
}
