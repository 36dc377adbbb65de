/**
 The WCC vertex program on one fragment: the context object with its label
 array and its two modified bitsets, and the superstep handlers that update
 them in place. The message manager is replaced by an inbox handed to
 `IncEval` and an outbox returned by each handler; messages are
 `(local vertex, label)` pairs.
 */
module Wcc {
  import opened Bitset
  import opened Propagation
  import opened Rounds

  class WccContext {
    /** The fragment this context runs on (read-only). */
    const frag: Fragment
    /** `comp_id`: the current label of every local vertex. */
    const compId: array<Label>
    /** Vertices to process this round (`currModified`). */
    const currModified: array<bool>
    /** Vertices changed during this round (`nextModified`). */
    const nextModified: array<bool>

    ghost predicate Valid()
    {
      frag.Valid() &&
      compId.Length == frag.VertexNum() &&
      currModified.Length == frag.VertexNum() &&
      nextModified.Length == frag.VertexNum() &&
      currModified != nextModified
    }

    /** Allocates the per-vertex state, sized to the fragment; both bitsets start empty. */
    constructor (f: Fragment)
      requires f.Valid()
      ensures Valid() && frag == f
      ensures fresh(compId) && fresh(currModified) && fresh(nextModified)
      ensures NoneSet(currModified[..]) && NoneSet(nextModified[..])
    {
      frag := f;
      compId := new Label[f.VertexNum()];
      currModified := new bool[f.VertexNum()](_ => false);
      nextModified := new bool[f.VertexNum()](_ => false);
    }

    // -------------------------------------------------------------------------
    // Pull

    /**
     The pull step of one vertex: scan the incoming neighbours for the least
     label; if it is below the vertex's own, write it and mark the vertex in
     `nextModified`.
     */
    method PullVertex(v: nat) returns (dropped: bool)
      requires Valid() && v < frag.VertexNum()
      modifies compId, nextModified
      ensures compId[..] == PullAt(old(compId[..]), frag.inAdj[v], v)
      ensures dropped == (compId[v] < old(compId[v]))
      ensures nextModified[v] == (old(nextModified[v]) || dropped)
      ensures forall u :: 0 <= u < frag.VertexNum() && u != v ==>
                compId[u] == old(compId[u]) && nextModified[u] == old(nextModified[u])
    {
      var nbrs := frag.inAdj[v];
      assert InRange(nbrs, compId.Length);
      var oldCid := compId[v];
      var newCid := oldCid;
      var j := 0;
      while j < |nbrs|
        invariant 0 <= j <= |nbrs|
        invariant newCid == NbrMin(compId[..], nbrs[..j], oldCid)
      {
        assert nbrs[..j + 1][..j] == nbrs[..j];
        var value := compId[nbrs[j]];
        if value < newCid {
          newCid := value;
        }
        j := j + 1;
      }
      assert nbrs[..j] == nbrs;
      dropped := newCid < oldCid;
      if dropped {
        compId[v] := newCid;
        nextModified[v] := true;
      }
    }

    /**
     The `outgoing` pass of a pull round: the pull steps of the inner vertices,
     in order, in a round that started from labels `orig` and bits `next0`.
     */
    method PullInner(ghost orig: seq<Label>, ghost next0: seq<bool>)
      requires Valid() && |orig| == |next0| == frag.VertexNum()
      requires compId[..] == orig && nextModified[..] == next0
      modifies compId, nextModified
      ensures compId[..] == PullPrefix(orig, frag.inAdj, frag.innerNum)
      ensures forall u :: frag.innerNum <= u < frag.VertexNum() ==> compId[u] == orig[u]
      ensures forall u :: 0 <= u < frag.VertexNum() ==> (nextModified[u] <==> next0[u] || compId[u] < orig[u])
    {
      var v := 0;
      while v < frag.innerNum
        invariant 0 <= v <= frag.innerNum
        invariant compId[..] == PullPrefix(orig, frag.inAdj, v)
        invariant forall u :: v <= u < frag.VertexNum() ==> compId[u] == orig[u]
        invariant forall u :: 0 <= u < frag.VertexNum() ==> (nextModified[u] <==> next0[u] || compId[u] < orig[u])
      {
        var dropped := PullVertex(v);
        v := v + 1;
      }
    }

    /**
     One vertex of the `incoming` pass: its pull step, and its message when
     its label dropped, appended to the messages `sent` so far.
     */
    method PullOuterVertex(v: nat, sent: seq<Msg>, ghost orig: seq<Label>, ghost next0: seq<bool>)
      returns (outbox: seq<Msg>)
      requires Valid() && |orig| == |next0| == frag.VertexNum()
      requires frag.innerNum <= v < frag.VertexNum()
      requires compId[..] == PullPrefix(orig, frag.inAdj, v)
      requires forall u :: v <= u < frag.VertexNum() ==> compId[u] == orig[u]
      requires forall u :: 0 <= u < frag.VertexNum() ==> (nextModified[u] <==> next0[u] || compId[u] < orig[u])
      requires sent == MsgsFor(compId[..], Dropped(orig, compId[..]), frag.innerNum, v)
      modifies compId, nextModified
      ensures compId[..] == PullPrefix(orig, frag.inAdj, v + 1)
      ensures forall u :: v + 1 <= u < frag.VertexNum() ==> compId[u] == orig[u]
      ensures forall u :: 0 <= u < frag.VertexNum() ==> (nextModified[u] <==> next0[u] || compId[u] < orig[u])
      ensures outbox == MsgsFor(compId[..], Dropped(orig, compId[..]), frag.innerNum, v + 1)
    {
      ghost var before := compId[..];
      var dropped := PullVertex(v);
      DroppedMsgsStep(orig, before, compId[..], frag.innerNum, v);
      outbox := if dropped then sent + [Msg(v, compId[v])] else sent;
    }

    /**
     The `incoming` pass of a pull round: the pull steps of the outer
     vertices, in order; each outer vertex whose label dropped sends its new
     label to its owner.
     */
    method PullOuter(ghost orig: seq<Label>, ghost next0: seq<bool>) returns (outbox: seq<Msg>)
      requires Valid() && |orig| == |next0| == frag.VertexNum()
      requires compId[..] == PullPrefix(orig, frag.inAdj, frag.innerNum)
      requires forall u :: frag.innerNum <= u < frag.VertexNum() ==> compId[u] == orig[u]
      requires forall u :: 0 <= u < frag.VertexNum() ==> (nextModified[u] <==> next0[u] || compId[u] < orig[u])
      modifies compId, nextModified
      ensures compId[..] == PullPrefix(orig, frag.inAdj, frag.VertexNum())
      ensures forall u :: 0 <= u < frag.VertexNum() ==> (nextModified[u] <==> next0[u] || compId[u] < orig[u])
      ensures outbox == MsgsFor(compId[..], Dropped(orig, compId[..]), frag.innerNum, frag.VertexNum())
    {
      var v := frag.innerNum;
      outbox := [];
      while v < frag.VertexNum()
        invariant frag.innerNum <= v <= frag.VertexNum()
        invariant compId[..] == PullPrefix(orig, frag.inAdj, v)
        invariant forall u :: v <= u < frag.VertexNum() ==> compId[u] == orig[u]
        invariant forall u :: 0 <= u < frag.VertexNum() ==> (nextModified[u] <==> next0[u] || compId[u] < orig[u])
        invariant outbox == MsgsFor(compId[..], Dropped(orig, compId[..]), frag.innerNum, v)
      {
        outbox := PullOuterVertex(v, outbox, orig, next0);
        v := v + 1;
      }
    }

    /**
     `PropagateLabelPull`: the pull step of every inner vertex, then of every
     outer vertex; an outer vertex whose label dropped sends its new label to
     its owner.
     */
    method PropagateLabelPull() returns (outbox: seq<Msg>)
      requires Valid()
      modifies compId, nextModified
      ensures compId[..] == Pull(old(compId[..]), frag.inAdj)
      ensures nextModified[..] == Union(old(nextModified[..]), Dropped(old(compId[..]), compId[..]))
      ensures outbox == MsgsFor(compId[..], Dropped(old(compId[..]), compId[..]), frag.innerNum, frag.VertexNum())
    {
      ghost var orig := compId[..];
      ghost var next0 := nextModified[..];
      PullInner(orig, next0);
      outbox := PullOuter(orig, next0);
      assert nextModified[..] == Union(next0, Dropped(orig, compId[..]));
    }

    // -------------------------------------------------------------------------
    // Push

    /**
     The push step of one active inner vertex: each outgoing neighbour whose
     label is greater than the source's is lowered to it and marked in
     `nextModified`.
     */
    method PushVertex(v: nat, ghost orig: seq<Label>, ghost next0: seq<bool>)
      requires Valid() && v < frag.VertexNum()
      requires |orig| == |next0| == frag.VertexNum()
      requires forall u :: 0 <= u < frag.VertexNum() ==> compId[u] <= orig[u]
      requires forall u :: 0 <= u < frag.VertexNum() ==> (nextModified[u] <==> next0[u] || compId[u] < orig[u])
      modifies compId, nextModified
      ensures compId[..] == PushNbrs(old(compId[..]), frag.outAdj[v], old(compId[v]))
      ensures forall u :: 0 <= u < frag.VertexNum() ==> compId[u] <= orig[u]
      ensures forall u :: 0 <= u < frag.VertexNum() ==> (nextModified[u] <==> next0[u] || compId[u] < orig[u])
    {
      ghost var start := compId[..];
      var nbrs := frag.outAdj[v];
      assert InRange(nbrs, compId.Length);
      var cid := compId[v];
      var j := 0;
      while j < |nbrs|
        invariant 0 <= j <= |nbrs|
        invariant compId[..] == PushNbrs(start, nbrs[..j], cid)
        invariant forall u :: 0 <= u < frag.VertexNum() ==> compId[u] <= orig[u]
        invariant forall u :: 0 <= u < frag.VertexNum() ==> (nextModified[u] <==> next0[u] || compId[u] < orig[u])
      {
        assert nbrs[..j + 1][..j] == nbrs[..j];
        var cur := nbrs[j];
        if compId[cur] > cid {
          // compareAndSetMinUnsigned: with one writer at a time the minimum is cid
          compId[cur] := cid;
          nextModified[cur] := true;
        }
        j := j + 1;
      }
      assert nbrs[..j] == nbrs;
    }

    /**
     `PropagateLabelPush`: every inner vertex set in `currModified` pushes its
     label along its outgoing edges; then every outer vertex set in
     `nextModified` sends its label to its owner.
     */
    method PropagateLabelPush() returns (outbox: seq<Msg>)
      requires Valid()
      modifies compId, nextModified
      ensures compId[..] == Push(old(compId[..]), currModified[..], frag.outAdj, frag.innerNum)
      ensures nextModified[..] == Union(old(nextModified[..]), Dropped(old(compId[..]), compId[..]))
      ensures outbox == MsgsFor(compId[..], nextModified[..], frag.innerNum, frag.VertexNum())
    {
      ghost var orig := compId[..];
      ghost var next0 := nextModified[..];
      ghost var curr := currModified[..];
      var n := compId.Length;
      var v := 0;
      while v < frag.innerNum
        invariant 0 <= v <= frag.innerNum
        invariant currModified[..] == curr
        invariant compId[..] == PushPrefix(orig, curr, frag.outAdj, v)
        invariant forall u :: 0 <= u < n ==> compId[u] <= orig[u]
        invariant forall u :: 0 <= u < n ==> (nextModified[u] <==> next0[u] || compId[u] < orig[u])
      {
        if currModified[v] {
          PushVertex(v, orig, next0);
        }
        v := v + 1;
      }
      assert nextModified[..] == Union(next0, Dropped(orig, compId[..]));
      outbox := [];
      v := frag.innerNum;
      while v < n
        invariant frag.innerNum <= v <= n
        invariant outbox == MsgsFor(compId[..], nextModified[..], frag.innerNum, v)
      {
        if nextModified[v] {
          outbox := outbox + [Msg(v, compId[v])];
        }
        v := v + 1;
      }
    }

    // -------------------------------------------------------------------------
    // Receive

    /**
     The message pass of `IncEval`: a received label below the vertex's own
     replaces it and marks the vertex in `currModified`.
     */
    method Receive(inbox: seq<Msg>)
      requires Valid() && InboxInRange(inbox, frag.VertexNum())
      modifies compId, currModified
      ensures compId[..] == ReceiveAll(old(compId[..]), inbox)
      ensures currModified[..] == Union(old(currModified[..]), Dropped(old(compId[..]), compId[..]))
    {
      ghost var orig := compId[..];
      ghost var curr0 := currModified[..];
      var i := 0;
      while i < |inbox|
        invariant 0 <= i <= |inbox|
        invariant compId[..] == ReceiveAll(orig, inbox[..i])
        invariant forall u :: 0 <= u < compId.Length ==> compId[u] <= orig[u]
        invariant forall u :: 0 <= u < compId.Length ==> (currModified[u] <==> curr0[u] || compId[u] < orig[u])
      {
        assert inbox[..i + 1][..i] == inbox[..i];
        var m := inbox[i];
        if compId[m.vertex] > m.cid {
          // compareAndSetMinUnsigned: with one writer at a time the minimum is the message's label
          compId[m.vertex] := m.cid;
          currModified[m.vertex] := true;
        }
        i := i + 1;
      }
      assert inbox[..i] == inbox;
      assert currModified[..] == Union(curr0, Dropped(orig, compId[..]));
    }

    // -------------------------------------------------------------------------
    // Round bookkeeping

    /** Signals continuation iff an inner vertex is set in `nextModified`, then `currModified.assign(nextModified)`. */
    method FinishRound() returns (cont: bool)
      requires Valid()
      modifies currModified
      ensures cont == !PartialEmpty(nextModified[..], 0, frag.innerNum)
      ensures currModified[..] == nextModified[..]
    {
      ghost var next := nextModified[..];
      cont := !PartialEmpty(nextModified[..], 0, frag.innerNum);
      forall v | 0 <= v < currModified.Length {
        currModified[v] := nextModified[v];
      }
      assert nextModified[..] == next;
    }

    /** The seeding loops of `PEval`: inner vertices, then outer vertices, take their global ids. */
    method Seed()
      requires Valid()
      modifies compId
      ensures compId[..] == Seeded(frag)
    {
      var n := compId.Length;
      var v := 0;
      while v < frag.innerNum
        invariant 0 <= v <= frag.innerNum
        invariant forall u :: 0 <= u < v ==> compId[u] == frag.gid[u]
      {
        compId[v] := frag.gid[v];
        v := v + 1;
      }
      while v < n
        invariant frag.innerNum <= v <= n
        invariant forall u :: 0 <= u < v ==> compId[u] == frag.gid[u]
      {
        compId[v] := frag.gid[v];
        v := v + 1;
      }
    }

    /** The first superstep: seed every label with its global id, then one pull round. */
    method PEval() returns (cont: bool, outbox: seq<Msg>)
      requires Valid()
      modifies compId, currModified, nextModified
      ensures var r := PEvalRound(frag, old(nextModified[..]));
              compId[..] == r.labels && currModified[..] == r.modified && nextModified[..] == r.modified &&
              cont == r.cont && outbox == r.outbox
    {
      ghost var next0 := nextModified[..];
      Seed();
      assert nextModified[..] == next0;
      outbox := PropagateLabelPull();
      ghost var next1 := nextModified[..];
      assert next1 == Union(next0, Dropped(Seeded(frag), compId[..]));
      cont := FinishRound();
    }

    /**
     Every later superstep: clear `nextModified`, apply the inbox, then a pull
     round if more than a tenth of the inner vertex count is set in
     `currModified` and a push round otherwise.
     */
    method IncEval(inbox: seq<Msg>) returns (cont: bool, outbox: seq<Msg>)
      requires Valid() && InboxInRange(inbox, frag.VertexNum())
      modifies compId, currModified, nextModified
      ensures var r := IncEvalRound(frag, old(compId[..]), old(currModified[..]), inbox);
              compId[..] == r.labels && currModified[..] == r.modified && nextModified[..] == r.modified &&
              cont == r.cont && outbox == r.outbox
    {
      ghost var labels0 := compId[..];
      ghost var curr0 := currModified[..];
      forall v | 0 <= v < nextModified.Length {
        nextModified[v] := false;
      }
      assert compId[..] == labels0 && currModified[..] == curr0;
      Receive(inbox);
      ghost var received := compId[..];
      ghost var active := currModified[..];
      assert received == ReceiveAll(labels0, inbox);
      assert active == Union(curr0, Dropped(labels0, received));
      assert NoneSet(nextModified[..]);
      var card := Cardinality(currModified[..]);
      if UsePull(card, frag.innerNum) {
        outbox := PropagateLabelPull();
        assert compId[..] == Pull(received, frag.inAdj);
      } else {
        outbox := PropagateLabelPush();
        assert compId[..] == Push(received, active, frag.outAdj, frag.innerNum);
        assert nextModified[..] == Dropped(received, compId[..]);
      }
      assert nextModified[..] == Dropped(received, compId[..]);
      assert outbox == MsgsFor(compId[..], Dropped(received, compId[..]), frag.innerNum, frag.VertexNum());
      cont := FinishRound();
    }
  }
}
