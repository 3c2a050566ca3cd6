/** For each packet of a cleaned trace, whether older bytes on its logical channel were still unsent
    when it was enqueued: one sweep with a heap of pending service times for each channel. */
module FreshBacklog {
  import opened Wrappers

  /** A packet with its missing cells; the sweep takes packets sorted by enqueue time. */
  datatype Packet = Packet(enqueue: Option<real>, lastTx: Option<real>, lcid: Option<int>)

  // ---------- the heap ----------

  predicate Child(i: int, j: int) { j == 2 * i + 1 || j == 2 * i + 2 }

  predicate IsHeap(s: seq<real>) {
    forall i, j :: 0 <= i < j < |s| && Child(i, j) ==> s[i] <= s[j]
  }

  lemma {:induction false} RootIsLeast(s: seq<real>, i: nat)
    requires IsHeap(s) && i < |s|
    ensures s[0] <= s[i]
  {
    if i > 0 {
      assert Child((i - 1) / 2, i);
      RootIsLeast(s, (i - 1) / 2);
    }
  }

  // The children of pos are no less than its parent.
  predicate Bridged(s: seq<real>, pos: nat) {
    forall i, j :: 0 <= i < pos < j < |s| && Child(i, pos) && Child(pos, j) ==> s[i] <= s[j]
  }

  // A heap, except that the element at pos may be less than its parent.
  predicate HeapButUp(s: seq<real>, pos: nat) {
    && (forall i, j :: 0 <= i < j < |s| && Child(i, j) && j != pos ==> s[i] <= s[j])
    && Bridged(s, pos)
  }

  // A heap, except that the element at pos may be greater than its children.
  predicate HeapButDown(s: seq<real>, pos: nat) {
    && (forall i, j :: 0 <= i < j < |s| && Child(i, j) && i != pos ==> s[i] <= s[j])
    && Bridged(s, pos)
  }

  function Swapped(s: seq<real>, i: nat, j: nat): seq<real>
    requires i < |s| && j < |s|
  {
    s[i := s[j]][j := s[i]]
  }

  lemma MoveUp(s: seq<real>, parent: nat, pos: nat)
    requires pos < |s| && parent < pos && Child(parent, pos) && HeapButUp(s, pos) && s[pos] < s[parent]
    ensures HeapButUp(Swapped(s, pos, parent), parent)
  {
    var t := Swapped(s, pos, parent);
    forall i, j | 0 <= i < j < |t| && Child(i, j) && j != parent
      ensures t[i] <= t[j]
    {
    }
  }

  lemma MoveDown(s: seq<real>, pos: nat, child: nat)
    requires pos < child < |s| && Child(pos, child) && HeapButDown(s, pos) && s[child] < s[pos]
    requires forall j :: pos < j < |s| && Child(pos, j) ==> s[child] <= s[j]
    ensures HeapButDown(Swapped(s, pos, child), child)
  {
    var t := Swapped(s, pos, child);
    forall i, j | 0 <= i < j < |t| && Child(i, j) && i != child
      ensures t[i] <= t[j]
    {
    }
  }

  lemma AppendedButUp(s: seq<real>, x: real)
    requires IsHeap(s)
    ensures HeapButUp(s + [x], |s|)
  {
  }

  lemma NoGreaterParent(s: seq<real>, pos: nat)
    requires pos < |s| && HeapButUp(s, pos) && (pos > 0 ==> s[(pos - 1) / 2] <= s[pos])
    ensures IsHeap(s)
  {
    assert forall i, j :: 0 <= i < j && Child(i, j) ==> i == (j - 1) / 2;
  }

  lemma NoSmallerChild(s: seq<real>, pos: nat)
    requires pos < |s| && HeapButDown(s, pos) && forall j :: pos < j < |s| && Child(pos, j) ==> s[pos] <= s[j]
    ensures IsHeap(s)
  {
  }

  // The smaller child of pos, as heapq picks it.
  function SmallerChild(s: seq<real>, pos: nat): (child: nat)
    requires 2 * pos + 1 < |s|
    ensures pos < child < |s| && Child(pos, child) && forall j :: pos < j < |s| && Child(pos, j) ==> s[child] <= s[j]
  {
    if 2 * pos + 2 < |s| && s[2 * pos + 2] <= s[2 * pos + 1] then 2 * pos + 2 else 2 * pos + 1
  }

  class Heap {
    var data: seq<real>

    constructor ()
      ensures data == []
    {
      data := [];
    }

    method Push(x: real)
      requires IsHeap(data)
      modifies this
      ensures IsHeap(data) && multiset(data) == multiset(old(data)) + multiset{x}
    {
      AppendedButUp(data, x);
      data := data + [x];
      SiftUp(|data| - 1);
    }

    // Lets the element at pos rise.
    method SiftUp(start: nat)
      requires start < |data| && HeapButUp(data, start)
      modifies this
      ensures IsHeap(data) && multiset(data) == multiset(old(data))
    {
      var pos: nat := start;
      while pos > 0 && data[pos] < data[(pos - 1) / 2]
        invariant pos < |data| && HeapButUp(data, pos) && multiset(data) == multiset(old(data))
        decreases pos
      {
        var parent := (pos - 1) / 2;
        MoveUp(data, parent, pos);
        data := Swapped(data, pos, parent);
        pos := parent;
      }
      NoGreaterParent(data, pos);
    }

    // Lets the element at the root sink.
    method SiftDown()
      requires HeapButDown(data, 0) && data != []
      modifies this
      ensures IsHeap(data) && multiset(data) == multiset(old(data))
    {
      var pos: nat := 0;
      while 2 * pos + 1 < |data| && data[SmallerChild(data, pos)] < data[pos]
        invariant pos < |data| && HeapButDown(data, pos) && multiset(data) == multiset(old(data))
        decreases |data| - pos
      {
        var child := SmallerChild(data, pos);
        MoveDown(data, pos, child);
        data := Swapped(data, pos, child);
        pos := child;
      }
      NoSmallerChild(data, pos);
    }

    method Pop() returns (x: real)
      requires IsHeap(data) && data != []
      modifies this
      ensures IsHeap(data) && multiset(old(data)) == multiset(data) + multiset{x}
      ensures x == old(data)[0] && |data| == |old(data)| - 1
    {
      x := data[0];
      var last := data[|data| - 1];
      assert data == data[..|data| - 1] + [last];
      data := data[..|data| - 1];
      if data != [] {
        data := data[0 := last];
        SiftDown();
        SameSize(data, old(data), x);
      }
    }
  }

  lemma SameSize(s: seq<real>, t: seq<real>, x: real)
    requires multiset(t) == multiset(s) + multiset{x}
    ensures |s| == |t| - 1
  {
    assert |multiset(t)| == |multiset(s)| + 1;
  }

  // ---------- the sweep ----------

  predicate Kept(p: Packet) { p.lcid.Some? && p.lastTx.Some? }

  // Packet k, on the channel of packet j, is enqueued no earlier than j's last initial transmission.
  predicate Expires(ps: seq<Packet>, j: nat, k: nat)
    requires j < |ps| && k < |ps| && Kept(ps[j])
  {
    Kept(ps[k]) && ps[k].lcid == ps[j].lcid && ps[k].enqueue.Some? && ps[j].lastTx.value <= ps[k].enqueue.value
  }

  /** Packet j is still pending when n packets have been swept: none after it has expired it. */
  ghost predicate Alive(ps: seq<Packet>, j: nat, n: nat)
    requires n <= |ps|
  {
    j < n && Kept(ps[j]) && forall k :: j < k < n ==> !Expires(ps, j, k)
  }

  // x is a service time pending on channel l after n packets.
  ghost predicate PendingTime(ps: seq<Packet>, n: nat, l: int, x: real)
    requires n <= |ps|
  {
    exists j :: 0 <= j < n && Alive(ps, j, n) && ps[j].lcid == Some(l) && ps[j].lastTx == Some(x)
  }

  /** What the sweep reports for packet i: some earlier packet of its channel is pending and not expired by i. */
  ghost predicate Backlogged(ps: seq<Packet>, i: nat)
    requires i < |ps| && Kept(ps[i])
  {
    exists j :: 0 <= j < i && Alive(ps, j, i) && ps[j].lcid == ps[i].lcid && !Expires(ps, j, i)
  }

  ghost predicate HeapHolds(h: Heap, ps: seq<Packet>, n: nat, l: int)
    requires n <= |ps|
    reads h
  {
    IsHeap(h.data) && forall x :: x in h.data <==> PendingTime(ps, n, l, x)
  }

  method Expire(h: Heap, enqueue: Option<real>)
    requires IsHeap(h.data)
    modifies h
    ensures IsHeap(h.data)
    ensures forall x :: x in h.data <==> x in old(h.data) && (enqueue.Some? ==> x > enqueue.value)
  {
    if enqueue.Some? {
      var now := enqueue.value;
      while h.data != [] && h.data[0] <= now
        invariant IsHeap(h.data)
        invariant forall x :: x in h.data ==> x in old(h.data)
        invariant forall x :: x in old(h.data) && x > now ==> x in h.data
        decreases |h.data|
      {
        ghost var before := multiset(h.data);
        var x := h.Pop();
        assert forall y :: y in h.data <==> y in multiset(h.data);
        assert forall y :: y in before <==> y in multiset(h.data) || y == x;
      }
      forall x | x in h.data
        ensures x > now
      {
        var i :| 0 <= i < |h.data| && h.data[i] == x;
        RootIsLeast(h.data, i);
      }
    }
  }

  // How one packet changes what is pending on a channel.
  lemma PendingStep(ps: seq<Packet>, n: nat, l: int, x: real)
    requires n < |ps|
    ensures var p := ps[n];
            PendingTime(ps, n + 1, l, x) <==>
              if Kept(p) && p.lcid == Some(l) then
                x == p.lastTx.value || (PendingTime(ps, n, l, x) && (p.enqueue.Some? ==> x > p.enqueue.value))
              else PendingTime(ps, n, l, x)
  {
    var p := ps[n];
    if j :| 0 <= j < n && Alive(ps, j, n) && ps[j].lcid == Some(l) && ps[j].lastTx == Some(x) && !Expires(ps, j, n) {
      assert Alive(ps, j, n + 1);
    }
    if Kept(p) && p.lcid == Some(l) && x == p.lastTx.value {
      assert Alive(ps, n, n + 1);
    }
    if j :| 0 <= j < n + 1 && Alive(ps, j, n + 1) && ps[j].lcid == Some(l) && ps[j].lastTx == Some(x) {
      if j < n {
        assert Alive(ps, j, n) && !Expires(ps, j, n);
      }
    }
  }

  lemma BackloggedMeansPending(ps: seq<Packet>, i: nat)
    requires i < |ps| && Kept(ps[i])
    ensures Backlogged(ps, i) <==>
      exists x :: PendingTime(ps, i, ps[i].lcid.value, x) && (ps[i].enqueue.Some? ==> x > ps[i].enqueue.value)
  {
    if j :| 0 <= j < i && Alive(ps, j, i) && ps[j].lcid == ps[i].lcid && !Expires(ps, j, i) {
      assert PendingTime(ps, i, ps[i].lcid.value, ps[j].lastTx.value);
    }
  }

  // One kept packet on its channel's heap: expire, report, push.
  method SweepPacket(h: Heap, ghost ps: seq<Packet>, ghost i: nat, p: Packet) returns (backlog: int)
    requires i < |ps| && ps[i] == p && Kept(p) && HeapHolds(h, ps, i, p.lcid.value)
    modifies h
    ensures backlog == if Backlogged(ps, i) then 1 else 0
    ensures HeapHolds(h, ps, i + 1, p.lcid.value)
  {
    Expire(h, p.enqueue);
    backlog := if h.data != [] then 1 else 0;
    BackloggedMeansPending(ps, i);
    assert h.data != [] ==> h.data[0] in h.data;
    ghost var pending := h.data;
    h.Push(p.lastTx.value);
    forall x
      ensures x in h.data <==> PendingTime(ps, i + 1, p.lcid.value, x)
    {
      PendingStep(ps, i, p.lcid.value, x);
      assert x in h.data <==> x in multiset(h.data);
      assert x in pending <==> x in multiset(pending);
    }
  }

  lemma OthersUnchanged(ps: seq<Packet>, n: nat, m: nat)
    requires n < |ps| && m == n + 1
    ensures forall l, x :: !Kept(ps[n]) || ps[n].lcid.value != l ==> (PendingTime(ps, m, l, x) <==> PendingTime(ps, n, l, x))
  {
    forall l, x | !Kept(ps[n]) || ps[n].lcid.value != l
      ensures PendingTime(ps, m, l, x) <==> PendingTime(ps, n, l, x)
    {
      PendingStep(ps, n, l, x);
    }
  }

  // Each channel seen so far has a heap of its own with its pending times.
  ghost predicate Holds(active: map<int, Heap>, ps: seq<Packet>, n: nat)
    requires n <= |ps|
    reads active.Values
  {
    && (forall l :: l in active ==> HeapHolds(active[l], ps, n, l))
    && (forall l, m :: l in active && m in active && l != m ==> active[l] != active[m])
    && (forall l, x :: l !in active ==> !PendingTime(ps, n, l, x))
  }

  ghost function ReportFor(ps: seq<Packet>, i: nat): Option<int>
    requires i < |ps|
  {
    if !Kept(ps[i]) then None else if Backlogged(ps, i) then Some(1) else Some(0)
  }

  /** The sweep: nothing for a packet without channel or service time, otherwise whether its channel has
      an earlier packet still pending. */
  method DeriveFreshBacklog(ps: seq<Packet>) returns (report: seq<Option<int>>)
    ensures |report| == |ps| && forall i :: 0 <= i < |ps| ==> report[i] == ReportFor(ps, i)
  {
    report := [];
    var active: map<int, Heap> := map[];
    for i := 0 to |ps|
      invariant |report| == i && forall k :: 0 <= k < i ==> report[k] == ReportFor(ps, k)
      invariant Holds(active, ps, i) && forall l :: l in active ==> fresh(active[l])
    {
      var p := ps[i];
      OthersUnchanged(ps, i, i + 1);
      if !Kept(p) {
        report := report + [None];
      } else {
        var l := p.lcid.value;
        if l !in active {
          var created := new Heap();
          active := active[l := created];
        }
        var backlog := SweepPacket(active[l], ps, i, p);
        report := report + [Some(backlog)];
      }
    }
  }

  // ---------- what the report means ----------

  ghost predicate SortedByEnqueue(ps: seq<Packet>) {
    forall j, k :: 0 <= j < k < |ps| && ps[j].enqueue.Some? && ps[k].enqueue.Some? ==>
      ps[j].enqueue.value <= ps[k].enqueue.value
  }

  /** With packets sorted by enqueue time, a kept packet whose own enqueue time is present is reported
      exactly when some earlier packet of its channel has its last initial transmission strictly after
      that time: an entry expired by any packet in between can no longer matter. */
  lemma ReportIsOlderUnsent(ps: seq<Packet>, i: nat)
    requires SortedByEnqueue(ps) && i < |ps| && Kept(ps[i]) && ps[i].enqueue.Some?
    ensures Backlogged(ps, i) <==>
      exists j :: 0 <= j < i && Kept(ps[j]) && ps[j].lcid == ps[i].lcid && ps[j].lastTx.value > ps[i].enqueue.value
  {
    if j :| 0 <= j < i && Kept(ps[j]) && ps[j].lcid == ps[i].lcid && ps[j].lastTx.value > ps[i].enqueue.value {
      assert Alive(ps, j, i) && !Expires(ps, j, i);
    }
  }

  // An earlier kept packet of the channel of packet i.
  ghost predicate EarlierOnChannel(ps: seq<Packet>, i: nat, j: nat)
    requires i < |ps|
  {
    j < i && Kept(ps[j]) && ps[j].lcid == ps[i].lcid
  }

  lemma {:induction false} LastOnChannel(ps: seq<Packet>, i: nat, j: nat) returns (last: nat)
    requires i < |ps| && EarlierOnChannel(ps, i, j)
    ensures EarlierOnChannel(ps, i, last) && forall k :: last < k < i ==> !EarlierOnChannel(ps, i, k)
    decreases i - j
  {
    if k :| j < k < i && EarlierOnChannel(ps, i, k) {
      last := LastOnChannel(ps, i, k);
    } else {
      last := j;
    }
  }

  /** A kept packet whose own enqueue time is missing, which the sort puts last, is reported exactly when any
      kept packet of its channel came before it: it expires nothing, and no packet has expired the last one. */
  lemma ReportWithoutEnqueue(ps: seq<Packet>, i: nat)
    requires i < |ps| && Kept(ps[i]) && ps[i].enqueue == None
    ensures Backlogged(ps, i) <==> exists j :: 0 <= j < i && Kept(ps[j]) && ps[j].lcid == ps[i].lcid
  {
    if j :| 0 <= j < i && Kept(ps[j]) && ps[j].lcid == ps[i].lcid {
      var last := LastOnChannel(ps, i, j);
      forall k | last < k < i
        ensures !Expires(ps, last, k)
      {
        assert !EarlierOnChannel(ps, i, k);
      }
      assert Alive(ps, last, i);
    }
  }
}
