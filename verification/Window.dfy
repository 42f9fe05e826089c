/** The sliding window and its packet buffer: a linked list of nodes, spliced through links. */
module Window {
  import opened Types
  import opened Codec
  import opened Lists
  import opened Buffer
  import opened PacketStruct
  import Ring

  class Node {
    const pkt: Packet
    var next: Node?

    constructor (pkt: Packet, next: Node?)
      ensures this.pkt == pkt && this.next == next
    {
      this.pkt := pkt;
      this.next := next;
    }
  }

  /** The place a pointer to a node is stored in: the front of the window or a node's next field. */
  datatype Link = Front | NextOf(node: Node)

  /** No packet occurs twice. */
  ghost predicate Unaliased(pkts: seq<Packet>) {
    forall i, j | 0 <= i < j < |pkts| :: pkts[i] != pkts[j]
  }

  lemma UnaliasedAfterRemoval(pkts: seq<Packet>, i: nat)
    requires Unaliased(pkts) && i < |pkts|
    ensures Unaliased(RemoveAt(pkts, i))
    ensures forall p | p in RemoveAt(pkts, i) :: p in pkts
  {
  }

  lemma UnaliasedAfterPush(p: Packet, pkts: seq<Packet>)
    requires Unaliased(pkts) && p !in pkts
    ensures Unaliased([p] + pkts)
  {
  }

  /** What packets say after the timestamp of one of them was changed, wherever it occurs. */
  ghost function Retimed(pkts: seq<Packet>, contents: seq<Pkt>, p: Packet, t: uint32): (r: seq<Pkt>)
    requires |contents| == |pkts|
    ensures |r| == |contents|
    ensures forall j | 0 <= j < |r| :: r[j] == if pkts[j] == p then contents[j].(timestamp := t) else contents[j]
  {
    seq(|contents|, j requires 0 <= j < |contents| =>
      if pkts[j] == p then contents[j].(timestamp := t) else contents[j])
  }

  /** Without aliases only the one packet changes. */
  lemma RetimedAt(pkts: seq<Packet>, contents: seq<Pkt>, i: nat, t: uint32)
    requires |contents| == |pkts| && i < |pkts| && Unaliased(pkts)
    ensures Retimed(pkts, contents, pkts[i], t) == contents[i := contents[i].(timestamp := t)]
  {
  }

  /** Packets side by side with what they say. */
  ghost function Labelled(ps: seq<Packet>, vs: seq<Pkt>): (r: seq<(Packet, Pkt)>)
    requires |ps| == |vs|
    ensures |r| == |ps| && forall i | 0 <= i < |r| :: r[i] == (ps[i], vs[i])
  {
    seq(|ps|, i requires 0 <= i < |ps| => (ps[i], vs[i]))
  }

  /** The packets popped, which say `vs`, and those left in the buffer make up all there were. */
  ghost predicate Splits(all: seq<(Packet, Pkt)>, popped: seq<Packet>, vs: seq<Pkt>, pkts: seq<Packet>,
                         contents: seq<Pkt>) {
    && |popped| == |vs| && |pkts| == |contents|
    && multiset(Labelled(popped, vs)) + multiset(Labelled(pkts, contents)) == multiset(all)
  }

  lemma SplitsNext(all: seq<(Packet, Pkt)>, popped: seq<Packet>, vs: seq<Pkt>, pkts: seq<Packet>, contents: seq<Pkt>,
                   m: nat)
    requires Splits(all, popped, vs, pkts, contents) && m < |pkts|
    ensures Splits(all, popped + [pkts[m]], vs + [contents[m]], RemoveAt(pkts, m), RemoveAt(contents, m))
  {
    RemoveAtMembers(Labelled(pkts, contents), m);
    assert RemoveAt(Labelled(pkts, contents), m) == Labelled(RemoveAt(pkts, m), RemoveAt(contents, m));
    assert Labelled(popped + [pkts[m]], vs + [contents[m]]) == Labelled(popped, vs) + [(pkts[m], contents[m])];
  }

  lemma SplitsStart(pkts: seq<Packet>, contents: seq<Pkt>)
    requires |pkts| == |contents|
    ensures Splits(Labelled(pkts, contents), [], [], pkts, contents)
  {
    assert Labelled([], []) == [];
  }

  /** Taking minima out of `all` gave `done` so far and leaves `rest`. */
  ghost predicate Extracts(all: seq<int>, done: seq<int>, rest: seq<int>) {
    done + PopMinUntilEmpty(rest) == PopMinUntilEmpty(all)
  }

  lemma ExtractsNext(all: seq<int>, done: seq<int>, rest: seq<int>)
    requires Extracts(all, done, rest) && rest != []
    ensures Extracts(all, done + [rest[FirstMin(rest)]], RemoveAt(rest, FirstMin(rest)))
  {
    var tail := PopMinUntilEmpty(RemoveAt(rest, FirstMin(rest)));
    assert (done + [rest[FirstMin(rest)]]) + tail == done + ([rest[FirstMin(rest)]] + tail);
  }

  lemma ExtractsDone(all: seq<int>, done: seq<int>, rest: seq<int>)
    requires Extracts(all, done, rest) && rest == []
    ensures Sorted(done)
  {
    PopMinSorts(all);
    assert done == PopMinUntilEmpty(all);
  }

  class Window {
    const maxSeqnum: nat
    const capacity: nat
    var size: nat
    var pos: nat
    var bufsize: nat
    var front: Node?
    ghost var nodes: seq<Node>  // the nodes of the list, in order
    ghost var pkts: seq<Packet>  // the packets they hold, in order
    ghost var contents: seq<Pkt>  // what these packets say
    ghost var spine: set<Node>  // every node ever linked in: the footprint of the list
    ghost var held: set<Packet>  // every packet ever put in: the footprint of the timestamps

    /** The list is acyclic, ends in null, and has exactly the nodes counted. */
    ghost predicate Linked()
      reads this, nodes
    {
      && size <= capacity
      && pos <= maxSeqnum && maxSeqnum + 1 < WORD64
      && bufsize == |nodes| <= capacity
      && (forall i, j | 0 <= i < j < |nodes| :: nodes[i] != nodes[j])
      && (forall i | 0 <= i < |nodes| :: nodes[i] in spine)
      && front == NodeAt(0)
      && (forall i {:trigger nodes[i].next} | 0 <= i < |nodes| :: nodes[i].next == NodeAt(i + 1))
      && |pkts| == |nodes|
      && forall i | 0 <= i < |nodes| :: nodes[i].pkt == pkts[i]
    }

    ghost predicate Valid()
      reads this, nodes, pkts
    {
      && Linked()
      && |contents| == |pkts|
      && forall i | 0 <= i < |pkts| :: pkts[i] in held && pkts[i].Value() == contents[i]
    }

    ghost function NodeAt(i: nat): Node?
      reads this
    {
      if i < |nodes| then nodes[i] else null
    }

    constructor Init(size: nat, maxSize: nat, maxSeqnum: nat)
      requires size <= maxSize && maxSeqnum + 1 < WORD64
      ensures Valid() && pkts == [] && spine == {} && held == {}
      ensures this.size == size && pos == 0 && capacity == maxSize && this.maxSeqnum == maxSeqnum
    {
      this.size := size;
      this.capacity := maxSize;
      this.maxSeqnum := maxSeqnum;
      pos := 0;
      bufsize := 0;
      front := null;
      nodes := [];
      pkts := [];
      contents := [];
      spine := {};
      held := {};
    }

    static method Create(size: nat, maxSize: nat, maxSeqnum: nat) returns (w: Window?)
      requires maxSeqnum + 1 < WORD64
      ensures w == null <==> size > maxSize
      ensures w != null ==>
                && fresh(w) && w.Valid() && w.pkts == []
                && w.size == size && w.pos == 0 && w.capacity == maxSize && w.maxSeqnum == maxSeqnum
    {
      if size > maxSize {
        return null;
      }
      w := new Window.Init(size, maxSize, maxSeqnum);
    }

    predicate Has(seqnum: nat)
      reads this
    {
      Ring.InWindow(pos, size, maxSeqnum, seqnum)
    }

    method Slide()
      requires Valid()
      modifies this`pos
      ensures Valid() && pos == Ring.Successor(old(pos), maxSeqnum)
    {
      pos := (pos + 1) % (maxSeqnum + 1);
    }

    method SlideTo(p: nat)
      requires Valid() && p <= maxSeqnum
      modifies this`pos
      ensures Valid() && pos == p
    {
      pos := p;
    }

    method Resize(newSize: nat) returns (code: int)
      requires Valid()
      modifies this`size
      ensures Valid()
      ensures code == if newSize > capacity then -1 else 0
      ensures size == if newSize > capacity then old(size) else newSize
    {
      if newSize > capacity {
        return -1;
      }
      size := newSize;
      return 0;
    }

    predicate IsFull()
      reads this
      ensures bufsize <= capacity && size <= capacity ==> (IsFull() <==> size <= bufsize)
    {
      Full(bufsize, size, capacity)
    }

    /** Free slots, and none when the window was shrunk below its contents. */
    function AvailableSlots(): (n: nat)
      reads this
      ensures bufsize <= size ==> n + bufsize == size
      ensures size <= bufsize ==> n == 0
    {
      Available(bufsize, size)
    }

    /** Links a new node in at the front. */
    method Prepend(pkt: Packet)
      requires Linked() && |nodes| < capacity
      modifies this`front, this`bufsize, this`nodes, this`pkts, this`spine
      ensures Linked()
      ensures |nodes| > 0 && fresh(nodes[0]) && nodes[1..] == old(nodes)
      ensures pkts == [pkt] + old(pkts) && spine == old(spine) + {nodes[0]}
    {
      var node := new Node(pkt, front);
      front := node;
      nodes := [node] + nodes;
      spine := spine + {node};
      pkts := [pkt] + pkts;
      bufsize := bufsize + 1;
      assert nodes[1..] == old(nodes);
    }

    /** Puts a packet at the front, unless the buffer is full or was shrunk below its contents. */
    method Push(pkt: Packet) returns (code: int)
      requires Valid()
      modifies this`front, this`bufsize, this`nodes, this`pkts, this`contents, this`spine, this`held
      ensures Valid()
      ensures code == if |old(pkts)| < size then 0 else -1
      ensures code == 0 ==>
                && |nodes| > 0 && fresh(nodes[0]) && nodes[1..] == old(nodes)
                && pkts == [pkt] + old(pkts) && contents == [pkt.Value()] + old(contents)
                && spine == old(spine) + {nodes[0]} && held == old(held) + {pkt}
      ensures code == -1 ==>
                nodes == old(nodes) && pkts == old(pkts) && contents == old(contents)
                && spine == old(spine) && held == old(held)
    {
      if IsFull() {
        return -1;
      }
      Prepend(pkt);
      contents := [pkt.Value()] + contents;
      held := held + {pkt};
      return 0;
    }

    method FindSeqnum(seqnum: nat) returns (p: Packet?)
      requires Valid()
      ensures var i := FirstIndex(Seqnums(contents), seqnum);
              p == if i < |pkts| then pkts[i] else null
    {
      ghost var keys := Seqnums(contents);
      var cur := front;
      ghost var i := 0;
      while cur != null
        invariant 0 <= i <= |nodes| && cur == NodeAt(i)
        invariant forall j | 0 <= j < i :: keys[j] != seqnum
        decreases |nodes| - i
      {
        assert keys[i] == cur.pkt.seqnum;
        if cur.pkt.seqnum == seqnum {
          return cur.pkt;
        }
        cur := cur.next;
        i := i + 1;
      }
      return null;
    }

    /** Changes the timestamp of a buffered packet. */
    method SetPacketTime(p: Packet, t: uint32)
      requires Valid()
      modifies p`timestamp, this`contents
      ensures Valid() && p.timestamp == t
      ensures contents == Retimed(pkts, old(contents), p, t)
    {
      contents := Retimed(pkts, contents, p, t);
      var _ := p.SetTimestamp(t);
    }

    /** Changes the timestamp of the first packet that has the old one. */
    method UpdateTimestamp(oldTime: uint32, newTime: uint32) returns (code: int)
      requires Valid()
      modifies pkts`timestamp, this`contents
      ensures Valid()
      ensures code == if oldTime in Timestamps(old(contents)) then 0 else -1
      ensures code == -1 ==> contents == old(contents)
      ensures code == 0 ==>
                var i := FirstIndex(Timestamps(old(contents)), oldTime);
                contents == Retimed(pkts, old(contents), pkts[i], newTime)
    {
      ghost var keys := Timestamps(contents);
      var cur := front;
      ghost var i := 0;
      while cur != null
        invariant 0 <= i <= |nodes| && cur == NodeAt(i)
        invariant forall j | 0 <= j < i :: keys[j] != oldTime
        decreases |nodes| - i
      {
        assert keys[i] == cur.pkt.timestamp;
        assert cur.pkt == pkts[i];
        if cur.pkt.timestamp == oldTime {
          assert i == FirstIndex(keys, oldTime);
          SetPacketTime(cur.pkt, newTime);
          return 0;
        }
        cur := cur.next;
        i := i + 1;
      }
      return -1;
    }

    /* ---------- links ---------- */

    /** The link that holds the pointer to the i-th node. */
    ghost predicate IsLink(l: Link, i: nat)
      reads this
    {
      i <= |nodes| && l == if i == 0 then Front else NextOf(nodes[i - 1])
    }

    /** The pointer stored in a link. */
    function Load(l: Link): Node?
      reads this, if l.NextOf? then {l.node} else {}
    {
      match l
      case Front => front
      case NextOf(node) => node.next
    }

    /** Redirects a link past the node it points to. */
    method Splice(l: Link, ghost i: nat)
      requires Linked() && IsLink(l, i) && i < |nodes|
      modifies this`front, this`bufsize, this`nodes, this`pkts, nodes
      ensures Linked()
      ensures nodes == RemoveAt(old(nodes), i) && pkts == RemoveAt(old(pkts), i)
    {
      var node := Load(l);
      match l {
        case Front => front := node.next;
        case NextOf(before) => before.next := node.next;
      }
      nodes := RemoveAt(nodes, i);
      pkts := RemoveAt(pkts, i);
      bufsize := bufsize - 1;
    }

    /** Splices out the node that a link points to, if any. */
    method PopNode(l: Link, ghost i: nat) returns (p: Packet?)
      requires Valid() && IsLink(l, i)
      modifies this`front, this`bufsize, this`nodes, this`pkts, this`contents, nodes
      ensures Valid()
      ensures i == |old(nodes)| ==> p == null && nodes == old(nodes) && pkts == old(pkts) && contents == old(contents)
      ensures i < |old(nodes)| ==>
                && p == old(pkts)[i]
                && nodes == RemoveAt(old(nodes), i) && pkts == RemoveAt(old(pkts), i)
                && contents == RemoveAt(old(contents), i)
    {
      var node := Load(l);
      if node == null {
        return null;
      }
      p := node.pkt;
      Splice(l, i);
      contents := RemoveAt(contents, i);
    }

    /** The link to the first packet with that timestamp, but the front link when there is none. */
    method FindTimestamp(t: uint32) returns (l: Link, ghost m: nat)
      requires Valid()
      ensures IsLink(l, m) && m == if pkts == [] then 0 else TimestampVictim(contents, t)
    {
      ghost var keys := Timestamps(contents);
      var cur := Front;
      l := cur;
      ghost var i := 0;
      m := 0;
      while Load(cur) != null
        invariant IsLink(cur, i) && Load(cur) == NodeAt(i)
        invariant m == 0 && IsLink(l, m)
        invariant forall j | 0 <= j < i :: keys[j] != t
        decreases |nodes| - i
      {
        assert keys[i] == Load(cur).pkt.timestamp;
        if Load(cur).pkt.timestamp == t {
          l, m := cur, i;
          break;
        }
        cur := NextOf(Load(cur));
        i := i + 1;
      }
    }

    /** Takes out the first packet with that timestamp, or the front packet when there is none. */
    method PopTimestamp(t: uint32) returns (p: Packet?)
      requires Valid()
      modifies this`front, this`bufsize, this`nodes, this`pkts, this`contents, nodes
      ensures Valid()
      ensures old(pkts) == [] ==> p == null && pkts == []
      ensures old(pkts) != [] ==>
                var i := TimestampVictim(old(contents), t);
                && p == old(pkts)[i]
                && nodes == RemoveAt(old(nodes), i) && pkts == RemoveAt(old(pkts), i)
                && contents == RemoveAt(old(contents), i)
    {
      var l, m := FindTimestamp(t);
      p := PopNode(l, m);
    }

    method FindMinTimestamp() returns (l: Link, ghost m: nat)
      requires Valid()
      ensures IsLink(l, m) && Load(l) == NodeAt(m)
      ensures m == if pkts == [] then 0 else FirstMin(Timestamps(contents))
    {
      ghost var keys := Timestamps(contents);
      var cur := Front;
      l := cur;
      ghost var i := 0;
      m := 0;
      while Load(cur) != null
        invariant IsLink(cur, i) && Load(cur) == NodeAt(i)
        invariant IsLink(l, m) && Load(l) == NodeAt(m)
        invariant if i == 0 then m == 0 else m < i && LeadsUpTo(keys, m, i)
        decreases |nodes| - i
      {
        assert keys[i] == Load(cur).pkt.timestamp && keys[m] == Load(l).pkt.timestamp;
        if Load(cur).pkt.timestamp < Load(l).pkt.timestamp {
          l, m := cur, i;
        }
        cur := NextOf(Load(cur));
        i := i + 1;
      }
    }

    method PeekMinTimestamp() returns (p: Packet?)
      requires Valid()
      ensures pkts == [] ==> p == null
      ensures pkts != [] ==> p == pkts[FirstMin(Timestamps(contents))]
    {
      var l, m := FindMinTimestamp();
      if Load(l) == null {
        return null;
      }
      return Load(l).pkt;
    }

    method PopMinTimestamp() returns (p: Packet?)
      requires Valid()
      modifies this`front, this`bufsize, this`nodes, this`pkts, this`contents, nodes
      ensures Valid()
      ensures old(pkts) == [] ==> p == null && pkts == []
      ensures old(pkts) != [] ==>
                var i := FirstMin(Timestamps(old(contents)));
                && p == old(pkts)[i]
                && nodes == RemoveAt(old(nodes), i) && pkts == RemoveAt(old(pkts), i)
                && contents == RemoveAt(old(contents), i)
    {
      var l, m := FindMinTimestamp();
      p := PopNode(l, m);
    }

    method FindMinSeqnum() returns (l: Link, ghost m: nat)
      requires Valid()
      ensures IsLink(l, m) && Load(l) == NodeAt(m)
      ensures m == if pkts == [] then 0 else FirstMin(Seqnums(contents))
    {
      ghost var keys := Seqnums(contents);
      var cur := Front;
      l := cur;
      ghost var i := 0;
      m := 0;
      while Load(cur) != null
        invariant IsLink(cur, i) && Load(cur) == NodeAt(i)
        invariant IsLink(l, m) && Load(l) == NodeAt(m)
        invariant if i == 0 then m == 0 else m < i && LeadsUpTo(keys, m, i)
        decreases |nodes| - i
      {
        assert keys[i] == Load(cur).pkt.seqnum && keys[m] == Load(l).pkt.seqnum;
        if Load(cur).pkt.seqnum < Load(l).pkt.seqnum {
          l, m := cur, i;
        }
        cur := NextOf(Load(cur));
        i := i + 1;
      }
    }

    method PeekMinSeqnum() returns (p: Packet?)
      requires Valid()
      ensures pkts == [] ==> p == null
      ensures pkts != [] ==> p == pkts[FirstMin(Seqnums(contents))]
    {
      var l, m := FindMinSeqnum();
      if Load(l) == null {
        return null;
      }
      return Load(l).pkt;
    }

    method PopMinSeqnum() returns (p: Packet?)
      requires Valid()
      modifies this`front, this`bufsize, this`nodes, this`pkts, this`contents, nodes
      ensures Valid()
      ensures old(pkts) == [] ==> p == null && pkts == []
      ensures old(pkts) != [] ==>
                var i := FirstMin(Seqnums(old(contents)));
                && p == old(pkts)[i]
                && nodes == RemoveAt(old(nodes), i) && pkts == RemoveAt(old(pkts), i)
                && contents == RemoveAt(old(contents), i)
    {
      var l, m := FindMinSeqnum();
      p := PopNode(l, m);
    }

    /** One round: pops the packet with the least timestamp. */
    method TakeByTimestamp(ghost all: seq<(Packet, Pkt)>, ghost keys: seq<int>, popped: seq<Packet>, ghost vs: seq<Pkt>)
      returns (p: Packet, ghost v: Pkt)
      requires Valid() && bufsize != 0
      requires Splits(all, popped, vs, pkts, contents) && Extracts(keys, Timestamps(vs), Timestamps(contents))
      modifies this`front, this`bufsize, this`nodes, this`pkts, this`contents, spine
      ensures Valid() && |nodes| < |old(nodes)|
      ensures Splits(all, popped + [p], vs + [v], pkts, contents)
      ensures Extracts(keys, Timestamps(vs + [v]), Timestamps(contents))
    {
      ghost var m := FirstMin(Timestamps(contents));
      SplitsNext(all, popped, vs, pkts, contents, m);
      ExtractsNext(keys, Timestamps(vs), Timestamps(contents));
      SeqnumsOfRemoveAt(contents, m);
      v := contents[m];
      assert Timestamps(vs + [v]) == Timestamps(vs) + [Timestamps(contents)[m]];
      p := PopMinTimestamp();
    }

    /** Pops the packet with the least timestamp until the buffer is empty; `vs` is what the packets say. */
    method PopAllByTimestamp() returns (popped: seq<Packet>, ghost vs: seq<Pkt>)
      requires Valid()
      modifies this`front, this`bufsize, this`nodes, this`pkts, this`contents, spine
      ensures Valid() && pkts == []
      ensures Splits(Labelled(old(pkts), old(contents)), popped, vs, [], []) && Sorted(Timestamps(vs))
    {
      ghost var all, keys := Labelled(pkts, contents), Timestamps(contents);
      popped, vs := [], [];
      SplitsStart(pkts, contents);
      assert Timestamps(vs) == [];
      while bufsize != 0
        invariant Valid()
        invariant Splits(all, popped, vs, pkts, contents)
        invariant Extracts(keys, Timestamps(vs), Timestamps(contents))
        decreases |nodes|
      {
        var p;
        ghost var v;
        p, v := TakeByTimestamp(all, keys, popped, vs);
        popped, vs := popped + [p], vs + [v];
      }
      ExtractsDone(keys, Timestamps(vs), Timestamps(contents));
    }

    /** One round: pops the packet with the least sequence number. */
    method TakeBySeqnum(ghost all: seq<(Packet, Pkt)>, ghost keys: seq<int>, popped: seq<Packet>, ghost vs: seq<Pkt>)
      returns (p: Packet, ghost v: Pkt)
      requires Valid() && bufsize != 0
      requires Splits(all, popped, vs, pkts, contents) && Extracts(keys, Seqnums(vs), Seqnums(contents))
      modifies this`front, this`bufsize, this`nodes, this`pkts, this`contents, spine
      ensures Valid() && |nodes| < |old(nodes)|
      ensures Splits(all, popped + [p], vs + [v], pkts, contents)
      ensures Extracts(keys, Seqnums(vs + [v]), Seqnums(contents))
    {
      ghost var m := FirstMin(Seqnums(contents));
      SplitsNext(all, popped, vs, pkts, contents, m);
      ExtractsNext(keys, Seqnums(vs), Seqnums(contents));
      SeqnumsOfRemoveAt(contents, m);
      v := contents[m];
      assert Seqnums(vs + [v]) == Seqnums(vs) + [Seqnums(contents)[m]];
      p := PopMinSeqnum();
    }

    /** Pops the packet with the least sequence number until the buffer is empty; `vs` is what the packets say. */
    method PopAllBySeqnum() returns (popped: seq<Packet>, ghost vs: seq<Pkt>)
      requires Valid()
      modifies this`front, this`bufsize, this`nodes, this`pkts, this`contents, spine
      ensures Valid() && pkts == []
      ensures Splits(Labelled(old(pkts), old(contents)), popped, vs, [], []) && Sorted(Seqnums(vs))
    {
      ghost var all, keys := Labelled(pkts, contents), Seqnums(contents);
      popped, vs := [], [];
      SplitsStart(pkts, contents);
      assert Seqnums(vs) == [];
      while bufsize != 0
        invariant Valid()
        invariant Splits(all, popped, vs, pkts, contents)
        invariant Extracts(keys, Seqnums(vs), Seqnums(contents))
        decreases |nodes|
      {
        var p;
        ghost var v;
        p, v := TakeBySeqnum(all, keys, popped, vs);
        popped, vs := popped + [p], vs + [v];
      }
      ExtractsDone(keys, Seqnums(vs), Seqnums(contents));
    }
  }
}
