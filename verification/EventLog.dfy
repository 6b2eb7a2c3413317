/** The two-buffer MAC event log: one buffer is written, the other is the batch the switch
    daemon reads. */
module EventLog {
  import opened Common

  datatype MacEvent = Learned | Removed

  /** What is reported about an entry of the forwarding table. */
  datatype Report = Report(vlan: nat, mac: Mac, port: nat, event: MacEvent)

  /** `index` is the hash under which the node is linked. */
  datatype Node = Node(index: nat, report: Report)

  /** The node array, its fill count, and the positions of the nodes linked into the hash map. */
  datatype Buffer = Buffer(nodes: seq<Node>, actualSize: nat, linked: set<nat>)

  const BLANK := Node(0, Report(0, Mac(0, 0, 0, 0, 0, 0), 0, Learned))

  function Batch(b: Buffer): (r: seq<Node>)
    requires b.actualSize <= |b.nodes|
  {
    b.nodes[..b.actualSize]
  }

  /** The fill count is the node count of the hash map. */
  ghost predicate GoodBuffer(b: Buffer, cap: nat) {
    |b.nodes| == cap && b.actualSize <= cap && b.linked == Span(0, b.actualSize)
  }

  /** What a batch becomes when `report` is filed under `index`: a pending report for that index is
      replaced, after being refiled under `rehash` if the insert relocated its entry. */
  ghost predicate Filed(was: seq<Node>, index: nat, rehash: nat, report: Report, now: seq<Node>) {
    || ((forall k | 0 <= k < |was| :: was[k].index != index) && now == was + [Node(index, report)])
    || exists k | 0 <= k < |was| ::
         && was[k].index == index
         && now == was[k := Node(index, report)]
                   + (if index == rehash then [] else [was[k].(index := rehash)])
  }

  lemma FiledNew(was: seq<Node>, index: nat, rehash: nat, report: Report)
    requires forall k | 0 <= k < |was| :: was[k].index != index
    ensures Filed(was, index, rehash, report, was + [Node(index, report)])
  {
  }

  lemma FiledOver(was: seq<Node>, k: nat, index: nat, rehash: nat, report: Report)
    requires k < |was| && was[k].index == index
    ensures Filed(was, index, rehash, report, was[k := Node(index, report)]
                                              + (if index == rehash then [] else [was[k].(index := rehash)]))
  {
  }

  class Log {
    const cap: nat
    /** Is the reading plugin present? */
    const plugin: bool
    var buffers: seq<Buffer>
    var curr: nat
    /** The batch the reader was given at the last swap. */
    ghost var frozen: seq<Node>

    constructor (cap: nat, plugin: bool)
      requires cap > 0
      ensures Valid() && this.cap == cap && this.plugin == plugin && Active() == [] && frozen == []
    {
      this.cap, this.plugin := cap, plugin;
      var empty := Buffer(seq(cap, i => BLANK), 0, {});
      buffers, curr, frozen := [empty, empty], 0, [];
    }

    /** With the plugin present the active buffer always has room. */
    ghost predicate Valid()
      reads this
    {
      && cap > 0 && |buffers| == 2 && curr < 2
      && GoodBuffer(buffers[0], cap) && GoodBuffer(buffers[1], cap)
      && (plugin ==> buffers[curr].actualSize < cap)
      && Batch(buffers[1 - curr]) == frozen
    }

    ghost function Active(): (r: seq<Node>)
      requires Valid()
      reads this
    {
      Batch(buffers[curr])
    }

    /** ops_xp_mac_learning_process_mlearn(): hand the active batch over and start an empty one. */
    method Process() returns (swapped: bool)
      requires |buffers| == 2 && curr < 2 && cap > 0
      requires GoodBuffer(buffers[0], cap) && GoodBuffer(buffers[1], cap)
      requires Batch(buffers[1 - curr]) == frozen
      modifies this
      ensures swapped <==> plugin && old(buffers[curr].actualSize) > 0
      ensures swapped ==> Valid() && Active() == [] && frozen == old(Batch(buffers[curr])) && curr == 1 - old(curr)
      ensures !swapped ==> buffers == old(buffers) && curr == old(curr) && frozen == old(frozen)
    {
      swapped := false;
      SpanSize(0, buffers[curr].actualSize);
      if plugin && |buffers[curr].linked| > 0 {
        frozen := Batch(buffers[curr]);
        curr := 1 - curr;
        buffers := buffers[curr := Buffer(seq(cap, i => BLANK), 0, {})];
        swapped := true;
      }
    }

    /** hmap_first_with_hash() on the active buffer. */
    method Find(index: nat) returns (o: Option<nat>)
      requires Valid()
      ensures o.Some? ==> o.value < |Active()| && Active()[o.value].index == index
      ensures o.None? ==> forall k | 0 <= k < |Active()| :: Active()[k].index != index
    {
      var b := buffers[curr];
      var todo := b.linked;
      while todo != {}
        invariant todo <= b.linked
        invariant forall k | k in b.linked && k !in todo :: b.nodes[k].index != index
        decreases todo
      {
        var k :| k in todo;
        todo := todo - {k};
        if b.nodes[k].index == index { return Some(k); }
      }
      o := None;
      assert forall k | 0 <= k < b.actualSize :: InSpan(k, 0, b.actualSize) && k in b.linked;
    }

    /** ops_xp_mac_learning_mlearn_action_add(). `dropped` says that a "not able to insert" branch
        was taken; with the plugin present it never is. */
    method ActionAdd(index: nat, rehash: nat, report: Report) returns (ghost dropped: bool, ghost swapped: bool)
      requires Valid()
      modifies this
      ensures Valid()
      ensures plugin ==> !dropped
      ensures dropped ==> old(|Active()|) == cap
      ensures !dropped && !swapped ==> Filed(old(Active()), index, rehash, report, Active()) && frozen == old(frozen)
      ensures !dropped && swapped ==> Filed(old(Active()), index, rehash, report, frozen) && Active() == []
      ensures swapped ==> plugin && |frozen| == cap
    {
      hide Filed;
      dropped := false;
      ghost var was := Active();
      var b := buffers[curr];
      var n := b.actualSize;
      var o := Find(index);
      assert was == Active();
      if o.Some? {
        var k := o.value;
        if index != rehash {
          if n < cap {
            b := Buffer(b.nodes[n := b.nodes[k].(index := rehash)], n + 1, b.linked + {n});
          } else {
            dropped := true;
          }
        }
        b := b.(nodes := b.nodes[k := Node(index, report)]);
        assert !dropped ==> Batch(b) == was[k := Node(index, report)]
                            + (if index == rehash then [] else [was[k].(index := rehash)]);
        FiledOver(was, k, index, rehash, report);
      } else if n < cap {
        b := Buffer(b.nodes[n := Node(index, report)], n + 1, b.linked + {n});
        assert Batch(b) == was + [Node(index, report)];
        FiledNew(was, index, rehash, report);
      } else {
        dropped := true;
      }
      assert b.linked == Span(0, b.actualSize);
      buffers := buffers[curr := b];
      swapped := false;
      if b.actualSize == cap {
        var s := Process();
        swapped := s;
      }
    }

    /** ops_xp_mac_learning_hmap_get(): the reader gets the frozen batch, or nothing. */
    method Get() returns (o: Option<seq<Node>>)
      requires Valid()
      ensures o == if frozen == [] then None else Some(frozen)
    {
      var b := buffers[1 - curr];
      SpanSize(0, b.actualSize);
      if |b.linked| > 0 {
        return Some(b.nodes[..b.actualSize]);
      }
      return None;
    }
  }
}
