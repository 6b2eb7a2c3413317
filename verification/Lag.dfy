/** Link aggregation groups: reconciling the member ports of a LAG with a requested list. */
module Lag {
  import opened Lists

  type LagId = nat
  type PortId = nat

  datatype Errno = OK | EFAULT | ENOENT

  /** The SDK keeps a list of members per LAG and does not refuse duplicates. */
  type Members = map<LagId, seq<PortId>>

  ghost predicate InSome(lags: Members, p: PortId) {
    exists l :: l in lags && p in lags[l]
  }

  /** Every port is in at most one LAG and at most once, is known, and has its control interface
      set exactly while it is a member. */
  ghost predicate Inv(lags: Members, control: set<PortId>, known: set<PortId>) {
    && (forall l | l in lags :: NoDup(lags[l]))
    && (forall l, m, p | l in lags && m in lags && p in lags[l] && p in lags[m] :: l == m)
    && (forall p :: p in control <==> InSome(lags, p))
    && control <= known
  }

  /** The members of every LAG after `ports` left `lag`. */
  ghost predicate Dropped(before: Members, after: Members, lag: LagId, ports: set<PortId>) {
    && after.Keys == before.Keys
    && forall l | l in after :: SetOf(after[l]) == SetOf(before[l]) - (if l == lag then ports else {})
  }

  /** The members of every LAG after `lag` took `ports`, from other LAGs where need be. */
  ghost predicate Taken(before: Members, after: Members, lag: LagId, ports: set<PortId>) {
    && after.Keys == before.Keys
    && forall l | l in after ::
         SetOf(after[l]) == if l == lag then SetOf(before[l]) + ports else SetOf(before[l]) - ports
  }

  /** The members of every LAG once `lag` has exactly `ports`. */
  ghost predicate Reconciled(before: Members, after: Members, lag: LagId, ports: set<PortId>) {
    && after.Keys == before.Keys
    && forall l | l in after :: SetOf(after[l]) == if l == lag then ports else SetOf(before[l]) - ports
  }

  lemma DetachKeeps(lags: Members, control: set<PortId>, known: set<PortId>, lag: LagId, p: PortId)
    requires Inv(lags, control, known) && lag in lags && p in lags[lag]
    ensures var after := lags[lag := Without(lags[lag], p)];
      && Inv(after, control - {p}, known) && !InSome(after, p)
      && Dropped(lags, after, lag, {p})
  {
    var after := lags[lag := Without(lags[lag], p)];
    WithoutKeeps(lags[lag], p);
    assert forall q :: q in after[lag] <==> q in SetOf(Without(lags[lag], p));
    forall q ensures q in control - {p} <==> InSome(after, q) {
      if InSome(after, q) {
        var l :| l in after && q in after[l];
        assert l in lags && q in lags[l];
      }
      if q in control - {p} {
        var l :| l in lags && q in lags[l];
        assert l in after && q in after[l];
      }
    }
  }

  lemma AttachKeeps(lags: Members, control: set<PortId>, known: set<PortId>, lag: LagId, p: PortId)
    requires Inv(lags, control, known) && lag in lags && !InSome(lags, p) && p in known
    ensures var after := lags[lag := lags[lag] + [p]];
      && Inv(after, control + {p}, known)
      && Taken(lags, after, lag, {p})
  {
    var after := lags[lag := lags[lag] + [p]];
    forall m | m in lags ensures p !in lags[m] {
      assert p in lags[m] ==> InSome(lags, p);
    }
    forall q ensures q in control + {p} <==> InSome(after, q) {
      assert lag in after && p in after[lag];
      if q in control {
        var l :| l in lags && q in lags[l];
        assert l in after && q in after[l];
      }
      if InSome(after, q) && q != p {
        var l :| l in after && q in after[l];
        assert l in lags && q in lags[l];
      }
    }
    assert SetOf(after[lag]) == SetOf(lags[lag]) + {p};
  }

  class LagTable {
    var lags: Members
    /** Ports whose control interface is set. */
    var control: set<PortId>
    /** Ports that have a network device. */
    const known: set<PortId>

    constructor (known: set<PortId>)
      ensures Inv(lags, control, known) && lags == map[] && this.known == known
    {
      this.known := known;
      lags, control := map[], {};
    }

    /** lag_detach_port_on_hw() */
    method Detach(lag: LagId, p: PortId)
      requires Inv(lags, control, known) && lag in lags
      modifies this
      ensures Inv(lags, control, known) && Dropped(old(lags), lags, lag, {p})
      ensures p in old(lags)[lag] ==> !InSome(lags, p)
    {
      if p in lags[lag] {
        DetachKeeps(lags, control, known, lag, p);
        lags := lags[lag := Without(lags[lag], p)];
        assert p in control by { assert InSome(old(lags), p); }
        if p in known {
          control := control - {p};
        }
      }
    }

    /** lag_attach_port_on_hw(): the port is first taken out of the LAG it is found in. */
    method Attach(lag: LagId, p: PortId) returns (rc: Errno)
      requires Inv(lags, control, known) && lag in lags
      modifies this
      ensures Inv(lags, control, known)
      ensures Taken(old(lags), lags, lag, if p in known then {p} else {})
      ensures rc == if p in known then OK else ENOENT
    {
      hide Inv;
      var todo := lags.Keys;
      var found := false;
      while todo != {} && !found
        invariant todo <= lags.Keys && Inv(lags, control, known) && lags.Keys == old(lags).Keys
        invariant !found ==> lags == old(lags) && control == old(control)
        invariant !found ==> forall l | l in lags && l !in todo :: p !in lags[l]
        invariant found ==> !InSome(lags, p) && p in known
        invariant found ==> forall l | l in lags :: SetOf(lags[l]) == SetOf(old(lags)[l]) - {p}
        decreases todo
      {
        var l :| l in todo;
        todo := todo - {l};
        if p in lags[l] {
          MemberFacts(lags, control, known, l, p);
          if l == lag { return OK; }
          Detach(l, p);
          found := true;
        }
      }
      if p !in known { return ENOENT; }
      AttachKeeps(lags, control, known, lag, p);
      control := control + {p};
      lags := lags[lag := lags[lag] + [p]];
      rc := OK;
    }

    /** Lines 131-142: members that are not requested are detached. */
    method DetachExtra(lag: LagId, list: seq<PortId>)
      requires Inv(lags, control, known) && lag in lags
      modifies this
      ensures Inv(lags, control, known)
      ensures Dropped(old(lags), lags, lag, SetOf(old(lags)[lag]) - SetOf(list))
    {
      hide Inv, InSome;
      var members := lags[lag];
      for i := 0 to |members|
        invariant Inv(lags, control, known)
        invariant Dropped(old(lags), lags, lag, SetOf(members[..i]) - SetOf(list))
      {
        assert members[..i + 1] == members[..i] + [members[i]];
        assert SetOf(members[..i + 1]) == SetOf(members[..i]) + {members[i]};
        if members[i] !in list {
          Detach(lag, members[i]);
        }
      }
      assert members[..|members|] == members;
    }

    /** Lines 144-149: the requested ports are attached. */
    method AttachAll(lag: LagId, list: seq<PortId>)
      requires Inv(lags, control, known) && lag in lags
      modifies this
      ensures Inv(lags, control, known)
      ensures Taken(old(lags), lags, lag, SetOf(list) * known)
    {
      hide Inv, InSome;
      for i := 0 to |list|
        invariant Inv(lags, control, known)
        invariant Taken(old(lags), lags, lag, SetOf(list[..i]) * known)
      {
        assert list[..i + 1] == list[..i] + [list[i]];
        assert SetOf(list[..i + 1]) == SetOf(list[..i]) + {list[i]};
        if list[i] !in lags[lag] {
          var _ := Attach(lag, list[i]);
        } else {
          MemberFacts(lags, control, known, lag, list[i]);
        }
      }
      assert list[..|list|] == list;
    }

    /** ops_xp_lag_attach_ports() */
    method AttachPorts(lag: LagId, list: seq<PortId>) returns (rc: Errno)
      requires Inv(lags, control, known)
      modifies this
      ensures Inv(lags, control, known)
      ensures rc == if lag in old(lags) then OK else EFAULT
      ensures rc == EFAULT ==> lags == old(lags) && control == old(control)
      ensures rc == OK ==> Reconciled(old(lags), lags, lag, SetOf(list) * known)
    {
      hide Inv, InSome;
      if lag !in lags { return EFAULT; }
      OthersKnown(lags, control, known);
      DetachExtra(lag, list);
      AttachAll(lag, list);
      rc := OK;
    }
  }

  lemma MemberFacts(lags: Members, control: set<PortId>, known: set<PortId>, lag: LagId, p: PortId)
    requires Inv(lags, control, known) && lag in lags && p in lags[lag]
    ensures p in known && forall l | l in lags && l != lag :: p !in lags[l]
  {
  }

  lemma OthersKnown(lags: Members, control: set<PortId>, known: set<PortId>)
    requires Inv(lags, control, known)
    ensures forall l | l in lags :: SetOf(lags[l]) <= known
  {
  }
}
