/** Who wants to be woken about which namespace. */
module Subscriptions {
  import opened Bytes
  import opened Ids

  datatype Platform = Apns | Fcm

  datatype PushSubscription = PushSubscription(platform: Platform, token: seq<byte>)

  /** The value of a `NamespaceRegistry`. */
  datatype RegistryState = RegistryState(
    known: set<NamespaceId>,
    subs: map<NamespaceId, set<PushSubscription>>)

  function Targets(r: RegistryState, ns: NamespaceId): set<PushSubscription> {
    if ns in r.subs then r.subs[ns] else {}
  }

  datatype Op = Register(ns: NamespaceId, sub: Option<PushSubscription>)
              | Unsubscribe(ns: NamespaceId, gone: PushSubscription)

  function Apply(r: RegistryState, op: Op): RegistryState {
    match op
    case Register(ns, sub) =>
      RegistryState(r.known + {ns}, if sub.Some? then r.subs[ns := Targets(r, ns) + {sub.value}] else r.subs)
    case Unsubscribe(ns, gone) =>
      var left := Targets(r, ns) - {gone};
      r.(subs := if left == {} then r.subs - {ns} else r.subs[ns := left])
  }

  function Replay(ops: seq<Op>): RegistryState {
    if ops == [] then RegistryState({}, map[])
    else Apply(Replay(ops[..|ops| - 1]), ops[|ops| - 1])
  }

  class NamespaceRegistry {
    var known: set<NamespaceId>
    var subs: map<NamespaceId, set<PushSubscription>>
    ghost var history: seq<Op>

    ghost function Value(): RegistryState
      reads this
    {
      RegistryState(known, subs)
    }

    /** The registry holds what its history left. */
    ghost predicate Valid()
      reads this
    {
      Value() == Replay(history)
    }

    constructor ()
      ensures Valid() && history == [] && known == {} && subs == map[]
    {
      known, subs, history := {}, map[], [];
    }

    /** `register`: true exactly when the namespace was never registered before. */
    method Register(ns: NamespaceId, sub: Option<PushSubscription>) returns (isNew: bool)
      requires Valid()
      modifies this
      ensures Valid() && history == old(history) + [Op.Register(ns, sub)]
      ensures known == old(known) + {ns}
      ensures isNew <==> ns !in old(known)
      ensures isNew <==> !EverRegistered(old(history), ns)
      ensures forall n, t ::
        (n in subs && t in subs[n])
        <==> (n in old(subs) && t in old(subs)[n]) || (n == ns && sub == Some(t))
    {
      HistoryDecidesKnown(history, ns);
      ReplayOneMore(history, Op.Register(ns, sub));
      isNew := ns !in known;
      known := known + {ns};
      if sub.Some? {
        subs := subs[ns := (if ns in subs then subs[ns] else {}) + {sub.value}];
      }
      history := history + [Op.Register(ns, sub)];
    }

    /** `unsubscribe`: true exactly when the last word on the subscription was to subscribe; the
        namespace stays known. */
    method Unsubscribe(ns: NamespaceId, sub: PushSubscription) returns (removed: bool)
      requires Valid()
      modifies this
      ensures Valid() && history == old(history) + [Op.Unsubscribe(ns, sub)]
      ensures known == old(known)
      ensures removed <==> LastSubscribed(old(history), ns, sub)
      ensures removed <==> ns in old(subs) && sub in old(subs)[ns]
      ensures forall n, t ::
        (n in subs && t in subs[n])
        <==> (n in old(subs) && t in old(subs)[n]) && !(n == ns && t == sub)
    {
      HistoryDecidesTargets(history, ns, sub);
      ReplayOneMore(history, Op.Unsubscribe(ns, sub));
      if ns in subs {
        removed := sub in subs[ns];
        assert forall t :: t in subs[ns] <==> t in subs[ns] - {sub} || (t == sub && removed);
        subs := subs[ns := subs[ns] - {sub}];
        if subs[ns] == {} {
          subs := subs - {ns};
        }
      } else {
        assert subs - {ns} == subs;
        removed := false;
      }
      history := history + [Op.Unsubscribe(ns, sub)];
    }

    /** `wake_targets`: exactly the subscriptions whose last mention for this namespace subscribed
        them. */
    method WakeTargets(ns: NamespaceId) returns (targets: set<PushSubscription>)
      requires Valid()
      ensures forall sub :: sub in targets <==> LastSubscribed(history, ns, sub)
      ensures forall sub :: sub in targets <==> ns in subs && sub in subs[ns]
    {
      targets := if ns in subs then subs[ns] else {};
      forall sub ensures sub in targets <==> LastSubscribed(history, ns, sub) {
        HistoryDecidesTargets(history, ns, sub);
      }
    }
  }

  lemma ReplayOneMore(ops: seq<Op>, op: Op)
    ensures Replay(ops + [op]) == Apply(Replay(ops), op)
  {
    assert (ops + [op])[..|ops|] == ops;
  }

  /** The last word on `sub` in this history was to subscribe. */
  ghost predicate LastSubscribed(ops: seq<Op>, ns: NamespaceId, sub: PushSubscription) {
    exists i :: 0 <= i < |ops| && ops[i] == Register(ns, Some(sub))
                && forall j :: i < j < |ops| ==> ops[j] != Unsubscribe(ns, sub)
  }

  ghost predicate EverRegistered(ops: seq<Op>, ns: NamespaceId) {
    exists i :: 0 <= i < |ops| && ops[i].Register? && ops[i].ns == ns
  }

  /** A namespace is known exactly when it was ever registered: unsubscribing stops the wakes and
      nothing else. */
  lemma {:induction false} HistoryDecidesKnown(ops: seq<Op>, ns: NamespaceId)
    ensures ns in Replay(ops).known <==> EverRegistered(ops, ns)
  {
    if ops != [] {
      var n := |ops| - 1;
      HistoryDecidesKnown(ops[..n], ns);
      assert ops == ops[..n] + [ops[n]];
    }
  }

  lemma LastSubscribedStep(front: seq<Op>, op: Op, ns: NamespaceId, sub: PushSubscription)
    ensures LastSubscribed(front + [op], ns, sub) <==>
            op == Register(ns, Some(sub)) || (op != Unsubscribe(ns, sub) && LastSubscribed(front, ns, sub))
  {
    var ops, n := front + [op], |front|;
    assert ops[n] == op && forall i :: 0 <= i < n ==> ops[i] == front[i];
    if op == Register(ns, Some(sub)) {
      assert ops[n] == Register(ns, Some(sub));
    } else if LastSubscribed(ops, ns, sub) {
      var i :| 0 <= i < |ops| && ops[i] == Register(ns, Some(sub))
               && forall j :: i < j < |ops| ==> ops[j] != Unsubscribe(ns, sub);
      assert i < n && front[i] == Register(ns, Some(sub));
    }
  }

  lemma ApplyTargets(r: RegistryState, op: Op, ns: NamespaceId, sub: PushSubscription)
    ensures sub in Targets(Apply(r, op), ns) <==>
            op == Register(ns, Some(sub)) || (op != Unsubscribe(ns, sub) && sub in Targets(r, ns))
  {
  }

  /** After any history, the wake targets of a namespace are exactly the subscriptions whose last
      mention there subscribed them. */
  lemma {:induction false} HistoryDecidesTargets(ops: seq<Op>, ns: NamespaceId, sub: PushSubscription)
    ensures sub in Targets(Replay(ops), ns) <==> LastSubscribed(ops, ns, sub)
  {
    if ops != [] {
      var front, op := ops[..|ops| - 1], ops[|ops| - 1];
      assert ops == front + [op];
      HistoryDecidesTargets(front, ns, sub);
      LastSubscribedStep(front, op, ns, sub);
      ApplyTargets(Replay(front), op, ns, sub);
    }
  }
}
