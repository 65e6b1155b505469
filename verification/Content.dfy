/** The content index: which hashes entries reference, per namespace, and whether the bytes landed. */
module Content {
  import opened Ids

  datatype Presence = Wanted | Present

  /** The value of a `ContentIndex`. */
  datatype IndexState = IndexState(
    state: map<ContentHash, Presence>,
    byNamespace: map<NamespaceId, set<ContentHash>>)

  /** Hashes to drop, per namespace. */
  type Drops = map<NamespaceId, set<ContentHash>>

  function Names(byNamespace: map<NamespaceId, set<ContentHash>>, ns: NamespaceId): set<ContentHash> {
    if ns in byNamespace then byNamespace[ns] else {}
  }

  predicate Named(byNamespace: map<NamespaceId, set<ContentHash>>, hash: ContentHash) {
    exists ns :: ns in byNamespace && hash in byNamespace[ns]
  }

  /** A hash has a state exactly while some namespace names it, and no namespace names nothing. */
  ghost predicate WellFormed(index: IndexState) {
    && (forall h :: h in index.state <==> Named(index.byNamespace, h))
    && (forall ns :: ns in index.byNamespace ==> index.byNamespace[ns] != {})
  }

  predicate TrackedFor(index: IndexState, ns: NamespaceId, hash: ContentHash) {
    hash in Names(index.byNamespace, ns)
  }

  predicate IsPresent(index: IndexState, hash: ContentHash) {
    hash in index.state && index.state[hash] == Present
  }

  /** The hashes whose bytes are still to come. */
  function Missing(index: IndexState): set<ContentHash> {
    set h | h in index.state && index.state[h] == Wanted
  }

  function WithReference(index: IndexState, ns: NamespaceId, hash: ContentHash): IndexState {
    IndexState(
      if hash in index.state then index.state else index.state[hash := Wanted],
      index.byNamespace[ns := Names(index.byNamespace, ns) + {hash}])
  }

  function WithPresent(index: IndexState, hash: ContentHash): IndexState {
    if hash in index.state then index.(state := index.state[hash := Present]) else index
  }

  /** What each namespace still names once the drops are taken out. */
  function Remaining(byNamespace: map<NamespaceId, set<ContentHash>>, drops: Drops): map<NamespaceId, set<ContentHash>> {
    map ns | ns in byNamespace && byNamespace[ns] - Names(drops, ns) != {} :: byNamespace[ns] - Names(drops, ns)
  }

  /** All drops at once: a hash keeps its state exactly when a remaining set still names it. */
  function Release(index: IndexState, drops: Drops): IndexState {
    var rest := Remaining(index.byNamespace, drops);
    IndexState(map h | h in index.state && Named(rest, h) :: index.state[h], rest)
  }

  function Join(a: Drops, b: Drops): Drops {
    map ns | ns in a.Keys + b.Keys :: Names(a, ns) + Names(b, ns)
  }

  // ---------------------------------------------------------------------------------------------
  // Facts about the value
  // ---------------------------------------------------------------------------------------------

  lemma ReferenceKeepsWellFormed(index: IndexState, ns: NamespaceId, hash: ContentHash)
    requires WellFormed(index)
    ensures WellFormed(WithReference(index, ns, hash))
  {
    var after := WithReference(index, ns, hash);
    forall h ensures h in after.state <==> Named(after.byNamespace, h) {
      if h == hash {
        assert h in after.byNamespace[ns];
      } else if Named(index.byNamespace, h) {
        var n :| n in index.byNamespace && h in index.byNamespace[n];
        assert h in after.byNamespace[n];
      }
    }
  }

  lemma ReleaseKeepsWellFormed(index: IndexState, drops: Drops)
    requires WellFormed(index)
    ensures WellFormed(Release(index, drops))
  {
  }

  /** A namespace loses exactly what is dropped from it. */
  lemma ReleaseNames(index: IndexState, drops: Drops, ns: NamespaceId)
    ensures Names(Release(index, drops).byNamespace, ns) == Names(index.byNamespace, ns) - Names(drops, ns)
  {
  }

  lemma ReleaseNothing(index: IndexState, drops: Drops)
    requires WellFormed(index)
    requires forall ns :: ns in index.byNamespace ==> index.byNamespace[ns] !! Names(drops, ns)
    ensures Release(index, drops) == index
  {
    var named := index.byNamespace;
    forall ns | ns in named ensures named[ns] - Names(drops, ns) == named[ns] {}
    assert Remaining(named, drops) == named;
  }

  lemma RemainingAt(named: map<NamespaceId, set<ContentHash>>, drops: Drops, ns: NamespaceId)
    ensures ns in Remaining(named, drops) <==> Names(named, ns) - Names(drops, ns) != {}
    ensures ns in Remaining(named, drops) ==> Remaining(named, drops)[ns] == Names(named, ns) - Names(drops, ns)
    ensures Names(Remaining(named, drops), ns) == Names(named, ns) - Names(drops, ns)
  {
  }

  lemma JoinAt(a: Drops, b: Drops, ns: NamespaceId)
    ensures Names(Join(a, b), ns) == Names(a, ns) + Names(b, ns)
  {
  }

  lemma RemainingTwice(named: map<NamespaceId, set<ContentHash>>, a: Drops, b: Drops)
    ensures Remaining(Remaining(named, a), b) == Remaining(named, Join(a, b))
  {
    hide Remaining, Names, Join;
    var first, once := Remaining(named, a), Remaining(named, Join(a, b));
    forall ns ensures (ns in Remaining(first, b) <==> ns in once) && (ns in once ==> Remaining(first, b)[ns] == once[ns]) {
      RemainingAt(named, a, ns);
      RemainingAt(first, b, ns);
      RemainingAt(named, Join(a, b), ns);
      JoinAt(a, b, ns);
      assert Names(named, ns) - Names(a, ns) - Names(b, ns) == Names(named, ns) - (Names(a, ns) + Names(b, ns));
    }
    assert Remaining(first, b).Keys == once.Keys;
  }

  /** Two releases in a row are one release of both. */
  lemma ReleaseTwice(index: IndexState, a: Drops, b: Drops)
    ensures Release(Release(index, a), b) == Release(index, Join(a, b))
  {
    var first := Remaining(index.byNamespace, a);
    var twice := Remaining(first, b);
    RemainingTwice(index.byNamespace, a, b);
    forall h | Named(twice, h) ensures Named(first, h) {
      var ns :| ns in twice && h in twice[ns];
      assert h in first[ns];
    }
  }

  // ---------------------------------------------------------------------------------------------
  // The index
  // ---------------------------------------------------------------------------------------------

  class ContentIndex {
    var state: map<ContentHash, Presence>
    var byNamespace: map<NamespaceId, set<ContentHash>>

    ghost function Value(): IndexState
      reads this
    {
      IndexState(state, byNamespace)
    }

    ghost predicate Valid()
      reads this
    {
      WellFormed(Value())
    }

    constructor ()
      ensures Valid() && Value() == IndexState(map[], map[])
      ensures state == map[] && byNamespace == map[]
    {
      state, byNamespace := map[], map[];
    }

    /** `want`: one more reference, and a hash that has a state keeps it. */
    method Want(ns: NamespaceId, hash: ContentHash)
      requires Valid()
      modifies this
      ensures Valid() && Value() == WithReference(old(Value()), ns, hash)
      ensures forall n, h ::
        (n in byNamespace && h in byNamespace[n])
        <==> (n in old(byNamespace) && h in old(byNamespace)[n]) || (n == ns && h == hash)
      ensures state == if hash in old(state) then old(state) else old(state)[hash := Wanted]
    {
      ReferenceKeepsWellFormed(Value(), ns, hash);
      byNamespace := byNamespace[ns := (if ns in byNamespace then byNamespace[ns] else {}) + {hash}];
      if hash !in state {
        state := state[hash := Wanted];
      }
    }

    /** `mark_present` */
    method MarkPresent(hash: ContentHash)
      requires Valid()
      modifies this
      ensures Valid() && Value() == WithPresent(old(Value()), hash)
      ensures byNamespace == old(byNamespace)
      ensures state == if hash in old(state) then old(state)[hash := Present] else old(state)
    {
      if hash in state {
        state := state[hash := Present];
      }
    }

    /** `forget`: true exactly when this call dropped the last reference. */
    method Forget(ns: NamespaceId, hash: ContentHash) returns (last: bool)
      requires Valid()
      modifies this
      ensures Valid() && Value() == Release(old(Value()), map[ns := {hash}])
      ensures forall n, h ::
        (n in byNamespace && h in byNamespace[n])
        <==> (n in old(byNamespace) && h in old(byNamespace)[n]) && !(n == ns && h == hash)
      ensures forall n :: n in byNamespace ==> byNamespace[n] != {}
      ensures last <==>
        && ns in old(byNamespace) && hash in old(byNamespace)[ns]
        && forall n :: n in old(byNamespace) && hash in old(byNamespace)[n] ==> n == ns
      ensures last <==> hash in old(state) && hash !in state
      ensures state == if last then old(state) - {hash} else old(state)
    {
      ghost var before := Value();
      ReleaseKeepsWellFormed(before, map[ns := {hash}]);
      ReleaseOneText(before, ns, hash);
      hide Release, Remaining;
      if ns !in byNamespace || hash !in byNamespace[ns] {
        ReleaseNothing(before, map[ns := {hash}]);
        return false;
      }
      var rest := byNamespace[ns] - {hash};
      ReleaseOneState(before, ns, hash);
      RemainingAfterOne(byNamespace, ns, hash);
      byNamespace := if rest == {} then byNamespace - {ns} else byNamespace[ns := rest];
      var stillReferenced := exists other :: other in byNamespace && hash in byNamespace[other];
      OthersStayNamed(before, ns, hash);
      if !stillReferenced {
        state := state - {hash};
      }
      last := !stillReferenced;
    }

    method IsTrackedFor(ns: NamespaceId, hash: ContentHash) returns (tracked: bool)
      ensures tracked <==> TrackedFor(Value(), ns, hash)
    {
      tracked := ns in byNamespace && hash in byNamespace[ns];
    }

    /** `is_present_for`: this namespace still names the hash, and the bytes are here. */
    method IsPresentFor(ns: NamespaceId, hash: ContentHash) returns (present: bool)
      ensures present <==> TrackedFor(Value(), ns, hash) && IsPresent(Value(), hash)
    {
      present := ns in byNamespace && hash in byNamespace[ns] && hash in state && state[hash] == Present;
    }

    /** `missing_count` */
    method MissingCount() returns (n: nat)
      ensures n == |Missing(Value())|
      ensures n == |set h | h in state && state[h] == Wanted|
    {
      n := 0;
      var todo := state.Keys;
      ghost var counted: set<ContentHash> := {};
      while todo != {}
        invariant todo <= state.Keys
        invariant forall h :: h in counted <==> h in state && h !in todo && state[h] == Wanted
        invariant n == |counted|
        decreases |todo|
      {
        var h :| h in todo;
        todo := todo - {h};
        if state[h] == Wanted {
          n := n + 1;
          counted := counted + {h};
        }
      }
      assert counted == Missing(Value()) == set h | h in state && state[h] == Wanted;
    }

    /** `tracked_count`: how many hashes some namespace names, each counted once. */
    method TrackedCount() returns (n: nat)
      requires Valid()
      ensures n == |set ns, h | ns in byNamespace && h in byNamespace[ns] :: h|
    {
      n := |state|;
      assert state.Keys == set ns, h | ns in byNamespace && h in byNamespace[ns] :: h;
    }

    /** `referenced`: what blob collection must not touch. */
    method Referenced() returns (hashes: set<ContentHash>)
      requires Valid()
      ensures forall h :: h in hashes <==> exists ns :: ns in byNamespace && h in byNamespace[ns]
    {
      hashes := state.Keys;
    }
  }

  /** One release: which references are left, and when the hash goes. */
  lemma ReleaseOneText(index: IndexState, ns: NamespaceId, hash: ContentHash)
    requires WellFormed(index)
    ensures var named, left := index.byNamespace, Release(index, map[ns := {hash}]).byNamespace;
            && (forall n, h ::
                  (n in left && h in left[n]) <==> (n in named && h in named[n]) && !(n == ns && h == hash))
            && (forall n :: n in left ==> left[n] != {})
  {
    var left := Release(index, map[ns := {hash}]).byNamespace;
    forall n, h
      ensures (n in left && h in left[n]) <==>
        (n in index.byNamespace && h in index.byNamespace[n]) && !(n == ns && h == hash)
    {
      ReleaseNames(index, map[ns := {hash}], n);
      assert h in Names(left, n) <==> n in left && h in left[n];
    }
  }

  lemma ReleaseOneState(index: IndexState, ns: NamespaceId, hash: ContentHash)
    requires WellFormed(index)
    ensures var rest, after := Remaining(index.byNamespace, map[ns := {hash}]), Release(index, map[ns := {hash}]);
            && after.byNamespace == rest
            && after.state == if hash in index.state && !Named(rest, hash) then index.state - {hash} else index.state
  {
    OthersStayNamed(index, ns, hash);
  }

  lemma RemainingAfterOne(named: map<NamespaceId, set<ContentHash>>, ns: NamespaceId, hash: ContentHash)
    requires ns in named && forall n :: n in named ==> named[n] != {}
    ensures var rest := named[ns] - {hash};
            Remaining(named, map[ns := {hash}]) == if rest == {} then named - {ns} else named[ns := rest]
  {
    var drops := map[ns := {hash}];
    forall n | n in named && n != ns ensures named[n] - Names(drops, n) == named[n] {}
  }

  /** Dropping one reference leaves every other hash named. */
  lemma OthersStayNamed(index: IndexState, ns: NamespaceId, hash: ContentHash)
    requires WellFormed(index)
    ensures var rest := Remaining(index.byNamespace, map[ns := {hash}]);
            forall h :: h in index.state && h != hash ==> Named(rest, h)
  {
    var rest := Remaining(index.byNamespace, map[ns := {hash}]);
    forall h | h in index.state && h != hash ensures Named(rest, h) {
      var n :| n in index.byNamespace && h in index.byNamespace[n];
      assert h in index.byNamespace[n] - Names(map[ns := {hash}], n);
      assert n in rest && h in rest[n];
    }
  }
}
