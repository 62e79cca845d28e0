// The registry of components shared between signal types: created once per key, started and
// stopped at most once, and forgotten when stopped.
module SharedComponents {
  import opened Basics

  // ---- The registry as a value ----

  /** A created component; a handle is its position in the order of creation. */
  datatype Component<K> = Component(key: K, started: bool, stopped: bool, innerStarts: nat, innerShutdowns: nat)

  datatype Registry<!K> = Registry(comps: map<K, nat>, created: seq<Component<K>>) {

    function GetOrAdd(key: K): (Registry<K>, nat) {
      if key in comps then (this, comps[key])
      else (Registry(comps[key := |created|], created + [Component(key, false, false, 0, 0)]), |created|)
    }

    /** Runs the component's own Start the first time. */
    function Start(h: nat): Registry<K>
      requires h < |created|
    {
      var c := created[h];
      if c.started then this
      else this.(created := created[h := c.(started := true, innerStarts := c.innerStarts + 1)])
    }

    /** Runs the component's own Shutdown the first time, and then deletes whatever is under its key. */
    function Shutdown(h: nat): Registry<K>
      requires h < |created|
    {
      var c := created[h];
      if c.stopped then this
      else Registry(comps - {c.key}, created[h := c.(stopped := true, innerShutdowns := c.innerShutdowns + 1)])
    }
  }

  datatype Op<K> = GetOrAddOp(key: K) | StartOp(h: nat) | ShutdownOp(h: nat)

  /** One call; a handle nobody was given yet cannot be used. */
  function Apply<K>(r: Registry<K>, op: Op<K>): Registry<K> {
    match op
    case GetOrAddOp(key) => r.GetOrAdd(key).0
    case StartOp(h) => if h < |r.created| then r.Start(h) else r
    case ShutdownOp(h) => if h < |r.created| then r.Shutdown(h) else r
  }

  function Empty<K>(): Registry<K> {
    Registry(map[], [])
  }

  function After<K>(ops: seq<Op<K>>): Registry<K>
    decreases |ops|
  {
    if ops == [] then Empty() else Apply(After(ops[..|ops| - 1]), ops[|ops| - 1])
  }

  // ---- What holds after every sequence of calls ----

  ghost predicate Consistent<K>(r: Registry<K>) {
    && (forall k :: k in r.comps ==> r.comps[k] < |r.created| && r.created[r.comps[k]].key == k)
    && (forall h: nat :: h < |r.created| ==> CorrectlyListed(r, h))
    && (forall h: nat :: h < |r.created| ==> CalledOnce(r.created[h]))
  }

  /** In the map under its key exactly while it has not been shut down. */
  ghost predicate CorrectlyListed<K>(r: Registry<K>, h: nat)
    requires h < |r.created|
  {
    r.created[h].stopped <==> !(r.created[h].key in r.comps && r.comps[r.created[h].key] == h)
  }

  ghost predicate CalledOnce<K>(c: Component<K>) {
    c.innerStarts == (if c.started then 1 else 0) && c.innerShutdowns == if c.stopped then 1 else 0
  }

  lemma GetOrAddConsistent<K>(r: Registry<K>, key: K)
    requires Consistent(r)
    ensures var (r', h) := r.GetOrAdd(key);
            Consistent(r') && h < |r'.created| && r'.created[h].key == key && !r'.created[h].stopped
  {
    if key !in r.comps {
      var (r', n) := r.GetOrAdd(key);
      forall h: nat | h < |r'.created|
        ensures CorrectlyListed(r', h) && CalledOnce(r'.created[h])
      {
        if h < |r.created| {
          assert r'.created[h] == r.created[h] && CorrectlyListed(r, h);
        }
      }
    } else {
      assert CorrectlyListed(r, r.comps[key]);
    }
  }

  lemma StartConsistent<K>(r: Registry<K>, h: nat)
    requires Consistent(r) && h < |r.created|
    ensures Consistent(r.Start(h))
  {
    var r' := r.Start(h);
    forall i: nat | i < |r'.created|
      ensures CorrectlyListed(r', i) && CalledOnce(r'.created[i])
    {
      assert CorrectlyListed(r, i) && CalledOnce(r.created[i]);
    }
  }

  lemma ShutdownConsistent<K>(r: Registry<K>, h: nat)
    requires Consistent(r) && h < |r.created|
    ensures Consistent(r.Shutdown(h))
  {
    var r' := r.Shutdown(h);
    assert CorrectlyListed(r, h);
    forall i: nat | i < |r'.created|
      ensures CorrectlyListed(r', i) && CalledOnce(r'.created[i])
    {
      assert CorrectlyListed(r, i) && CalledOnce(r.created[i]);
    }
  }

  /**
   * After any sequence of calls a component is in the map, under its key, exactly while it has not been shut
   * down, and its own Start and Shutdown have each run once if at all.
   */
  lemma {:induction false} AlwaysConsistent<K>(ops: seq<Op<K>>)
    ensures Consistent(After(ops))
    decreases |ops|
  {
    if ops != [] {
      var r := After(ops[..|ops| - 1]);
      AlwaysConsistent(ops[..|ops| - 1]);
      match ops[|ops| - 1]
      case GetOrAddOp(key) => GetOrAddConsistent(r, key);
      case StartOp(h) =>
        if h < |r.created| {
          StartConsistent(r, h);
        }
      case ShutdownOp(h) =>
        if h < |r.created| {
          ShutdownConsistent(r, h);
        }
    }
  }

  /** At most one live component per key. */
  lemma OneLivePerKey<K>(ops: seq<Op<K>>, g: nat, h: nat)
    requires g < |After(ops).created| && h < |After(ops).created|
    requires After(ops).created[g].key == After(ops).created[h].key
    requires !After(ops).created[g].stopped && !After(ops).created[h].stopped
    ensures g == h
  {
    AlwaysConsistent(ops);
    assert CorrectlyListed(After(ops), g) && CorrectlyListed(After(ops), h);
  }

  /** Shutting a component down again changes nothing, so its successor under the same key stays. */
  lemma RepeatedShutdownHarmless<K>(ops: seq<Op<K>>, h: nat, successor: nat)
    requires h < |After(ops).created| && successor < |After(ops).created| && h != successor
    requires After(ops).created[h].stopped && !After(ops).created[successor].stopped
    ensures var r := After(ops + [ShutdownOp(h)]);
            && r == After(ops)
            && r.created[successor].key in r.comps && r.comps[r.created[successor].key] == successor
  {
    AlwaysConsistent(ops);
    assert (ops + [ShutdownOp(h)])[..|ops|] == ops;
    assert CorrectlyListed(After(ops), successor);
  }

  // ---- Started and stopped exactly when asked ----

  /** The call was made at some point when the component already existed. */
  ghost predicate Made<K>(ops: seq<Op<K>>, op: Op<K>, h: nat) {
    exists i :: 0 <= i < |ops| && ops[i] == op && h < |After(ops[..i]).created|
  }

  lemma MadeNext<K>(ops: seq<Op<K>>, op: Op<K>, h: nat)
    requires ops != []
    ensures var init := ops[..|ops| - 1];
            Made(ops, op, h) <==> Made(init, op, h) || (ops[|ops| - 1] == op && h < |After(init).created|)
  {
    var n := |ops| - 1;
    forall i | 0 <= i < n
      ensures ops[..i] == ops[..n][..i] && ops[i] == ops[..n][i]
    {
    }
    if Made(ops[..n], op, h) {
      var i :| 0 <= i < n && ops[..n][i] == op && h < |After(ops[..n][..i]).created|;
      assert ops[i] == op;
    }
  }

  lemma NeverLost<K>(r: Registry<K>, op: Op<K>)
    ensures |r.created| <= |Apply(r, op).created| <= |r.created| + 1
    ensures forall h :: 0 <= h < |r.created| ==>
              var c, c' := r.created[h], Apply(r, op).created[h];
              && c'.key == c.key
              && (c'.started <==> c.started || op == StartOp(h))
              && (c'.stopped <==> c.stopped || op == ShutdownOp(h))
    ensures |Apply(r, op).created| > |r.created| ==>
              !Apply(r, op).created[|r.created|].started && !Apply(r, op).created[|r.created|].stopped
  {
  }

  lemma {:induction false} MadeLater<K>(ops: seq<Op<K>>, op: Op<K>, h: nat)
    requires Made(ops, op, h)
    ensures h < |After(ops).created|
    decreases |ops|
  {
    MadeNext(ops, op, h);
    var init := ops[..|ops| - 1];
    NeverLost(After(init), ops[|ops| - 1]);
    if Made(init, op, h) {
      MadeLater(init, op, h);
    }
  }

  /** A component has been started, or stopped, if and only if someone who had it asked for that. */
  lemma {:induction false} CallsTakeEffect<K>(ops: seq<Op<K>>, h: nat)
    requires h < |After(ops).created|
    ensures After(ops).created[h].started <==> Made(ops, StartOp(h), h)
    ensures After(ops).created[h].stopped <==> Made(ops, ShutdownOp(h), h)
    decreases |ops|
  {
    var init, last := ops[..|ops| - 1], ops[|ops| - 1];
    MadeNext(ops, StartOp(h), h);
    MadeNext(ops, ShutdownOp(h), h);
    NeverLost(After(init), last);
    if h < |After(init).created| {
      CallsTakeEffect(init, h);
    } else {
      if Made(init, StartOp(h), h) {
        MadeLater(init, StartOp(h), h);
      }
      if Made(init, ShutdownOp(h), h) {
        MadeLater(init, ShutdownOp(h), h);
      }
    }
  }

  // ---- Who gets the same instance ----

  lemma {:induction false} OnceStoppedStopped<K>(ops: seq<Op<K>>, more: seq<Op<K>>, h: nat)
    requires h < |After(ops).created|
    ensures h < |After(ops + more).created| && After(ops + more).created[h].key == After(ops).created[h].key
    ensures After(ops).created[h].stopped ==> After(ops + more).created[h].stopped
    decreases |more|
  {
    if more == [] {
      assert ops + more == ops;
    } else {
      var n := |more| - 1;
      assert (ops + more)[..|ops + more| - 1] == ops + more[..n] && (ops + more)[|ops + more| - 1] == more[n];
      OnceStoppedStopped(ops, more[..n], h);
      NeverLost(After(ops + more[..n]), more[n]);
    }
  }

  /**
   * Asking for a key again, after any calls in between, gives the same component if and only if it has not been
   * shut down meanwhile; otherwise it gives another one, that is not shut down either.
   */
  lemma SameInstanceIff<K>(ops: seq<Op<K>>, key: K, between: seq<Op<K>>)
    ensures var (r, h) := After(ops).GetOrAdd(key);
            var all := ops + [GetOrAddOp(key)] + between;
            var (r', h') := After(all).GetOrAdd(key);
            && h < |After(all).created|
            && (h' == h <==> !After(all).created[h].stopped)
            && h' < |r'.created| && r'.created[h'].key == key && !r'.created[h'].stopped
  {
    var first := ops + [GetOrAddOp(key)];
    var all := first + between;
    var (r, h) := After(ops).GetOrAdd(key);
    assert first[..|ops|] == ops;
    assert After(first) == r;
    AlwaysConsistent(ops);
    AlwaysConsistent(all);
    GetOrAddConsistent(After(ops), key);
    GetOrAddConsistent(After(all), key);
    OnceStoppedStopped(first, between, h);
    assert CorrectlyListed(After(all), h);
  }

  // ---- The objects ----

  class SharedComponent<K(==)> {
    const key: K
    ghost const handle: nat
    var startDone: bool
    var stopDone: bool
    /** How often the wrapped component's own methods have run. */
    var innerStarts: nat
    var innerShutdowns: nat

    ghost function Value(): Component<K>
      reads this
    {
      Component(key, startDone, stopDone, innerStarts, innerShutdowns)
    }

    constructor (key: K, ghost handle: nat)
      ensures this.handle == handle && Value() == Component(key, false, false, 0, 0)
    {
      this.key, this.handle := key, handle;
      startDone, stopDone, innerStarts, innerShutdowns := false, false, 0, 0;
    }
  }

  ghost function Handles<K>(comps: map<K, SharedComponent<K>>): map<K, nat> {
    map k | k in comps :: comps[k].handle
  }

  lemma HandlesPut<K>(comps: map<K, SharedComponent<K>>, key: K, c: SharedComponent<K>)
    ensures Handles(comps[key := c]) == Handles(comps)[key := c.handle]
  {
  }

  lemma HandlesRemove<K>(comps: map<K, SharedComponent<K>>, key: K)
    ensures Handles(comps - {key}) == Handles(comps) - {key}
  {
  }

  class SharedComponents<!K(==)> {
    var comps: map<K, SharedComponent<K>>
    ghost var created: seq<SharedComponent<K>>

    ghost predicate Valid()
      reads this, created
    {
      && (forall h: nat :: h < |created| ==> created[h].handle == h)
      && (forall k :: k in comps ==> comps[k] in created)
    }

    ghost function Components(): (cs: seq<Component<K>>)
      reads this, created
      ensures |cs| == |created|
      ensures forall h: nat :: h < |created| ==> cs[h] == created[h].Value()
    {
      seq(|created|, h requires 0 <= h < |created| reads this, created => created[h].Value())
    }

    ghost function Value(): Registry<K>
      reads this, created
    {
      Registry(Handles(comps), Components())
    }

    constructor ()
      ensures Valid() && Value() == Empty() && created == []
    {
      comps := map[];
      created := [];
    }

    method GetOrAdd(key: K) returns (c: SharedComponent<K>)
      requires Valid()
      modifies this
      ensures Valid() && c in created
      ensures created == old(created) || (fresh(c) && created == old(created) + [c])
      ensures (Value(), c.handle) == old(Value()).GetOrAdd(key)
    {
      if key in comps {
        return comps[key];
      }
      c := new SharedComponent(key, |created|);
      created := created + [c];
      HandlesPut(comps, key, c);
      comps := comps[key := c];
      assert Components() == old(Components()) + [c.Value()];
    }

    /** `innerFails` is what the wrapped component's own Start answers, if it runs. */
    method Start(c: SharedComponent<K>, innerFails: bool) returns (failed: bool)
      requires Valid() && c in created
      modifies c
      ensures Valid()
      ensures Value() == old(Value()).Start(c.handle)
      ensures failed <==> innerFails && !old(c.startDone)
    {
      failed := false;
      if !c.startDone {
        c.startDone := true;
        c.innerStarts := c.innerStarts + 1;
        failed := innerFails;
        assert Components() == old(Components())[c.handle := c.Value()];
      } else {
        assert created[c.handle] == c;
      }
    }

    method Shutdown(c: SharedComponent<K>, innerFails: bool) returns (failed: bool)
      requires Valid() && c in created
      modifies this`comps, c
      ensures Valid()
      ensures Value() == old(Value()).Shutdown(c.handle)
      ensures failed <==> innerFails && !old(c.stopDone)
    {
      failed := false;
      if !c.stopDone {
        c.stopDone := true;
        c.innerShutdowns := c.innerShutdowns + 1;
        failed := innerFails;
        HandlesRemove(comps, c.key);
        comps := comps - {c.key};
        assert Components() == old(Components())[c.handle := c.Value()];
      } else {
        assert created[c.handle] == c;
      }
    }
  }
}
