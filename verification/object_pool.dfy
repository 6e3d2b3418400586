/** Bookkeeping of the prefab object pool (ObjectPool.cs).

    Every GameObject — prefab or instance — is an abstract id. Unity's
    null-on-destroy is the `destroyed` set: a destroyed object still works as
    a dictionary key (the C# reference is unchanged) but compares equal to
    `null`. `Instantiate` hands out the id `next` and bumps it, so every
    object the pool has ever created has an id below `next`.
    Transforms, parenting and `SetActive` are engine side effects the model
    does not track. */
module ObjectPool {

  import opened Seqs

  type Id = nat

  datatype Pool = Pool(
    pooled: map<Id, seq<Id>>,  // prefab -> idle instances, oldest first
    spawned: map<Id, Id>,      // live spawned instance -> its prefab
    destroyed: set<Id>,        // objects Unity has destroyed
    next: nat)                 // the id the next Instantiate returns

  /** The pool as the singleton starts: no pools, nothing spawned, and
      `existing` scene objects (prefabs among them) already allocated. */
  function Init(existing: nat): Pool {
    Pool(map[], map[], {}, existing)
  }

  /** `n` freshly instantiated objects, numbered from `start`. */
  function Fresh(start: nat, n: nat): (r: seq<Id>)
    ensures |r| == n
    ensures forall i :: 0 <= i < n ==> r[i] == start + i
  {
    seq(n, i requires 0 <= i < n => start + i)
  }

  /** Every spawned instance's prefab has a pool: the precondition of the
      private `Recycle`, whose indexer would throw otherwise. */
  ghost predicate Coherent(s: Pool) {
    forall o :: o in s.spawned ==> s.spawned[o] in s.pooled
  }

  /** The pool's own invariant: every tracked instance exists, no instance
      sits twice in the pooled lists, and no instance is both pooled and
      spawned. */
  ghost predicate Valid(s: Pool) {
    && Coherent(s)
    && (forall o :: o in s.spawned ==> o < s.next)
    && (forall o :: o in s.destroyed ==> o < s.next)
    && (forall p :: p in s.pooled ==> Distinct(s.pooled[p]))
    && (forall p, o {:trigger o in s.pooled[p]} :: p in s.pooled && o in s.pooled[p] ==> o < s.next && o !in s.spawned)
    && (forall p, q, o :: p in s.pooled && q in s.pooled && o in s.pooled[p] && o in s.pooled[q] ==> p == q)
  }

  /** The spawned instances whose prefab is `prefab`. */
  function SpawnedOf(s: Pool, prefab: Id): set<Id> {
    set o | o in s.spawned && s.spawned[o] == prefab
  }

  /** `IsSpawned`: the object is live in the spawned map, that is, it is
      one of the spawned instances of some prefab. */
  predicate IsSpawned(s: Pool, obj: Id)
    ensures IsSpawned(s, obj) <==> exists p :: obj in SpawnedOf(s, p)
  {
    if obj in s.spawned then
      assert obj in SpawnedOf(s, s.spawned[obj]);
      true
    else false
  }

  /** `CountPooled`: the length of the prefab's idle list, 0 without a pool.
      It is the prefab's share of the all-pools total. */
  function CountPooled(s: Pool, prefab: Id): (r: nat)
    ensures prefab !in s.pooled ==> r == 0
    ensures r + SumLengths(s.pooled - {prefab}) == SumLengths(s.pooled)
  {
    if prefab in s.pooled then
      SumLengthsRemove(s.pooled, prefab);
      |s.pooled[prefab]|
    else
      assert s.pooled - {prefab} == s.pooled;
      0
  }

  /** `CountSpawned`: how many spawned-map values equal `prefab`; none
      exactly when no spawned instance has that prefab, and never more than
      the spawned map holds. */
  function CountSpawned(s: Pool, prefab: Id): (r: nat)
    ensures r == 0 <==> forall o :: o in s.spawned ==> s.spawned[o] != prefab
    ensures r <= |s.spawned|
  {
    SubsetCardinality(SpawnedOf(s, prefab), s.spawned.Keys);
    NoneSpawnedOf(s, prefab);
    |SpawnedOf(s, prefab)|
  }

  lemma NoneSpawnedOf(s: Pool, prefab: Id)
    ensures SpawnedOf(s, prefab) == {} <==> forall o :: o in s.spawned ==> s.spawned[o] != prefab
  {
    if SpawnedOf(s, prefab) != {} {
      var o :| o in SpawnedOf(s, prefab);
    } else {
      forall o | o in s.spawned
        ensures s.spawned[o] != prefab
      {
        assert o !in SpawnedOf(s, prefab);
      }
    }
  }

  lemma {:induction false} SubsetCardinality(a: set<Id>, b: set<Id>)
    requires a <= b
    ensures |a| <= |b|
    decreases b
  {
    if a != {} {
      var x :| x in a;
      SubsetCardinality(a - {x}, b - {x});
    }
  }

  /** Reference definition of `CountAllPooled`: the sum of all pooled-list
      lengths, independent of the order the keys are visited in. */
  ghost function SumLengths(m: map<Id, seq<Id>>): nat
    decreases m.Keys
  {
    if m == map[] then 0
    else
      var k :| k in m;
      |m[k]| + SumLengths(m - {k})
  }

  lemma {:induction false} SumLengthsRemove(m: map<Id, seq<Id>>, k: Id)
    requires k in m
    ensures SumLengths(m) == |m[k]| + SumLengths(m - {k})
    decreases m.Keys
  {
    var k' :| k' in m && SumLengths(m) == |m[k']| + SumLengths(m - {k'});
    if k' != k {
      var both := m - {k} - {k'};
      assert (m - {k'}) - {k} == both;
      assert (m - {k}) - {k'} == both;
      SumLengthsRemove(m - {k'}, k);
      SumLengthsRemove(m - {k}, k');
    }
  }

  /** Replacing one list changes the total by the difference in length. */
  lemma SumLengthsUpdate(m: map<Id, seq<Id>>, k: Id, l: seq<Id>)
    ensures k in m ==> SumLengths(m[k := l]) + |m[k]| == SumLengths(m) + |l|
    ensures k !in m ==> SumLengths(m[k := l]) == SumLengths(m) + |l|
  {
    var m' := m[k := l];
    SumLengthsRemove(m', k);
    assert m' - {k} == m - {k};
    if k in m {
      SumLengthsRemove(m, k);
    } else {
      assert m - {k} == m;
    }
  }

  /** `CountAllPooled`: visits the pools one by one and sums their sizes. */
  method CountAllPooled(s: Pool) returns (n: nat)
    ensures n == SumLengths(s.pooled)
  {
    n := 0;
    var rest := s.pooled;
    while rest != map[]
      invariant n + SumLengths(rest) == SumLengths(s.pooled)
      decreases rest.Keys
    {
      var k :| k in rest;
      SumLengthsRemove(rest, k);
      n := n + |rest[k]|;
      rest := rest - {k};
    }
  }

  /** `CreatePool(prefab, initialPoolSize)`: a null (destroyed) prefab or one
      that already has a pool is left alone; otherwise the prefab gets a list
      of `max(initialPoolSize, 0)` fresh idle instances. */
  function CreatePool(s: Pool, prefab: Id, initialPoolSize: int): (r: Pool)
    ensures prefab in s.destroyed || prefab in s.pooled ==> r == s
    ensures prefab !in s.destroyed ==> r.pooled.Keys == s.pooled.Keys + {prefab}
    ensures r.spawned == s.spawned && r.destroyed == s.destroyed
    ensures forall q :: q in s.pooled ==> r.pooled[q] == s.pooled[q]
    ensures prefab !in s.destroyed && prefab !in s.pooled ==>
      && CountPooled(r, prefab) == (if initialPoolSize > 0 then initialPoolSize else 0)
      && forall i :: 0 <= i < |r.pooled[prefab]| ==> s.next <= r.pooled[prefab][i] < r.next
  {
    if prefab in s.destroyed || prefab in s.pooled then s
    else
      var n := if initialPoolSize > 0 then initialPoolSize else 0;
      s.(pooled := s.pooled[prefab := Fresh(s.next, n)], next := s.next + n)
  }

  /** Creating a pool twice is the same as creating it once. */
  lemma CreatePoolIdempotent(s: Pool, prefab: Id, n: int, m: int)
    ensures CreatePool(CreatePool(s, prefab, n), prefab, m) == CreatePool(s, prefab, n)
  {
  }

  /** The leading-null loop of `Spawn`: drops destroyed entries from the
      front of the list until a live one (or nothing) is left. */
  function DropDestroyed(list: seq<Id>, destroyed: set<Id>): (r: seq<Id>)
    ensures |r| <= |list|
    ensures r == list[|list| - |r|..]
    ensures forall i :: 0 <= i < |list| - |r| ==> list[i] in destroyed
    ensures r != [] ==> r[0] !in destroyed
  {
    if list == [] || list[0] !in destroyed then list
    else DropDestroyed(list[1..], destroyed)
  }

  /** There is a live entry in the list iff the leading-null loop stops on one. */
  lemma {:induction false} DropDestroyedFindsLive(list: seq<Id>, destroyed: set<Id>)
    ensures DropDestroyed(list, destroyed) != [] <==> exists i :: 0 <= i < |list| && list[i] !in destroyed
  {
    if list != [] && list[0] in destroyed {
      DropDestroyedFindsLive(list[1..], destroyed);
      if exists i :: 0 <= i < |list| && list[i] !in destroyed {
        var i :| 0 <= i < |list| && list[i] !in destroyed;
        assert list[1..][i - 1] == list[i];
      }
    }
  }

  datatype SpawnResult = SpawnResult(pool: Pool, obj: Id)

  /** `Spawn(prefab, …)`, the overload every other one forwards to. With a
      pool, the first live idle instance is reused (destroyed ones in front of
      it are discarded); with an empty pool a fresh instance is created; both
      are recorded as spawned. Without a pool a fresh instance is returned
      and neither map changes. */
  function Spawn(s: Pool, prefab: Id): (r: SpawnResult)
    ensures r.pool.destroyed == s.destroyed
    ensures r.pool.pooled.Keys == s.pooled.Keys
    ensures forall q :: q in s.pooled && q != prefab ==> r.pool.pooled[q] == s.pooled[q]
    ensures prefab !in s.pooled ==>
      && r.pool.pooled == s.pooled && r.pool.spawned == s.spawned
      && r.obj == s.next && r.pool.next == s.next + 1
    ensures prefab in s.pooled && DropDestroyed(s.pooled[prefab], s.destroyed) != [] ==>
      var rest := DropDestroyed(s.pooled[prefab], s.destroyed);
      && r.obj == rest[0] && r.obj in s.pooled[prefab] && r.obj !in s.destroyed
      && r.pool.pooled[prefab] == rest[1..]
      && r.pool.spawned == s.spawned[r.obj := prefab]
      && r.pool.next == s.next
    ensures prefab in s.pooled && DropDestroyed(s.pooled[prefab], s.destroyed) == [] ==>
      && r.obj == s.next && r.pool.next == s.next + 1
      && r.pool.pooled[prefab] == []
      && r.pool.spawned == s.spawned[r.obj := prefab]
  {
    if prefab in s.pooled then
      var rest := DropDestroyed(s.pooled[prefab], s.destroyed);
      if rest != [] then
        SpawnResult(s.(pooled := s.pooled[prefab := rest[1..]],
                       spawned := s.spawned[rest[0] := prefab]), rest[0])
      else
        SpawnResult(s.(pooled := s.pooled[prefab := []],
                       spawned := s.spawned[s.next := prefab],
                       next := s.next + 1), s.next)
    else
      SpawnResult(s.(next := s.next + 1), s.next)
  }

  /** Unity's `Object.Destroy`: the object now compares equal to null. */
  function Destroy(s: Pool, obj: Id): (r: Pool)
    ensures r.pooled == s.pooled && r.spawned == s.spawned && r.next == s.next
    ensures r.destroyed == s.destroyed + {obj}
  {
    s.(destroyed := s.destroyed + {obj})
  }

  /** `Recycle(obj)`: a spawned object leaves the spawned map and joins the
      end of its prefab's idle list; any other object is destroyed. */
  function Recycle(s: Pool, obj: Id): (r: Pool)
    requires Coherent(s)
    ensures !IsSpawned(r, obj)
    ensures r.next == s.next && r.pooled.Keys == s.pooled.Keys
    ensures IsSpawned(s, obj) ==>
      && r.spawned == s.spawned - {obj}
      && r.pooled == s.pooled[s.spawned[obj] := s.pooled[s.spawned[obj]] + [obj]]
      && r.destroyed == s.destroyed
    ensures !IsSpawned(s, obj) ==>
      r.pooled == s.pooled && r.spawned == s.spawned && r.destroyed == s.destroyed + {obj}
  {
    if obj in s.spawned then
      var prefab := s.spawned[obj];
      s.(pooled := s.pooled[prefab := s.pooled[prefab] + [obj]],
         spawned := s.spawned - {obj})
    else
      s.(destroyed := s.destroyed + {obj})
  }

  /** `DestroyPooled(prefab)`: destroys every idle instance of the prefab and
      empties its list; a prefab without a pool is left alone. */
  function DestroyPooled(s: Pool, prefab: Id): (r: Pool)
    ensures CountPooled(r, prefab) == 0
    ensures r.spawned == s.spawned && r.next == s.next && r.pooled.Keys == s.pooled.Keys
    ensures forall q :: q in s.pooled && q != prefab ==> r.pooled[q] == s.pooled[q]
    ensures prefab in s.pooled ==>
      r.destroyed == s.destroyed + set i | 0 <= i < |s.pooled[prefab]| :: s.pooled[prefab][i]
    ensures prefab !in s.pooled ==> r == s
  {
    if prefab in s.pooled then
      var list := s.pooled[prefab];
      s.(pooled := s.pooled[prefab := []],
         destroyed := s.destroyed + set i | 0 <= i < |list| :: list[i])
    else s
  }

  // ---------------------------------------------------------------------
  // RecycleAll

  /** `after` is `before` with exactly the objects of `added`, in some order,
      appended behind it. */
  ghost predicate AppendedOnce(before: seq<Id>, after: seq<Id>, added: set<Id>) {
    && |before| <= |after|
    && after[..|before|] == before
    && multiset(after[|before|..]) == multiset(added)
  }

  lemma AppendedOnceStep(before: seq<Id>, after: seq<Id>, added: set<Id>, o: Id)
    requires AppendedOnce(before, after, added) && o !in added
    ensures AppendedOnce(before, after + [o], added + {o})
  {
    assert (after + [o])[|before|..] == after[|before|..] + [o];
    assert (after + [o])[..|before|] == after[..|before|];
  }

  /** Moving `o` from the to-do set to the done set. */
  lemma MoveOne(all: set<Id>, todo: set<Id>, o: Id)
    requires o in todo && o in all
    ensures all - (todo - {o}) == (all - todo) + {o}
  {
  }

  /** The spawned map of `s` without the objects in `gone`. */
  ghost predicate SpawnedWithout(s: Pool, r: Pool, gone: set<Id>) {
    && r.spawned.Keys == s.spawned.Keys - gone
    && forall o :: o in r.spawned ==> r.spawned[o] == s.spawned[o]
  }

  /** One recycle of a still-spawned object, as the loops of both
      `RecycleAll` overloads perform it. */
  lemma RecycleStep(s: Pool, r: Pool, gone: set<Id>, o: Id)
    requires Coherent(r) && SpawnedWithout(s, r, gone) && r.pooled.Keys == s.pooled.Keys
    requires o in s.spawned && o !in gone
    ensures var r' := Recycle(r, o);
      && Coherent(r')
      && SpawnedWithout(s, r', gone + {o})
      && r'.pooled == r.pooled[s.spawned[o] := r.pooled[s.spawned[o]] + [o]]
      && r'.next == r.next && r'.destroyed == r.destroyed
  {
  }

  /** `RecycleAll(prefab)`: recycles every spawned instance of the prefab, in
      whatever order the dictionary enumerates them. Afterwards none is
      spawned, the prefab's idle list has gained exactly those instances
      behind the ones it already held, and nothing else changes. */
  method RecycleAll(s: Pool, prefab: Id) returns (r: Pool)
    requires Coherent(s)
    ensures Coherent(r)
    ensures Valid(s) ==> Valid(r)
    ensures CountSpawned(r, prefab) == 0
    ensures SpawnedWithout(s, r, SpawnedOf(s, prefab))
    ensures r.next == s.next && r.destroyed == s.destroyed
    ensures r.pooled.Keys == s.pooled.Keys
    ensures forall q :: q in s.pooled && q != prefab ==> r.pooled[q] == s.pooled[q]
    ensures prefab in s.pooled ==> AppendedOnce(s.pooled[prefab], r.pooled[prefab], SpawnedOf(s, prefab))
    ensures prefab !in s.pooled ==> r == s
  {
    r := s;
    if prefab !in s.pooled {
      assert SpawnedOf(s, prefab) == {};
      assert SpawnedOf(r, prefab) == {};
      return;
    }
    var todo := SpawnedOf(s, prefab);
    assert s.pooled[prefab][|s.pooled[prefab]|..] == [];
    while todo != {}
      invariant RecycledPrefabBut(s, r, prefab, todo)
      invariant Valid(s) ==> Valid(r)
      decreases todo
    {
      var o :| o in todo;
      RecycleKeepsValid(s, r, o);
      RecycledPrefabButStep(s, r, prefab, todo, o);
      r := Recycle(r, o);
      todo := todo - {o};
    }
    assert SpawnedOf(r, prefab) == {};
  }

  /** The loop invariant of `RecycleAll(prefab)`: the instances still in
      `todo` are the ones not yet recycled. */
  ghost predicate RecycledPrefabBut(s: Pool, r: Pool, prefab: Id, todo: set<Id>) {
    && prefab in s.pooled
    && todo <= SpawnedOf(s, prefab)
    && Coherent(r)
    && SpawnedWithout(s, r, SpawnedOf(s, prefab) - todo)
    && r.next == s.next && r.destroyed == s.destroyed
    && r.pooled.Keys == s.pooled.Keys
    && (forall q :: q in s.pooled && q != prefab ==> r.pooled[q] == s.pooled[q])
    && AppendedOnce(s.pooled[prefab], r.pooled[prefab], SpawnedOf(s, prefab) - todo)
  }

  lemma RecycledPrefabButStep(s: Pool, r: Pool, prefab: Id, todo: set<Id>, o: Id)
    requires Coherent(s) && RecycledPrefabBut(s, r, prefab, todo) && o in todo
    ensures RecycledPrefabBut(s, Recycle(r, o), prefab, todo - {o})
  {
    var all := SpawnedOf(s, prefab);
    var r' := Recycle(r, o);
    assert Coherent(r') && SpawnedWithout(s, r', all - (todo - {o})) by {
      RecycleStep(s, r, all - todo, o);
      MoveOne(all, todo, o);
    }
    assert AppendedOnce(s.pooled[prefab], r'.pooled[prefab], all - (todo - {o})) by {
      RecycleStep(s, r, all - todo, o);
      AppendedOnceStep(s.pooled[prefab], r.pooled[prefab], all - todo, o);
      MoveOne(all, todo, o);
    }
  }

  /** The loop invariant of `RecycleEverything`: the objects still in
      `todo` are the ones not yet recycled. */
  ghost predicate RecycledAllBut(s: Pool, r: Pool, todo: set<Id>) {
    && todo <= s.spawned.Keys
    && Coherent(r)
    && SpawnedWithout(s, r, s.spawned.Keys - todo)
    && r.next == s.next && r.destroyed == s.destroyed
    && r.pooled.Keys == s.pooled.Keys
    && AllAppended(s, r, todo)
  }

  /** Every idle list has gained exactly its prefab's recycled instances. */
  ghost predicate AllAppended(s: Pool, r: Pool, todo: set<Id>) {
    forall q :: q in s.pooled ==> q in r.pooled && AppendedOnce(s.pooled[q], r.pooled[q], SpawnedOf(s, q) - todo)
  }

  lemma RecycledAllButStep(s: Pool, r: Pool, todo: set<Id>, o: Id)
    requires Coherent(s) && RecycledAllBut(s, r, todo) && o in todo
    ensures RecycledAllBut(s, Recycle(r, o), todo - {o})
  {
    var r' := Recycle(r, o);
    var gone := s.spawned.Keys - todo;
    assert Coherent(r') && SpawnedWithout(s, r', s.spawned.Keys - (todo - {o})) by {
      RecycleStep(s, r, gone, o);
      MoveOne(s.spawned.Keys, todo, o);
    }
    assert AllAppended(s, r', todo - {o}) by {
      RecycleStep(s, r, gone, o);
      AllPoolsStep(s, r, r', todo, o);
    }
  }

  lemma RecycleKeepsValid(s: Pool, r: Pool, o: Id)
    requires Coherent(r) && (Valid(s) ==> Valid(r)) && o in s.spawned && r.next == s.next
    ensures Valid(s) ==> Valid(Recycle(r, o))
  {
    if Valid(s) {
      RecycleValid(r, o);
    }
  }

  /** `RecycleAll()`: recycles every spawned instance of every prefab. The
      spawned map ends empty and each idle list has gained exactly that
      prefab's spawned instances behind the ones it already held. */
  method RecycleEverything(s: Pool) returns (r: Pool)
    requires Coherent(s)
    ensures Valid(s) ==> Valid(r)
    ensures r.spawned == map[]
    ensures r.next == s.next && r.destroyed == s.destroyed
    ensures r.pooled.Keys == s.pooled.Keys
    ensures forall q :: q in s.pooled ==> AppendedOnce(s.pooled[q], r.pooled[q], SpawnedOf(s, q))
  {
    var todo := s.spawned.Keys;
    r := s;
    forall q | q in s.pooled
      ensures AppendedOnce(s.pooled[q], r.pooled[q], SpawnedOf(s, q) - todo)
    {
      assert s.pooled[q][|s.pooled[q]|..] == [];
      assert SpawnedOf(s, q) - todo == {};
    }
    while todo != {}
      invariant RecycledAllBut(s, r, todo)
      invariant Valid(s) ==> Valid(r)
      decreases todo
    {
      var o :| o in todo;
      RecycledAllButStep(s, r, todo, o);
      RecycleKeepsValid(s, r, o);
      r := Recycle(r, o);
      todo := todo - {o};
    }
  }

  /** The effect of one step of `RecycleEverything` on every idle list. */
  lemma AllPoolsStep(s: Pool, r: Pool, r': Pool, todo: set<Id>, o: Id)
    requires Coherent(s) && o in todo && o in s.spawned && r.pooled.Keys == s.pooled.Keys
    requires r'.pooled == r.pooled[s.spawned[o] := r.pooled[s.spawned[o]] + [o]]
    requires AllAppended(s, r, todo)
    ensures AllAppended(s, r', todo - {o})
  {
    var p := s.spawned[o];
    forall q | q in s.pooled
      ensures AppendedOnce(s.pooled[q], r'.pooled[q], SpawnedOf(s, q) - (todo - {o}))
    {
      if q == p {
        AppendedOnceStep(s.pooled[q], r.pooled[q], SpawnedOf(s, q) - todo, o);
        assert SpawnedOf(s, q) - (todo - {o}) == (SpawnedOf(s, q) - todo) + {o};
      } else {
        assert SpawnedOf(s, q) - (todo - {o}) == SpawnedOf(s, q) - todo;
      }
    }
  }

  /** `DestroyAll(prefab)`: recycles every spawned instance of the prefab,
      then destroys its whole idle list. */
  method DestroyAll(s: Pool, prefab: Id) returns (r: Pool)
    requires Coherent(s)
    ensures Valid(s) ==> Valid(r)
    ensures CountSpawned(r, prefab) == 0 && CountPooled(r, prefab) == 0
    ensures r.pooled.Keys == s.pooled.Keys && r.next == s.next
    ensures SpawnedWithout(s, r, SpawnedOf(s, prefab))
    ensures forall o :: o in s.spawned && s.spawned[o] != prefab ==> o in r.spawned && r.spawned[o] == s.spawned[o]
    ensures forall q :: q in s.pooled && q != prefab ==> r.pooled[q] == s.pooled[q]
    ensures prefab in s.pooled ==>
      && (forall o :: o in SpawnedOf(s, prefab) ==> o in r.destroyed)
      && (forall o :: o in s.pooled[prefab] ==> o in r.destroyed)
      && r.destroyed == s.destroyed + (set o | o in s.pooled[prefab]) + SpawnedOf(s, prefab)
    ensures prefab !in s.pooled ==> r == s
  {
    var recycled := RecycleAll(s, prefab);
    r := DestroyPooled(recycled, prefab);
    if Valid(s) {
      DestroyPooledValid(recycled, prefab);
    }
    if prefab in s.pooled {
      var list := recycled.pooled[prefab];
      assert (set i | 0 <= i < |list| :: list[i]) == (set o | o in s.pooled[prefab]) + SpawnedOf(s, prefab) by {
        AppendedElements(s.pooled[prefab], list, SpawnedOf(s, prefab));
      }
    }
  }

  /** The objects of a list that gained exactly `added` behind `before`. */
  lemma AppendedElements(before: seq<Id>, after: seq<Id>, added: set<Id>)
    requires AppendedOnce(before, after, added)
    ensures (set i | 0 <= i < |after| :: after[i]) == (set o | o in before) + added
  {
    var n := |before|;
    var gone := set i | 0 <= i < |after| :: after[i];
    forall o | o in added
      ensures o in gone
    {
      assert o in multiset(after[n..]);
      var i :| 0 <= i < |after[n..]| && after[n..][i] == o;
      assert after[n + i] == o;
    }
    forall o | o in before
      ensures o in gone
    {
      var i :| 0 <= i < n && before[i] == o;
      assert after[..n][i] == o;
    }
    forall o | o in gone
      ensures o in before || o in added
    {
      var i :| 0 <= i < |after| && after[i] == o;
      if i < n {
        assert after[..n][i] == o;
      } else {
        assert after[n..][i - n] == o;
        assert o in multiset(after[n..]);
      }
    }
  }

  // ---------------------------------------------------------------------
  // The invariant and the counts

  lemma InitValid(existing: nat)
    ensures Valid(Init(existing))
    ensures SumLengths(Init(existing).pooled) == 0
  {
  }

  lemma SuffixFacts(l: seq<Id>, k: nat)
    requires k <= |l|
    ensures forall o :: o in l[k..] ==> o in l
    ensures Distinct(l) ==> Distinct(l[k..])
    ensures Distinct(l) && k < |l| ==> l[k] !in l[k + 1..]
  {
    forall o | o in l[k..] ensures o in l {
      var i :| 0 <= i < |l[k..]| && l[k..][i] == o;
      assert l[k + i] == o;
    }
  }

  /** `CreatePool` keeps the invariant and fills the new pool with live
      instances nobody else holds. */
  lemma CreatePoolValid(s: Pool, prefab: Id, n: int)
    requires Valid(s)
    ensures Valid(CreatePool(s, prefab, n))
    ensures prefab !in s.destroyed && prefab !in s.pooled ==>
      forall o :: o in CreatePool(s, prefab, n).pooled[prefab] ==>
        o !in s.destroyed && o !in s.spawned
  {
    if prefab !in s.destroyed && prefab !in s.pooled {
      var r := CreatePool(s, prefab, n);
      var l := r.pooled[prefab];
      forall o | o in l
        ensures s.next <= o < r.next
      {
        var i :| 0 <= i < |l| && l[i] == o;
      }
    }
  }

  /** `Spawn` keeps the invariant; the returned object is live, spawned when
      the prefab has a pool, and was not spawned before. */
  lemma SpawnValid(s: Pool, prefab: Id)
    requires Valid(s)
    ensures var r := Spawn(s, prefab);
      && Valid(r.pool)
      && r.obj !in s.spawned
      && r.obj !in r.pool.destroyed
      && (prefab in s.pooled <==> IsSpawned(r.pool, r.obj))
  {
    if prefab in s.pooled {
      if DropDestroyed(s.pooled[prefab], s.destroyed) != [] {
        SpawnReuseValid(s, prefab);
      } else {
        SpawnFreshValid(s, prefab);
      }
    }
  }

  /** The reuse branch of `Spawn` keeps the invariant. */
  lemma SpawnReuseValid(s: Pool, prefab: Id)
    requires Valid(s) && prefab in s.pooled
    requires DropDestroyed(s.pooled[prefab], s.destroyed) != []
    ensures Valid(Spawn(s, prefab).pool)
    ensures Spawn(s, prefab).obj !in s.spawned
  {
    var l := s.pooled[prefab];
    var rest := DropDestroyed(l, s.destroyed);
    var d := |l| - |rest|;
    SuffixFacts(l, d);
    SuffixFacts(l, d + 1);
    assert rest[0] == l[d] && rest[1..] == l[d + 1..];
    assert rest[0] in l;
    TakeValid(s, prefab, rest[1..], rest[0], s.next);
  }

  /** The fresh-instance branch of `Spawn` on an exhausted pool keeps the
      invariant. */
  lemma SpawnFreshValid(s: Pool, prefab: Id)
    requires Valid(s) && prefab in s.pooled
    requires DropDestroyed(s.pooled[prefab], s.destroyed) == []
    ensures Valid(Spawn(s, prefab).pool)
  {
    TakeValid(s, prefab, [], s.next, s.next + 1);
  }

  /** Shortening one idle list and spawning an instance no other idle list
      holds keeps the invariant. */
  lemma TakeValid(s: Pool, prefab: Id, nl: seq<Id>, o0: Id, next': nat)
    requires Valid(s) && prefab in s.pooled
    requires forall o :: o in nl ==> o in s.pooled[prefab]
    requires Distinct(nl) && o0 !in nl
    requires o0 !in s.spawned && o0 < next' && s.next <= next'
    requires forall p :: p in s.pooled && p != prefab ==> o0 !in s.pooled[p]
    ensures Valid(s.(pooled := s.pooled[prefab := nl], spawned := s.spawned[o0 := prefab], next := next'))
  {
    var np := s.(pooled := s.pooled[prefab := nl], spawned := s.spawned[o0 := prefab], next := next');
    forall p, o | p in np.pooled && o in np.pooled[p]
      ensures o < np.next && o !in np.spawned
    {
      assert o in s.pooled[p];
    }
    forall p, q, o | p in np.pooled && q in np.pooled && o in np.pooled[p] && o in np.pooled[q]
      ensures p == q
    {
      assert o in s.pooled[p] && o in s.pooled[q];
    }
  }

  /** `Spawn` from a pool that still holds a live instance: the instance
      leaves the idle list (with any destroyed ones in front of it), so the
      idle count drops by at least one and the spawned count rises by
      exactly one. */
  lemma SpawnFromPoolCounts(s: Pool, prefab: Id)
    requires Valid(s) && prefab in s.pooled
    requires exists i :: 0 <= i < |s.pooled[prefab]| && s.pooled[prefab][i] !in s.destroyed
    ensures Spawn(s, prefab).obj in s.pooled[prefab]
    ensures Spawn(s, prefab).pool.next == s.next
    ensures CountPooled(Spawn(s, prefab).pool, prefab) < CountPooled(s, prefab)
    ensures CountSpawned(Spawn(s, prefab).pool, prefab) == CountSpawned(s, prefab) + 1
  {
    var l := s.pooled[prefab];
    DropDestroyedFindsLive(l, s.destroyed);
    var rest := DropDestroyed(l, s.destroyed);
    assert rest != [];
    var r := Spawn(s, prefab);
    assert r.obj == rest[0] && r.obj in l;
    assert r.obj !in s.spawned;
    assert CountPooled(r.pool, prefab) == |rest| - 1;
    assert r.pool.spawned == s.spawned[r.obj := prefab];
    CountSpawnedAdd(s, r.pool, prefab, r.obj);
  }

  /** Recording one more instance of `prefab` raises its spawned count by one. */
  lemma CountSpawnedAdd(s: Pool, r: Pool, prefab: Id, o: Id)
    requires o !in s.spawned && r.spawned == s.spawned[o := prefab]
    ensures SpawnedOf(r, prefab) == SpawnedOf(s, prefab) + {o}
    ensures CountSpawned(r, prefab) == CountSpawned(s, prefab) + 1
  {
    forall x
      ensures x in SpawnedOf(r, prefab) <==> x in SpawnedOf(s, prefab) + {o}
    {
    }
  }

  /** Forgetting one spawned instance lowers its prefab's spawned count by
      one and leaves every other prefab's count alone. */
  lemma CountSpawnedRemove(s: Pool, r: Pool, q: Id, o: Id)
    requires o in s.spawned && r.spawned == s.spawned - {o}
    ensures SpawnedOf(r, q) == SpawnedOf(s, q) - {o}
    ensures CountSpawned(s, q) == CountSpawned(r, q) + (if s.spawned[o] == q then 1 else 0)
  {
    forall x
      ensures x in SpawnedOf(r, q) <==> x in SpawnedOf(s, q) - {o}
    {
    }
  }

  /** `Spawn` from a pool with no live instance left: the pool ends empty and
      a fresh instance is spawned. */
  lemma SpawnFromExhaustedPool(s: Pool, prefab: Id)
    requires Valid(s) && prefab in s.pooled
    requires forall i :: 0 <= i < |s.pooled[prefab]| ==> s.pooled[prefab][i] in s.destroyed
    ensures var r := Spawn(s, prefab);
      && r.obj == s.next && r.pool.next == s.next + 1
      && CountPooled(r.pool, prefab) == 0
      && IsSpawned(r.pool, r.obj)
      && CountSpawned(r.pool, prefab) == CountSpawned(s, prefab) + 1
  {
    DropDestroyedFindsLive(s.pooled[prefab], s.destroyed);
    var r := Spawn(s, prefab);
    CountSpawnedAdd(s, r.pool, prefab, r.obj);
  }

  /** Without a pool, `Spawn` only instantiates: every count stays put. */
  lemma SpawnUnpooledCounts(s: Pool, prefab: Id, q: Id)
    requires prefab !in s.pooled
    ensures var r := Spawn(s, prefab);
      && CountPooled(r.pool, q) == CountPooled(s, q)
      && CountSpawned(r.pool, q) == CountSpawned(s, q)
  {
  }

  /** `Recycle` keeps the invariant. */
  lemma RecycleValid(s: Pool, obj: Id)
    requires Valid(s) && obj < s.next
    ensures Valid(Recycle(s, obj))
  {
    var r := Recycle(s, obj);
    if obj in s.spawned {
      var p := s.spawned[obj];
      var l := s.pooled[p];
      var l' := l + [obj];
      assert obj !in l;
      forall i, j | 0 <= i < j < |l'|
        ensures l'[i] != l'[j]
      {
        if j == |l| {
          assert l'[i] == l[i] && l[i] in l;
        }
      }
      forall q, o | q in r.pooled && o in r.pooled[q]
        ensures o < r.next && o !in r.spawned
      {
        if q == p && o != obj {
          assert o in l;
        }
      }
      forall q1, q2, o | q1 in r.pooled && q2 in r.pooled && o in r.pooled[q1] && o in r.pooled[q2]
        ensures q1 == q2
      {
        if o != obj {
          assert o in s.pooled[q1] && o in s.pooled[q2];
        }
      }
    }
  }

  /** `Recycle` moves an instance between the two maps without creating or
      losing one: for every prefab, idle plus spawned is unchanged, and the
      total of the idle lists grows by exactly the recycled instance. */
  lemma RecycleConserves(s: Pool, obj: Id, q: Id)
    requires Coherent(s)
    ensures CountPooled(Recycle(s, obj), q) + CountSpawned(Recycle(s, obj), q)
         == CountPooled(s, q) + CountSpawned(s, q)
    ensures SumLengths(Recycle(s, obj).pooled) == SumLengths(s.pooled) + (if IsSpawned(s, obj) then 1 else 0)
  {
    var r := Recycle(s, obj);
    if obj in s.spawned {
      var p := s.spawned[obj];
      assert CountPooled(r, q) + CountSpawned(r, q) == CountPooled(s, q) + CountSpawned(s, q) by {
        CountSpawnedRemove(s, r, q, obj);
      }
      SumLengthsUpdate(s.pooled, p, s.pooled[p] + [obj]);
    } else {
      assert SpawnedOf(s, q) == SpawnedOf(r, q);
    }
  }

  /** `DestroyPooled` keeps the invariant and removes exactly the prefab's
      idle list from the total. */
  lemma DestroyPooledValid(s: Pool, prefab: Id)
    requires Valid(s)
    ensures Valid(DestroyPooled(s, prefab))
    ensures SumLengths(DestroyPooled(s, prefab).pooled) + CountPooled(s, prefab) == SumLengths(s.pooled)
  {
    if prefab in s.pooled {
      var list := s.pooled[prefab];
      forall i | 0 <= i < |list|
        ensures list[i] < s.next
      {
        assert list[i] in list;
      }
      SumLengthsUpdate(s.pooled, prefab, []);
    }
  }

  /** Destroying an existing object from outside keeps the invariant. */
  lemma DestroyValid(s: Pool, obj: Id)
    requires Valid(s) && obj < s.next
    ensures Valid(Destroy(s, obj))
  {
  }
}
