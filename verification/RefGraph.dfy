/**
 scoped_refptrs inside reference-counted objects: the last Release of an object destroys its
 pointers, which may release further objects, among them the one whose pointer is being assigned.
 */
module RefGraph {
  import opened Options

  /** A reference-counted object and its scoped_refptr members. */
  datatype Obj = Obj(count: int, alive: bool, fields: seq<Option<nat>>)

  /** The scoped_refptrs outside any object, and the objects by number. */
  datatype Heap = Heap(roots: seq<Option<nat>>, objs: seq<Obj>)
  {
    predicate Alive(o: nat) {
      o < |objs| && objs[o].alive
    }
  }

  /** Where a scoped_refptr is. */
  datatype Place = Root(i: nat) | Field(o: nat, f: nat)

  predicate Exists(h: Heap, place: Place) {
    match place
    case Root(i) => i < |h.roots|
    case Field(o, f) => h.Alive(o) && f < |h.objs[o].fields|
  }

  function Target(h: Heap, place: Place): Option<nat>
    requires Exists(h, place)
  {
    match place
    case Root(i) => h.roots[i]
    case Field(o, f) => h.objs[o].fields[f]
  }

  function Write(h: Heap, place: Place, p: Option<nat>): Heap
    requires Exists(h, place)
  {
    match place
    case Root(i) => h.(roots := h.roots[i := p])
    case Field(o, f) => h.(objs := h.objs[o := h.objs[o].(fields := h.objs[o].fields[f := p])])
  }

  // ---------- Release ----------

  function Live(objs: seq<Obj>): nat {
    if objs == [] then 0 else (if objs[0].alive then 1 else 0) + Live(objs[1..])
  }

  function AsPending(p: Option<nat>): seq<nat> {
    if p.Some? then [p.value] else []
  }

  function Pointers(ptrs: seq<Option<nat>>): seq<nat> {
    if ptrs == [] then [] else AsPending(ptrs[0]) + Pointers(ptrs[1..])
  }

  function Kill(objs: seq<Obj>, o: nat): (r: seq<Obj>)
    requires o < |objs| && objs[o].alive
    ensures |r| == |objs| && Live(r) < Live(objs)
  {
    LiveKill(objs, o);
    objs[o := objs[o].(count := 0, alive := false)]
  }

  lemma {:induction false} LiveKill(objs: seq<Obj>, o: nat)
    requires o < |objs| && objs[o].alive
    ensures Live(objs[o := objs[o].(count := 0, alive := false)]) < Live(objs)
    decreases |objs|
  {
    var dead := objs[o].(count := 0, alive := false);
    if o > 0 {
      assert objs[o := dead][1..] == objs[1..][o - 1 := dead];
      LiveKill(objs[1..], o - 1);
    } else {
      assert objs[o := dead][1..] == objs[1..];
    }
  }

  lemma {:induction false} LiveRecount(objs: seq<Obj>, o: nat, count: int)
    requires o < |objs|
    ensures Live(objs[o := objs[o].(count := count)]) == Live(objs)
    decreases |objs|
  {
    var changed := objs[o].(count := count);
    if o > 0 {
      assert objs[o := changed][1..] == objs[1..][o - 1 := changed];
      LiveRecount(objs[1..], o - 1, count);
    } else {
      assert objs[o := changed][1..] == objs[1..];
    }
  }

  function Recount(h: Heap, o: nat, added: int): (r: Heap)
    requires o < |h.objs|
    ensures Live(r.objs) == Live(h.objs)
  {
    LiveRecount(h.objs, o, h.objs[o].count + added);
    h.(objs := h.objs[o := h.objs[o].(count := h.objs[o].count + added)])
  }

  /** A heap and the references still to be given back, the next one first. */
  datatype Work = Work(heap: Heap, pending: seq<nat>)

  /** One reference given back. The last one destroys the object, and its pointers are given back next. */
  function Next(w: Work): (r: Work)
    requires w.pending != []
    ensures Live(r.heap.objs) < Live(w.heap.objs)
            || (Live(r.heap.objs) == Live(w.heap.objs) && |r.pending| < |w.pending|)
  {
    var h, o, rest := w.heap, w.pending[0], w.pending[1..];
    if o >= |h.objs| then Work(h, rest)
    else if h.objs[o].alive && h.objs[o].count == 1 then
      Work(h.(objs := Kill(h.objs, o)), Pointers(h.objs[o].fields) + rest)
    else Work(Recount(h, o, -1), rest)
  }

  /** Release: everything that one reference given back leads to. */
  function Release(w: Work): Heap
    decreases Live(w.heap.objs), |w.pending|
  {
    if w.pending == [] then w.heap else Release(Next(w))
  }

  /** The pointers stay where they are, and what is dead stays dead. */
  ghost predicate SameShape(h: Heap, h': Heap) {
    && h'.roots == h.roots && |h'.objs| == |h.objs|
    && forall o :: 0 <= o < |h.objs| ==>
         h'.objs[o].fields == h.objs[o].fields && (h'.objs[o].alive ==> h.objs[o].alive)
  }

  lemma {:induction false} ReleaseShape(w: Work)
    ensures SameShape(w.heap, Release(w))
    decreases Live(w.heap.objs), |w.pending|
  {
    hide Pointers;
    if w.pending != [] {
      ReleaseShape(Next(w));
    }
  }

  // ---------- counting references ----------

  ghost function Held(ptrs: seq<Option<nat>>, o: nat): nat {
    multiset(ptrs)[Some(o)]
  }

  /** References to `o` from the pointers of live objects. */
  ghost function FieldsHeld(objs: seq<Obj>, o: nat): nat {
    if objs == [] then 0 else (if objs[0].alive then Held(objs[0].fields, o) else 0) + FieldsHeld(objs[1..], o)
  }

  ghost function Refs(h: Heap, o: nat): nat {
    Held(h.roots, o) + FieldsHeld(h.objs, o)
  }

  ghost function Owed(pending: seq<nat>, o: nat): nat {
    multiset(pending)[o]
  }

  /**
   Each live object's count is the number of references to it, those still to be given back included,
   and positive; and nothing refers to any other object.
   */
  ghost predicate Balanced(w: Work) {
    forall o: nat :: BalancedAt(w, o)
  }

  ghost predicate BalancedAt(w: Work, o: nat) {
    var n := Refs(w.heap, o) + Owed(w.pending, o);
    if w.heap.Alive(o) then w.heap.objs[o].count == n > 0 else n == 0
  }

  ghost function One(b: bool): nat {
    if b then 1 else 0
  }

  lemma {:induction false} HeldUpdate(ptrs: seq<Option<nat>>, i: nat, p: Option<nat>, o: nat)
    requires i < |ptrs|
    ensures Held(ptrs[i := p], o) == Held(ptrs, o) - One(ptrs[i] == Some(o)) + One(p == Some(o))
  {
  }

  lemma {:induction false} HeldIn(ptrs: seq<Option<nat>>, o: nat)
    ensures Held(ptrs, o) > 0 <==> Some(o) in ptrs
  {
    assert Some(o) in ptrs <==> Some(o) in multiset(ptrs);
  }

  /** Changing one object changes its share of the references. */
  lemma {:induction false} FieldsHeldUpdate(objs: seq<Obj>, k: nat, x: Obj, o: nat)
    requires k < |objs|
    ensures FieldsHeld(objs[k := x], o) + (if objs[k].alive then Held(objs[k].fields, o) else 0)
            == FieldsHeld(objs, o) + if x.alive then Held(x.fields, o) else 0
    decreases |objs|
  {
    hide Held;
    if k > 0 {
      assert objs[k := x][1..] == objs[1..][k - 1 := x];
      FieldsHeldUpdate(objs[1..], k - 1, x, o);
    } else {
      assert objs[k := x][1..] == objs[1..];
    }
  }

  lemma {:induction false} FieldsHeldIn(objs: seq<Obj>, o: nat)
    ensures FieldsHeld(objs, o) > 0 <==>
      exists k :: 0 <= k < |objs| && objs[k].alive && Some(o) in objs[k].fields
    decreases |objs|
  {
    hide Held;
    if objs != [] {
      HeldIn(objs[0].fields, o);
      FieldsHeldIn(objs[1..], o);
      if k :| 0 <= k < |objs[1..]| && objs[1..][k].alive && Some(o) in objs[1..][k].fields {
        assert objs[k + 1] == objs[1..][k];
      }
      if k :| 0 < k < |objs| && objs[k].alive && Some(o) in objs[k].fields {
        assert objs[k] == objs[1..][k - 1];
      }
    }
  }

  lemma {:induction false} HeldFirst(ptrs: seq<Option<nat>>, o: nat)
    requires ptrs != []
    ensures Held(ptrs, o) == One(ptrs[0] == Some(o)) + Held(ptrs[1..], o)
  {
    assert ptrs == [ptrs[0]] + ptrs[1..];
  }

  lemma {:induction false} OwedConcat(a: seq<nat>, b: seq<nat>, o: nat)
    ensures Owed(a + b, o) == Owed(a, o) + Owed(b, o)
  {
  }

  lemma {:induction false} PointersHeld(ptrs: seq<Option<nat>>, o: nat)
    ensures Owed(Pointers(ptrs), o) == Held(ptrs, o)
    decreases |ptrs|
  {
    if ptrs != [] {
      hide Owed, Held;
      PointersHeld(ptrs[1..], o);
      HeldFirst(ptrs, o);
      OwedConcat(AsPending(ptrs[0]), Pointers(ptrs[1..]), o);
      OwedOne(ptrs[0], o);
    }
  }

  lemma {:induction false} PointersOwed(ptrs: seq<Option<nat>>, rest: seq<nat>, o: nat)
    ensures Owed(Pointers(ptrs) + rest, o) == Held(ptrs, o) + Owed(rest, o)
  {
    hide Owed, Held, Pointers;
    OwedConcat(Pointers(ptrs), rest, o);
    PointersHeld(ptrs, o);
  }

  lemma {:induction false} OwedFirst(pending: seq<nat>, o: nat)
    requires pending != []
    ensures Owed(pending, o) == One(pending[0] == o) + Owed(pending[1..], o)
  {
    assert pending == [pending[0]] + pending[1..];
  }

  // ---------- what Release does ----------

  lemma {:induction false} RefsUpdate(h: Heap, k: nat, x: Obj, o: nat)
    requires k < |h.objs|
    ensures Refs(h.(objs := h.objs[k := x]), o) + (if h.objs[k].alive then Held(h.objs[k].fields, o) else 0)
            == Refs(h, o) + if x.alive then Held(x.fields, o) else 0
  {
    hide Held, FieldsHeld;
    FieldsHeldUpdate(h.objs, k, x, o);
  }

  lemma {:induction false} NextBalanced(w: Work, x: nat)
    requires w.pending != [] && Balanced(w)
    ensures BalancedAt(Next(w), x)
  {
    hide Held, FieldsHeld, Refs, Owed, Live, Pointers, Balanced;
    var h, o, rest := w.heap, w.pending[0], w.pending[1..];
    BalancedFacts(w, o);
    BalancedFacts(w, x);
    OwedFirst(w.pending, o);
    OwedFirst(w.pending, x);
    var changed := Next(w).heap.objs[o];
    RefsUpdate(h, o, changed, x);
    if h.objs[o].count == 1 {
      PointersOwed(h.objs[o].fields, rest, x);
      RefsUpdate(h, o, changed, o);
      OwnFields(h, o);
    }
  }

  lemma {:induction false} BalancedFacts(w: Work, o: nat)
    requires Balanced(w)
    ensures BalancedAt(w, o)
  {
  }

  /** An object's own pointers are among the references. */
  lemma {:induction false} OwnFields(h: Heap, o: nat)
    requires h.Alive(o)
    ensures Held(h.objs[o].fields, o) <= Refs(h, o)
  {
    hide Held;
    FieldsHeldUpdate(h.objs, o, h.objs[o].(alive := false), o);
  }

  /** After Release, whatever it has led to, every count is exact again and no pointer dangles. */
  lemma {:induction false} ReleaseBalanced(w: Work)
    requires Balanced(w)
    ensures Balanced(Work(Release(w), []))
    decreases Live(w.heap.objs), |w.pending|
  {
    hide BalancedAt, Next;
    if w.pending != [] {
      forall x: nat ensures BalancedAt(Next(w), x) {
        NextBalanced(w, x);
      }
      ReleaseBalanced(Next(w));
    }
  }

  // ---------- who survives ----------

  /** Every member is alive and has a reference from outside any object or from a member. */
  ghost predicate Supported(h: Heap, s: set<nat>) {
    forall o :: o in s ==> h.Alive(o) && SupportedBy(h, s, o)
  }

  ghost predicate SupportedBy(h: Heap, s: set<nat>, o: nat) {
    Some(o) in h.roots || exists q :: q in s && h.Alive(q) && Some(o) in h.objs[q].fields
  }

  lemma {:induction false} SupportCounts(h: Heap, s: set<nat>, o: nat)
    requires Supported(h, s) && o in s
    ensures Refs(h, o) > 0
  {
    hide Held, FieldsHeld;
    HeldIn(h.roots, o);
    FieldsHeldIn(h.objs, o);
  }

  lemma {:induction false} NextSupported(w: Work, s: set<nat>)
    requires w.pending != [] && Balanced(w) && Supported(w.heap, s)
    ensures Supported(Next(w).heap, s)
  {
    hide Refs, Owed, Live, Pointers, Balanced;
    var o := w.pending[0];
    BalancedFacts(w, o);
    OwedFirst(w.pending, o);
    if o in s { SupportCounts(w.heap, s, o); }
    var h' := Next(w).heap;
    forall x | x in s ensures h'.Alive(x) && SupportedBy(h', s, x) {
      if q :| q in s && w.heap.Alive(q) && Some(x) in w.heap.objs[q].fields {
        assert h'.Alive(q) && h'.objs[q].fields == w.heap.objs[q].fields;
      }
    }
  }

  lemma {:induction false} ReleaseSpares(w: Work, s: set<nat>)
    requires Balanced(w) && Supported(w.heap, s)
    ensures Supported(Release(w), s)
    decreases Live(w.heap.objs), |w.pending|
  {
    hide BalancedAt, Next, Supported;
    if w.pending != [] {
      forall x: nat ensures BalancedAt(Next(w), x) {
        NextBalanced(w, x);
      }
      NextSupported(w, s);
      ReleaseSpares(Next(w), s);
    }
  }

  ghost function AliveSet(h: Heap): set<nat> {
    set o | 0 <= o < |h.objs| && h.objs[o].alive
  }

  lemma {:induction false} AliveSupported(h: Heap)
    requires Balanced(Work(h, []))
    ensures Supported(h, AliveSet(h))
  {
    hide Held, FieldsHeld;
    forall o | o in AliveSet(h) ensures SupportedBy(h, AliveSet(h), o) {
      BalancedFacts(Work(h, []), o);
      HeldIn(h.roots, o);
      FieldsHeldIn(h.objs, o);
    }
  }

  ghost predicate Survives(h: Heap, o: nat) {
    exists s: set<nat> :: o in s && Supported(h, s)
  }

  /**
   An object survives a Release, with all that it leads to, exactly when it belongs to a set of live
   objects each of which is held from outside or from within the set.
   */
  lemma {:induction false} ReleaseExact(w: Work, o: nat)
    requires Balanced(w)
    ensures Release(w).Alive(o) <==> Survives(w.heap, o)
  {
    hide Release, Balanced, Supported;
    ReleaseBalanced(w);
    ReleaseShape(w);
    var h' := Release(w);
    if h'.Alive(o) {
      AliveSupported(h');
      SupportedBefore(w.heap, h', AliveSet(h'));
      assert o in AliveSet(h');
    }
    if Survives(w.heap, o) {
      var s: set<nat> :| o in s && Supported(w.heap, s);
      ReleaseSpares(w, s);
      SupportedAlive(h', s, o);
    }
  }

  lemma {:induction false} SupportedAlive(h: Heap, s: set<nat>, o: nat)
    requires Supported(h, s) && o in s
    ensures h.Alive(o)
  {
  }

  lemma {:induction false} SupportedBefore(h: Heap, h': Heap, s: set<nat>)
    requires SameShape(h, h') && Supported(h', s)
    ensures Supported(h, s)
  {
    forall o | o in s ensures h.Alive(o) && SupportedBy(h, s, o) {
      if q :| q in s && h'.Alive(q) && Some(o) in h'.objs[q].fields {
        assert h.Alive(q) && h.objs[q].fields == h'.objs[q].fields;
      }
    }
  }

  // ---------- assignment ----------

  /**
   operator=(T*): the new object is referenced, the old one is let go with all that leads to, and then
   the pointer is written. None if the pointer is gone by then.
   */
  function Assign(h: Heap, place: Place, p: Option<nat>): Option<Heap>
    requires Exists(h, place) && (p.Some? ==> p.value < |h.objs|)
  {
    var h' := Release(Work(Referenced(h, p), AsPending(Target(h, place))));
    if Exists(h', place) then Some(Write(h', place, p)) else None
  }

  function Referenced(h: Heap, p: Option<nat>): Heap
    requires p.Some? ==> p.value < |h.objs|
  {
    if p.Some? then Recount(h, p.value, 1) else h
  }

  lemma {:induction false} RefsWrite(h: Heap, place: Place, p: Option<nat>, o: nat)
    requires Exists(h, place)
    ensures Refs(Write(h, place, p), o) == Refs(h, o) - One(Target(h, place) == Some(o)) + One(p == Some(o))
  {
    hide Held, FieldsHeld;
    match place
    case Root(i) => HeldUpdate(h.roots, i, p, o);
    case Field(k, f) =>
      HeldUpdate(h.objs[k].fields, f, p, o);
      RefsUpdate(h, k, h.objs[k].(fields := h.objs[k].fields[f := p]), o);
  }

  lemma {:induction false} RefsReferenced(h: Heap, p: Option<nat>, o: nat)
    requires p.Some? ==> p.value < |h.objs|
    ensures Refs(Referenced(h, p), o) == Refs(h, o)
  {
    hide Held, FieldsHeld;
    if p.Some? {
      RefsUpdate(h, p.value, h.objs[p.value].(count := h.objs[p.value].count + 1), o);
    }
  }

  lemma {:induction false} OwedOne(p: Option<nat>, o: nat)
    ensures Owed(AsPending(p), o) == One(p == Some(o))
  {
  }

  lemma {:induction false} OwedNothing(o: nat)
    ensures Owed([], o) == 0
  {
  }

  /** The pointer already written, and the old reference still to be given back: nothing is off balance. */
  lemma {:induction false} WrittenBalanced(h: Heap, place: Place, p: Option<nat>)
    requires Balanced(Work(h, [])) && Exists(h, place) && (p.Some? ==> h.Alive(p.value))
    ensures Exists(Referenced(h, p), place)
    ensures Balanced(Work(Write(Referenced(h, p), place, p), AsPending(Target(h, place))))
  {
    hide Refs, Owed, AsPending, Balanced;
    var h1, pending := Referenced(h, p), AsPending(Target(h, place));
    forall o: nat ensures BalancedAt(Work(Write(h1, place, p), pending), o) {
      BalancedFacts(Work(h, []), o);
      RefsReferenced(h, p, o);
      RefsWrite(h1, place, p, o);
      OwedOne(Target(h, place), o);
      OwedNothing(o);
    }
    BalancedAll(Work(Write(h1, place, p), pending));
  }

  lemma {:induction false} BalancedAll(w: Work)
    requires forall o: nat :: BalancedAt(w, o)
    ensures Balanced(w)
  {
  }

  // Release takes the same course whether the pointer is written before or after it, up to the end
  // of the object that holds the pointer.

  function Refielded(h: Heap, k: nat, fields: seq<Option<nat>>): Heap
    requires k < |h.objs|
  {
    h.(objs := h.objs[k := h.objs[k].(fields := fields)])
  }

  lemma {:induction false} NextRefielded(w: Work, k: nat, fields: seq<Option<nat>>)
    requires w.pending != [] && w.heap.Alive(k)
    ensures var n, n' := Next(w), Next(Work(Refielded(w.heap, k, fields), w.pending));
      && n.heap.Alive(k) == n'.heap.Alive(k) && |n.heap.objs| == |w.heap.objs|
      && (n.heap.Alive(k) ==> n' == Work(Refielded(n.heap, k, fields), n.pending))
  {
    hide Live, Pointers;
  }

  lemma {:induction false} ReleaseRefielded(w: Work, k: nat, fields: seq<Option<nat>>)
    requires w.heap.Alive(k)
    ensures var r, r' := Release(w), Release(Work(Refielded(w.heap, k, fields), w.pending));
      && r.Alive(k) == r'.Alive(k)
      && (r.Alive(k) ==> r' == Refielded(r, k, fields))
    decreases Live(w.heap.objs), |w.pending|
  {
    hide Next, Live;
    if w.pending != [] {
      var w' := Work(Refielded(w.heap, k, fields), w.pending);
      NextRefielded(w, k, fields);
      if Next(w).heap.Alive(k) {
        ReleaseRefielded(Next(w), k, fields);
      } else {
        ReleaseShape(Next(w));
        ReleaseShape(Next(w'));
      }
    }
  }

  lemma {:induction false} ReleaseRerooted(w: Work, roots: seq<Option<nat>>)
    ensures Release(Work(w.heap.(roots := roots), w.pending)) == Release(w).(roots := roots)
    decreases Live(w.heap.objs), |w.pending|
  {
    hide Live, Pointers;
    if w.pending != [] {
      assert Next(Work(w.heap.(roots := roots), w.pending)) == Work(Next(w).heap.(roots := roots), Next(w).pending);
      ReleaseRerooted(Next(w), roots);
    }
  }

  lemma {:induction false} WriteCommutes(w: Work, place: Place, p: Option<nat>)
    requires Exists(w.heap, place)
    ensures var r, r' := Release(w), Release(Work(Write(w.heap, place, p), w.pending));
      && (place.Field? ==> (r.Alive(place.o) <==> r'.Alive(place.o)))
      && (Exists(r, place) <==> place.Root? || r.Alive(place.o))
      && (Exists(r, place) ==> Write(r, place, p) == r')
  {
    hide Release;
    ReleaseShape(w);
    match place
    case Root(i) => ReleaseRerooted(w, w.heap.roots[i := p]);
    case Field(k, f) => ReleaseRefielded(w, k, w.heap.objs[k].fields[f := p]);
  }

  lemma {:induction false} SurvivesSame(h: Heap, h': Heap, o: nat)
    requires SameShape(h, h') && SameShape(h', h)
    ensures Survives(h, o) <==> Survives(h', o)
  {
    hide SameShape, Supported;
    if s: set<nat> :| o in s && Supported(h, s) { SupportedBefore(h', h, s); }
    if s: set<nat> :| o in s && Supported(h', s) { SupportedBefore(h, h', s); }
  }

  /**
   Exactly when an assignment is safe: the pointer lies outside any object, or its object survives the
   loss of the old reference. Then every count is exact again, and exactly the objects that are held
   from outside or from within a set of live objects are left.
   */
  lemma {:induction false} AssignExact(h: Heap, place: Place, p: Option<nat>)
    requires Balanced(Work(h, [])) && Exists(h, place) && (p.Some? ==> h.Alive(p.value))
    ensures Assign(h, place, p).Some? <==> place.Root? || Survives(Write(h, place, p), place.o)
    ensures Assign(h, place, p).Some? ==>
      var h' := Assign(h, place, p).value;
      Balanced(Work(h', [])) && forall o: nat :: h'.Alive(o) <==> Survives(Write(h, place, p), o)
  {
    hide Release, Balanced, Survives, AsPending;
    var h1, pending := Referenced(h, p), AsPending(Target(h, place));
    WrittenBalanced(h, place, p);
    var w := Work(Write(h1, place, p), pending);
    WriteCommutes(Work(h1, pending), place, p);
    ReleaseBalanced(w);
    forall o: nat ensures Release(w).Alive(o) <==> Survives(Write(h, place, p), o) {
      ReleaseExact(w, o);
      SurvivesSame(w.heap, Write(h, place, p), o);
    }
  }

  /** operator=(scoped_refptr&&): both pointers are written before the old reference is given back. */
  function AssignMove(h: Heap, place: Place, from: Place): Heap
    requires Exists(h, place) && Exists(h, from)
  {
    var h' := Write(h, from, None);
    Release(Work(Write(h', place, Target(h, from)), AsPending(Target(h', place))))
  }

  lemma {:induction false} MovedBalanced(h: Heap, place: Place, from: Place)
    requires Balanced(Work(h, [])) && Exists(h, place) && Exists(h, from)
    ensures var h' := Write(h, from, None);
      Balanced(Work(Write(h', place, Target(h, from)), AsPending(Target(h', place))))
  {
    hide Refs, Owed, AsPending, Balanced;
    var h' := Write(h, from, None);
    var w := Work(Write(h', place, Target(h, from)), AsPending(Target(h', place)));
    forall o: nat ensures BalancedAt(w, o) {
      BalancedFacts(Work(h, []), o);
      RefsWrite(h, from, None, o);
      RefsWrite(h', place, Target(h, from), o);
      OwedOne(Target(h', place), o);
      OwedNothing(o);
    }
    BalancedAll(w);
  }

  /** A move assignment is safe in every heap, also onto itself and out of the object it lets go. */
  lemma {:induction false} MoveExact(h: Heap, place: Place, from: Place)
    requires Balanced(Work(h, [])) && Exists(h, place) && Exists(h, from)
    ensures Balanced(Work(AssignMove(h, place, from), []))
    ensures forall o: nat :: AssignMove(h, place, from).Alive(o)
                             <==> Survives(Write(Write(h, from, None), place, Target(h, from)), o)
  {
    hide Release, Balanced, Survives, AsPending;
    MovedBalanced(h, place, from);
    var h' := Write(h, from, None);
    var w := Work(Write(h', place, Target(h, from)), AsPending(Target(h', place)));
    ReleaseBalanced(w);
    forall o: nat ensures Release(w).Alive(o) <==> Survives(w.heap, o) {
      ReleaseExact(w, o);
    }
  }

  // ---------- what can be reached ----------

  /** A way from a pointer outside any object along pointers of objects. */
  ghost predicate IsPath(h: Heap, path: seq<nat>) {
    && path != [] && Some(path[0]) in h.roots
    && forall i :: 0 <= i < |path| - 1 ==> path[i] < |h.objs| && Some(path[i + 1]) in h.objs[path[i]].fields
  }

  ghost predicate Reachable(h: Heap, o: nat) {
    exists path :: IsPath(h, path) && path[|path| - 1] == o
  }

  /** No pointer dangles: what can be reached is alive. */
  lemma {:induction false} PathAlive(h: Heap, path: seq<nat>, i: nat)
    requires Balanced(Work(h, [])) && IsPath(h, path) && i < |path|
    ensures h.Alive(path[i])
    decreases i
  {
    hide Held, FieldsHeld;
    BalancedFacts(Work(h, []), path[i]);
    HeldIn(h.roots, path[i]);
    FieldsHeldIn(h.objs, path[i]);
    if i > 0 {
      PathAlive(h, path, i - 1);
      assert Some(path[i - 1 + 1]) in h.objs[path[i - 1]].fields;
    }
  }

  /** What a path visits supports its end, even after a pointer of the end is written. */
  lemma {:induction false} PathSupports(h: Heap, path: seq<nat>, f: nat, p: Option<nat>)
    requires Balanced(Work(h, [])) && IsPath(h, path)
    requires Exists(h, Field(path[|path| - 1], f))
    ensures Survives(Write(h, Field(path[|path| - 1], f), p), path[|path| - 1])
    decreases |path|
  {
    hide Balanced;
    var n := |path| - 1;
    var o := path[n];
    if k :| 0 <= k < n && path[k] == o {
      assert IsPath(h, path[..k + 1]);
      PathSupports(h, path[..k + 1], f, p);
    } else {
      var h', s := Write(h, Field(o, f), p), set i | 0 <= i < |path| :: path[i];
      forall x | x in s ensures h'.Alive(x) && SupportedBy(h', s, x) {
        var i :| 0 <= i < |path| && path[i] == x;
        PathAlive(h, path, i);
        if i > 0 {
          PathAlive(h, path, i - 1);
          assert Some(path[i - 1 + 1]) in h.objs[path[i - 1]].fields;
          assert path[i - 1] in s && h'.objs[path[i - 1]].fields == h.objs[path[i - 1]].fields;
        }
      }
      assert o in s && Supported(h', s);
    }
  }

  /** A pointer that code gets to by following pointers can be assigned safely, cycles or not. */
  lemma {:induction false} ReachableSafe(h: Heap, place: Place, p: Option<nat>)
    requires Balanced(Work(h, [])) && Exists(h, place) && (p.Some? ==> h.Alive(p.value))
    requires place.Field? ==> Reachable(h, place.o)
    ensures Assign(h, place, p).Some?
  {
    hide Balanced, Survives, Assign;
    AssignExact(h, place, p);
    if place.Field? {
      var path :| IsPath(h, path) && path[|path| - 1] == place.o;
      PathSupports(h, path, place.f, p);
    }
  }

  /** `rank` falls along every pointer of a live object: the live objects form no cycle. */
  ghost predicate Acyclic(h: Heap, rank: seq<nat>, bound: nat) {
    && |rank| == |h.objs| && (forall k :: 0 <= k < |rank| ==> rank[k] <= bound)
    && forall k, o :: 0 <= k < |h.objs| && h.objs[k].alive && 0 <= o < |h.objs| && Some(o) in h.objs[k].fields ==>
         rank[o] < rank[k]
  }

  /** Without cycles nothing leaks: the live objects are exactly those that can be reached. */
  lemma {:induction false} NoLeak(h: Heap, rank: seq<nat>, bound: nat, o: nat)
    requires Balanced(Work(h, [])) && Acyclic(h, rank, bound)
    ensures h.Alive(o) <==> Reachable(h, o)
  {
    hide Balanced;
    if h.Alive(o) {
      var path := PathTo(h, rank, bound, o);
    }
    if Reachable(h, o) {
      var path :| IsPath(h, path) && path[|path| - 1] == o;
      PathAlive(h, path, |path| - 1);
    }
  }

  lemma {:induction false} PathTo(h: Heap, rank: seq<nat>, bound: nat, o: nat) returns (path: seq<nat>)
    requires Balanced(Work(h, [])) && Acyclic(h, rank, bound) && h.Alive(o)
    ensures IsPath(h, path) && path[|path| - 1] == o
    decreases bound - rank[o]
  {
    hide Balanced, Held, FieldsHeld;
    BalancedFacts(Work(h, []), o);
    HeldIn(h.roots, o);
    FieldsHeldIn(h.objs, o);
    if Some(o) in h.roots {
      path := [o];
    } else {
      var k :| 0 <= k < |h.objs| && h.objs[k].alive && Some(o) in h.objs[k].fields;
      var front := PathTo(h, rank, bound, k);
      path := front + [o];
    }
  }

  /** An object that only its own pointer holds: clearing that pointer writes into the destroyed object. */
  lemma {:induction false} SelfCycleExample()
    ensures var h := Heap([], [Obj(1, true, [Some(0)])]);
      Balanced(Work(h, [])) && Assign(h, Field(0, 0), None) == None
  {
    var h := Heap([], [Obj(1, true, [Some(0)])]);
    forall o: nat ensures BalancedAt(Work(h, []), o) {
      assert h.objs == [h.objs[0]] + [];
      assert FieldsHeld(h.objs, o) == Held([Some(0)], o) + FieldsHeld([], o);
    }
    AssignExact(h, Field(0, 0), None);
    var h' := Write(h, Field(0, 0), None);
    forall s: set<nat> | 0 in s ensures !Supported(h', s) {
    }
  }

  // ---------- every run ----------

  /** What a program does with its pointers; New is make_ref_counted, with that many null members. */
  datatype Op =
    | New(fields: nat)
    | Copy(from: Place)
    | Drop(i: nat)
    | AssignNull(place: Place)
    | AssignCopy(place: Place, from: Place)
    | Move(place: Place, from: Place)

  /** None if the operation writes into a destroyed object; one that names a missing pointer does nothing. */
  function Apply(h: Heap, op: Op): Option<Heap> {
    match op
    case New(n) => Some(Heap(h.roots + [Some(|h.objs|)], h.objs + [Obj(1, true, seq(n, _ => None))]))
    case Copy(from) =>
      if Exists(h, from) && InRange(h, Target(h, from)) then
        var h' := Referenced(h, Target(h, from));
        Some(h'.(roots := h'.roots + [Target(h, from)]))
      else Some(h)
    case Drop(i) =>
      if i < |h.roots| then
        Some(Release(Work(h.(roots := h.roots[..i] + h.roots[i + 1..]), AsPending(h.roots[i]))))
      else Some(h)
    case AssignNull(place) => if Exists(h, place) then Assign(h, place, None) else Some(h)
    case AssignCopy(place, from) =>
      if Exists(h, place) && Exists(h, from) && InRange(h, Target(h, from)) then Assign(h, place, Target(h, from))
      else Some(h)
    case Move(place, from) =>
      if Exists(h, place) && Exists(h, from) then Some(AssignMove(h, place, from)) else Some(h)
  }

  predicate InRange(h: Heap, p: Option<nat>) {
    p.Some? ==> p.value < |h.objs|
  }

  const EMPTY := Heap([], [])

  function Run(ops: seq<Op>): Option<Heap> {
    if ops == [] then Some(EMPTY)
    else
      var before := Run(ops[..|ops| - 1]);
      if before.None? then None else Apply(before.value, ops[|ops| - 1])
  }

  /** No pointer of a balanced heap dangles. */
  lemma {:induction false} TargetAlive(h: Heap, place: Place)
    requires Balanced(Work(h, [])) && Exists(h, place) && Target(h, place).Some?
    ensures h.Alive(Target(h, place).value)
  {
    hide Held, FieldsHeld, Balanced;
    var x := Target(h, place).value;
    BalancedFacts(Work(h, []), x);
    HeldIn(h.roots, x);
    FieldsHeldIn(h.objs, x);
  }

  lemma {:induction false} FieldsHeldSnoc(objs: seq<Obj>, x: Obj, o: nat)
    ensures FieldsHeld(objs + [x], o) == FieldsHeld(objs, o) + if x.alive then Held(x.fields, o) else 0
    decreases |objs|
  {
    hide Held;
    if objs == [] {
      assert [] + [x] == [x] && [x][1..] == [];
    } else {
      assert (objs + [x])[1..] == objs[1..] + [x];
      FieldsHeldSnoc(objs[1..], x, o);
    }
  }

  lemma {:induction false} HeldSnoc(ptrs: seq<Option<nat>>, p: Option<nat>, o: nat)
    ensures Held(ptrs + [p], o) == Held(ptrs, o) + One(p == Some(o))
  {
  }

  lemma {:induction false} HeldRemove(ptrs: seq<Option<nat>>, i: nat, o: nat)
    requires i < |ptrs|
    ensures Held(ptrs[..i] + ptrs[i + 1..], o) == Held(ptrs, o) - One(ptrs[i] == Some(o))
  {
    assert ptrs == ptrs[..i] + [ptrs[i]] + ptrs[i + 1..];
  }

  lemma {:induction false} NoneHeld(n: nat, o: nat)
    ensures Held(seq(n, _ => None), o) == 0
  {
    HeldIn(seq(n, _ => None), o);
  }

  lemma {:induction false} NewBalanced(h: Heap, n: nat)
    requires Balanced(Work(h, []))
    ensures Balanced(Work(Apply(h, New(n)).value, []))
  {
    hide Held, FieldsHeld, Owed, Balanced;
    var h' := Apply(h, New(n)).value;
    forall o: nat ensures BalancedAt(Work(h', []), o) {
      BalancedFacts(Work(h, []), o);
      HeldSnoc(h.roots, Some(|h.objs|), o);
      FieldsHeldSnoc(h.objs, h'.objs[|h.objs|], o);
      NoneHeld(n, o);
      OwedNothing(o);
    }
    BalancedAll(Work(h', []));
  }

  lemma {:induction false} CopyBalanced(h: Heap, p: Option<nat>)
    requires Balanced(Work(h, [])) && (p.Some? ==> h.Alive(p.value))
    ensures var h' := Referenced(h, p); Balanced(Work(h'.(roots := h'.roots + [p]), []))
  {
    hide Held, FieldsHeld, Owed, Balanced;
    var h' := Referenced(h, p).(roots := h.roots + [p]);
    forall o: nat ensures BalancedAt(Work(h', []), o) {
      BalancedFacts(Work(h, []), o);
      RefsReferenced(h, p, o);
      HeldSnoc(h.roots, p, o);
    }
    BalancedAll(Work(h', []));
  }

  lemma {:induction false} DropBalanced(h: Heap, i: nat)
    requires Balanced(Work(h, [])) && i < |h.roots|
    ensures Balanced(Work(h.(roots := h.roots[..i] + h.roots[i + 1..]), AsPending(h.roots[i])))
  {
    hide Held, FieldsHeld, Owed, Balanced, AsPending;
    var w := Work(h.(roots := h.roots[..i] + h.roots[i + 1..]), AsPending(h.roots[i]));
    forall o: nat ensures BalancedAt(w, o) {
      BalancedFacts(Work(h, []), o);
      HeldRemove(h.roots, i, o);
      OwedOne(h.roots[i], o);
      OwedNothing(o);
    }
    BalancedAll(w);
  }

  /** The end of a pointer outside any object leaves exactly the objects that the others hold. */
  lemma {:induction false} DropExact(h: Heap, i: nat, o: nat)
    requires Balanced(Work(h, [])) && i < |h.roots|
    ensures Apply(h, Drop(i)).value.Alive(o) <==> Survives(h.(roots := h.roots[..i] + h.roots[i + 1..]), o)
  {
    hide Balanced, Release, Survives, AsPending;
    DropBalanced(h, i);
    ReleaseExact(Work(h.(roots := h.roots[..i] + h.roots[i + 1..]), AsPending(h.roots[i])), o);
  }

  /** Every operation that does not write into a destroyed object keeps every count exact and no pointer dangling. */
  lemma {:induction false} ApplyBalanced(h: Heap, op: Op)
    requires Balanced(Work(h, []))
    ensures Apply(h, op).Some? ==> Balanced(Work(Apply(h, op).value, []))
  {
    hide Balanced, Release, Survives, Assign, AssignMove, AsPending;
    match op
    case New(n) => NewBalanced(h, n);
    case Copy(from) =>
      if Exists(h, from) {
        if Target(h, from).Some? { TargetAlive(h, from); }
        CopyBalanced(h, Target(h, from));
      }
    case Drop(i) =>
      if i < |h.roots| {
        DropBalanced(h, i);
        ReleaseBalanced(Work(h.(roots := h.roots[..i] + h.roots[i + 1..]), AsPending(h.roots[i])));
      }
    case AssignNull(place) =>
      if Exists(h, place) { AssignExact(h, place, None); }
    case AssignCopy(place, from) =>
      if Exists(h, place) && Exists(h, from) {
        if Target(h, from).Some? { TargetAlive(h, from); }
        AssignExact(h, place, Target(h, from));
      }
    case Move(place, from) =>
      if Exists(h, place) && Exists(h, from) { MoveExact(h, place, from); }
  }

  lemma {:induction false} WriteTarget(h: Heap, place: Place, p: Option<nat>, q: Place)
    requires Exists(h, place)
    ensures Exists(Write(h, place, p), q) <==> Exists(h, q)
    ensures Exists(h, q) ==> Target(Write(h, place, p), q) == if q == place then p else Target(h, q)
  {
  }

  lemma {:induction false} ShapeTarget(h: Heap, h': Heap, q: Place)
    requires SameShape(h, h')
    ensures Exists(h', q) ==> Exists(h, q) && Target(h', q) == Target(h, q)
    ensures q.Root? ==> (Exists(h', q) <==> Exists(h, q))
  {
  }

  lemma {:induction false} AssignTarget(h: Heap, place: Place, p: Option<nat>, q: Place)
    requires Exists(h, place) && InRange(h, p) && Assign(h, place, p).Some?
    ensures var h' := Assign(h, place, p).value;
      Exists(h', q) ==> Exists(h, q) && Target(h', q) == if q == place then p else Target(h, q)
  {
    hide Release, AsPending;
    var w := Work(Referenced(h, p), AsPending(Target(h, place)));
    ReleaseShape(w);
    ShapeTarget(w.heap, Release(w), q);
    WriteTarget(Release(w), place, p, q);
  }

  lemma {:induction false} MoveTarget(h: Heap, place: Place, from: Place, q: Place)
    requires Exists(h, place) && Exists(h, from)
    ensures var h' := AssignMove(h, place, from);
      Exists(h', q) ==>
        && Exists(h, q)
        && Target(h', q) == if q == place then Target(h, from) else if q == from then None else Target(h, q)
  {
    hide Release, AsPending, Write;
    WriteTarget(h, from, None, place);
    WriteTarget(h, from, None, q);
    var h1 := Write(h, from, None);
    WriteTarget(h1, place, Target(h, from), q);
    var w := Work(Write(h1, place, Target(h, from)), AsPending(Target(h1, place)));
    ReleaseShape(w);
    ShapeTarget(w.heap, Release(w), q);
  }

  /** What the pointer at `q`, if there still is one, holds after an operation: only the pointers named change. */
  ghost predicate Moved(h: Heap, op: Op, h': Heap, q: Place)
    requires Exists(h', q)
  {
    match op
    case New(n) =>
      && |h'.roots| == |h.roots| + 1 && |h'.objs| == |h.objs| + 1 && |h'.objs[|h.objs|].fields| == n
      && if q == Root(|h.roots|) then Target(h', q) == Some(|h.objs|)
         else if q.Field? && q.o == |h.objs| then Target(h', q) == None
         else Exists(h, q) && Target(h', q) == Target(h, q)
    case Copy(from) =>
      if !Exists(h, from) then h' == h
      else
        && |h'.roots| == |h.roots| + 1
        && if q == Root(|h.roots|) then Target(h', q) == Target(h, from)
           else Exists(h, q) && Target(h', q) == Target(h, q)
    case Drop(i) =>
      if i >= |h.roots| then h' == h
      else
        && |h'.roots| == |h.roots| - 1
        && var was := if q.Root? && q.i >= i then Root(q.i + 1) else q;
           Exists(h, was) && Target(h', q) == Target(h, was)
    case AssignNull(place) =>
      if !Exists(h, place) then h' == h
      else Exists(h, q) && Target(h', q) == if q == place then None else Target(h, q)
    case AssignCopy(place, from) =>
      if !Exists(h, place) || !Exists(h, from) then h' == h
      else Exists(h, q) && Target(h', q) == if q == place then Target(h, from) else Target(h, q)
    case Move(place, from) =>
      if !Exists(h, place) || !Exists(h, from) then h' == h
      else
        && Exists(h, q)
        && Target(h', q) == if q == place then Target(h, from) else if q == from then None else Target(h, q)
  }

  /** Every operation changes the pointers it names, and no others. */
  lemma {:induction false} ApplyTargets(h: Heap, op: Op, q: Place)
    requires Balanced(Work(h, [])) && Apply(h, op).Some? && Exists(Apply(h, op).value, q)
    ensures Moved(h, op, Apply(h, op).value, q)
  {
    hide Balanced, Release, Assign, AssignMove, AsPending;
    match op
    case New(n) =>
    case Copy(from) =>
      if Exists(h, from) && Target(h, from).Some? { TargetAlive(h, from); }
    case Drop(i) =>
      if i < |h.roots| {
        var w := Work(h.(roots := h.roots[..i] + h.roots[i + 1..]), AsPending(h.roots[i]));
        ReleaseShape(w);
        ShapeTarget(w.heap, Release(w), q);
      }
    case AssignNull(place) =>
      if Exists(h, place) { AssignTarget(h, place, None, q); }
    case AssignCopy(place, from) =>
      if Exists(h, place) && Exists(h, from) {
        if Target(h, from).Some? { TargetAlive(h, from); }
        AssignTarget(h, place, Target(h, from), q);
      }
    case Move(place, from) =>
      if Exists(h, place) && Exists(h, from) { MoveTarget(h, place, from, q); }
  }

  /** The pointer that an operation assigns lies outside any object, or in one that can be reached. */
  ghost predicate Accessible(h: Heap, op: Op) {
    op.AssignNull? || op.AssignCopy? ==> op.place.Field? ==> Reachable(h, op.place.o)
  }

  lemma {:induction false} ApplySafe(h: Heap, op: Op)
    requires Balanced(Work(h, [])) && Accessible(h, op)
    ensures Apply(h, op).Some?
  {
    hide Balanced, Release, Assign, AssignMove, AsPending, Reachable;
    match op
    case AssignNull(place) =>
      if Exists(h, place) { ReachableSafe(h, place, None); }
    case AssignCopy(place, from) =>
      if Exists(h, place) && Exists(h, from) {
        if Target(h, from).Some? { TargetAlive(h, from); }
        ReachableSafe(h, place, Target(h, from));
      }
    case _ =>
  }

  /**
   In every run, whatever cascades of deletions and whatever cycles: as long as nothing was written into
   a destroyed object, every count is exact and no pointer dangles; and that never happens to a
   program that only assigns pointers it can get to.
   */
  lemma {:induction false} RunBalanced(ops: seq<Op>)
    ensures Run(ops).Some? ==> Balanced(Work(Run(ops).value, []))
    ensures (forall k :: 0 <= k < |ops| && Run(ops[..k]).Some? ==> Accessible(Run(ops[..k]).value, ops[k])) ==>
      Run(ops).Some?
    decreases |ops|
  {
    hide Balanced, Apply, Accessible;
    if ops == [] {
      EmptyBalanced();
    } else {
      var n := |ops| - 1;
      assert forall k :: 0 <= k < n ==> ops[..n][..k] == ops[..k];
      RunBalanced(ops[..n]);
      var before := Run(ops[..n]);
      if before.Some? {
        ApplyBalanced(before.value, ops[n]);
        if Accessible(before.value, ops[n]) { ApplySafe(before.value, ops[n]); }
      }
    }
  }

  lemma {:induction false} EmptyBalanced()
    ensures Balanced(Work(EMPTY, []))
  {
  }
}
