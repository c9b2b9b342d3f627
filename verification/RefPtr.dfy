/**
 webrtc::RefCountedBase and webrtc::scoped_refptr: intrusive reference counting.
 */
module RefPtr {
  import opened Options

  datatype ReleaseStatus = DroppedLastRef | OtherRefsRemained

  class RefCounted {
    var refCount: int
    // How often the object was deleted.
    var destructions: nat
    ghost var everReferenced: bool

    constructor ()
      ensures refCount == 0 && destructions == 0 && !everReferenced
    {
      refCount, destructions, everReferenced := 0, 0, false;
    }

    /** Touching a deleted object is undefined. */
    method AddRef()
      requires destructions == 0
      modifies this
      ensures refCount == old(refCount) + 1 && destructions == 0 && everReferenced
    {
      refCount := refCount + 1;
      everReferenced := true;
    }

    method Release() returns (status: ReleaseStatus)
      requires destructions == 0
      modifies this
      ensures refCount == old(refCount) - 1 && everReferenced == old(everReferenced)
      ensures status.DroppedLastRef? <==> refCount == 0
      ensures destructions == if refCount == 0 then 1 else 0
    {
      refCount := refCount - 1;
      status := if refCount == 0 then DroppedLastRef else OtherRefsRemained;
      if status == DroppedLastRef {
        destructions := destructions + 1;
      }
    }
  }

  /** What one operation does to an object: the references it adds, and whether the last one went. */
  twostate predicate Counted(o: RefCounted, added: int)
    reads o
  {
    && o.refCount == old(o.refCount) + added
    && o.everReferenced == (old(o.everReferenced) || added > 0)
    && o.destructions == if added < 0 && o.refCount == 0 then 1 else 0
  }

  class ScopedRefptr {
    var ptr: RefCounted?

    constructor Null()
      ensures ptr == null
    {
      ptr := null;
    }

    constructor FromRaw(p: RefCounted?)
      requires p != null ==> p.destructions == 0
      modifies p
      ensures ptr == p
      ensures p != null ==> Counted(p, 1)
    {
      ptr := p;
      new;
      if ptr != null {
        ptr.AddRef();
      }
    }

    constructor Move(r: ScopedRefptr)
      modifies r
      ensures ptr == old(r.ptr) && r.ptr == null
    {
      ptr := null;
      new;
      var p := r.ReleasePtr();
      ptr := p;
    }

    method Destroy()
      requires ptr != null ==> ptr.destructions == 0
      modifies ptr
      ensures ptr != null ==> Counted(ptr, -1)
    {
      if ptr != null {
        var _ := ptr.Release();
      }
    }

    /** release(): the reference is now the caller's. */
    method ReleasePtr() returns (p: RefCounted?)
      modifies this
      ensures p == old(ptr) && ptr == null
    {
      p := ptr;
      ptr := null;
    }

    /** operator=(T*): the new object is referenced before the old one is let go. */
    method AssignRaw(p: RefCounted?)
      requires p != null ==> p.destructions == 0
      requires ptr != null ==> ptr.destructions == 0 && ptr.refCount > 0
      modifies this, ptr, p
      ensures ptr == p
      ensures p != null && p != old(ptr) ==> Counted(p, 1)
      ensures old(ptr) != null && p != old(ptr) ==> Counted(old(ptr), -1)
      ensures p != null && p == old(ptr) ==> p.refCount == old(p.refCount) && p.destructions == 0 && p.everReferenced
    {
      if p != null {
        p.AddRef();
      }
      if ptr != null {
        var _ := ptr.Release();
      }
      ptr := p;
    }

    /** swap(T**): returns what the raw pointer holds afterwards. */
    method SwapRaw(p: RefCounted?) returns (q: RefCounted?)
      modifies this
      ensures ptr == p && q == old(ptr)
    {
      q := ptr;
      ptr := p;
    }

    method Swap(r: ScopedRefptr)
      modifies this, r
      ensures ptr == old(r.ptr) && r.ptr == old(ptr)
    {
      var p := SwapRaw(r.ptr);
      r.ptr := p;
    }

    /** operator=(scoped_refptr&&): through a temporary that takes the old pointer with it. */
    method AssignMove(r: ScopedRefptr)
      requires ptr != null ==> ptr.destructions == 0
      modifies this, r, ptr
      ensures ptr == old(r.ptr)
      ensures r != this ==> r.ptr == null
      ensures r != this && old(ptr) != null ==> Counted(old(ptr), -1)
      ensures r == this && old(ptr) != null ==> Counted(old(ptr), 0)
    {
      var temporary := new ScopedRefptr.Move(r);
      temporary.Swap(this);
      temporary.Destroy();
    }
  }

  // ---------- counting holders ----------

  ghost function TargetsOf(slots: seq<ScopedRefptr>): (t: seq<RefCounted?>)
    reads slots
    ensures |t| == |slots|
    ensures forall i :: 0 <= i < |slots| ==> t[i] == slots[i].ptr
  {
    seq(|slots|, i requires 0 <= i < |slots| reads slots => slots[i].ptr)
  }

  /** How many entries of `t` are `o`. */
  ghost function Holders(t: seq<RefCounted?>, o: RefCounted): nat {
    multiset(t)[o]
  }

  ghost predicate Distinct<T>(s: seq<T>) {
    forall i, j :: 0 <= i < j < |s| ==> s[i] != s[j]
  }

  lemma {:induction false} RemoveSlot(slots: seq<ScopedRefptr>, i: nat)
    requires Distinct(slots) && i < |slots|
    ensures var s := slots[..i] + slots[i + 1..];
      && Distinct(s) && TargetsOf(s) == TargetsOf(slots)[..i] + TargetsOf(slots)[i + 1..]
      && (forall k :: 0 <= k < |s| ==> s[k] in slots)
  {
  }

  lemma {:induction false} AddSlot(slots: seq<ScopedRefptr>, r: ScopedRefptr)
    requires Distinct(slots) && r !in slots
    ensures Distinct(slots + [r]) && TargetsOf(slots + [r]) == TargetsOf(slots) + [r.ptr]
  {
  }

  ghost function One(b: bool): nat {
    if b then 1 else 0
  }

  lemma {:induction false} HoldersUpdate(t: seq<RefCounted?>, i: nat, q: RefCounted?, o: RefCounted)
    requires i < |t|
    ensures Holders(t[i := q], o) == Holders(t, o) - One(t[i] == o) + One(q == o)
  {
  }

  lemma {:induction false} HoldersAppend(t: seq<RefCounted?>, q: RefCounted?, o: RefCounted)
    ensures Holders(t + [q], o) == Holders(t, o) + One(q == o)
  {
  }

  lemma {:induction false} HoldersRemove(t: seq<RefCounted?>, i: nat, o: RefCounted)
    requires i < |t|
    ensures Holders(t[..i] + t[i + 1..], o) == Holders(t, o) - One(t[i] == o)
  {
    assert t == t[..i] + [t[i]] + t[i + 1..];
  }

  lemma {:induction false} HolderCounts(t: seq<RefCounted?>, i: nat, o: RefCounted)
    requires i < |t| && t[i] == o
    ensures Holders(t, o) > 0
  {
    assert o in multiset(t);
  }

  ghost function Loose(loose: multiset<RefCounted>, o: RefCounted): nat {
    loose[o]
  }

  /** The references held by hand after `p`, unless null, is handed out. */
  function HandOut(loose: multiset<RefCounted>, p: RefCounted?): multiset<RefCounted> {
    if p == null then loose else loose + multiset{p}
  }

  lemma {:induction false} HandOutCounts(loose: multiset<RefCounted>, p: RefCounted?, o: RefCounted)
    ensures Loose(HandOut(loose, p), o) == Loose(loose, o) + One(p == o)
    ensures o in HandOut(loose, p) <==> o in loose || o == p
  {
  }

  lemma {:induction false} HandOutWithin(loose: multiset<RefCounted>, p: RefCounted?, objs: seq<RefCounted>)
    requires (forall o :: o in loose ==> o in objs) && (p != null ==> p in objs)
    ensures forall o :: o in HandOut(loose, p) ==> o in objs
  {
  }

  /** The references held by hand after one to `p` is returned. */
  function HandIn(loose: multiset<RefCounted>, p: RefCounted): multiset<RefCounted> {
    loose - multiset{p}
  }

  lemma {:induction false} HandInCounts(loose: multiset<RefCounted>, p: RefCounted, o: RefCounted)
    requires p in loose
    ensures Loose(HandIn(loose, p), o) == Loose(loose, o) - One(p == o)
    ensures o in HandIn(loose, p) ==> o in loose
  {
  }

  lemma {:induction false} NoHolder(t: seq<RefCounted?>, o: RefCounted)
    requires forall i :: 0 <= i < |t| ==> t[i] != o
    ensures Holders(t, o) == 0
  {
    assert o !in t;
    assert o !in multiset(t);
  }

  /** All scoped_refptrs and objects of a program, and the references its code holds by hand. */
  class World {
    var slots: seq<ScopedRefptr>
    var objs: seq<RefCounted>
    // References handed out by release(), or taken with AddRef, and not yet returned with Release.
    var loose: multiset<RefCounted>

    ghost function Targets(): seq<RefCounted?>
      reads this, slots
    {
      TargetsOf(slots)
    }

    /** `n` references to `o` exist: that is its count, and it is deleted, once, if it had some and has none. */
    ghost predicate Balanced(o: RefCounted, n: nat)
      reads o
    {
      && o.refCount == n
      && (n > 0 ==> o.everReferenced)
      && o.destructions == if o.everReferenced && n == 0 then 1 else 0
    }

    /** An object's references are the pointers that hold it and those held by hand. */
    ghost predicate Valid()
      reads this, slots, objs
    {
      && Distinct(slots)
      && Distinct(objs)
      && (forall i :: 0 <= i < |slots| && slots[i].ptr != null ==> slots[i].ptr in objs)
      && (forall o :: o in loose ==> o in objs)
      && (forall o :: o in objs ==> Balanced(o, Holders(Targets(), o) + Loose(loose, o)))
    }

    /** No pointer and no reference held by hand is to a deleted object. */
    lemma {:induction false} NothingDangles()
      requires Valid()
      ensures forall i :: 0 <= i < |slots| && slots[i].ptr != null ==>
        slots[i].ptr.destructions == 0 && slots[i].ptr.refCount > 0
      ensures forall o :: o in loose ==> o.destructions == 0 && o.refCount > 0
    {
      forall i | 0 <= i < |slots| && slots[i].ptr != null
        ensures slots[i].ptr.destructions == 0 && slots[i].ptr.refCount > 0
      {
        HolderCounts(Targets(), i, slots[i].ptr);
      }
    }

    constructor ()
      ensures Valid() && slots == [] && objs == [] && loose == multiset{}
    {
      slots, objs, loose := [], [], multiset{};
    }

    ghost function Repr(): set<object>
      reads this
    {
      {this} + (set i | 0 <= i < |slots| :: slots[i] as object) + (set i | 0 <= i < |objs| :: objs[i] as object)
    }

    lemma {:induction false} ReprContains()
      ensures forall p :: p in slots ==> p in Repr()
      ensures forall o :: o in objs ==> o in Repr()
    {
    }

    lemma {:induction false} ValidFacts()
      requires Valid()
      ensures Distinct(objs)
      ensures forall o :: o in objs && o.refCount > 0 ==> o.everReferenced
    {
    }

    /** A deleted object stays deleted, and an object counts as referenced from its first reference on. */
    twostate predicate History()
      reads this, objs
    {
      forall o :: o in objs && o in old(objs) ==>
        && (old(o.destructions) == 1 ==> o.destructions == 1)
        && o.everReferenced == (old(o.everReferenced) || o.refCount > 0)
    }

    /** `o` may be passed as a raw pointer: it is null or an object that still exists. */
    predicate Usable(o: RefCounted?)
      reads this, objs
    {
      o != null ==> o in objs && o.destructions == 0
    }

    method NewObject()
      requires Valid()
      modifies this`objs
      ensures Valid() && History() && Targets() == old(Targets()) && loose == old(loose)
      ensures |objs| == |old(objs)| + 1 && objs[..|old(objs)|] == old(objs) && Usable(objs[|old(objs)|])
      ensures Loose(loose, objs[|old(objs)|]) == 0
      ensures fresh(objs[|old(objs)|])
    {
      hide Holders, Loose, TargetsOf;
      ghost var t := Targets();
      var o := new RefCounted();
      NoHolder(t, o);
      LooseIn(loose, o);
      objs := objs + [o];
      assert Targets() == t;
    }

    /** scoped_refptr(p), and the copy constructor with the other pointer's object. */
    method ConstructFrom(p: RefCounted?)
      requires Valid() && Usable(p)
      modifies this`slots, objs
      ensures Valid() && History() && Targets() == old(Targets()) + [p]
      ensures forall p :: p in slots ==> p in old(slots) || fresh(p)
    {
      hide Holders, Loose, TargetsOf, Distinct;
      ghost var t := Targets();
      var r := new ScopedRefptr.FromRaw(p);
      AddSlot(slots, r);
      slots := slots + [r];
      assert Targets() == t + [p];
      forall o | o in objs ensures Balanced(o, Holders(Targets(), o) + Loose(loose, o)) {
        HoldersAppend(t, p, o);
      }
    }

    method ConstructNull()
      requires Valid()
      modifies this`slots
      ensures Valid() && History() && Targets() == old(Targets()) + [null]
      ensures forall p :: p in slots ==> p in old(slots) || fresh(p)
    {
      hide Holders, Loose, TargetsOf, Distinct, Balanced;
      ValidFacts();
      ghost var t := Targets();
      var r := new ScopedRefptr.Null();
      AddSlot(slots, r);
      slots := slots + [r];
      assert Targets() == t + [null];
      forall o | o in objs ensures Balanced(o, Holders(Targets(), o) + Loose(loose, o)) {
        HoldersAppend(t, null, o);
      }
    }

    method ConstructCopy(j: nat)
      requires Valid() && j < |slots|
      modifies this`slots, objs
      ensures Valid() && History() && Targets() == old(Targets()) + [old(Targets())[j]]
      ensures forall p :: p in slots ==> p in old(slots) || fresh(p)
    {
      NothingDangles();
      ConstructFrom(slots[j].ptr);
    }

    method ConstructMove(j: nat)
      requires Valid() && j < |slots|
      modifies this`slots, slots
      ensures Valid() && History() && Targets() == old(Targets())[j := null] + [old(Targets())[j]]
      ensures forall p :: p in slots ==> p in old(slots) || fresh(p)
    {
      hide Holders, Loose, TargetsOf, Balanced;
      ValidFacts();
      ghost var t := Targets();
      var r := new ScopedRefptr.Move(slots[j]);
      assert TargetsOf(slots) == t[j := null];
      AddSlot(slots, r);
      slots := slots + [r];
      forall o | o in objs ensures Balanced(o, Holders(Targets(), o) + Loose(loose, o)) {
        HoldersUpdate(t, j, null, o);
        HoldersAppend(t[j := null], t[j], o);
      }
    }

    method Destroy(i: nat)
      requires Valid() && i < |slots|
      modifies this`slots, objs
      ensures Valid() && History() && Targets() == old(Targets())[..i] + old(Targets())[i + 1..]
      ensures forall k :: 0 <= k < |slots| ==> slots[k] in old(slots)
    {
      hide Holders, Loose, TargetsOf, Distinct;
      NothingDangles();
      ghost var t, p := Targets(), slots[i].ptr;
      slots[i].Destroy();
      RemoveSlot(slots, i);
      slots := slots[..i] + slots[i + 1..];
      assert Targets() == t[..i] + t[i + 1..];
      forall o | o in objs ensures Balanced(o, Holders(Targets(), o) + Loose(loose, o)) {
        HoldersRemove(t, i, o);
        if o != p { assert o.refCount == old(o.refCount) && o.destructions == old(o.destructions); }
      }
    }

    method Release(i: nat)
      requires Valid() && i < |slots|
      modifies this`loose, slots
      ensures Valid() && History() && Targets() == old(Targets())[i := null]
      ensures loose == HandOut(old(loose), old(Targets())[i])
    {
      hide Holders, Loose, TargetsOf, HandOut, Balanced;
      ValidFacts();
      ghost var t, was := Targets(), loose;
      var p := slots[i].ReleasePtr();
      assert p != null ==> p in objs;
      assert Targets() == t[i := null];
      hide Distinct;
      loose := HandOut(loose, p);
      forall o | o in objs ensures Balanced(o, Holders(Targets(), o) + Loose(loose, o)) {
        HoldersUpdate(t, i, null, o);
        HandOutCounts(was, p, o);
      }
      HandOutWithin(was, p, objs);
    }

    method AssignRaw(i: nat, p: RefCounted?)
      requires Valid() && i < |slots| && Usable(p)
      modifies slots, objs
      ensures Valid() && History() && Targets() == old(Targets())[i := p]
    {
      hide Holders, Loose, TargetsOf;
      NothingDangles();
      ghost var t := Targets();
      slots[i].AssignRaw(p);
      assert Targets() == t[i := p];
      hide Distinct;
      forall o | o in objs ensures Balanced(o, Holders(Targets(), o) + Loose(loose, o)) {
        HoldersUpdate(t, i, p, o);
      }
    }

    method AssignCopy(i: nat, j: nat)
      requires Valid() && i < |slots| && j < |slots|
      modifies slots, objs
      ensures Valid() && History() && Targets() == old(Targets())[i := old(Targets())[j]]
    {
      NothingDangles();
      AssignRaw(i, slots[j].ptr);
    }

    /** With `i == j`, a self-move, the pointer keeps its object. */
    method AssignMove(i: nat, j: nat)
      requires Valid() && i < |slots| && j < |slots|
      modifies slots, objs
      ensures Valid() && History() && Targets() == old(Targets())[j := null][i := old(Targets())[j]]
    {
      hide Holders, Loose, TargetsOf;
      NothingDangles();
      ghost var t := Targets();
      slots[i].AssignMove(slots[j]);
      assert Targets() == t[j := null][i := t[j]];
      hide Distinct;
      forall o | o in objs ensures Balanced(o, Holders(Targets(), o) + Loose(loose, o)) {
        HoldersUpdate(t, j, null, o);
        HoldersUpdate(t[j := null], i, t[j], o);
      }
    }

    method Swap(i: nat, j: nat)
      requires Valid() && i < |slots| && j < |slots|
      modifies slots
      ensures Valid() && History() && Targets() == old(Targets())[i := old(Targets())[j]][j := old(Targets())[i]]
    {
      hide Holders, TargetsOf, Balanced;
      ValidFacts();
      ghost var t := Targets();
      slots[i].Swap(slots[j]);
      assert Targets() == t[i := t[j]][j := t[i]];
      hide Distinct;
      forall o | o in objs ensures Balanced(o, Holders(Targets(), o) + Loose(loose, o)) {
        HoldersUpdate(t, i, t[j], o);
        HoldersUpdate(t[i := t[j]], j, t[i], o);
      }
    }

    /** The reference held by hand becomes the pointer's, and the pointer's is held by hand. */
    method SwapRaw(i: nat, p: RefCounted)
      requires Valid() && i < |slots| && p in loose
      modifies this`loose, slots
      ensures Valid() && History() && Targets() == old(Targets())[i := p]
      ensures loose == HandOut(HandIn(old(loose), p), old(Targets())[i])
    {
      hide Holders, Loose, TargetsOf, HandOut, HandIn, Balanced;
      ValidFacts();
      ghost var t, was := Targets(), loose;
      var q := slots[i].SwapRaw(p);
      assert p in objs && (q != null ==> q in objs);
      assert Targets() == t[i := p];
      hide Distinct;
      loose := HandOut(HandIn(loose, p), q);
      forall o | o in objs ensures Balanced(o, Holders(Targets(), o) + Loose(loose, o)) {
        HoldersUpdate(t, i, p, o);
        HandInCounts(was, p, o);
        HandOutCounts(HandIn(was, p), q, o);
      }
      forall o | o in loose ensures o in objs {
        HandInCounts(was, p, o);
        HandOutCounts(HandIn(was, p), q, o);
      }
    }

    /** Code outside any scoped_refptr takes a reference. */
    method AddRefByHand(p: RefCounted)
      requires Valid() && Usable(p)
      modifies this`loose, objs
      ensures Valid() && History() && Targets() == old(Targets()) && loose == HandOut(old(loose), p)
    {
      hide Holders, Loose, TargetsOf, HandOut, Distinct;
      ghost var t, was := Targets(), loose;
      assert p in objs && Balanced(p, Holders(t, p) + Loose(was, p));
      p.AddRef();
      assert Targets() == t;
      loose := HandOut(loose, p);
      forall o | o in objs ensures Balanced(o, Holders(t, o) + Loose(loose, o)) {
        HandOutCounts(was, p, o);
      }
      HandOutWithin(was, p, objs);
    }

    /** Code outside any scoped_refptr returns a reference that it holds. */
    method ReleaseByHand(p: RefCounted)
      requires Valid() && p in loose
      modifies this`loose, objs
      ensures Valid() && History() && Targets() == old(Targets()) && loose == HandIn(old(loose), p)
    {
      hide Holders, Loose, TargetsOf, Distinct, HandIn;
      NothingDangles();
      ghost var t, was := Targets(), loose;
      var _ := p.Release();
      loose := HandIn(loose, p);
      assert Targets() == t;
      forall o | o in objs ensures Balanced(o, Holders(t, o) + Loose(loose, o)) {
        HandInCounts(was, p, o);
      }
      forall o | o in loose ensures o in objs {
        HandInCounts(was, p, o);
      }
    }
  }

  /** One use of the classes above; pointers and objects are numbered. */
  datatype Op =
    | NewObject
    | ConstructNull
    | ConstructFrom(o: nat)
    | ConstructCopy(j: nat)
    | ConstructMove(j: nat)
    | Destroy(i: nat)
    | Release(i: nat)
    | AssignRaw(i: nat, o: nat)
    | AssignNull(i: nat)
    | AssignCopy(i: nat, j: nat)
    | AssignMove(i: nat, j: nat)
    | Swap(i: nat, j: nat)
    | SwapRaw(i: nat, o: nat)
    | AddRefByHand(o: nat)
    | ReleaseByHand(o: nat)

  /** The number of the object that an operation names. */
  function Named(op: Op): Option<nat> {
    if op.ConstructFrom? || op.AssignRaw? || op.SwapRaw? || op.AddRefByHand? || op.ReleaseByHand? then Some(op.o)
    else None
  }

  /**
   Where the pointers point after an operation. `arg` is the object named, if `ok`; an operation that
   names a pointer or object that does not exist changes nothing.
   */
  function MovedPtrs<T>(ptrs: seq<T>, nothing: T, op: Op, arg: T, ok: bool): seq<T> {
    var n := |ptrs|;
    match op
    case ConstructNull => ptrs + [nothing]
    case ConstructFrom(_) => if ok then ptrs + [arg] else ptrs
    case ConstructCopy(j) => if j < n then ptrs + [ptrs[j]] else ptrs
    case ConstructMove(j) => if j < n then ptrs[j := nothing] + [ptrs[j]] else ptrs
    case Destroy(i) => if i < n then ptrs[..i] + ptrs[i + 1..] else ptrs
    case Release(i) => if i < n then ptrs[i := nothing] else ptrs
    case AssignRaw(i, _) => if i < n && ok then ptrs[i := arg] else ptrs
    case AssignNull(i) => if i < n then ptrs[i := nothing] else ptrs
    case AssignCopy(i, j) => if i < n && j < n then ptrs[i := ptrs[j]] else ptrs
    case AssignMove(i, j) => if i < n && j < n then ptrs[j := nothing][i := ptrs[j]] else ptrs
    case Swap(i, j) => if i < n && j < n then ptrs[i := ptrs[j]][j := ptrs[i]] else ptrs
    case SwapRaw(i, _) => if i < n && ok then ptrs[i := arg] else ptrs
    case NewObject => ptrs
    case AddRefByHand(_) => ptrs
    case ReleaseByHand(_) => ptrs
  }

  /** Pointer by pointer: what each operation makes of a list of pointers. */
  lemma {:induction false} MovedExact<T>(ptrs: seq<T>, nothing: T, op: Op, arg: T, ok: bool, k: nat)
    ensures var n, q := |ptrs|, MovedPtrs(ptrs, nothing, op, arg, ok);
      match op
      case ConstructNull => |q| == n + 1 && q[n] == nothing && (k < n ==> q[k] == ptrs[k])
      case ConstructFrom(_) => ok ==> |q| == n + 1 && q[n] == arg && (k < n ==> q[k] == ptrs[k])
      case ConstructCopy(j) => j < n ==> |q| == n + 1 && q[n] == ptrs[j] && (k < n ==> q[k] == ptrs[k])
      case ConstructMove(j) =>
        j < n ==> |q| == n + 1 && q[n] == ptrs[j] && (k < n ==> q[k] == if k == j then nothing else ptrs[k])
      case Destroy(i) => i < n ==> |q| == n - 1 && (k < n - 1 ==> q[k] == if k < i then ptrs[k] else ptrs[k + 1])
      case Release(i) => i < n && k < n ==> |q| == n && q[k] == if k == i then nothing else ptrs[k]
      case AssignRaw(i, _) => ok && i < n && k < n ==> |q| == n && q[k] == if k == i then arg else ptrs[k]
      case AssignNull(i) => i < n && k < n ==> |q| == n && q[k] == if k == i then nothing else ptrs[k]
      case AssignCopy(i, j) => i < n && j < n && k < n ==> |q| == n && q[k] == if k == i then ptrs[j] else ptrs[k]
      case AssignMove(i, j) =>
        i < n && j < n && k < n ==>
          |q| == n && q[k] == if k == i then ptrs[j] else if k == j then nothing else ptrs[k]
      case Swap(i, j) =>
        i < n && j < n && k < n ==>
          |q| == n && q[k] == if k == i then ptrs[j] else if k == j then ptrs[i] else ptrs[k]
      case SwapRaw(i, _) => ok && i < n && k < n ==> |q| == n && q[k] == if k == i then arg else ptrs[k]
      case _ => q == ptrs
  {
  }

  /**
   The same program without counts: who points where, and which objects are gone. An object is
   gone from the step on that takes its last reference.
   */
  datatype Model = Model(ptrs: seq<Option<nat>>, loose: multiset<nat>, created: nat, gone: set<nat>)
  {
    predicate Referenced(k: nat) {
      Some(k) in ptrs || k in loose
    }

    predicate Exists(p: Option<nat>) {
      p.Some? && p.value < created && p.value !in gone
    }

    /** The object named still exists and, to be swapped into a pointer, is held by hand. */
    predicate Allowed(op: Op) {
      Exists(Named(op)) && (op.SwapRaw? ==> op.o in loose)
    }

    function HandedOut(p: Option<nat>): multiset<nat> {
      if p.None? then loose else loose + multiset{p.value}
    }

    function Returned(o: nat): Model {
      this.(loose := loose - multiset{o})
    }

    /** The pointers and references after an operation. */
    function Moved(op: Op): Model {
      var m := this.(ptrs := MovedPtrs(ptrs, None, op, Named(op), Allowed(op)));
      match op
      case NewObject => m.(created := created + 1)
      case Release(i) => if i < |ptrs| then m.(loose := HandedOut(ptrs[i])) else m
      case SwapRaw(i, o) =>
        if i < |ptrs| && Allowed(op) then m.(loose := Returned(o).HandedOut(ptrs[i])) else m
      case AddRefByHand(o) => if Exists(Some(o)) then m.(loose := HandedOut(Some(o))) else m
      case ReleaseByHand(o) => if o < created && o in loose then m.(loose := Returned(o).loose) else m
      case _ => m
    }

    function After(op: Op): Model {
      var m := Moved(op);
      m.(gone := gone + set k | 0 <= k < created && Referenced(k) && !m.Referenced(k))
    }
  }

  const START := Model([], multiset{}, 0, {})

  function Replay(ops: seq<Op>): Model {
    if ops == [] then START else Replay(ops[..|ops| - 1]).After(ops[|ops| - 1])
  }

  // ---------- counting refines tracing ----------

  ghost predicate InRange(ptrs: seq<Option<nat>>, n: nat) {
    forall i :: 0 <= i < |ptrs| && ptrs[i].Some? ==> ptrs[i].value < n
  }

  ghost function Object(p: Option<nat>, objs: seq<RefCounted>): RefCounted?
    requires p.Some? ==> p.value < |objs|
  {
    if p.None? then null else objs[p.value]
  }

  ghost function Objects(ptrs: seq<Option<nat>>, objs: seq<RefCounted>): (t: seq<RefCounted?>)
    requires InRange(ptrs, |objs|)
    ensures |t| == |ptrs|
  {
    seq(|ptrs|, i requires 0 <= i < |ptrs| => Object(ptrs[i], objs))
  }

  /** The pointers and handed-out references of `w` are those of `m`. */
  ghost predicate SamePointers(w: World, m: Model)
    reads w, w.slots
  {
    && |w.objs| == m.created
    && InRange(m.ptrs, m.created)
    && w.Targets() == Objects(m.ptrs, w.objs)
    && (forall k :: k in m.loose ==> k < m.created)
    && (forall k :: 0 <= k < m.created ==> Loose(w.loose, w.objs[k]) == m.loose[k])
  }

  /** The deleted objects of `w` are those gone from `m`. */
  ghost predicate SameObjects(w: World, m: Model)
    reads w, w.objs
  {
    && |w.objs| == m.created
    && (forall k :: k in m.gone ==> k < m.created)
    && (forall k :: 0 <= k < m.created ==> w.objs[k].destructions == if k in m.gone then 1 else 0)
  }

  lemma {:induction false} ReferencedCounts(w: World, m: Model, k: nat)
    requires w.Valid() && SamePointers(w, m) && k < m.created
    ensures m.Referenced(k) <==> w.objs[k].refCount > 0
  {
    var t, o := Objects(m.ptrs, w.objs), w.objs[k];
    if Some(k) in m.ptrs {
      var i :| 0 <= i < |m.ptrs| && m.ptrs[i] == Some(k);
      HolderCounts(t, i, o);
    } else {
      assert forall i :: 0 <= i < |t| ==> t[i] != o;
      NoHolder(t, o);
    }
  }

  ghost predicate NamesOne(p: Option<nat>, x: RefCounted?, objs: seq<RefCounted>) {
    if p.None? then x == null else p.value < |objs| && x == objs[p.value]
  }

  /** The numbers in `ptrs` name the objects in `t`. */
  ghost predicate Names(ptrs: seq<Option<nat>>, t: seq<RefCounted?>, objs: seq<RefCounted>) {
    |ptrs| == |t| && forall i :: 0 <= i < |ptrs| ==> NamesOne(ptrs[i], t[i], objs)
  }

  lemma {:induction false} NamesObjects(ptrs: seq<Option<nat>>, t: seq<RefCounted?>, objs: seq<RefCounted>)
    ensures Names(ptrs, t, objs) <==> InRange(ptrs, |objs|) && t == Objects(ptrs, objs)
  {
    if Names(ptrs, t, objs) {
      assert forall i :: 0 <= i < |ptrs| ==> NamesOne(ptrs[i], t[i], objs);
      assert t == Objects(ptrs, objs);
    }
  }

  lemma {:induction false} NamesAt(ptrs: seq<Option<nat>>, t: seq<RefCounted?>, objs: seq<RefCounted>, i: nat)
    requires Names(ptrs, t, objs)
    ensures |ptrs| == |t| && (i < |ptrs| ==> NamesOne(ptrs[i], t[i], objs))
  {
  }

  lemma {:induction false} NamesChange(
    ptrs: seq<Option<nat>>, t: seq<RefCounted?>, objs: seq<RefCounted>, i: nat, p: Option<nat>, x: RefCounted?)
    requires Names(ptrs, t, objs) && NamesOne(p, x, objs)
    ensures Names(ptrs + [p], t + [x], objs)
    ensures i < |ptrs| ==> Names(ptrs[i := p], t[i := x], objs)
    ensures i < |ptrs| ==> Names(ptrs[..i] + ptrs[i + 1..], t[..i] + t[i + 1..], objs)
  {
    hide NamesOne;
  }

  /** The pointers of the model, turned into objects, move like the pointers themselves. */
  lemma {:induction false} NamesMove(
    ptrs: seq<Option<nat>>, t: seq<RefCounted?>, op: Op, p: Option<nat>, o: RefCounted?, ok: bool,
    objs: seq<RefCounted>)
    requires Names(ptrs, t, objs) && (ok ==> NamesOne(p, o, objs))
    ensures Names(MovedPtrs(ptrs, None, op, p, ok), MovedPtrs(t, null, op, o, ok), objs)
  {
    hide Names, NamesOne;
    NullName(objs);
    NamesAt(ptrs, t, objs, 0);
    if op.ConstructCopy? || op.ConstructMove? || op.AssignCopy? || op.AssignMove? || op.Swap? {
      var j := op.j;
      NamesAt(ptrs, t, objs, j);
      if j < |ptrs| {
        NamesChange(ptrs, t, objs, if op.AssignCopy? || op.Swap? then op.i else 0, ptrs[j], t[j]);
        NamesChange(ptrs, t, objs, j, None, null);
        NamesMoveTwo(ptrs, t, op, objs);
      }
    } else {
      NamesChange(ptrs, t, objs, if op.Destroy? || op.Release? || op.AssignNull? then op.i else 0, None, null);
      if ok { NamesChange(ptrs, t, objs, if op.AssignRaw? || op.SwapRaw? then op.i else 0, p, o); }
    }
  }

  /** The operations that change two pointers. */
  lemma {:induction false} NamesMoveTwo(ptrs: seq<Option<nat>>, t: seq<RefCounted?>, op: Op, objs: seq<RefCounted>)
    requires Names(ptrs, t, objs)
    requires (op.ConstructMove? || op.AssignMove? || op.Swap?) ==> op.j < |ptrs|
    ensures op.ConstructMove? ==> Names(ptrs[op.j := None] + [ptrs[op.j]], t[op.j := null] + [t[op.j]], objs)
    ensures op.AssignMove? && op.i < |ptrs| ==>
      Names(ptrs[op.j := None][op.i := ptrs[op.j]], t[op.j := null][op.i := t[op.j]], objs)
    ensures op.Swap? && op.i < |ptrs| ==>
      Names(ptrs[op.i := ptrs[op.j]][op.j := ptrs[op.i]], t[op.i := t[op.j]][op.j := t[op.i]], objs)
  {
    hide Names, NamesOne;
    NullName(objs);
    if op.ConstructMove? || op.AssignMove? || op.Swap? {
      var j := op.j;
      NamesAt(ptrs, t, objs, j);
      if op.Swap? {
        NamesAt(ptrs, t, objs, op.i);
        if op.i < |ptrs| {
          NamesChange(ptrs, t, objs, op.i, ptrs[j], t[j]);
          NamesChange(ptrs[op.i := ptrs[j]], t[op.i := t[j]], objs, j, ptrs[op.i], t[op.i]);
        }
      } else {
        NamesChange(ptrs, t, objs, j, None, null);
        NamesChange(ptrs[j := None], t[j := null], objs, if op.AssignMove? then op.i else 0, ptrs[j], t[j]);
      }
    }
  }

  lemma {:induction false} NullName(objs: seq<RefCounted>)
    ensures NamesOne(None, null, objs)
  {
  }

  lemma {:induction false} ObjectsMove(
    ptrs: seq<Option<nat>>, op: Op, p: Option<nat>, o: RefCounted?, ok: bool, objs: seq<RefCounted>)
    requires InRange(ptrs, |objs|) && (ok ==> p.Some? && p.value < |objs| && o == objs[p.value])
    ensures InRange(MovedPtrs(ptrs, None, op, p, ok), |objs|)
    ensures Objects(MovedPtrs(ptrs, None, op, p, ok), objs) == MovedPtrs(Objects(ptrs, objs), null, op, o, ok)
  {
    hide MovedPtrs, Names, Objects, InRange;
    var t := Objects(ptrs, objs);
    NamesObjects(ptrs, t, objs);
    NamesMove(ptrs, t, op, p, o, ok, objs);
    NamesObjects(MovedPtrs(ptrs, None, op, p, ok), MovedPtrs(t, null, op, o, ok), objs);
  }

  lemma {:induction false} ObjectsGrow(ptrs: seq<Option<nat>>, objs: seq<RefCounted>, more: seq<RefCounted>)
    requires InRange(ptrs, |objs|) && objs <= more
    ensures InRange(ptrs, |more|) && Objects(ptrs, more) == Objects(ptrs, objs)
  {
  }

  /** The object that an operation names, null if it names none that was created. */
  ghost function NamedObject(w: World, op: Op): RefCounted?
    reads w
  {
    var p := Named(op);
    if p.Some? && p.value < |w.objs| then w.objs[p.value] else null
  }

  ghost predicate NamedExists(w: World, op: Op)
    reads w, w.objs
  {
    var o := NamedObject(w, op);
    o != null && o.destructions == 0 && (op.SwapRaw? ==> o in w.loose)
  }

  /** References held by hand after an operation. */
  ghost function LooseAfter(w: World, op: Op): multiset<RefCounted>
    reads w, w.slots, w.objs
  {
    match op
    case Release(i) => if i < |w.slots| then HandOut(w.loose, w.slots[i].ptr) else w.loose
    case SwapRaw(i, _) =>
      if i < |w.slots| && NamedExists(w, op) then HandOut(HandIn(w.loose, NamedObject(w, op)), w.slots[i].ptr)
      else w.loose
    case AddRefByHand(_) => if NamedExists(w, op) then HandOut(w.loose, NamedObject(w, op)) else w.loose
    case ReleaseByHand(_) =>
      var o := NamedObject(w, op);
      if o != null && o in w.loose then HandIn(w.loose, o) else w.loose
    case _ => w.loose
  }

  /** The effect of an operation on pointers, references held by hand, and objects. */
  twostate predicate Effect(w: World, op: Op)
    reads w, w.slots, w.objs
  {
    && w.Valid() && w.History()
    && w.Targets() == MovedPtrs(old(w.Targets()), null, op, old(NamedObject(w, op)), old(NamedExists(w, op)))
    && w.loose == old(LooseAfter(w, op))
    && old(w.objs) <= w.objs && |w.objs| == |old(w.objs)| + One(op.NewObject?)
    && (op.NewObject? ==> var o := w.objs[|old(w.objs)|]; o.destructions == 0 && Loose(w.loose, o) == 0)
  }

  /**
   What an operation finds: pointers, the object it names, the references held by hand it will
   leave, and the past of each object.
   */
  datatype Snapshot = Snapshot(targets: seq<RefCounted?>, named: RefCounted?, ok: bool, loose: multiset<RefCounted>,
                               objs: seq<RefCounted>, ever: seq<bool>, deleted: seq<bool>)

  ghost function Take(w: World, op: Op): Snapshot
    reads w, w.slots, w.objs
  {
    Snapshot(w.Targets(), NamedObject(w, op), NamedExists(w, op), LooseAfter(w, op), w.objs,
             seq(|w.objs|, k requires 0 <= k < |w.objs| reads w, w.objs => w.objs[k].everReferenced),
             seq(|w.objs|, k requires 0 <= k < |w.objs| reads w, w.objs => w.objs[k].destructions == 1))
  }

  /** The same effect, in terms of what was found. */
  ghost predicate Performed(w: World, op: Op, s: Snapshot)
    reads w, w.slots, w.objs
  {
    && w.Valid()
    && w.Targets() == MovedPtrs(s.targets, null, op, s.named, s.ok)
    && w.loose == s.loose
    && s.objs <= w.objs && |w.objs| == |s.objs| + One(op.NewObject?) && |s.ever| == |s.deleted| == |s.objs|
    && (op.NewObject? ==> var o := w.objs[|s.objs|]; o.destructions == 0 && Loose(w.loose, o) == 0)
    && (forall k :: 0 <= k < |s.objs| ==>
          && (s.deleted[k] ==> w.objs[k].destructions == 1)
          && w.objs[k].everReferenced == (s.ever[k] || w.objs[k].refCount > 0))
  }

  /** Carries out a constructor, or nothing when it names a pointer or object that does not exist. */
  method PerformConstruct(w: World, op: Op)
    requires w.Valid() && (op.NewObject? || op.ConstructNull? || op.ConstructFrom?)
    modifies w.Repr()
    ensures fresh(w.Repr() - old(w.Repr())) && Effect(w, op)
  {
    hide World.Valid, TargetsOf, Holders, Loose, HandOut, HandIn;
    w.ReprContains();
    w.ValidFacts();
    var m := |w.objs|;
    match op
    case NewObject => w.NewObject();
    case ConstructNull => w.ConstructNull();
    case ConstructFrom(o) => if o < m && w.objs[o].destructions == 0 { w.ConstructFrom(w.objs[o]); }
  }

  /** The same for construction from another pointer. */
  method PerformCopy(w: World, op: Op)
    requires w.Valid() && (op.ConstructCopy? || op.ConstructMove?)
    modifies w.Repr()
    ensures fresh(w.Repr() - old(w.Repr())) && Effect(w, op)
  {
    hide World.Valid, TargetsOf, Holders, Loose, HandOut, HandIn;
    w.ReprContains();
    w.ValidFacts();
    var n := |w.slots|;
    match op
    case ConstructCopy(j) => if j < n { w.ConstructCopy(j); }
    case ConstructMove(j) => if j < n { w.ConstructMove(j); }
  }

  /** The same for assignments. */
  method PerformAssign(w: World, op: Op)
    requires w.Valid() && (op.AssignRaw? || op.AssignNull? || op.AssignCopy?)
    modifies w.Repr()
    ensures fresh(w.Repr() - old(w.Repr())) && Effect(w, op)
  {
    hide World.Valid, TargetsOf, Holders, Loose, HandOut, HandIn;
    w.ReprContains();
    w.ValidFacts();
    var n, m := |w.slots|, |w.objs|;
    match op
    case AssignRaw(i, o) => if i < n && o < m && w.objs[o].destructions == 0 { w.AssignRaw(i, w.objs[o]); }
    case AssignNull(i) => if i < n { w.AssignRaw(i, null); }
    case AssignCopy(i, j) => if i < n && j < n { w.AssignCopy(i, j); }
  }

  /** The same for moving pointers between two places. */
  method PerformMove(w: World, op: Op)
    requires w.Valid() && (op.AssignMove? || op.Swap? || op.SwapRaw?)
    modifies w.Repr()
    ensures fresh(w.Repr() - old(w.Repr())) && Effect(w, op)
  {
    hide World.Valid, TargetsOf, Holders, Loose, HandOut, HandIn;
    w.ReprContains();
    w.ValidFacts();
    var n, m := |w.slots|, |w.objs|;
    match op
    case AssignMove(i, j) => if i < n && j < n { w.AssignMove(i, j); }
    case Swap(i, j) => if i < n && j < n { w.Swap(i, j); }
    case SwapRaw(i, o) =>
      if i < n && o < m && w.objs[o].destructions == 0 && w.objs[o] in w.loose { w.SwapRaw(i, w.objs[o]); }
  }

  /** The same for giving up a pointer. */
  method PerformRelease(w: World, op: Op)
    requires w.Valid() && (op.Destroy? || op.Release?)
    modifies w.Repr()
    ensures fresh(w.Repr() - old(w.Repr())) && Effect(w, op)
  {
    hide World.Valid, TargetsOf, Holders, Loose, HandOut, HandIn;
    w.ReprContains();
    w.ValidFacts();
    var n := |w.slots|;
    match op
    case Destroy(i) => if i < n { w.Destroy(i); }
    case Release(i) => if i < n { w.Release(i); }
  }

  /** The same for references held by hand. */
  method PerformByHand(w: World, op: Op)
    requires w.Valid() && (op.AddRefByHand? || op.ReleaseByHand?)
    modifies w.Repr()
    ensures fresh(w.Repr() - old(w.Repr())) && Effect(w, op)
  {
    hide World.Valid, TargetsOf, Holders, Loose, HandOut, HandIn;
    w.ReprContains();
    w.ValidFacts();
    var m := |w.objs|;
    match op
    case AddRefByHand(o) => if o < m && w.objs[o].destructions == 0 { w.AddRefByHand(w.objs[o]); }
    case ReleaseByHand(o) => if o < m && w.objs[o] in w.loose { w.ReleaseByHand(w.objs[o]); }
  }

  /** Handing out `p` counts for it and for no other object. */
  lemma {:induction false} LooseAfterHandOut(
    loose: multiset<RefCounted>, m: Model, p: Option<nat>, objs: seq<RefCounted>, k: nat)
    requires Distinct(objs) && |objs| == m.created && (p.Some? ==> p.value < m.created) && k < m.created
    requires Loose(loose, objs[k]) == m.loose[k]
    ensures Loose(HandOut(loose, Object(p, objs)), objs[k]) == m.HandedOut(p)[k]
  {
    HandOutCounts(loose, Object(p, objs), objs[k]);
  }

  lemma {:induction false} LooseAfterReturn(
    loose: multiset<RefCounted>, m: Model, o: nat, objs: seq<RefCounted>, k: nat)
    requires Distinct(objs) && |objs| == m.created && o < m.created && k < m.created
    requires Loose(loose, objs[k]) == m.loose[k] && objs[o] in loose && o in m.loose
    ensures Loose(HandIn(loose, objs[o]), objs[k]) == m.Returned(o).loose[k]
  {
    HandInCounts(loose, objs[o], objs[k]);
  }

  /** What an operation can name is the same in program and model. */
  lemma {:induction false} SameNames(w: World, op: Op, m: Model)
    requires SamePointers(w, m) && SameObjects(w, m)
    ensures |w.slots| == |m.ptrs| && |w.objs| == m.created
    ensures NamedExists(w, op) == m.Allowed(op)
    ensures m.Exists(Named(op)) ==> NamedObject(w, op) == w.objs[Named(op).value]
    ensures forall k :: 0 <= k < m.created ==> Loose(w.loose, w.objs[k]) == m.loose[k]
  {
    hide Loose;
    if op.SwapRaw? && op.o < m.created { LooseIn(w.loose, w.objs[op.o]); }
  }

  lemma {:induction false} LooseAfterRelease(w: World, i: nat, m: Model, k: nat)
    requires Distinct(w.objs) && SamePointers(w, m) && k < m.created
    ensures Loose(LooseAfter(w, Op.Release(i)), w.objs[k]) == m.Moved(Op.Release(i)).loose[k]
  {
    hide Holders, Loose, HandOut, MovedPtrs, Distinct;
    if i < |m.ptrs| {
      assert w.slots[i].ptr == w.Targets()[i] == Object(m.ptrs[i], w.objs);
      LooseAfterHandOut(w.loose, m, m.ptrs[i], w.objs, k);
    }
  }

  lemma {:induction false} LooseAfterAddRef(w: World, o: nat, m: Model, k: nat)
    requires Distinct(w.objs) && SamePointers(w, m) && SameObjects(w, m) && k < m.created
    ensures Loose(LooseAfter(w, Op.AddRefByHand(o)), w.objs[k]) == m.Moved(Op.AddRefByHand(o)).loose[k]
  {
    hide Loose, HandOut, MovedPtrs, SamePointers, SameObjects, NamedExists, Distinct;
    SameNames(w, Op.AddRefByHand(o), m);
    if m.Exists(Some(o)) {
      LooseAfterHandOut(w.loose, m, Some(o), w.objs, k);
    }
  }

  lemma {:induction false} LooseAfterReleaseByHand(w: World, o: nat, m: Model, k: nat)
    requires Distinct(w.objs) && SamePointers(w, m) && k < m.created
    ensures Loose(LooseAfter(w, Op.ReleaseByHand(o)), w.objs[k]) == m.Moved(Op.ReleaseByHand(o)).loose[k]
  {
    hide Loose, HandIn, MovedPtrs, World.Targets, Objects, Distinct;
    if o < m.created {
      LooseIn(w.loose, w.objs[o]);
      if o in m.loose {
        LooseAfterReturn(w.loose, m, o, w.objs, k);
      }
    }
  }

  lemma {:induction false} LooseAfterSwapRaw(w: World, op: Op, m: Model, k: nat)
    requires Distinct(w.objs) && SamePointers(w, m) && SameObjects(w, m) && k < m.created && op.SwapRaw?
    ensures Loose(LooseAfter(w, op), w.objs[k]) == m.Moved(op).loose[k]
  {
    hide Loose, HandOut, HandIn, MovedPtrs, SameObjects, NamedExists, Distinct;
    SameNames(w, op, m);
    if op.i < |m.ptrs| && m.Allowed(op) {
      LooseIn(w.loose, w.objs[op.o]);
      LooseAfterReturn(w.loose, m, op.o, w.objs, k);
      assert w.slots[op.i].ptr == w.Targets()[op.i] == Object(m.ptrs[op.i], w.objs);
      LooseAfterHandOut(HandIn(w.loose, w.objs[op.o]), m.Returned(op.o), m.ptrs[op.i], w.objs, k);
    }
  }

  /** References held by hand change alike in program and model. */
  lemma {:induction false} LooseMoves(w: World, op: Op, m: Model, k: nat)
    requires Distinct(w.objs) && SamePointers(w, m) && SameObjects(w, m) && k < m.created
    ensures Loose(LooseAfter(w, op), w.objs[k]) == m.Moved(op).loose[k]
  {
    hide Loose, HandOut, MovedPtrs, Distinct;
    if op.Release? {
      LooseAfterRelease(w, op.i, m, k);
    } else if op.SwapRaw? {
      LooseAfterSwapRaw(w, op, m, k);
    } else if op.AddRefByHand? {
      LooseAfterAddRef(w, op.o, m, k);
    } else if op.ReleaseByHand? {
      LooseAfterReleaseByHand(w, op.o, m, k);
    } else {
      LooseUntouched(w, op, m);
    }
  }

  lemma {:induction false} LooseUntouched(w: World, op: Op, m: Model)
    requires !op.Release? && !op.SwapRaw? && !op.AddRefByHand? && !op.ReleaseByHand?
    ensures LooseAfter(w, op) == w.loose && m.Moved(op).loose == m.loose
  {
    hide MovedPtrs;
  }

  lemma {:induction false} LooseIn(loose: multiset<RefCounted>, o: RefCounted)
    ensures o in loose <==> Loose(loose, o) > 0
  {
  }

  /** What an operation finds in the program is what the model says. */
  ghost predicate Matches(s: Snapshot, op: Op, m: Model) {
    && |s.objs| == |s.ever| == |s.deleted| == m.created
    && InRange(m.ptrs, m.created) && s.targets == Objects(m.ptrs, s.objs)
    && s.ok == m.Allowed(op) && (s.ok ==> s.named == s.objs[Named(op).value])
    && (forall k :: k in m.loose || k in m.gone ==> k < m.created)
    && (forall k :: 0 <= k < m.created ==>
          && Loose(s.loose, s.objs[k]) == m.Moved(op).loose[k]
          && s.deleted[k] == (k in m.gone)
          && s.ever[k] == (m.Referenced(k) || k in m.gone))
  }

  lemma {:induction false} EverReferenced(w: World, m: Model, k: nat)
    requires w.Valid() && SamePointers(w, m) && SameObjects(w, m) && k < m.created
    ensures w.objs[k].everReferenced == (m.Referenced(k) || k in m.gone)
  {
    hide Holders, Loose, TargetsOf, Objects;
    ReferencedCounts(w, m, k);
    assert w.objs[k] in w.objs;
  }

  lemma {:induction false} MatchesBefore(w: World, op: Op, m: Model)
    requires w.Valid() && SamePointers(w, m) && SameObjects(w, m)
    ensures Matches(Take(w, op), op, m)
  {
    hide World.Valid, Loose, MovedPtrs, LooseAfter, Objects, InRange, NamedExists, NamedObject;
    w.ValidFacts();
    SameNames(w, op, m);
    forall k | 0 <= k < m.created
      ensures w.objs[k].everReferenced == (m.Referenced(k) || k in m.gone)
      ensures Loose(LooseAfter(w, op), w.objs[k]) == m.Moved(op).loose[k]
    {
      EverReferenced(w, m, k);
      LooseMoves(w, op, m, k);
    }
  }

  lemma {:induction false} LooseInRange(m: Model, op: Op)
    requires InRange(m.ptrs, m.created) && forall k :: k in m.loose ==> k < m.created
    ensures forall k :: k in m.Moved(op).loose ==> k < m.created
  {
    hide MovedPtrs;
  }

  /** After an operation the pointers and references held by hand are those of the model after it. */
  lemma {:induction false} PointersMoved(w: World, op: Op, m: Model, s: Snapshot)
    requires Matches(s, op, m) && Performed(w, op, s)
    ensures SamePointers(w, m.Moved(op))
  {
    hide Holders, Loose, TargetsOf, MovedPtrs, World.Valid, Objects, InRange;
    var m' := m.Moved(op);
    ObjectsMove(m.ptrs, op, Named(op), s.named, s.ok, s.objs);
    ObjectsGrow(m'.ptrs, s.objs, w.objs);
    LooseInRange(m, op);
    forall k | 0 <= k < m'.created ensures Loose(w.loose, w.objs[k]) == m'.loose[k] {
      if k < m.created {
        assert w.objs[k] == s.objs[k];
      } else {
        assert k !in m'.loose;
      }
    }
  }

  /**
   The deleted objects after an operation are those gone from the model: the counts have noticed
   each last reference.
   */
  lemma {:induction false} Swept(w: World, op: Op, m: Model, s: Snapshot, k: nat)
    requires Matches(s, op, m) && Performed(w, op, s) && SamePointers(w, m.Moved(op)) && k < |w.objs|
    ensures w.objs[k].destructions == if k in m.After(op).gone then 1 else 0
  {
    hide Holders, Loose, TargetsOf, MovedPtrs, Objects, InRange;
    ReferencedCounts(w, m.Moved(op), k);
    assert w.objs[k] in w.objs;
  }

  method PerformOne(w: World, op: Op)
    requires w.Valid()
    modifies w.Repr()
    ensures fresh(w.Repr() - old(w.Repr())) && Effect(w, op)
  {
    hide Effect, World.Valid;
    if op.NewObject? || op.ConstructNull? || op.ConstructFrom? {
      PerformConstruct(w, op);
    } else if op.ConstructCopy? || op.ConstructMove? {
      PerformCopy(w, op);
    } else if op.AssignRaw? || op.AssignNull? || op.AssignCopy? {
      PerformAssign(w, op);
    } else if op.AssignMove? || op.Swap? || op.SwapRaw? {
      PerformMove(w, op);
    } else if op.Destroy? || op.Release? {
      PerformRelease(w, op);
    } else {
      PerformByHand(w, op);
    }
  }

  method Perform(w: World, op: Op)
    requires w.Valid()
    modifies w.Repr()
    ensures fresh(w.Repr() - old(w.Repr()))
    ensures Performed(w, op, old(Take(w, op)))
  {
    hide World.Valid, MovedPtrs, Loose, TargetsOf, LooseAfter;
    PerformOne(w, op);
    forall k | 0 <= k < |old(w.objs)|
      ensures old(w.objs[k].destructions) == 1 ==> w.objs[k].destructions == 1
      ensures w.objs[k].everReferenced == (old(w.objs[k].everReferenced) || w.objs[k].refCount > 0)
    {
      assert w.objs[k] == old(w.objs)[k];
    }
  }

  /** One operation of the program is one step of the model. */
  method Step(w: World, op: Op, ghost m: Model)
    requires w.Valid() && SamePointers(w, m) && SameObjects(w, m)
    modifies w.Repr()
    ensures w.Valid() && fresh(w.Repr() - old(w.Repr()))
    ensures SamePointers(w, m.After(op)) && SameObjects(w, m.After(op))
  {
    hide World.Valid, Matches, Take;
    ghost var s := Take(w, op);
    MatchesBefore(w, op, m);
    Perform(w, op);
    StepDone(w, op, m, s);
  }

  lemma {:induction false} StepDone(w: World, op: Op, m: Model, s: Snapshot)
    requires Matches(s, op, m) && Performed(w, op, s)
    ensures w.Valid() && SamePointers(w, m.After(op)) && SameObjects(w, m.After(op))
  {
    hide World.Valid, MovedPtrs, Objects, InRange, Loose;
    PointersMoved(w, op, m, s);
    forall k | 0 <= k < |w.objs| ensures w.objs[k].destructions == if k in m.After(op).gone then 1 else 0 {
      Swept(w, op, m, s, k);
    }
  }

  /**
   In every run, counting references has the effect of tracing them: the pointers are where they should be,
   and an object has been deleted, once, if and only if it has lost its last reference.
   */
  method Run(ops: seq<Op>) returns (w: World)
    ensures w.Valid() && SamePointers(w, Replay(ops)) && SameObjects(w, Replay(ops))
  {
    hide World.Valid, SamePointers, SameObjects, Replay, Model.After, Model.Moved;
    w := new World();
    Empty(w);
    for k := 0 to |ops|
      invariant w.Valid() && fresh(w.Repr())
      invariant SamePointers(w, Replay(ops[..k])) && SameObjects(w, Replay(ops[..k]))
    {
      ReplayOneMore(ops, k);
      Step(w, ops[k], Replay(ops[..k]));
    }
    assert ops[..|ops|] == ops;
  }

  lemma {:induction false} Empty(w: World)
    requires w.slots == [] && w.objs == [] && w.loose == multiset{}
    ensures SamePointers(w, Replay([])) && SameObjects(w, Replay([]))
  {
  }

  lemma {:induction false} ReplayOneMore(ops: seq<Op>, k: nat)
    requires k < |ops|
    ensures Replay(ops[..k + 1]) == Replay(ops[..k]).After(ops[k])
  {
    assert ops[..k + 1][..k] == ops[..k];
  }
}
