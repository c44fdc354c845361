/** remove_circular_refs (shared/engine.py): from an object graph that may
    share objects and run in circles, to a finite value that JSON can hold.

    Objects live in a heap, under identities; the heap is closed, so every
    identity in an object is an object of the heap. */
module CircularRefs {
  import opened Wrappers

  type Id = nat

  /** An atom is anything that is not a dict, list, tuple or set. `dumps`
      says whether json.dumps accepts it. */
  datatype Atom = Str(s: string) | Prim(code: int, typeName: string, dumps: bool)

  datatype Object =
    | Dict(items: seq<(string, Id)>)
    | List(elems: seq<Id>)
    | Tuple(elems: seq<Id>)
    | Set(elems: seq<Id>)
    | Leaf(atom: Atom)

  type Heap = map<Id, Object>

  function Children(o: Object): seq<Id> {
    match o
    case Dict(items) => seq(|items|, i requires 0 <= i < |items| => items[i].1)
    case List(elems) => elems
    case Tuple(elems) => elems
    case Set(elems) => elems
    case Leaf(_) => []
  }

  ghost predicate Closed(h: Heap) {
    forall r :: r in h ==> forall i :: 0 <= i < |Children(h[r])| ==> Children(h[r])[i] in h
  }

  /** What comes out. */
  datatype Value =
    | VDict(keys: seq<string>, parts: seq<Value>)
    | VList(parts: seq<Value>)
    | VTuple(parts: seq<Value>)
    | VAtom(atom: Atom)

  const MARKER: Value := VAtom(Str("[Circular Reference]"))

  function TypeName(a: Atom): string {
    match a
    case Str(_) => "str"
    case Prim(_, t, _) => t
  }

  function Dumps(a: Atom): bool {
    a.Prim? ==> a.dumps
  }

  /** An atom, or the name of its type if JSON has no form for it. */
  function CleanAtom(a: Atom): Value {
    if Dumps(a) then VAtom(a) else VAtom(Str("<" + TypeName(a) + ">"))
  }

  function Keys(items: seq<(string, Id)>): seq<string> {
    seq(|items|, i requires 0 <= i < |items| => items[i].0)
  }

  function Rebuild(o: Object, parts: seq<Value>): Value {
    match o
    case Dict(items) => VDict(Keys(items), parts)
    case List(_) => VList(parts)
    case Tuple(_) => VTuple(parts)
    case Set(_) => VList(parts)
    case Leaf(a) => CleanAtom(a)
  }

  /** The source's function. It ends because every level puts one more of the
      heap's objects into `seen`. */
  function RemoveCircularRefs(h: Heap, r: Id, seen: set<Id>): Value
    requires Closed(h) && r in h
    decreases h.Keys - seen, 1, 0
  {
    if r in seen then MARKER
    else Rebuild(h[r], CleanAll(h, Children(h[r]), seen, r))
  }

  function CleanAll(h: Heap, rs: seq<Id>, seen: set<Id>, above: Id): (vs: seq<Value>)
    requires Closed(h) && above in h && above !in seen
    requires forall i :: 0 <= i < |rs| ==> rs[i] in h
    ensures |vs| == |rs|
    ensures forall i :: 0 <= i < |rs| ==> vs[i] == RemoveCircularRefs(h, rs[i], seen + {above})
    decreases h.Keys - seen, 0, |rs|
  {
    if rs == [] then []
    else
      assert h.Keys - (seen + {above}) < h.Keys - seen by {
        assert above in h.Keys - seen && above !in h.Keys - (seen + {above});
      }
      [RemoveCircularRefs(h, rs[0], seen + {above})] + CleanAll(h, rs[1..], seen, above)
  }

  /** Every entry stands where it stood, under its own key. */
  lemma EntryByEntry(h: Heap, r: Id, seen: set<Id>)
    requires Closed(h) && r in h && r !in seen
    ensures var v := RemoveCircularRefs(h, r, seen);
      && SameForm(h[r], v)
      && forall i: nat, c :: HasEntry(h[r], i, c) ==>
           c in h && i < |Parts(v)| && Parts(v)[i] == RemoveCircularRefs(h, c, seen + {r})
  {
    var v := RemoveCircularRefs(h, r, seen);
    forall i: nat, c | HasEntry(h[r], i, c)
      ensures c in h && i < |Parts(v)| && Parts(v)[i] == RemoveCircularRefs(h, c, seen + {r})
    {
      HasEntryIff(h[r], i, c);
    }
  }

  // ------------------------------------- where the markers are, exactly

  /** The identities met on the way down `path`, when there is such a way. */
  function Spine(h: Heap, r: Id, path: seq<nat>): (ids: seq<Id>)
    requires Closed(h) && r in h
    ensures ids != [] ==> |ids| == |path| + 1 && ids[0] == r
    decreases path
  {
    if path == [] then [r]
    else if path[0] >= |Children(h[r])| then []
    else
      var rest := Spine(h, Children(h[r])[path[0]], path[1..]);
      if rest == [] then [] else [r] + rest
  }

  function Parts(v: Value): seq<Value> {
    if v.VAtom? then [] else v.parts
  }

  function ValueAt(v: Value, path: seq<nat>): Option<Value> {
    if path == [] then Some(v)
    else if path[0] >= |Parts(v)| then None
    else ValueAt(Parts(v)[path[0]], path[1..])
  }

  /** Entry `i` of the object is object `c`. */
  ghost predicate HasEntry(o: Object, i: nat, c: Id) {
    match o
    case Dict(items) => i < |items| && items[i].1 == c
    case List(elems) => i < |elems| && elems[i] == c
    case Tuple(elems) => i < |elems| && elems[i] == c
    case Set(elems) => i < |elems| && elems[i] == c
    case Leaf(_) => false
  }

  lemma HasEntryIff(o: Object, i: nat, c: Id)
    ensures HasEntry(o, i, c) <==> i < |Children(o)| && Children(o)[i] == c
  {
  }

  /** The value has the object's own form: the same keys in the same order, as
      many entries, and for a leaf itself, or its type's name if JSON has no form
      for it. */
  ghost predicate SameForm(o: Object, v: Value) {
    match o
    case Dict(items) =>
      && v.VDict? && |v.keys| == |v.parts| == |items|
      && forall i :: 0 <= i < |items| ==> v.keys[i] == items[i].0
    case List(elems) => v.VList? && |v.parts| == |elems|
    case Tuple(elems) => v.VTuple? && |v.parts| == |elems|
    case Set(elems) => v.VList? && |v.parts| == |elems|
    case Leaf(Str(text)) => v == VAtom(Str(text))
    case Leaf(Prim(code, t, dumps)) => v == if dumps then VAtom(Prim(code, t, dumps)) else VAtom(Str("<" + t + ">"))
  }

  ghost predicate NoRepeat(ids: seq<Id>, seen: set<Id>) {
    && (forall i :: 0 <= i < |ids| ==> ids[i] !in seen)
    && (forall i, j :: 0 <= i < j < |ids| ==> ids[i] != ids[j])
  }

  ghost predicate ExpectedAt(h: Heap, ids: seq<Id>, seen: set<Id>, found: Option<Value>)
    requires forall i :: 0 <= i < |ids| ==> ids[i] in h
  {
    if ids == [] || !NoRepeat(ids[..|ids| - 1], seen) then found == None
    else
      var last := ids[|ids| - 1];
      && found.Some?
      && if last in seen || last in ids[..|ids| - 1] then found.value == MARKER else SameForm(h[last], found.value)
  }

  lemma {:induction false} SpineInHeap(h: Heap, r: Id, path: seq<nat>)
    requires Closed(h) && r in h
    ensures forall i :: 0 <= i < |Spine(h, r, path)| ==> Spine(h, r, path)[i] in h
    decreases path
  {
    if path != [] && path[0] < |Children(h[r])| {
      SpineInHeap(h, Children(h[r])[path[0]], path[1..]);
    }
  }

  lemma NoRepeatCons(r: Id, tail: seq<Id>, seen: set<Id>)
    ensures NoRepeat([r] + tail, seen) <==> r !in seen && NoRepeat(tail, seen + {r})
  {
    var ids := [r] + tail;
    if NoRepeat(ids, seen) {
      forall i | 0 <= i < |tail| ensures tail[i] !in seen + {r} {
        assert tail[i] == ids[i + 1] && ids[0] == r;
      }
      forall i, j | 0 <= i < j < |tail| ensures tail[i] != tail[j] {
        assert tail[i] == ids[i + 1] && tail[j] == ids[j + 1];
      }
    }
    if r !in seen && NoRepeat(tail, seen + {r}) {
      assert forall i :: 0 < i < |ids| ==> ids[i] == tail[i - 1];
    }
  }

  lemma ExpectedOneUp(h: Heap, r: Id, rest: seq<Id>, seen: set<Id>, found: Option<Value>)
    requires r in h && r !in seen && rest != []
    requires forall i :: 0 <= i < |rest| ==> rest[i] in h
    requires ExpectedAt(h, rest, seen + {r}, found)
    ensures ExpectedAt(h, [r] + rest, seen, found)
  {
    var ids, n := [r] + rest, |rest| - 1;
    assert ids[..|ids| - 1] == [r] + rest[..n];
    NoRepeatCons(r, rest[..n], seen);
  }

  lemma {:induction false} FoundBelow(h: Heap, r: Id, path: seq<nat>, seen: set<Id>)
    requires Closed(h) && r in h
    requires forall i :: 0 <= i < |Spine(h, r, path)| ==> Spine(h, r, path)[i] in h
    ensures ExpectedAt(h, Spine(h, r, path), seen, ValueAt(RemoveCircularRefs(h, r, seen), path))
    decreases path
  {
    var ids := Spine(h, r, path);
    if path != [] && r in seen {
      if ids != [] {
        assert ids[..|ids| - 1][0] == r;
      }
    } else if path != [] && path[0] < |Children(h[r])| {
      var child := Children(h[r])[path[0]];
      SpineInHeap(h, child, path[1..]);
      FoundBelow(h, child, path[1..], seen + {r});
      if ids != [] {
        ExpectedOneUp(h, r, Spine(h, child, path[1..]), seen,
                      ValueAt(RemoveCircularRefs(h, child, seen + {r}), path[1..]));
      }
    }
  }

  /** `ids` are the objects met on the way down `path`, read off the objects
      themselves. */
  ghost predicate IsWay(h: Heap, r: Id, path: seq<nat>, ids: seq<Id>) {
    && |ids| == |path| + 1 && ids[0] == r
    && (forall k :: 0 <= k < |ids| ==> ids[k] in h)
    && forall k :: 0 <= k < |path| ==> HasEntry(h[ids[k]], path[k], ids[k + 1])
  }

  lemma {:induction false} IsWayIff(h: Heap, r: Id, path: seq<nat>, ids: seq<Id>)
    requires Closed(h) && r in h
    ensures IsWay(h, r, path, ids) <==> ids != [] && ids == Spine(h, r, path)
    decreases path
  {
    if path == [] {
      assert IsWay(h, r, path, ids) ==> ids == [r];
    } else {
      var rest := if ids == [] then [] else ids[1..];
      if path[0] < |Children(h[r])| {
        var child := Children(h[r])[path[0]];
        IsWayIff(h, child, path[1..], rest);
        HasEntryIff(h[r], path[0], child);
        if IsWay(h, r, path, ids) {
          HasEntryIff(h[ids[0]], path[0], ids[0 + 1]);
          WayBelow(h, r, path, ids);
          assert ids == [r] + rest;
        }
        if ids != [] && ids == Spine(h, r, path) {
          assert ids == [r] + Spine(h, child, path[1..]);
          assert rest == Spine(h, child, path[1..]);
          WayAbove(h, r, path, ids);
        }
      } else if IsWay(h, r, path, ids) {
        HasEntryIff(h[ids[0]], path[0], ids[0 + 1]);
        assert false;
      }
    }
  }

  lemma WayBelow(h: Heap, r: Id, path: seq<nat>, ids: seq<Id>)
    requires path != [] && IsWay(h, r, path, ids)
    ensures IsWay(h, ids[1], path[1..], ids[1..])
  {
    forall k | 0 <= k < |path[1..]| ensures HasEntry(h[ids[1..][k]], path[1..][k], ids[1..][k + 1]) {
      assert HasEntry(h[ids[k + 1]], path[k + 1], ids[k + 1 + 1]);
    }
  }

  lemma WayAbove(h: Heap, r: Id, path: seq<nat>, ids: seq<Id>)
    requires path != [] && |ids| == |path| + 1 && ids[0] == r && r in h
    requires HasEntry(h[r], path[0], ids[1]) && IsWay(h, ids[1], path[1..], ids[1..])
    ensures IsWay(h, r, path, ids)
  {
    forall k | 0 <= k < |ids| ensures ids[k] in h {
      assert k > 0 ==> ids[k] == ids[1..][k - 1];
    }
    forall k | 0 <= k < |path| ensures HasEntry(h[ids[k]], path[k], ids[k + 1]) {
      if k > 0 {
        assert HasEntry(h[ids[1..][k - 1]], path[1..][k - 1], ids[1..][k - 1 + 1]);
      }
    }
  }

  /** The whole result, place by place. A path leads somewhere in it exactly
      when it is a way down the objects on which none repeats before the end. At
      an object that is one of its own ancestors stands the marker; at every other
      one its own form. */
  lemma MarkerExactlyAtOwnDescendants(h: Heap, r: Id, path: seq<nat>)
    requires Closed(h) && r in h
    ensures var found := ValueAt(RemoveCircularRefs(h, r, {}), path);
      && (found.Some? <==> exists ids :: IsWay(h, r, path, ids) && NoRepeat(ids[..|ids| - 1], {}))
      && forall ids :: IsWay(h, r, path, ids) && NoRepeat(ids[..|ids| - 1], {}) ==>
           if ids[|ids| - 1] in ids[..|ids| - 1] then found == Some(VAtom(Str("[Circular Reference]")))
           else found.Some? && SameForm(h[ids[|ids| - 1]], found.value)
  {
    var spine := Spine(h, r, path);
    SpineResult(h, r, path);
    IsWayIff(h, r, path, spine);
    forall ids | IsWay(h, r, path, ids) ensures ids == spine {
      IsWayIff(h, r, path, ids);
    }
  }

  lemma SpineResult(h: Heap, r: Id, path: seq<nat>)
    requires Closed(h) && r in h
    ensures var ids := Spine(h, r, path);
      var found := ValueAt(RemoveCircularRefs(h, r, {}), path);
      && (found.Some? <==> ids != [] && NoRepeat(ids[..|ids| - 1], {}))
      && (found.Some? ==>
           var last := ids[|ids| - 1];
           && last in h
           && if last in ids[..|ids| - 1] then found == Some(VAtom(Str("[Circular Reference]")))
              else SameForm(h[last], found.value))
  {
    SpineInHeap(h, r, path);
    FoundBelow(h, r, path, {});
  }

  // ------------------------------------------- no cycle: the full unfolding

  /** `v` spells out the object completely: no marker takes the place of an
      object. Shared objects are spelled out at each place. */
  ghost predicate Unfolds(h: Heap, r: Id, v: Value)
    requires Closed(h) && r in h
    decreases v
  {
    && SameForm(h[r], v)
    && forall i, c :: 0 <= i < |Parts(v)| && HasEntry(h[r], i, c) ==> c in h && Unfolds(h, c, Parts(v)[i])
  }

  lemma UnfoldsIff(h: Heap, r: Id, v: Value)
    requires Closed(h) && r in h
    ensures Unfolds(h, r, v) <==>
      && SameForm(h[r], v) && |Parts(v)| == |Children(h[r])|
      && forall i :: 0 <= i < |Parts(v)| ==> Unfolds(h, Children(h[r])[i], Parts(v)[i])
  {
    if SameForm(h[r], v) {
      var children := Children(h[r]);
      forall i, c | 0 <= i < |children| ensures HasEntry(h[r], i, c) <==> children[i] == c {
        HasEntryIff(h[r], i, c);
      }
    }
  }

  /** No object that can be reached is an ancestor of itself. */
  ghost predicate NoCircle(h: Heap, r: Id)
    requires Closed(h) && r in h
  {
    forall path :: NoRepeat(Spine(h, r, path), {})
  }

  lemma {:induction false} AcyclicUnfolds(h: Heap, r: Id, seen: set<Id>)
    requires Closed(h) && r in h
    requires forall path :: NoRepeat(Spine(h, r, path), seen)
    ensures Unfolds(h, r, RemoveCircularRefs(h, r, seen))
    decreases h.Keys - seen
  {
    assert Spine(h, r, []) == [r];
    assert r !in seen by {
      assert NoRepeat(Spine(h, r, []), seen);
    }
    assert h.Keys - (seen + {r}) < h.Keys - seen by {
      assert r in h.Keys - seen && r !in h.Keys - (seen + {r});
    }
    var v := RemoveCircularRefs(h, r, seen);
    forall i | 0 <= i < |Children(h[r])|
      ensures Unfolds(h, Children(h[r])[i], Parts(v)[i])
    {
      var child := Children(h[r])[i];
      forall path ensures NoRepeat(Spine(h, child, path), seen + {r}) {
        var rest := Spine(h, child, path);
        assert ([i] + path)[1..] == path;
        assert NoRepeat(Spine(h, r, [i] + path), seen);
        if rest != [] {
          assert Spine(h, r, [i] + path) == [r] + rest;
          NoRepeatCons(r, rest, seen);
        }
      }
      AcyclicUnfolds(h, child, seen + {r});
    }
    UnfoldsIff(h, r, v);
  }

  /** Without a circle the result is the full unfolding, however many times
      objects are shared. */
  lemma NoCircleReturnsUnfolding(h: Heap, r: Id)
    requires Closed(h) && r in h && NoCircle(h, r)
    ensures Unfolds(h, r, RemoveCircularRefs(h, r, {}))
  {
    AcyclicUnfolds(h, r, {});
  }

  lemma {:induction false} UnfoldingIsUnique(h: Heap, r: Id, v: Value, w: Value)
    requires Closed(h) && r in h && Unfolds(h, r, v) && Unfolds(h, r, w)
    ensures v == w
    decreases v
  {
    UnfoldsIff(h, r, v);
    UnfoldsIff(h, r, w);
    forall i | 0 <= i < |Parts(v)| ensures Parts(v)[i] == Parts(w)[i] {
      UnfoldingIsUnique(h, Children(h[r])[i], Parts(v)[i], Parts(w)[i]);
    }
    assert Parts(v) == Parts(w);
  }

  /** An object with a finite unfolding has that as its result. `above` gives
      the unfoldings of the objects on the way, all properly larger, which is
      why none of them can be met again. */
  lemma {:induction false} UnfoldingIsReturned(h: Heap, r: Id, v: Value, above: map<Id, Value>)
    requires Closed(h) && r in h && Unfolds(h, r, v)
    requires forall s :: s in above ==> s in h && Unfolds(h, s, above[s]) && v < above[s]
    ensures RemoveCircularRefs(h, r, above.Keys) == v
    decreases v
  {
    UnfoldsIff(h, r, v);
    if r in above {
      UnfoldingIsUnique(h, r, v, above[r]);
    }
    var out := RemoveCircularRefs(h, r, above.Keys);
    var above' := above[r := v];
    assert above'.Keys == above.Keys + {r};
    forall i | 0 <= i < |Parts(v)| ensures Parts(out)[i] == Parts(v)[i] {
      assert Parts(v)[i] < v;
      UnfoldingIsReturned(h, Children(h[r])[i], Parts(v)[i], above');
    }
    assert Parts(out) == Parts(v);
  }

  // ---------------------------------------------------------- idempotence

  /** Only atoms JSON accepts. */
  ghost predicate Clean(v: Value) {
    match v
    case VAtom(a) => Dumps(a)
    case _ => forall i :: 0 <= i < |v.parts| ==> Clean(v.parts[i])
  }

  lemma {:induction false} ResultIsClean(h: Heap, r: Id, seen: set<Id>)
    requires Closed(h) && r in h
    ensures Clean(RemoveCircularRefs(h, r, seen))
    decreases h.Keys - seen
  {
    if r !in seen {
      assert h.Keys - (seen + {r}) < h.Keys - seen by {
        assert r in h.Keys - seen && r !in h.Keys - (seen + {r});
      }
      forall i | 0 <= i < |Children(h[r])| ensures Clean(RemoveCircularRefs(h, Children(h[r])[i], seen + {r})) {
        ResultIsClean(h, Children(h[r])[i], seen + {r});
      }
    }
  }

  /** The value, held as objects of a heap: keys, order and entries. */
  ghost predicate IsHeld(h: Heap, r: Id, v: Value)
    requires Closed(h) && r in h
    decreases v
  {
    && (match h[r]
        case Dict(items) =>
          && v.VDict? && |v.keys| == |v.parts| == |items|
          && forall i :: 0 <= i < |items| ==> v.keys[i] == items[i].0
        case List(elems) => v.VList? && |v.parts| == |elems|
        case Tuple(elems) => v.VTuple? && |v.parts| == |elems|
        case Set(_) => false
        case Leaf(a) => v == VAtom(a))
    && forall i, c :: 0 <= i < |Parts(v)| && HasEntry(h[r], i, c) ==> c in h && IsHeld(h, c, Parts(v)[i])
  }

  lemma {:induction false} HeldCleanUnfolds(h: Heap, r: Id, v: Value)
    requires Closed(h) && r in h && IsHeld(h, r, v) && Clean(v)
    ensures Unfolds(h, r, v)
    decreases v
  {
    forall i, c | 0 <= i < |Parts(v)| && HasEntry(h[r], i, c) ensures c in h && Unfolds(h, c, Parts(v)[i]) {
      HeldCleanUnfolds(h, c, Parts(v)[i]);
    }
  }

  /** Cleaning the result again, in whatever heap it is held, changes
      nothing. */
  lemma Idempotent(h: Heap, r: Id, h': Heap, r': Id)
    requires Closed(h) && r in h && Closed(h') && r' in h'
    requires IsHeld(h', r', RemoveCircularRefs(h, r, {}))
    ensures RemoveCircularRefs(h', r', {}) == RemoveCircularRefs(h, r, {})
  {
    var v := RemoveCircularRefs(h, r, {});
    ResultIsClean(h, r, {});
    HeldCleanUnfolds(h', r', v);
    var above: map<Id, Value> := map[];
    assert above.Keys == {};
    UnfoldingIsReturned(h', r', v, above);
  }
}
