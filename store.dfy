/** The level's data: placed objects, the three ordered lists `level.blocks`, `level.spikes`,
    `level.portals`, and the functions that say what deleting, selecting and nudging do to them.
    Each placed object carries an id, so that a selection can name an object the way the
    editor's `{ parent, ref }` records do, by the list it sits in and its identity. */
module Store {
  import opened Wrappers
  import opened Geometry

  /** `defaultValues`: what an object field means when it is absent. */
  const DefaultWidth: real := GridSize
  const DefaultHeight: real := GridSize
  const DefaultType: int := 1
  const DefaultRotation: int := 0
  const DefaultHitbox: bool := true

  /** A placed object: center, size, category-specific type, quarter-turn rotation and whether
      it takes part in collisions. */
  datatype Obj = Obj(x: real, y: real, width: real, height: real, objType: int, rotation: int, hitbox: bool)
  {
    function Bounds(): Box {
      Box(x, y, width, height)
    }

    /** The object moved by `(dx, dy)`; nothing else about it changes. */
    function Moved(dx: real, dy: real): Obj {
      this.(x := x + dx, y := y + dy)
    }
  }

  /** The three lists of a level. */
  datatype Kind = Blocks | Spikes | Portals

  /** An object as stored in a list, with the identity that JavaScript references give it. */
  datatype Entry = Entry(id: nat, obj: Obj)

  /** One element of `selectedObjects`: the owning list and the object's identity. */
  datatype Ref = Ref(kind: Kind, id: nat)

  /** The three lists as plain object values: what the codec reads and writes. */
  datatype Lists = Lists(blocks: seq<Obj>, spikes: seq<Obj>, portals: seq<Obj>)
  {
    function Get(k: Kind): seq<Obj> {
      match k
      case Blocks => blocks
      case Spikes => spikes
      case Portals => portals
    }

    /** `target.push(...)` of several objects onto list `k`. */
    function Extend(k: Kind, objs: seq<Obj>): (r: Lists)
      ensures r.Get(k) == Get(k) + objs
      ensures forall k' :: k' != k ==> r.Get(k') == Get(k')
    {
      match k
      case Blocks => this.(blocks := blocks + objs)
      case Spikes => this.(spikes := spikes + objs)
      case Portals => this.(portals := portals + objs)
    }
  }

  /** Pushing nothing changes nothing. */
  lemma ExtendNothing(l: Lists, k: Kind)
    ensures l.Extend(k, []) == l
  {
    assert l.Get(k) + [] == l.Get(k);
  }

  /** Two pushes onto the same list are one push of both. */
  lemma ExtendExtend(l: Lists, k: Kind, a: seq<Obj>, b: seq<Obj>)
    ensures l.Extend(k, a).Extend(k, b) == l.Extend(k, a + b)
  {
    match k
    case Blocks => assert l.blocks + a + b == l.blocks + (a + b);
    case Spikes => assert l.spikes + a + b == l.spikes + (a + b);
    case Portals => assert l.portals + a + b == l.portals + (a + b);
  }

  /** The level: three lists of stored objects. */
  datatype Level = Level(blocks: seq<Entry>, spikes: seq<Entry>, portals: seq<Entry>)
  {
    function Get(k: Kind): seq<Entry> {
      match k
      case Blocks => blocks
      case Spikes => spikes
      case Portals => portals
    }

    /** The level with list `k` replaced by `es`. */
    function With(k: Kind, es: seq<Entry>): (r: Level)
      ensures r.Get(k) == es
      ensures forall k' :: k' != k ==> r.Get(k') == Get(k')
    {
      match k
      case Blocks => this.(blocks := es)
      case Spikes => this.(spikes := es)
      case Portals => this.(portals := es)
    }

    /** The lists without the ids. */
    function View(): Lists {
      Lists(Objs(blocks), Objs(spikes), Objs(portals))
    }

    function Size(): nat {
      |blocks| + |spikes| + |portals|
    }
  }

  function Objs(es: seq<Entry>): (r: seq<Obj>)
    ensures |r| == |es|
  {
    seq(|es|, i requires 0 <= i < |es| => es[i].obj)
  }

  lemma ObjsSnoc(es: seq<Entry>, e: Entry)
    ensures Objs(es + [e]) == Objs(es) + [e.obj]
  {
  }

  /** Pushing an entry onto list `k` pushes its object onto the same list of the view. */
  lemma ViewAppend(level: Level, k: Kind, e: Entry)
    ensures level.With(k, level.Get(k) + [e]).View() == level.View().Extend(k, [e.obj])
  {
    ObjsSnoc(level.Get(k), e);
  }

  // ---------------------------------------------------------------------------------------
  // Identities

  /** No two entries of a list share an id: JavaScript objects are distinct references. */
  predicate UniqueIds(es: seq<Entry>) {
    forall i, j :: 0 <= i < j < |es| ==> es[i].id != es[j].id
  }

  /** Every id in the list was handed out before `next`. */
  predicate IdsBelow(es: seq<Entry>, next: nat) {
    forall i :: 0 <= i < |es| ==> es[i].id < next
  }

  /** The invariant the editor keeps: ids are unique within each list and all older than the
      next id to be handed out. */
  predicate WellFormed(level: Level, next: nat) {
    && UniqueIds(level.blocks) && IdsBelow(level.blocks, next)
    && UniqueIds(level.spikes) && IdsBelow(level.spikes, next)
    && UniqueIds(level.portals) && IdsBelow(level.portals, next)
  }

  /** Appending an entry with the next id keeps the invariant for the next id after it. */
  lemma WellFormedAppend(level: Level, next: nat, k: Kind, o: Obj)
    requires WellFormed(level, next)
    ensures WellFormed(level.With(k, level.Get(k) + [Entry(next, o)]), next + 1)
  {
  }

  /** `list.indexOf(ref)`: the first index holding the id, or -1. */
  function IndexOfId(es: seq<Entry>, id: nat): (r: int)
    ensures -1 <= r < |es|
    ensures r >= 0 ==> es[r].id == id && forall j :: 0 <= j < r ==> es[j].id != id
    ensures r < 0 ==> forall j :: 0 <= j < |es| ==> es[j].id != id
    decreases |es|
  {
    if es == [] then -1
    else if es[0].id == id then 0
    else
      var r := IndexOfId(es[1..], id);
      if r < 0 then -1 else r + 1
  }

  /** `list.splice(i, 1)`. */
  function RemoveAt<T>(s: seq<T>, i: nat): (r: seq<T>)
    requires i < |s|
    ensures |r| == |s| - 1
    ensures forall j :: 0 <= j < i ==> r[j] == s[j]
    ensures forall j :: i <= j < |r| ==> r[j] == s[j + 1]
  {
    s[..i] + s[i + 1..]
  }

  /** Splicing out one element removes exactly that element from the multiset. */
  lemma RemoveAtMultiset<T>(s: seq<T>, i: nat)
    requires i < |s|
    ensures multiset(RemoveAt(s, i)) + multiset{s[i]} == multiset(s)
  {
    assert s == s[..i] + [s[i]] + s[i + 1..];
  }

  lemma UniqueRemoveAt(es: seq<Entry>, i: nat, next: nat)
    requires i < |es| && UniqueIds(es) && IdsBelow(es, next)
    ensures UniqueIds(RemoveAt(es, i)) && IdsBelow(RemoveAt(es, i), next)
  {
    var r := RemoveAt(es, i);
    forall a, b | 0 <= a < b < |r| ensures r[a].id != r[b].id {
      var a' := if a < i then a else a + 1;
      var b' := if b < i then b else b + 1;
      assert r[a] == es[a'] && r[b] == es[b'];
    }
  }

  // ---------------------------------------------------------------------------------------
  // Point delete

  /** The first index whose object strictly contains `p`: the search loop of `deleteObj`. */
  function FirstHit(es: seq<Entry>, p: Point): (r: Option<nat>)
    ensures r.Some? ==> r.value < |es| && PointInBox(p, es[r.value].obj.Bounds())
    ensures r.Some? ==> forall j :: 0 <= j < r.value ==> !PointInBox(p, es[j].obj.Bounds())
    ensures r.None? ==> forall j :: 0 <= j < |es| ==> !PointInBox(p, es[j].obj.Bounds())
    decreases |es|
  {
    if es == [] then None
    else if PointInBox(p, es[0].obj.Bounds()) then Some(0)
    else
      match FirstHit(es[1..], p)
      case Some(i) => Some(i + 1)
      case None => None
  }

  /** What `deleteObj` does at point `p`: removes the first object containing `p`, searching
      the blocks, then the spikes, then the portals. */
  function DeleteAt(level: Level, p: Point): Level {
    match FirstHit(level.blocks, p)
    case Some(i) => level.(blocks := RemoveAt(level.blocks, i))
    case None =>
      match FirstHit(level.spikes, p)
      case Some(i) => level.(spikes := RemoveAt(level.spikes, i))
      case None =>
        match FirstHit(level.portals, p)
        case Some(i) => level.(portals := RemoveAt(level.portals, i))
        case None => level
  }

  /** Some object of the list strictly contains `p`. */
  predicate HitIn(es: seq<Entry>, p: Point) {
    exists e :: e in es && PointInBox(p, e.obj.Bounds())
  }

  lemma FirstHitSome(es: seq<Entry>, p: Point)
    ensures FirstHit(es, p).Some? <==> HitIn(es, p)
  {
    if HitIn(es, p) {
      var e :| e in es && PointInBox(p, e.obj.Bounds());
      var i :| 0 <= i < |es| && es[i] == e;
    }
  }

  /** `deleteObj` removes at most one object: exactly one when some object contains the point,
      none otherwise. The lists searched before the one it removes from are untouched, every
      list keeps its order, and what remains is a sub-multiset of what was there. */
  lemma DeleteAtEffect(level: Level, p: Point)
    ensures var r := DeleteAt(level, p);
      && (!HitIn(level.blocks, p) && !HitIn(level.spikes, p) && !HitIn(level.portals, p) ==> r == level)
      && (HitIn(level.blocks, p) || HitIn(level.spikes, p) || HitIn(level.portals, p) ==> r.Size() == level.Size() - 1)
      && (HitIn(level.blocks, p) ==> r.spikes == level.spikes && r.portals == level.portals)
      && (!HitIn(level.blocks, p) ==> r.blocks == level.blocks)
      && (!HitIn(level.blocks, p) && HitIn(level.spikes, p) ==> r.portals == level.portals)
      && (!HitIn(level.blocks, p) && !HitIn(level.spikes, p) ==> r.spikes == level.spikes)
      && (forall k :: multiset(r.Get(k)) <= multiset(level.Get(k)))
  {
    FirstHitSome(level.blocks, p);
    FirstHitSome(level.spikes, p);
    FirstHitSome(level.portals, p);
    match FirstHit(level.blocks, p)
    case Some(i) => RemoveAtMultiset(level.blocks, i);
    case None =>
      match FirstHit(level.spikes, p)
      case Some(i) => RemoveAtMultiset(level.spikes, i);
      case None =>
        match FirstHit(level.portals, p)
        case Some(i) => RemoveAtMultiset(level.portals, i);
        case None =>
  }

  /** The object `deleteObj` removes is the first hit of the first list, in the order blocks,
      spikes, portals, that has one. */
  lemma DeleteAtFirstHit(level: Level, p: Point)
    ensures var r := DeleteAt(level, p);
      && (HitIn(level.blocks, p) ==>
            && FirstHit(level.blocks, p).Some?
            && r.blocks == RemoveAt(level.blocks, FirstHit(level.blocks, p).value))
      && (!HitIn(level.blocks, p) && HitIn(level.spikes, p) ==>
            && FirstHit(level.spikes, p).Some?
            && r.spikes == RemoveAt(level.spikes, FirstHit(level.spikes, p).value))
      && (!HitIn(level.blocks, p) && !HitIn(level.spikes, p) && HitIn(level.portals, p) ==>
            && FirstHit(level.portals, p).Some?
            && r.portals == RemoveAt(level.portals, FirstHit(level.portals, p).value))
  {
    FirstHitSome(level.blocks, p);
    FirstHitSome(level.spikes, p);
    FirstHitSome(level.portals, p);
  }

  lemma DeleteAtWellFormed(level: Level, p: Point, next: nat)
    requires WellFormed(level, next)
    ensures WellFormed(DeleteAt(level, p), next)
  {
    match FirstHit(level.blocks, p)
    case Some(i) => UniqueRemoveAt(level.blocks, i, next);
    case None =>
      match FirstHit(level.spikes, p)
      case Some(i) => UniqueRemoveAt(level.spikes, i, next);
      case None =>
        match FirstHit(level.portals, p)
        case Some(i) => UniqueRemoveAt(level.portals, i, next);
        case None =>
  }

  // ---------------------------------------------------------------------------------------
  // Selection

  /** No reference occurs twice. */
  predicate NoDup(refs: seq<Ref>) {
    forall i, j :: 0 <= i < j < |refs| ==> refs[i] != refs[j]
  }

  /** The references, in list order, of the entries of list `k` whose boxes overlap `box`:
      one of the three loops of the mouseup handler. */
  function Hits(k: Kind, es: seq<Entry>, box: Box): seq<Ref>
    decreases |es|
  {
    if es == [] then []
    else
      var last := es[|es| - 1];
      Hits(k, es[..|es| - 1], box) + (if Overlaps(box, last.obj.Bounds()) then [Ref(k, last.id)] else [])
  }

  /** A reference is among the hits exactly when it names an overlapping entry of that list. */
  lemma {:induction false} HitsMembers(k: Kind, es: seq<Entry>, box: Box, r: Ref)
    ensures r in Hits(k, es, box) <==>
      r.kind == k && exists e :: e in es && e.id == r.id && Overlaps(box, e.obj.Bounds())
    decreases |es|
  {
    if es != [] {
      var init, last := es[..|es| - 1], es[|es| - 1];
      assert es == init + [last];
      HitsMembers(k, init, box, r);
      if r.kind == k && r !in Hits(k, init, box) && r in Hits(k, es, box) {
        assert r == Ref(k, last.id);
        assert last in es;
      }
      if r.kind == k && r !in Hits(k, es, box) {
        forall e | e in es && e.id == r.id
          ensures !Overlaps(box, e.obj.Bounds())
        {
          if e !in init {
            assert e == last;
          }
        }
      }
    }
  }

  lemma {:induction false} HitsNoDup(k: Kind, es: seq<Entry>, box: Box)
    requires UniqueIds(es)
    ensures NoDup(Hits(k, es, box))
    decreases |es|
  {
    if es != [] {
      var init, last := es[..|es| - 1], es[|es| - 1];
      assert UniqueIds(init);
      HitsNoDup(k, init, box);
      var h := Hits(k, init, box);
      HitsMembers(k, init, box, Ref(k, last.id));
    }
  }

  /** The box of a drag selection: centered at the midpoint of its corners, as wide and as tall
      as their distance. */
  function SelectionBox(start: Point, end: Point): Box {
    Box((start.x + end.x) * 0.5, (start.y + end.y) * 0.5, Abs(end.x - start.x), Abs(end.y - start.y))
  }

  /** Every object whose box overlaps `box`: blocks first, then spikes, then portals. */
  function Overlapping(level: Level, box: Box): seq<Ref> {
    Hits(Blocks, level.blocks, box) + Hits(Spikes, level.spikes, box) + Hits(Portals, level.portals, box)
  }

  /** The selection made on mouseup holds exactly the objects overlapping the box, each once. */
  lemma OverlappingExactly(level: Level, box: Box, r: Ref)
    ensures r in Overlapping(level, box) <==>
      exists e :: e in level.Get(r.kind) && e.id == r.id && Overlaps(box, e.obj.Bounds())
  {
    HitsMembers(Blocks, level.blocks, box, r);
    HitsMembers(Spikes, level.spikes, box, r);
    HitsMembers(Portals, level.portals, box, r);
  }

  lemma OverlappingNoDup(level: Level, box: Box, next: nat)
    requires WellFormed(level, next)
    ensures NoDup(Overlapping(level, box))
  {
    var a, b, c := Hits(Blocks, level.blocks, box), Hits(Spikes, level.spikes, box), Hits(Portals, level.portals, box);
    HitsNoDup(Blocks, level.blocks, box);
    HitsNoDup(Spikes, level.spikes, box);
    HitsNoDup(Portals, level.portals, box);
    forall r | r in a ensures r.kind == Blocks { HitsMembers(Blocks, level.blocks, box, r); }
    forall r | r in b ensures r.kind == Spikes { HitsMembers(Spikes, level.spikes, box, r); }
    forall r | r in c ensures r.kind == Portals { HitsMembers(Portals, level.portals, box, r); }
    var s := a + b + c;
    forall i, j | 0 <= i < j < |s| ensures s[i] != s[j] {
      if j < |a| {
      } else if i < |a| {
        assert s[i] in a && s[j] in b + c;
      } else if j < |a| + |b| {
        assert s[i] == b[i - |a|] && s[j] == b[j - |a|];
      } else if i < |a| + |b| {
        assert s[i] in b && s[j] in c;
      } else {
        assert s[i] == c[i - |a| - |b|] && s[j] == c[j - |a| - |b|];
      }
    }
  }

  /** The selection made on mouseup names only stored objects, so only ids below the next one. */
  lemma OverlappingBelow(level: Level, box: Box, next: nat)
    requires WellFormed(level, next)
    ensures RefsBelow(Overlapping(level, box), next)
  {
    var s := Overlapping(level, box);
    forall i | 0 <= i < |s| ensures s[i].id < next {
      OverlappingExactly(level, box, s[i]);
      var e :| e in level.Get(s[i].kind) && e.id == s[i].id && Overlaps(box, e.obj.Bounds());
      var j :| 0 <= j < |level.Get(s[i].kind)| && level.Get(s[i].kind)[j] == e;
    }
  }

  /** The ids that the references name in list `k`. */
  function IdsOf(refs: seq<Ref>, k: Kind): set<nat> {
    set i | 0 <= i < |refs| && refs[i].kind == k :: refs[i].id
  }

  lemma IdsOfSnoc(refs: seq<Ref>, r: Ref, k: Kind)
    ensures IdsOf(refs + [r], k) == IdsOf(refs, k) + (if r.kind == k then {r.id} else {})
  {
    var s := refs + [r];
    forall id | id in IdsOf(s, k) ensures id in IdsOf(refs, k) + (if r.kind == k then {r.id} else {}) {
      var i :| 0 <= i < |s| && s[i].kind == k && s[i].id == id;
      if i < |refs| { assert refs[i] == s[i]; }
    }
    forall id | id in IdsOf(refs, k) ensures id in IdsOf(s, k) {
      var i :| 0 <= i < |refs| && refs[i].kind == k && refs[i].id == id;
      assert s[i] == refs[i];
    }
    if r.kind == k {
      assert s[|refs|] == r;
    }
  }

  // ---------------------------------------------------------------------------------------
  // Bulk delete

  /** The entries whose ids are not in `gone`, in their order. */
  function Keep(es: seq<Entry>, gone: set<nat>): (r: seq<Entry>)
    ensures |r| <= |es|
    decreases |es|
  {
    if es == [] then []
    else (if es[0].id in gone then [] else [es[0]]) + Keep(es[1..], gone)
  }

  /** What `deleteSelection` does: removes every selected object from its list. */
  function RemoveSelected(level: Level, sel: seq<Ref>): Level {
    Level(Keep(level.blocks, IdsOf(sel, Blocks)),
          Keep(level.spikes, IdsOf(sel, Spikes)),
          Keep(level.portals, IdsOf(sel, Portals)))
  }

  lemma {:induction false} KeepMembers(es: seq<Entry>, gone: set<nat>, e: Entry)
    ensures e in Keep(es, gone) <==> e in es && e.id !in gone
    decreases |es|
  {
    if es != [] {
      KeepMembers(es[1..], gone, e);
      assert es == [es[0]] + es[1..];
    }
  }

  lemma {:induction false} KeepNothing(es: seq<Entry>, gone: set<nat>)
    requires forall i :: 0 <= i < |es| ==> es[i].id !in gone
    ensures Keep(es, gone) == es
    decreases |es|
  {
    if es != [] {
      KeepNothing(es[1..], gone);
    }
  }

  lemma {:induction false} KeepKeep(es: seq<Entry>, a: set<nat>, b: set<nat>)
    ensures Keep(Keep(es, a), b) == Keep(es, a + b)
    decreases |es|
  {
    if es != [] {
      KeepKeep(es[1..], a, b);
      var head := if es[0].id in a then [] else [es[0]];
      assert Keep(es, a) == head + Keep(es[1..], a);
      KeepAppend(head, Keep(es[1..], a), b);
    }
  }

  lemma {:induction false} KeepAppend(s: seq<Entry>, t: seq<Entry>, gone: set<nat>)
    ensures Keep(s + t, gone) == Keep(s, gone) + Keep(t, gone)
    decreases |s|
  {
    if s != [] {
      assert (s + t)[0] == s[0];
      assert (s + t)[1..] == s[1..] + t;
      KeepAppend(s[1..], t, gone);
      var head := if s[0].id in gone then [] else [s[0]];
      assert Keep(s + t, gone) == head + Keep(s[1..] + t, gone);
      assert Keep(s, gone) == head + Keep(s[1..], gone);
    } else {
      assert s + t == t;
    }
  }

  lemma {:induction false} KeepUnique(es: seq<Entry>, gone: set<nat>, next: nat)
    requires UniqueIds(es) && IdsBelow(es, next)
    ensures UniqueIds(Keep(es, gone)) && IdsBelow(Keep(es, gone), next)
    decreases |es|
  {
    if es != [] {
      var tail := es[1..];
      assert UniqueIds(tail) && IdsBelow(tail, next);
      KeepUnique(tail, gone, next);
      var kt := Keep(tail, gone);
      forall j | 0 <= j < |kt| ensures kt[j].id != es[0].id {
        KeepMembers(tail, gone, kt[j]);
        assert kt[j] in tail;
        var m :| 0 <= m < |tail| && tail[m] == kt[j];
        assert es[m + 1] == tail[m];
      }
      forall j | 0 <= j < |kt| ensures kt[j].id < next {
        KeepMembers(tail, gone, kt[j]);
        assert kt[j] in tail;
      }
    }
  }

  /** With unique ids, removing the first entry with `id` is filtering `id` out. */
  lemma {:induction false} RemoveFirstIsKeep(es: seq<Entry>, id: nat)
    requires UniqueIds(es)
    ensures var i := IndexOfId(es, id);
      Keep(es, {id}) == if i >= 0 then RemoveAt(es, i) else es
    decreases |es|
  {
    var i := IndexOfId(es, id);
    if i < 0 {
      KeepNothing(es, {id});
    } else if i == 0 {
      RemoveHead(es, id);
    } else {
      var tail := es[1..];
      assert UniqueIds(tail);
      assert IndexOfId(tail, id) == i - 1;
      RemoveFirstIsKeep(tail, id);
      KeepCons(es, {id});
      RemoveAtCons(es, i);
    }
  }

  lemma KeepCons(es: seq<Entry>, gone: set<nat>)
    requires es != [] && es[0].id !in gone
    ensures Keep(es, gone) == [es[0]] + Keep(es[1..], gone)
  {
  }

  lemma RemoveAtCons<T>(s: seq<T>, i: nat)
    requires 0 < i < |s|
    ensures RemoveAt(s, i) == [s[0]] + RemoveAt(s[1..], i - 1)
  {
    assert s[..i] == [s[0]] + s[1..][..i - 1];
    assert s[i + 1..] == s[1..][i..];
  }

  lemma RemoveHead(es: seq<Entry>, id: nat)
    requires es != [] && UniqueIds(es) && es[0].id == id
    ensures Keep(es, {id}) == RemoveAt(es, 0)
  {
    var tail := es[1..];
    forall j | 0 <= j < |tail| ensures tail[j].id !in {id} {
      assert tail[j] == es[j + 1];
    }
    KeepNothing(tail, {id});
    assert RemoveAt(es, 0) == tail;
  }

  /** One iteration of the `deleteSelection` loop: `parent.splice(parent.indexOf(ref), 1)`
      when the object is still in its list. */
  function RemoveOne(level: Level, r: Ref): Level {
    var es := level.Get(r.kind);
    var i := IndexOfId(es, r.id);
    if i >= 0 then level.With(r.kind, RemoveAt(es, i)) else level
  }

  /** Removing a selection keeps the ids well formed. */
  lemma RemoveSelectedWellFormed(level: Level, sel: seq<Ref>, next: nat)
    requires WellFormed(level, next)
    ensures WellFormed(RemoveSelected(level, sel), next)
  {
    KeepUnique(level.blocks, IdsOf(sel, Blocks), next);
    KeepUnique(level.spikes, IdsOf(sel, Spikes), next);
    KeepUnique(level.portals, IdsOf(sel, Portals), next);
  }

  lemma RemoveSelectedGet(level: Level, sel: seq<Ref>, k: Kind)
    ensures RemoveSelected(level, sel).Get(k) == Keep(level.Get(k), IdsOf(sel, k))
  {
  }

  /** One list of `RemoveSelectedSnoc`. */
  lemma RemoveSelectedSnocGet(level0: Level, sel: seq<Ref>, r: Ref, k: Kind, next: nat)
    requires WellFormed(level0, next)
    ensures RemoveSelected(level0, sel + [r]).Get(k) == RemoveOne(RemoveSelected(level0, sel), r).Get(k)
  {
    var l := RemoveSelected(level0, sel);
    RemoveSelectedGet(level0, sel, k);
    RemoveSelectedGet(level0, sel + [r], k);
    IdsOfSnoc(sel, r, k);
    var one: set<nat> := if r.kind == k then {r.id} else {};
    KeepKeep(level0.Get(k), IdsOf(sel, k), one);
    if r.kind == k {
      RemoveSelectedWellFormed(level0, sel, next);
      assert UniqueIds(l.Get(k)) by {
        assert UniqueIds(l.blocks) && UniqueIds(l.spikes) && UniqueIds(l.portals);
      }
      RemoveFirstIsKeep(l.Get(k), r.id);
    } else {
      KeepNothing(l.Get(k), {});
    }
  }

  /** One more iteration of the `deleteSelection` loop. */
  lemma RemoveSelectedSnoc(level0: Level, sel: seq<Ref>, r: Ref, next: nat)
    requires WellFormed(level0, next)
    ensures RemoveSelected(level0, sel + [r]) == RemoveOne(RemoveSelected(level0, sel), r)
  {
    var a, b := RemoveSelected(level0, sel + [r]), RemoveOne(RemoveSelected(level0, sel), r);
    RemoveSelectedSnocGet(level0, sel, r, Blocks, next);
    RemoveSelectedSnocGet(level0, sel, r, Spikes, next);
    RemoveSelectedSnocGet(level0, sel, r, Portals, next);
    assert a.blocks == b.blocks && a.spikes == b.spikes && a.portals == b.portals;
  }

  /** An empty selection removes nothing. */
  lemma RemoveNothing(level: Level)
    ensures RemoveSelected(level, []) == level
  {
    assert IdsOf([], Blocks) == {} && IdsOf([], Spikes) == {} && IdsOf([], Portals) == {};
    KeepNothing(level.blocks, {});
    KeepNothing(level.spikes, {});
    KeepNothing(level.portals, {});
  }

  /** `deleteSelection` removes exactly the selected objects and keeps every other one, in
      order. */
  lemma RemoveSelectedExactly(level: Level, sel: seq<Ref>, k: Kind, e: Entry)
    ensures e in RemoveSelected(level, sel).Get(k) <==> e in level.Get(k) && Ref(k, e.id) !in sel
  {
    var gone := IdsOf(sel, k);
    KeepMembers(level.Get(k), gone, e);
    if Ref(k, e.id) in sel {
      var i :| 0 <= i < |sel| && sel[i] == Ref(k, e.id);
      assert e.id in gone;
    } else {
      assert e.id !in gone;
    }
  }

  // ---------------------------------------------------------------------------------------
  // Arrow-key nudge

  /** The entries with the selected ids moved by `(dx, dy)`. */
  function Shifted(es: seq<Entry>, ids: set<nat>, dx: real, dy: real): (r: seq<Entry>)
    ensures |r| == |es|
  {
    seq(|es|, i requires 0 <= i < |es| =>
      if es[i].id in ids then Entry(es[i].id, es[i].obj.Moved(dx, dy)) else es[i])
  }

  /** What a nudge does: every selected object moves by `(dx, dy)`. */
  function Nudged(level: Level, sel: seq<Ref>, dx: real, dy: real): Level {
    Level(Shifted(level.blocks, IdsOf(sel, Blocks), dx, dy),
          Shifted(level.spikes, IdsOf(sel, Spikes), dx, dy),
          Shifted(level.portals, IdsOf(sel, Portals), dx, dy))
  }

  /** A nudge moves exactly the selected objects, by the same offset, and changes nothing else:
      not the ids, not the order, not the other fields. */
  lemma NudgedExactly(level: Level, sel: seq<Ref>, dx: real, dy: real, k: Kind, i: nat)
    requires i < |level.Get(k)|
    ensures var e := level.Get(k)[i];
      var n := Nudged(level, sel, dx, dy).Get(k);
      && |n| == |level.Get(k)|
      && n[i].id == e.id
      && n[i].obj == if Ref(k, e.id) in sel then e.obj.Moved(dx, dy) else e.obj
  {
    var e := level.Get(k)[i];
    if Ref(k, e.id) in sel {
      var j :| 0 <= j < |sel| && sel[j] == Ref(k, e.id);
      assert e.id in IdsOf(sel, k);
    }
  }

  /** A zero offset moves nothing. */
  lemma NudgedZero(level: Level, sel: seq<Ref>)
    ensures Nudged(level, sel, 0.0, 0.0) == level
  {
    assert Shifted(level.blocks, IdsOf(sel, Blocks), 0.0, 0.0) == level.blocks;
    assert Shifted(level.spikes, IdsOf(sel, Spikes), 0.0, 0.0) == level.spikes;
    assert Shifted(level.portals, IdsOf(sel, Portals), 0.0, 0.0) == level.portals;
  }

  /** Nudging an empty selection moves nothing. */
  lemma NudgedNothing(level: Level, dx: real, dy: real)
    ensures Nudged(level, [], dx, dy) == level
  {
    assert IdsOf([], Blocks) == {} && IdsOf([], Spikes) == {} && IdsOf([], Portals) == {};
    assert Shifted(level.blocks, {}, dx, dy) == level.blocks;
    assert Shifted(level.spikes, {}, dx, dy) == level.spikes;
    assert Shifted(level.portals, {}, dx, dy) == level.portals;
  }

  lemma ShiftedWellFormed(es: seq<Entry>, ids: set<nat>, dx: real, dy: real, next: nat)
    requires UniqueIds(es) && IdsBelow(es, next)
    ensures UniqueIds(Shifted(es, ids, dx, dy)) && IdsBelow(Shifted(es, ids, dx, dy), next)
  {
  }

  /** Moving one more, not yet moved, entry of a list with unique ids. */
  lemma ShiftedStep(es: seq<Entry>, ids: set<nat>, id: nat, dx: real, dy: real)
    requires UniqueIds(es) && id !in ids
    ensures var cur := Shifted(es, ids, dx, dy);
      var i := IndexOfId(cur, id);
      Shifted(es, ids + {id}, dx, dy)
        == if i >= 0 then cur[i := Entry(cur[i].id, cur[i].obj.Moved(dx, dy))] else cur
  {
    var cur := Shifted(es, ids, dx, dy);
    var i := IndexOfId(cur, id);
    var after := Shifted(es, ids + {id}, dx, dy);
    if i >= 0 {
      forall j | 0 <= j < |es| ensures after[j] == cur[i := Entry(cur[i].id, cur[i].obj.Moved(dx, dy))][j] {
        if j != i {
          assert es[j].id != es[i].id;
        }
      }
    } else {
      forall j | 0 <= j < |es| ensures after[j] == cur[j] {
        assert cur[j].id == es[j].id;
      }
    }
  }

  /** One step of the nudge loop: the entry of `r`, if it is still in its list, moved by
      `(dx, dy)`. */
  function NudgeOne(level: Level, r: Ref, dx: real, dy: real): Level {
    var es := level.Get(r.kind);
    var i := IndexOfId(es, r.id);
    if i >= 0 then level.With(r.kind, es[i := Entry(es[i].id, es[i].obj.Moved(dx, dy))]) else level
  }

  /** A nudge keeps the ids well formed. */
  lemma NudgedWellFormed(level: Level, sel: seq<Ref>, dx: real, dy: real, next: nat)
    requires WellFormed(level, next)
    ensures WellFormed(Nudged(level, sel, dx, dy), next)
  {
    ShiftedWellFormed(level.blocks, IdsOf(sel, Blocks), dx, dy, next);
    ShiftedWellFormed(level.spikes, IdsOf(sel, Spikes), dx, dy, next);
    ShiftedWellFormed(level.portals, IdsOf(sel, Portals), dx, dy, next);
  }

  lemma NudgedSnoc(level0: Level, sel: seq<Ref>, r: Ref, dx: real, dy: real, next: nat)
    requires WellFormed(level0, next) && r !in sel
    ensures Nudged(level0, sel + [r], dx, dy) == NudgeOne(Nudged(level0, sel, dx, dy), r, dx, dy)
  {
    NudgedWellFormed(level0, sel, dx, dy, next);
    IdsOfSnoc(sel, r, Blocks);
    IdsOfSnoc(sel, r, Spikes);
    IdsOfSnoc(sel, r, Portals);
    var k := r.kind;
    assert r.id !in IdsOf(sel, k);
    ShiftedStep(level0.Get(k), IdsOf(sel, k), r.id, dx, dy);
  }

  // ---------------------------------------------------------------------------------------
  // Ids across an import

  /** Every reference names an id below `next`. */
  predicate RefsBelow(refs: seq<Ref>, next: nat) {
    forall i :: 0 <= i < |refs| ==> refs[i].id < next
  }

  /** `b` is `a` with entries appended, each of them with an id from `next` on. */
  predicate Grown(a: seq<Entry>, b: seq<Entry>, next: nat) {
    a <= b && forall i :: |a| <= i < |b| ==> b[i].id >= next
  }

  predicate LevelGrown(a: Level, b: Level, next: nat) {
    Grown(a.blocks, b.blocks, next) && Grown(a.spikes, b.spikes, next) && Grown(a.portals, b.portals, next)
  }

  /** Pushing a new entry with id `next` grows the level from `next` on. */
  lemma LevelGrownAppend(level: Level, next: nat, k: Kind, o: Obj)
    ensures LevelGrown(level, level.With(k, level.Get(k) + [Entry(next, o)]), next)
  {
  }

  lemma GrownTrans(a: seq<Entry>, b: seq<Entry>, c: seq<Entry>, n: nat, m: nat)
    requires Grown(a, b, n) && Grown(b, c, m) && n <= m
    ensures Grown(a, c, n)
  {
    forall i | |a| <= i < |c| ensures c[i].id >= n {
      if i < |b| {
        assert c[i] == b[i];
      }
    }
  }

  /** Growing twice is growing from the earlier bound. */
  lemma LevelGrownTrans(a: Level, b: Level, c: Level, n: nat, m: nat)
    requires LevelGrown(a, b, n) && LevelGrown(b, c, m) && n <= m
    ensures LevelGrown(a, c, n)
  {
    GrownTrans(a.blocks, b.blocks, c.blocks, n, m);
    GrownTrans(a.spikes, b.spikes, c.spikes, n, m);
    GrownTrans(a.portals, b.portals, c.portals, n, m);
  }

  /** The ids a selection names in one list are all below `next`. */
  lemma IdsOfBelow(sel: seq<Ref>, k: Kind, next: nat, id: nat)
    requires RefsBelow(sel, next) && id in IdsOf(sel, k)
    ensures id < next
  {
  }

  /** A selection made before an import names ids older than those of every imported block and
      spike. Deleting it after the import removes no block and no spike, while the portals the
      import kept are still removed exactly when selected. */
  lemma RemoveStaleSelection(portals: seq<Entry>, after: Level, sel: seq<Ref>, next: nat)
    requires RefsBelow(sel, next) && portals <= after.portals
    requires forall i :: 0 <= i < |after.blocks| ==> after.blocks[i].id >= next
    requires forall i :: 0 <= i < |after.spikes| ==> after.spikes[i].id >= next
    ensures RemoveSelected(after, sel).blocks == after.blocks
    ensures RemoveSelected(after, sel).spikes == after.spikes
    ensures forall e :: e in portals ==> (e in RemoveSelected(after, sel).portals <==> Ref(Portals, e.id) !in sel)
  {
    KeepNothing(after.blocks, IdsOf(sel, Blocks));
    KeepNothing(after.spikes, IdsOf(sel, Spikes));
    forall e | e in portals
      ensures e in RemoveSelected(after, sel).portals <==> Ref(Portals, e.id) !in sel
    {
      assert e in after.portals;
      RemoveSelectedExactly(after, sel, Portals, e);
    }
  }

  /** The same for a nudge after an import: no block or spike moves, and each portal the import
      kept moves exactly when selected. */
  lemma NudgeStaleSelection(portals: seq<Entry>, after: Level, sel: seq<Ref>, dx: real, dy: real, next: nat)
    requires RefsBelow(sel, next) && portals <= after.portals
    requires forall i :: 0 <= i < |after.blocks| ==> after.blocks[i].id >= next
    requires forall i :: 0 <= i < |after.spikes| ==> after.spikes[i].id >= next
    ensures Nudged(after, sel, dx, dy).blocks == after.blocks
    ensures Nudged(after, sel, dx, dy).spikes == after.spikes
    ensures forall i :: 0 <= i < |portals| ==>
      Nudged(after, sel, dx, dy).portals[i] ==
        (if Ref(Portals, portals[i].id) in sel then Entry(portals[i].id, portals[i].obj.Moved(dx, dy)) else portals[i])
  {
    var n := Nudged(after, sel, dx, dy);
    forall i | 0 <= i < |after.blocks| ensures n.blocks[i] == after.blocks[i] {
      if after.blocks[i].id in IdsOf(sel, Blocks) {
        IdsOfBelow(sel, Blocks, next, after.blocks[i].id);
      }
    }
    forall i | 0 <= i < |after.spikes| ensures n.spikes[i] == after.spikes[i] {
      if after.spikes[i].id in IdsOf(sel, Spikes) {
        IdsOfBelow(sel, Spikes, next, after.spikes[i].id);
      }
    }
    forall i | 0 <= i < |portals|
      ensures n.portals[i] ==
        (if Ref(Portals, portals[i].id) in sel then Entry(portals[i].id, portals[i].obj.Moved(dx, dy)) else portals[i])
    {
      assert after.portals[i] == portals[i];
      NudgedExactly(after, sel, dx, dy, Portals, i);
    }
  }
}
