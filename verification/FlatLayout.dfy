/**
 Laying a C++ class out as one flat field list (`FlattenCxxLayout`, `CollectCxxFlatFields`): a slot for
 every vptr, then every base's storage at its offset, then the class's own fields.
 */
module FlatLayout {
  import opened Wrappers
  import opened DecimalText

  datatype Access = Public | Protected | Private

  datatype Field = Field(name: string, isBitField: bool, isZeroSize: bool, offset: nat, size: nat, access: Access)

  datatype Base = Undefined | Base(isPublic: bool, offset: nat, class_: Class)

  /** A class and its record layout; `extent` is how many bytes its storage spans. */
  datatype Class = Class(ownVptr: bool, numVBases: nat, bases: seq<Base>, fields: seq<Field>, extent: nat)

  datatype RawField = RawField(name: string, offset: nat, size: nat, access: Access, inherited: bool, isZeroSize: bool)

  const POINTER_SIZE: nat := 8

  // ---------------------------------------------------------------------------------------------
  // The storage of a hierarchy
  // ---------------------------------------------------------------------------------------------

  datatype Leaf = Vptr | Member(index: nat, field: Field)
  {
    function Size(): nat {
      if Vptr? then POINTER_SIZE else field.size
    }
  }

  /** A piece of storage: the base indices that lead to its class, and its absolute offset. */
  datatype Slot = Slot(path: seq<nat>, leaf: Leaf, offset: nat, isPublicPath: bool)

  /** A class reached in a hierarchy, where its subobject lies, and whether every base on the way is public. */
  datatype Subobject = Subobject(class_: Class, offset: nat, isPublicPath: bool)

  function Follow(s: Subobject, path: seq<nat>): Option<Subobject>
    decreases |path|
  {
    if path == [] then Some(s)
    else if path[0] >= |s.class_.bases| then None
    else
      var b := s.class_.bases[path[0]];
      if b.Undefined? then None
      else Follow(Subobject(b.class_, s.offset + b.offset, s.isPublicPath && b.isPublic), path[1..])
  }

  /** The class has this leaf at this offset from its own start. */
  predicate HasLeaf(c: Class, leaf: Leaf) {
    if leaf.Vptr? then c.ownVptr else leaf.index < |c.fields| && c.fields[leaf.index] == leaf.field
  }

  function LeafOffset(leaf: Leaf): nat {
    if leaf.Vptr? then 0 else leaf.field.offset
  }

  /** What it means for a slot to be part of a hierarchy's storage, path by path. */
  predicate IsStorage(root: Subobject, path: seq<nat>, s: Slot, rest: seq<nat>) {
    s.path == path + rest &&
    var target := Follow(root, rest);
    target.Some? && HasLeaf(target.value.class_, s.leaf) &&
    s.offset == target.value.offset + LeafOffset(s.leaf) && s.isPublicPath == target.value.isPublicPath
  }

  /** A class without a virtual base, a bit-field or an unnamed field anywhere, and with every base defined. */
  predicate Flattenable(c: Class)
    decreases c, 1
  {
    c.numVBases == 0 && BasesFlattenable(c.bases) && forall f | f in c.fields :: !f.isBitField && f.name != ""
  }

  predicate BasesFlattenable(bases: seq<Base>)
    decreases bases, 1
  {
    bases == [] || (BaseFlattenable(bases[0]) && BasesFlattenable(bases[1..]))
  }

  predicate BaseFlattenable(b: Base)
    decreases b, 1
  {
    b.Base? && Flattenable(b.class_)
  }

  /** A class by itself: no virtual bases, every base defined, and only named fields that are no bit-fields. */
  ghost predicate PlainClass(c: Class) {
    && c.numVBases == 0 && (forall k | 0 <= k < |c.bases| :: c.bases[k].Base?)
    && forall k | 0 <= k < |c.fields| :: !c.fields[k].isBitField && c.fields[k].name != ""
  }

  lemma {:induction false} BasesFlattenableIff(bases: seq<Base>)
    ensures BasesFlattenable(bases) <==> forall k | 0 <= k < |bases| :: BaseFlattenable(bases[k])
  {
    if bases != [] {
      BasesFlattenableIff(bases[1..]);
      assert forall k | 0 < k < |bases| :: bases[k] == bases[1..][k - 1];
      if forall k | 0 <= k < |bases| :: BaseFlattenable(bases[k]) {
        assert forall k | 0 <= k < |bases[1..]| :: bases[1..][k] == bases[k + 1];
      }
    }
  }

  lemma {:induction false} FlattenableLeadsToPlain(s: Subobject, path: seq<nat>)
    requires Flattenable(s.class_) && Follow(s, path).Some?
    ensures PlainClass(Follow(s, path).value.class_)
    decreases |path|
  {
    BasesFlattenableIff(s.class_.bases);
    assert forall k | 0 <= k < |s.class_.fields| :: s.class_.fields[k] in s.class_.fields;
    assert forall k | 0 <= k < |s.class_.bases| :: BaseFlattenable(s.class_.bases[k]);
    if path != [] {
      var b := s.class_.bases[path[0]];
      FlattenableLeadsToPlain(Subobject(b.class_, s.offset + b.offset, s.isPublicPath && b.isPublic), path[1..]);
    }
  }

  lemma {:induction false} RefusedHasCulprit(s: Subobject) returns (path: seq<nat>)
    requires !Flattenable(s.class_)
    ensures Follow(s, path).Some? && !PlainClass(Follow(s, path).value.class_)
    decreases s.class_
  {
    path := [];
    BasesFlattenableIff(s.class_.bases);
    if PlainClass(s.class_) {
      var k: nat :| k < |s.class_.bases| && !BaseFlattenable(s.class_.bases[k]);
      var b := s.class_.bases[k];
      var rest := RefusedHasCulprit(Subobject(b.class_, s.offset + b.offset, s.isPublicPath && b.isPublic));
      path := [k] + rest;
      assert path[1..] == rest;
    }
  }

  /** A hierarchy is flattened iff every class reached along any path of bases is plain. */
  lemma FlattenableIff(c: Class)
    ensures Flattenable(c) <==>
      forall path | Follow(Subobject(c, 0, true), path).Some? ::
        PlainClass(Follow(Subobject(c, 0, true), path).value.class_)
  {
    var s := Subobject(c, 0, true);
    if Flattenable(c) {
      forall path | Follow(s, path).Some?
        ensures PlainClass(Follow(s, path).value.class_)
      {
        FlattenableLeadsToPlain(s, path);
      }
    } else {
      var path := RefusedHasCulprit(s);
    }
  }

  // ---------------------------------------------------------------------------------------------
  // The walk
  // ---------------------------------------------------------------------------------------------

  /** The slots in the order the walk meets them: vptr, bases, fields. */
  function Slots(c: Class, path: seq<nat>, off: nat, isPublicPath: bool): seq<Slot>
    decreases c, 2, 0
  {
    VptrSlot(c, path, off, isPublicPath) + BaseSlots(c.bases, 0, path, off, isPublicPath)
    + FieldSlots(c.fields, 0, path, off, isPublicPath)
  }

  function VptrSlot(c: Class, path: seq<nat>, off: nat, isPublicPath: bool): seq<Slot> {
    if c.ownVptr then [Slot(path, Vptr, off, isPublicPath)] else []
  }

  /** Those of the bases from the k-th on. */
  function BaseSlots(bases: seq<Base>, k: nat, path: seq<nat>, off: nat, isPublicPath: bool): seq<Slot>
    requires k <= |bases|
    decreases bases, 1, |bases| - k
  {
    if k == |bases| then []
    else
      OneBaseSlots(bases[k], k, path, off, isPublicPath) + BaseSlots(bases, k + 1, path, off, isPublicPath)
  }

  function OneBaseSlots(b: Base, k: nat, path: seq<nat>, off: nat, isPublicPath: bool): seq<Slot>
    decreases b, 2, 0
  {
    if b.Undefined? then [] else Slots(b.class_, path + [k], off + b.offset, isPublicPath && b.isPublic)
  }

  function FieldSlots(fields: seq<Field>, k: nat, path: seq<nat>, off: nat, isPublicPath: bool): seq<Slot>
    requires k <= |fields|
    decreases |fields| - k
  {
    if k == |fields| then []
    else [Slot(path, Member(k, fields[k]), off + fields[k].offset, isPublicPath)]
         + FieldSlots(fields, k + 1, path, off, isPublicPath)
  }

  /** Every storage slot once, and nothing else. */
  ghost predicate ListsStorage(slots: seq<Slot>, root: Subobject, path: seq<nat>) {
    && (forall i, j | 0 <= i < j < |slots| :: slots[i] != slots[j])
    && (forall s | s in slots :: exists rest :: IsStorage(root, path, s, rest))
    && (forall s, rest | IsStorage(root, path, s, rest) :: s in slots)
  }

  // The fold

  datatype Flat = Flat(fields: seq<RawField>, taken: set<string>, synth: nat)

  const START := Flat([], {}, 0)

  /** A field of a base whose name the outermost class declares itself. */
  predicate Shadowed(s: Slot, ownNames: set<string>) {
    s.leaf.Member? && s.path != [] && s.leaf.field.name in ownNames
  }

  function VptrName(n: nat): string {
    "__vptr" + ToString(n)
  }

  function HiddenName(n: nat): string {
    "__hidden" + ToString(n)
  }

  /** One slot becomes one field. */
  function Place(st: Flat, s: Slot, ownNames: set<string>): (r: Flat)
    ensures |r.fields| == |st.fields| + 1
  {
    match s.leaf
    case Vptr =>
      Flat(st.fields + [RawField(VptrName(st.synth), s.offset, POINTER_SIZE, Private, false, false)],
           st.taken, st.synth + 1)
    case Member(_, f) =>
      if Shadowed(s, ownNames) || f.name in st.taken then
        Flat(st.fields + [RawField(HiddenName(st.synth), s.offset, f.size, Private, s.path != [], f.isZeroSize)],
             st.taken, st.synth + 1)
      else
        Flat(st.fields + [RawField(f.name, s.offset, f.size, if s.isPublicPath then f.access else Private,
                                   s.path != [], f.isZeroSize)],
             st.taken + {f.name}, st.synth)
  }

  function PlaceAll(st: Flat, slots: seq<Slot>, ownNames: set<string>): Flat
    decreases |slots|
  {
    if slots == [] then st else PlaceAll(Place(st, slots[0], ownNames), slots[1..], ownNames)
  }

  lemma {:induction false} PlaceAllAcross(st: Flat, a: seq<Slot>, b: seq<Slot>, ownNames: set<string>)
    ensures PlaceAll(st, a + b, ownNames) == PlaceAll(PlaceAll(st, a, ownNames), b, ownNames)
    decreases |a|
  {
    if a == [] {
      assert a + b == b;
    } else {
      PlaceAllAcross(Place(st, a[0], ownNames), a[1..], b, ownNames);
      assert (a + b)[1..] == a[1..] + b;
    }
  }

  // ---------------------------------------------------------------------------------------------
  // Every vptr and field exactly once, at its absolute offset
  // ---------------------------------------------------------------------------------------------

  lemma {:induction false} FieldSlotAt(fields: seq<Field>, k: nat, path: seq<nat>, off: nat, isPublicPath: bool, i: nat)
    requires k + i < |fields|
    ensures |FieldSlots(fields, k, path, off, isPublicPath)| == |fields| - k
    ensures FieldSlots(fields, k, path, off, isPublicPath)[i] ==
            Slot(path, Member(k + i, fields[k + i]), off + fields[k + i].offset, isPublicPath)
    decreases |fields| - k
  {
    if i > 0 {
      FieldSlotAt(fields, k + 1, path, off, isPublicPath, i - 1);
    } else if k + 1 < |fields| {
      FieldSlotAt(fields, k + 1, path, off, isPublicPath, 0);
    }
  }

  /** Own field slots all lie on the class's own path; base slots strictly below it. */
  lemma {:induction false} SlotsExtendPath(c: Class, path: seq<nat>, off: nat, isPublicPath: bool)
    ensures forall s | s in Slots(c, path, off, isPublicPath) :: path <= s.path
    decreases c, 2, 0
  {
    BaseSlotsExtendPath(c.bases, 0, path, off, isPublicPath);
    FieldSlotsOnPath(c.fields, 0, path, off, isPublicPath);
  }

  lemma {:induction false} FieldSlotsOnPath(fields: seq<Field>, k: nat, path: seq<nat>, off: nat, isPublicPath: bool)
    requires k <= |fields|
    ensures forall s | s in FieldSlots(fields, k, path, off, isPublicPath) ::
      s.path == path && s.leaf.Member? && k <= s.leaf.index < |fields| && s.leaf.field == fields[s.leaf.index]
      && s.offset == off + s.leaf.field.offset && s.isPublicPath == isPublicPath
    decreases |fields| - k
  {
    if k < |fields| { FieldSlotsOnPath(fields, k + 1, path, off, isPublicPath); }
  }

  lemma {:induction false} BaseSlotsExtendPath(bases: seq<Base>, k: nat, path: seq<nat>, off: nat, isPublicPath: bool)
    requires k <= |bases|
    ensures forall s | s in BaseSlots(bases, k, path, off, isPublicPath) ::
      |s.path| > |path| && path <= s.path && k <= s.path[|path|] < |bases|
    decreases bases, 1, |bases| - k
  {
    if k < |bases| {
      BaseSlotsExtendPath(bases, k + 1, path, off, isPublicPath);
      OneBaseSlotsExtendPath(bases[k], k, path, off, isPublicPath);
    }
  }

  lemma {:induction false} OneBaseSlotsExtendPath(b: Base, k: nat, path: seq<nat>, off: nat, isPublicPath: bool)
    ensures forall s | s in OneBaseSlots(b, k, path, off, isPublicPath) :: path + [k] <= s.path
    decreases b, 2, 0
  {
    if b.Base? { SlotsExtendPath(b.class_, path + [k], off + b.offset, isPublicPath && b.isPublic); }
  }

  lemma {:induction false} SlotIsStorage(c: Class, path: seq<nat>, off: nat, isPublicPath: bool, s: Slot)
    returns (rest: seq<nat>)
    requires s in Slots(c, path, off, isPublicPath)
    ensures IsStorage(Subobject(c, off, isPublicPath), path, s, rest)
    decreases c, 2, 0
  {
    if s in BaseSlots(c.bases, 0, path, off, isPublicPath) {
      rest := BaseSlotIsStorage(c, c.bases, 0, path, off, isPublicPath, s);
    } else {
      FieldSlotsOnPath(c.fields, 0, path, off, isPublicPath);
      rest := [];
      assert path + rest == path;
    }
  }

  lemma {:induction false} BaseSlotIsStorage(c: Class, bases: seq<Base>, k: nat, path: seq<nat>, off: nat,
                                             isPublicPath: bool, s: Slot)
    returns (rest: seq<nat>)
    requires bases == c.bases && k <= |bases| && s in BaseSlots(bases, k, path, off, isPublicPath)
    ensures IsStorage(Subobject(c, off, isPublicPath), path, s, rest)
    decreases bases, 1, |bases| - k
  {
    if s in OneBaseSlots(bases[k], k, path, off, isPublicPath) {
      var more := OneBaseSlotIsStorage(bases[k], k, path, off, isPublicPath, s);
      rest := [k] + more;
      assert path + [k] + more == path + rest && rest[1..] == more;
    } else {
      rest := BaseSlotIsStorage(c, bases, k + 1, path, off, isPublicPath, s);
    }
  }

  lemma {:induction false} OneBaseSlotIsStorage(b: Base, k: nat, path: seq<nat>, off: nat, isPublicPath: bool, s: Slot)
    returns (rest: seq<nat>)
    requires s in OneBaseSlots(b, k, path, off, isPublicPath)
    ensures b.Base? && IsStorage(Subobject(b.class_, off + b.offset, isPublicPath && b.isPublic), path + [k], s, rest)
    decreases b, 2, 0
  {
    rest := SlotIsStorage(b.class_, path + [k], off + b.offset, isPublicPath && b.isPublic, s);
  }

  lemma {:induction false} BaseSlotsHave(bases: seq<Base>, k: nat, i: nat, path: seq<nat>, off: nat, isPublicPath: bool,
                                         s: Slot)
    requires k <= i < |bases| && s in OneBaseSlots(bases[i], i, path, off, isPublicPath)
    ensures s in BaseSlots(bases, k, path, off, isPublicPath)
    decreases i - k
  {
    if k < i { BaseSlotsHave(bases, k + 1, i, path, off, isPublicPath, s); }
  }

  lemma {:induction false} StorageIsSlot(c: Class, path: seq<nat>, off: nat, isPublicPath: bool, s: Slot,
                                         rest: seq<nat>)
    requires IsStorage(Subobject(c, off, isPublicPath), path, s, rest)
    ensures s in Slots(c, path, off, isPublicPath)
    decreases |rest|
  {
    if rest == [] {
      assert path + rest == path;
      if s.leaf.Member? {
        FieldSlotAt(c.fields, 0, path, off, isPublicPath, s.leaf.index);
        assert s == FieldSlots(c.fields, 0, path, off, isPublicPath)[s.leaf.index];
      }
    } else {
      var b := c.bases[rest[0]];
      assert path + rest == path + [rest[0]] + rest[1..];
      StorageIsSlot(b.class_, path + [rest[0]], off + b.offset, isPublicPath && b.isPublic, s, rest[1..]);
      BaseSlotsHave(c.bases, 0, rest[0], path, off, isPublicPath, s);
    }
  }

  ghost predicate NoDuplicates(slots: seq<Slot>) {
    forall i, j | 0 <= i < j < |slots| :: slots[i] != slots[j]
  }

  lemma JoinedNoDuplicates(a: seq<Slot>, b: seq<Slot>)
    requires NoDuplicates(a) && NoDuplicates(b) && forall s | s in a :: s !in b
    ensures NoDuplicates(a + b)
  {
    var ab := a + b;
    forall i, j | 0 <= i < j < |ab|
      ensures ab[i] != ab[j]
    {
      if i < |a| <= j { assert ab[i] in a && ab[j] in b; }
    }
  }

  lemma {:induction false} SlotsNoDuplicates(c: Class, path: seq<nat>, off: nat, isPublicPath: bool)
    ensures NoDuplicates(Slots(c, path, off, isPublicPath))
    decreases c, 2, 0
  {
    BaseSlotsNoDuplicates(c.bases, 0, path, off, isPublicPath);
    BaseSlotsExtendPath(c.bases, 0, path, off, isPublicPath);
    FieldSlotsNoDuplicates(c.fields, 0, path, off, isPublicPath);
    FieldSlotsOnPath(c.fields, 0, path, off, isPublicPath);
    JoinedNoDuplicates(VptrSlot(c, path, off, isPublicPath), BaseSlots(c.bases, 0, path, off, isPublicPath));
    JoinedNoDuplicates(VptrSlot(c, path, off, isPublicPath) + BaseSlots(c.bases, 0, path, off, isPublicPath),
                       FieldSlots(c.fields, 0, path, off, isPublicPath));
  }

  lemma {:induction false} FieldSlotsNoDuplicates(fields: seq<Field>, k: nat, path: seq<nat>, off: nat,
                                                  isPublicPath: bool)
    requires k <= |fields|
    ensures NoDuplicates(FieldSlots(fields, k, path, off, isPublicPath))
    decreases |fields| - k
  {
    if k < |fields| {
      FieldSlotsNoDuplicates(fields, k + 1, path, off, isPublicPath);
      FieldSlotsOnPath(fields, k + 1, path, off, isPublicPath);
      JoinedNoDuplicates([Slot(path, Member(k, fields[k]), off + fields[k].offset, isPublicPath)],
                         FieldSlots(fields, k + 1, path, off, isPublicPath));
    }
  }

  lemma {:induction false} BaseSlotsNoDuplicates(bases: seq<Base>, k: nat, path: seq<nat>, off: nat, isPublicPath: bool)
    requires k <= |bases|
    ensures NoDuplicates(BaseSlots(bases, k, path, off, isPublicPath))
    decreases bases, 1, |bases| - k
  {
    if k < |bases| {
      BaseSlotsNoDuplicates(bases, k + 1, path, off, isPublicPath);
      BaseSlotsExtendPath(bases, k + 1, path, off, isPublicPath);
      OneBaseSlotsNoDuplicates(bases[k], k, path, off, isPublicPath);
      OneBaseSlotsExtendPath(bases[k], k, path, off, isPublicPath);
      PathStep(path, k, OneBaseSlots(bases[k], k, path, off, isPublicPath));
      JoinedNoDuplicates(OneBaseSlots(bases[k], k, path, off, isPublicPath),
        BaseSlots(bases, k + 1, path, off, isPublicPath));
    }
  }

  lemma PathStep(path: seq<nat>, k: nat, slots: seq<Slot>)
    requires forall s | s in slots :: path + [k] <= s.path
    ensures forall s | s in slots :: |s.path| > |path| && s.path[|path|] == k
  {
    assert (path + [k])[|path|] == k;
  }

  lemma {:induction false} OneBaseSlotsNoDuplicates(b: Base, k: nat, path: seq<nat>, off: nat, isPublicPath: bool)
    ensures NoDuplicates(OneBaseSlots(b, k, path, off, isPublicPath))
    decreases b, 2, 0
  {
    if b.Base? { SlotsNoDuplicates(b.class_, path + [k], off + b.offset, isPublicPath && b.isPublic); }
  }

  /** The walk of a class meets every vptr and field of its hierarchy exactly once, at its absolute offset. */
  lemma WalkListsStorage(c: Class)
    ensures ListsStorage(Slots(c, [], 0, true), Subobject(c, 0, true), [])
  {
    var slots, root := Slots(c, [], 0, true), Subobject(c, 0, true);
    SlotsNoDuplicates(c, [], 0, true);
    forall s | s in slots
      ensures exists rest :: IsStorage(root, [], s, rest)
    {
      var rest := SlotIsStorage(c, [], 0, true, s);
    }
    forall s, rest | IsStorage(root, [], s, rest)
      ensures s in slots
    {
      StorageIsSlot(c, [], 0, true, s, rest);
    }
  }

  // ---------------------------------------------------------------------------------------------
  // No overlap
  // ---------------------------------------------------------------------------------------------

  /** Two byte ranges share no byte. */
  predicate Apart(at: nat, size: nat, at': nat, size': nat) {
    size == 0 || size' == 0 || at + size <= at' || at' + size' <= at
  }

  /** The parts of one class, its bases as wholes, lie apart and inside it; so do those of its bases. */
  ghost predicate WellLaid(c: Class)
    decreases c, 1
  {
    && (c.ownVptr ==> POINTER_SIZE <= c.extent)
    && (forall b | b in c.bases :: BaseWellLaid(b) && (b.Base? ==> b.offset + b.class_.extent <= c.extent))
    && (forall f | f in c.fields :: f.offset + f.size <= c.extent)
    && (c.ownVptr ==> (forall b | b in c.bases && b.Base? :: Apart(0, POINTER_SIZE, b.offset, b.class_.extent)) &&
                      (forall f | f in c.fields :: Apart(0, POINTER_SIZE, f.offset, f.size)))
    && (forall b, f | b in c.bases && b.Base? && f in c.fields :: Apart(b.offset, b.class_.extent, f.offset, f.size))
    && (forall i, j | 0 <= i < j < |c.fields| ::
          Apart(c.fields[i].offset, c.fields[i].size, c.fields[j].offset, c.fields[j].size))
    && (forall i, j | 0 <= i < j < |c.bases| && c.bases[i].Base? && c.bases[j].Base? ::
          Apart(c.bases[i].offset, c.bases[i].class_.extent, c.bases[j].offset, c.bases[j].class_.extent))
  }

  ghost predicate BaseWellLaid(b: Base)
    decreases b, 1
  {
    b.Base? ==> WellLaid(b.class_)
  }

  predicate SlotsApart(a: Slot, b: Slot) {
    Apart(a.offset, a.leaf.Size(), b.offset, b.leaf.Size())
  }

  ghost predicate AllApart(slots: seq<Slot>) {
    forall i, j | 0 <= i < j < |slots| :: SlotsApart(slots[i], slots[j])
  }

  predicate Inside(s: Slot, at: nat, size: nat) {
    at <= s.offset && s.offset + s.leaf.Size() <= at + size
  }

  lemma JoinedApart(a: seq<Slot>, b: seq<Slot>)
    requires AllApart(a) && AllApart(b) && forall s, t | s in a && t in b :: SlotsApart(s, t)
    ensures AllApart(a + b)
  {
    var ab := a + b;
    forall i, j | 0 <= i < j < |ab|
      ensures SlotsApart(ab[i], ab[j])
    {
      if i < |a| <= j { assert ab[i] in a && ab[j] in b; }
    }
  }

  lemma {:induction false} SlotsStayApart(c: Class, path: seq<nat>, off: nat, isPublicPath: bool)
    requires WellLaid(c)
    ensures AllApart(Slots(c, path, off, isPublicPath))
    ensures forall s | s in Slots(c, path, off, isPublicPath) :: Inside(s, off, c.extent)
    decreases c, 2, 0
  {
    var vptr, bases, fields := VptrSlot(c, path, off, isPublicPath), BaseSlots(c.bases, 0, path, off, isPublicPath),
                               FieldSlots(c.fields, 0, path, off, isPublicPath);
    BaseSlotsStayApart(c.bases, 0, path, off, isPublicPath);
    FieldSlotsApart(c.fields, 0, path, off, isPublicPath);
    FieldSlotsOnPath(c.fields, 0, path, off, isPublicPath);
    forall s | s in bases
      ensures Inside(s, off, c.extent) && (forall t | t in vptr + fields :: SlotsApart(s, t) && SlotsApart(t, s))
    {
      var b :| b in c.bases && b.Base? && Inside(s, off + b.offset, b.class_.extent);
      BaseSlotClear(c, path, off, isPublicPath, s, b);
    }
    hide WellLaid, SlotsApart;
    JoinedApart(vptr, bases);
    JoinedApart(vptr + bases, fields);
  }

  lemma BaseSlotClear(c: Class, path: seq<nat>, off: nat, isPublicPath: bool, s: Slot, b: Base)
    requires WellLaid(c) && b in c.bases && b.Base? && Inside(s, off + b.offset, b.class_.extent)
    ensures Inside(s, off, c.extent)
    ensures forall t | t in VptrSlot(c, path, off, isPublicPath) + FieldSlots(c.fields, 0, path, off, isPublicPath) ::
      SlotsApart(s, t) && SlotsApart(t, s)
  {
    FieldSlotsOnPath(c.fields, 0, path, off, isPublicPath);
    hide FieldSlots;
    forall t | t in VptrSlot(c, path, off, isPublicPath) + FieldSlots(c.fields, 0, path, off, isPublicPath)
      ensures SlotsApart(s, t) && SlotsApart(t, s)
    {
      if t.leaf.Member? { assert t.leaf.field in c.fields; }
    }
  }

  lemma {:induction false} FieldSlotsApart(fields: seq<Field>, k: nat, path: seq<nat>, off: nat, isPublicPath: bool)
    requires k <= |fields|
    requires forall i, j | 0 <= i < j < |fields| ::
      Apart(fields[i].offset, fields[i].size, fields[j].offset, fields[j].size)
    ensures AllApart(FieldSlots(fields, k, path, off, isPublicPath))
    decreases |fields| - k
  {
    if k < |fields| {
      FieldSlotsApart(fields, k + 1, path, off, isPublicPath);
      FieldSlotsOnPath(fields, k + 1, path, off, isPublicPath);
      JoinedApart([Slot(path, Member(k, fields[k]), off + fields[k].offset, isPublicPath)],
                  FieldSlots(fields, k + 1, path, off, isPublicPath));
    }
  }

  lemma {:induction false} BaseSlotsStayApart(bases: seq<Base>, k: nat, path: seq<nat>, off: nat, isPublicPath: bool)
    requires k <= |bases| && forall b | b in bases :: BaseWellLaid(b)
    requires forall i, j | 0 <= i < j < |bases| && bases[i].Base? && bases[j].Base? ::
      Apart(bases[i].offset, bases[i].class_.extent, bases[j].offset, bases[j].class_.extent)
    ensures AllApart(BaseSlots(bases, k, path, off, isPublicPath))
    ensures forall s | s in BaseSlots(bases, k, path, off, isPublicPath) ::
      exists b :: b in bases[k..] && b.Base? && Inside(s, off + b.offset, b.class_.extent)
    decreases bases, 1, |bases| - k
  {
    if k < |bases| {
      var first, others := OneBaseSlots(bases[k], k, path, off, isPublicPath),
        BaseSlots(bases, k + 1, path, off, isPublicPath);
      BaseSlotsStayApart(bases, k + 1, path, off, isPublicPath);
      OneBaseSlotsStayApart(bases[k], k, path, off, isPublicPath);
      assert bases[k] in bases[k..] && forall b | b in bases[k + 1..] :: b in bases[k..];
      forall s, t | s in first && t in others
        ensures SlotsApart(s, t)
      {
        var b :| b in bases[k + 1..] && b.Base? && Inside(t, off + b.offset, b.class_.extent);
      }
      JoinedApart(first, others);
    }
  }

  lemma {:induction false} OneBaseSlotsStayApart(b: Base, k: nat, path: seq<nat>, off: nat, isPublicPath: bool)
    requires BaseWellLaid(b)
    ensures AllApart(OneBaseSlots(b, k, path, off, isPublicPath))
    ensures forall s | s in OneBaseSlots(b, k, path, off, isPublicPath) ::
      b.Base? && Inside(s, off + b.offset, b.class_.extent)
    decreases b, 2, 0
  {
    if b.Base? { SlotsStayApart(b.class_, path + [k], off + b.offset, isPublicPath && b.isPublic); }
  }

  // ---------------------------------------------------------------------------------------------
  // Names and access
  // ---------------------------------------------------------------------------------------------

  /** The slot lays claim to its field's name. */
  predicate Claims(s: Slot, name: string, ownNames: set<string>) {
    s.leaf.Member? && s.leaf.field.name == name && !Shadowed(s, ownNames)
  }

  /** The k-th slot is the first to claim its field's name. */
  predicate KeepsName(slots: seq<Slot>, k: nat, ownNames: set<string>)
    requires k < |slots|
  {
    slots[k].leaf.Member? && !Shadowed(slots[k], ownNames) &&
    forall j | 0 <= j < k :: !Claims(slots[j], slots[k].leaf.field.name, ownNames)
  }

  lemma {:induction false} TakenIs(st: Flat, slots: seq<Slot>, ownNames: set<string>, name: string)
    ensures name in PlaceAll(st, slots, ownNames).taken <==>
            name in st.taken || exists j :: 0 <= j < |slots| && Claims(slots[j], name, ownNames)
    decreases |slots|
  {
    if slots != [] {
      TakenIs(Place(st, slots[0], ownNames), slots[1..], ownNames, name);
      assert forall j | 0 < j < |slots| :: slots[j] == slots[1..][j - 1];
      if j :| 0 < j < |slots| && Claims(slots[j], name, ownNames) {
        assert Claims(slots[1..][j - 1], name, ownNames);
      }
    }
  }

  lemma {:induction false} PlacedAt(st: Flat, slots: seq<Slot>, ownNames: set<string>, k: nat)
    requires k < |slots|
    ensures var n, r := |st.fields|, PlaceAll(st, slots, ownNames);
      && |r.fields| == n + |slots| && st.fields <= r.fields
      && |PlaceAll(st, slots[..k], ownNames).fields| == n + k
      && r.fields[n + k] == Place(PlaceAll(st, slots[..k], ownNames), slots[k], ownNames).fields[n + k]
    decreases |slots|
  {
    var next := Place(st, slots[0], ownNames);
    if k > 0 {
      PlacedAt(next, slots[1..], ownNames, k - 1);
      assert slots[..k][1..] == slots[1..][..k - 1];
    } else if |slots| > 1 {
      PlacedAt(next, slots[1..], ownNames, 0);
    }
  }

  /**
   The field made from the k-th slot: its storage always; its name exactly when it is the first to
   claim it, and then its own access only along a public path; otherwise a reserved, private name.
   */
  ghost predicate FieldOf(e: RawField, slots: seq<Slot>, k: nat, ownNames: set<string>)
    requires k < |slots|
  {
    var s := slots[k];
    && e.offset == s.offset && e.size == (if s.leaf.Vptr? then 8 else s.leaf.field.size)
    && e.inherited == (s.leaf.Member? && s.path != []) && e.isZeroSize == (s.leaf.Member? && s.leaf.field.isZeroSize)
    && if KeepsName(slots, k, ownNames) then
         e.name == s.leaf.field.name && e.access == if s.isPublicPath then s.leaf.field.access else Private
       else
         e.access == Private && exists n :: e.name == if s.leaf.Vptr? then VptrName(n) else HiddenName(n)
  }

  lemma FieldIs(slots: seq<Slot>, ownNames: set<string>, k: nat)
    requires k < |slots|
    ensures |PlaceAll(START, slots, ownNames).fields| == |slots|
    ensures FieldOf(PlaceAll(START, slots, ownNames).fields[k], slots, k, ownNames)
  {
    PlacedAt(START, slots, ownNames, k);
    if slots[k].leaf.Member? {
      TakenIs(START, slots[..k], ownNames, slots[k].leaf.field.name);
      assert forall j | 0 <= j < k :: slots[..k][j] == slots[j];
    }
  }

  lemma SyntheticNamesDiffer(a: nat, b: nat)
    ensures VptrName(a) != HiddenName(b)
    ensures VptrName(a) == VptrName(b) ==> a == b
    ensures HiddenName(a) == HiddenName(b) ==> a == b
  {
    assert VptrName(a)[2] == 'v' && HiddenName(b)[2] == 'h';
    if VptrName(a) == VptrName(b) {
      assert ToString(a) == VptrName(a)[6..] && ToString(b) == VptrName(b)[6..];
      ToStringInjective(a, b);
    }
    if HiddenName(a) == HiddenName(b) {
      assert ToString(a) == HiddenName(a)[8..] && ToString(b) == HiddenName(b)[8..];
      ToStringInjective(a, b);
    }
  }

  function KeptName(slots: seq<Slot>, k: nat, ownNames: set<string>): string
    requires k < |slots| && KeepsName(slots, k, ownNames)
  {
    slots[k].leaf.field.name
  }

  /** How many synthetic names the walk made before the k-th slot. */
  function SynthBefore(slots: seq<Slot>, k: nat, ownNames: set<string>): nat
    requires k <= |slots|
  {
    if k == 0 then 0 else SynthBefore(slots, k - 1, ownNames) + if KeepsName(slots, k - 1, ownNames) then 0 else 1
  }

  /** The name the walk makes for a slot that does not keep one. */
  function SynthName(slots: seq<Slot>, k: nat, ownNames: set<string>): string
    requires k < |slots|
  {
    var n := SynthBefore(slots, k, ownNames);
    if slots[k].leaf.Vptr? then VptrName(n) else HiddenName(n)
  }

  /** How the made names are spelled. */
  lemma MadeNames()
    ensures VptrName(0) == "__vptr0" && HiddenName(1) == "__hidden1" && HiddenName(10) == "__hidden10"
  {}

  lemma KeepsIsFirst(slots: seq<Slot>, ownNames: set<string>, k: nat)
    requires k < |slots| && slots[k].leaf.Member?
    ensures KeepsName(slots, k, ownNames) <==>
      !Shadowed(slots[k], ownNames) && slots[k].leaf.field.name !in PlaceAll(START, slots[..k], ownNames).taken
  {
    TakenIs(START, slots[..k], ownNames, slots[k].leaf.field.name);
    assert forall j | 0 <= j < k :: slots[..k][j] == slots[j];
  }

  lemma {:induction false} SynthIs(slots: seq<Slot>, ownNames: set<string>, k: nat)
    requires k <= |slots|
    ensures PlaceAll(START, slots[..k], ownNames).synth == SynthBefore(slots, k, ownNames)
  {
    hide VptrName, HiddenName;
    if k > 0 {
      SynthIs(slots, ownNames, k - 1);
      var st, last := PlaceAll(START, slots[..k - 1], ownNames), slots[k - 1];
      assert slots[..k] == slots[..k - 1] + [last] && [last][1..] == [];
      PlaceAllAcross(START, slots[..k - 1], [last], ownNames);
      assert PlaceAll(st, [last], ownNames) == PlaceAll(Place(st, last, ownNames), [], ownNames) ==
        Place(st, last, ownNames);
      if last.leaf.Member? { KeepsIsFirst(slots, ownNames, k - 1); }
    }
  }

  lemma NameIs(slots: seq<Slot>, ownNames: set<string>, k: nat)
    requires k < |slots| && |PlaceAll(START, slots, ownNames).fields| == |slots|
    ensures PlaceAll(START, slots, ownNames).fields[k].name ==
      if KeepsName(slots, k, ownNames) then KeptName(slots, k, ownNames) else SynthName(slots, k, ownNames)
  {
    hide VptrName, HiddenName, KeepsName, PlaceAll;
    PlacedAt(START, slots, ownNames, k);
    SynthIs(slots, ownNames, k);
    if slots[k].leaf.Member? { KeepsIsFirst(slots, ownNames, k); } else { VptrKeepsNoName(slots, ownNames, k); }
  }

  lemma VptrKeepsNoName(slots: seq<Slot>, ownNames: set<string>, k: nat)
    requires k < |slots| && slots[k].leaf.Vptr?
    ensures !KeepsName(slots, k, ownNames)
  {}

  lemma {:induction false} SynthGrows(slots: seq<Slot>, ownNames: set<string>, i: nat, j: nat)
    requires i < j <= |slots| && !KeepsName(slots, i, ownNames)
    ensures SynthBefore(slots, i, ownNames) < SynthBefore(slots, j, ownNames)
    decreases j
  {
    hide KeepsName;
    if i < j - 1 { SynthGrows(slots, ownNames, i, j - 1); }
  }

  /** A field that keeps its name is spelled like a name the walk makes for another slot. */
  ghost predicate NameClashes(slots: seq<Slot>, ownNames: set<string>) {
    exists k, j | 0 <= k < |slots| && 0 <= j < |slots| ::
      KeepsName(slots, k, ownNames) && !KeepsName(slots, j, ownNames) &&
      KeptName(slots, k, ownNames) == SynthName(slots, j, ownNames)
  }

  ghost predicate NamesDiffer(fields: seq<RawField>) {
    forall i, j | 0 <= i < j < |fields| :: fields[i].name != fields[j].name
  }

  /** Two slots' names differ unless one is kept and spelled like the other, made one. */
  lemma TwoNames(slots: seq<Slot>, ownNames: set<string>, i: nat, j: nat)
    requires i < j < |slots|
    requires KeepsName(slots, i, ownNames) == KeepsName(slots, j, ownNames)
    ensures KeepsName(slots, i, ownNames) ==> KeptName(slots, i, ownNames) != KeptName(slots, j, ownNames)
    ensures !KeepsName(slots, i, ownNames) ==> SynthName(slots, i, ownNames) != SynthName(slots, j, ownNames)
  {
    hide VptrName, HiddenName, SynthBefore;
    if !KeepsName(slots, i, ownNames) {
      SynthGrows(slots, ownNames, i, j);
      SyntheticNamesDiffer(SynthBefore(slots, i, ownNames), SynthBefore(slots, j, ownNames));
      SyntheticNamesDiffer(SynthBefore(slots, j, ownNames), SynthBefore(slots, i, ownNames));
    }
  }

  /** No two flat fields share a name iff no kept name is spelled like one the walk makes. */
  lemma NamesAreUniqueIff(slots: seq<Slot>, ownNames: set<string>)
    ensures NamesDiffer(PlaceAll(START, slots, ownNames).fields) <==> !NameClashes(slots, ownNames)
  {
    hide PlaceAll, KeepsName, SynthName;
    var fields := PlaceAll(START, slots, ownNames).fields;
    PlacedCount(slots, ownNames);
    forall k | 0 <= k < |slots|
      ensures fields[k].name ==
        if KeepsName(slots, k, ownNames) then KeptName(slots, k, ownNames) else SynthName(slots, k, ownNames)
    {
      NameIs(slots, ownNames, k);
    }
    if NameClashes(slots, ownNames) {
      var k, j :| 0 <= k < |slots| && 0 <= j < |slots| && KeepsName(slots, k, ownNames) &&
        !KeepsName(slots, j, ownNames)
                  && KeptName(slots, k, ownNames) == SynthName(slots, j, ownNames);
      assert fields[k].name == fields[j].name;
    } else {
      forall i, j | 0 <= i < j < |fields|
        ensures fields[i].name != fields[j].name
      {
        if KeepsName(slots, i, ownNames) == KeepsName(slots, j, ownNames) { TwoNames(slots, ownNames, i, j); }
      }
    }
  }

  lemma PlacedCount(slots: seq<Slot>, own: set<string>)
    ensures |PlaceAll(START, slots, own).fields| == |slots|
  {
    if slots != [] { FieldIs(slots, own, 0); }
  }

  const VPTR_LIKE := Field("__vptr0", false, false, 8, 4, Public)
  const CLASHING := [Slot([], Vptr, 0, true), Slot([], Member(0, VPTR_LIKE), 8, true)]

  /** A field spelled like the name the walk makes for the vptr before it. */
  lemma ReservedNameClashes()
    ensures !NamesDiffer(PlaceAll(START, CLASHING, {"__vptr0"}).fields)
  {
    var own := {"__vptr0"};
    assert ToString(0) == "0" && VptrName(0) == "__vptr0";
    assert !KeepsName(CLASHING, 0, own) && KeepsName(CLASHING, 1, own);
    assert KeptName(CLASHING, 1, own) == SynthName(CLASHING, 0, own);
    NamesAreUniqueIff(CLASHING, own);
  }

  function OwnNames(c: Class): set<string> {
    set f | f in c.fields && f.name != "" :: f.name
  }

  predicate DistinctNames(fields: seq<Field>) {
    forall i, j | 0 <= i < j < |fields| :: fields[i].name != fields[j].name
  }

  /** The i-th of a class's own fields is the slot this far into its walk. */
  function OwnSlotAt(c: Class, i: nat): nat
    requires i < |c.fields|
  {
    |VptrSlot(c, [], 0, true) + BaseSlots(c.bases, 0, [], 0, true)| + i
  }

  /** The outermost class's own fields keep their names and access. */
  lemma OwnFieldsKeepNames(c: Class, i: nat)
    requires DistinctNames(c.fields) && i < |c.fields| && c.fields[i].name != ""
    ensures var slots, k := Slots(c, [], 0, true), OwnSlotAt(c, i);
      && k < |slots| && slots[k] == Slot([], Member(i, c.fields[i]), c.fields[i].offset, true)
      && KeepsName(slots, k, OwnNames(c))
  {
    var slots, k, name := Slots(c, [], 0, true), OwnSlotAt(c, i), c.fields[i].name;
    var front := VptrSlot(c, [], 0, true) + BaseSlots(c.bases, 0, [], 0, true);
    var own := FieldSlots(c.fields, 0, [], 0, true);
    FieldSlotAt(c.fields, 0, [], 0, true, i);
    assert slots == front + own && slots[k] == own[i];
    BaseSlotsExtendPath(c.bases, 0, [], 0, true);
    forall j | 0 <= j < k
      ensures !Claims(slots[j], name, OwnNames(c))
    {
      if j < |front| {
        assert slots[j] in front;
      } else {
        FieldSlotAt(c.fields, 0, [], 0, true, j - |front|);
      }
    }
  }

  // ---------------------------------------------------------------------------------------------
  // Whose name it is
  // ---------------------------------------------------------------------------------------------

  predicate Declares(c: Class, name: string) {
    exists f :: f in c.fields && f.name == name
  }

  /**
   Some class on the way to the slot's own class, that class excluded, declares a field of this name
   and so hides it.
   */
  predicate PassesDeclaring(c: Class, rest: seq<nat>, name: string)
    decreases |rest|
  {
    rest != [] &&
    (Declares(c, name) ||
     (rest[0] < |c.bases| && c.bases[rest[0]].Base? && PassesDeclaring(c.bases[rest[0]].class_, rest[1..], name)))
  }

  function CountFields(c: Class, name: string): nat
    decreases c, 1
  {
    CountOwn(c.fields, name) + CountInBases(c.bases, name)
  }

  function CountOwn(fields: seq<Field>, name: string): (n: nat)
    ensures n > 0 <==> exists f :: f in fields && f.name == name
  {
    if fields == [] then 0 else (if fields[0].name == name then 1 else 0) + CountOwn(fields[1..], name)
  }

  function CountInBases(bases: seq<Base>, name: string): nat
    decreases bases, 1
  {
    if bases == [] then 0 else CountInBase(bases[0], name) + CountInBases(bases[1..], name)
  }

  function CountInBase(b: Base, name: string): nat
    decreases b, 1
  {
    if b.Base? then CountFields(b.class_, name) else 0
  }

  /**
   Following, at every class, the first base with a field of this name: none of the classes passed
   declares the name itself, except the last.
   */
  predicate Straight(c: Class, name: string)
    decreases c, 1
  {
    CountInBases(c.bases, name) == 0 || (!Declares(c, name) && FirstStraight(c.bases, name))
  }

  predicate FirstStraight(bases: seq<Base>, name: string)
    decreases bases, 1
  {
    bases == [] ||
    if CountInBase(bases[0], name) > 0 then BaseStraight(bases[0], name) else FirstStraight(bases[1..], name)
  }

  predicate BaseStraight(b: Base, name: string)
    decreases b, 1
  {
    b.Base? ==> Straight(b.class_, name)
  }

  function FirstNamed(slots: seq<Slot>, name: string): Option<Slot> {
    if slots == [] then None
    else if slots[0].leaf.Member? && slots[0].leaf.field.name == name then Some(slots[0])
    else FirstNamed(slots[1..], name)
  }

  lemma {:induction false} FirstNamedAcross(a: seq<Slot>, b: seq<Slot>, name: string)
    ensures FirstNamed(a + b, name) == if FirstNamed(a, name).Some? then FirstNamed(a, name) else FirstNamed(b, name)
  {
    if a == [] {
      assert a + b == b;
    } else {
      FirstNamedAcross(a[1..], b, name);
      assert (a + b)[1..] == a[1..] + b;
    }
  }

  lemma {:induction false} FirstOwn(fields: seq<Field>, k: nat, path: seq<nat>, off: nat, isPublicPath: bool,
                                    name: string)
    requires k <= |fields|
    ensures FirstNamed(FieldSlots(fields, k, path, off, isPublicPath), name).Some? <==> CountOwn(fields[k..], name) > 0
    ensures FirstNamed(FieldSlots(fields, k, path, off, isPublicPath), name).Some? ==>
      FirstNamed(FieldSlots(fields, k, path, off, isPublicPath), name).value.path == path
    decreases |fields| - k
  {
    if k < |fields| {
      FirstOwn(fields, k + 1, path, off, isPublicPath, name);
      assert fields[k..][1..] == fields[k + 1..];
      var s := FieldSlots(fields, k, path, off, isPublicPath);
      assert s[1..] == FieldSlots(fields, k + 1, path, off, isPublicPath);
    }
  }

  /** The first slot of a name in a class's walk is hidden by no class on its way iff the way is straight. */
  lemma {:induction false} FirstIsStraight(c: Class, path: seq<nat>, off: nat, isPublicPath: bool, name: string)
    ensures var first := FirstNamed(Slots(c, path, off, isPublicPath), name);
      && (first.Some? <==> CountFields(c, name) > 0)
      && (first.Some? ==>
          && path <= first.value.path
          && (PassesDeclaring(c, first.value.path[|path|..], name) <==> !Straight(c, name)))
    decreases c, 2, 0
  {
    var vptr, bases, fields := VptrSlot(c, path, off, isPublicPath), BaseSlots(c.bases, 0, path, off, isPublicPath),
                               FieldSlots(c.fields, 0, path, off, isPublicPath);
    FirstNamedAcross(vptr + bases, fields, name);
    FirstNamedAcross(vptr, bases, name);
    assert FirstNamed(vptr, name) == None;
    FirstOwn(c.fields, 0, path, off, isPublicPath, name);
    assert c.fields[0..] == c.fields && c.bases[0..] == c.bases;
    FirstInBases(c, c.bases, 0, path, off, isPublicPath, name);
  }

  lemma {:induction false} FirstInBases(c: Class, bases: seq<Base>, k: nat, path: seq<nat>, off: nat,
                                        isPublicPath: bool, name: string)
    requires bases == c.bases && k <= |bases|
    ensures var first := FirstNamed(BaseSlots(bases, k, path, off, isPublicPath), name);
      && (first.Some? <==> CountInBases(bases[k..], name) > 0)
      && (first.Some? ==>
          && |path| < |first.value.path| && path <= first.value.path
          && (PassesDeclaring(c, first.value.path[|path|..], name) <==>
              Declares(c, name) || !FirstStraight(bases[k..], name)))
    decreases bases, 1, |bases| - k
  {
    if k < |bases| {
      FirstInBases(c, bases, k + 1, path, off, isPublicPath, name);
      FirstInBase(bases[k], k, path, off, isPublicPath, name);
      FirstNamedAcross(OneBaseSlots(bases[k], k, path, off, isPublicPath),
        BaseSlots(bases, k + 1, path, off, isPublicPath), name);
      assert bases[k..][1..] == bases[k + 1..];
    }
  }

  lemma {:induction false} FirstInBase(b: Base, k: nat, path: seq<nat>, off: nat, isPublicPath: bool, name: string)
    ensures var first := FirstNamed(OneBaseSlots(b, k, path, off, isPublicPath), name);
      && (first.Some? <==> CountInBase(b, name) > 0)
      && (first.Some? ==>
          && |path| < |first.value.path| && path <= first.value.path && first.value.path[|path|] == k
          && b.Base? && (PassesDeclaring(b.class_, first.value.path[|path|..][1..], name) <==> !BaseStraight(b, name)))
    decreases b, 2, 0
  {
    if b.Base? {
      FirstIsStraight(b.class_, path + [k], off + b.offset, isPublicPath && b.isPublic, name);
      var first := FirstNamed(OneBaseSlots(b, k, path, off, isPublicPath), name);
      if first.Some? {
        assert (path + [k])[|path|] == k;
        assert first.value.path[|path|..][1..] == first.value.path[|path + [k]|..];
      }
    }
  }

  lemma {:induction false} FirstNamedIs(slots: seq<Slot>, name: string, k: nat)
    requires k < |slots| && slots[k].leaf.Member? && slots[k].leaf.field.name == name
    requires forall j | 0 <= j < k :: !(slots[j].leaf.Member? && slots[j].leaf.field.name == name)
    ensures FirstNamed(slots, name) == Some(slots[k])
  {
    if k > 0 {
      assert forall j | 0 < j < |slots| :: slots[j] == slots[1..][j - 1];
      FirstNamedIs(slots[1..], name, k - 1);
    }
  }

  /**
   The field that carries a name is hidden by a class nearer to the outermost one, so that it is not
   the one C++ lookup finds, exactly when the outermost class does not declare the name and the way
   to it is not straight.
   */
  lemma HiddenNameIff(c: Class, k: nat)
    requires k < |Slots(c, [], 0, true)| && KeepsName(Slots(c, [], 0, true), k, OwnNames(c))
    requires Slots(c, [], 0, true)[k].leaf.field.name != ""
    ensures var s := Slots(c, [], 0, true)[k];
      PassesDeclaring(c, s.path, s.leaf.field.name) <==>
        !Declares(c, s.leaf.field.name) && !Straight(c, s.leaf.field.name)
  {
    var slots := Slots(c, [], 0, true);
    var s, name := slots[k], slots[k].leaf.field.name;
    if Declares(c, name) {
      assert name in OwnNames(c) && s.path == [];
    } else {
      assert forall j | 0 <= j < k :: !Claims(slots[j], name, OwnNames(c));
      FirstNamedIs(slots, name, k);
      FirstIsStraight(c, [], 0, true, name);
      assert s.path[0..] == s.path;
    }
  }

  const V := Field("v", false, false, 0, 4, Public)
  const DEEP := Class(false, 0, [], [V], 4)
  const NEAR := Class(false, 0, [Base(true, 0, DEEP)], [V.(offset := 4)], 8)
  const OUTER := Class(false, 0, [Base(true, 0, NEAR)], [], 8)

  /** Between two bases the deeper one takes the name, though the nearer one hides it. */
  lemma DeeperBaseTakesTheName()
    ensures WellLaid(OUTER) && Flattenable(OUTER) && !Declares(OUTER, "v") && PassesDeclaring(OUTER, [0, 0], "v")
    ensures Slots(OUTER, [], 0, true) ==
      [Slot([0, 0], Member(0, V), 0, true), Slot([0], Member(0, V.(offset := 4)), 4, true)]
    ensures KeepsName(Slots(OUTER, [], 0, true), 0, OwnNames(OUTER))
  {
    OuterIsLaidOut();
    OuterSlots();
  }

  lemma OuterIsLaidOut()
    ensures WellLaid(OUTER) && Flattenable(OUTER) && !Declares(OUTER, "v") && PassesDeclaring(OUTER, [0, 0], "v")
  {
    assert WellLaid(DEEP) && Flattenable(DEEP);
    assert BaseWellLaid(NEAR.bases[0]) && BasesFlattenable(NEAR.bases[1..]);
    assert WellLaid(NEAR) && Flattenable(NEAR);
    assert BaseWellLaid(OUTER.bases[0]) && BasesFlattenable(OUTER.bases[1..]);
    assert V.(offset := 4) in NEAR.fields && [0, 0][1..] == [0];
    assert PassesDeclaring(NEAR, [0], "v");
  }

  lemma OuterSlots()
    ensures Slots(OUTER, [], 0, true) ==
      [Slot([0, 0], Member(0, V), 0, true), Slot([0], Member(0, V.(offset := 4)), 4, true)]
  {
    OneFieldSlots(DEEP, V, [0, 0], 0);
    OneFieldSlots(NEAR, V.(offset := 4), [0], 0);
    OneBaseSlots1(NEAR.bases, [0], 0);
    OneBaseSlots1(OUTER.bases, [], 0);
    assert [] + [0] == [0] && [0] + [0] == [0, 0];
    assert Slots(OUTER, [], 0, true) == Slots(NEAR, [0], 0, true);
  }

  lemma OneFieldSlots(c: Class, f: Field, path: seq<nat>, off: nat)
    requires !c.ownVptr && c.fields == [f]
    ensures Slots(c, path, off, true) ==
      BaseSlots(c.bases, 0, path, off, true) + [Slot(path, Member(0, f), off + f.offset, true)]
  {
    assert FieldSlots(c.fields, 1, path, off, true) == [];
  }

  lemma OneBaseSlots1(bases: seq<Base>, path: seq<nat>, off: nat)
    requires |bases| == 1 && bases[0].Base? && bases[0].isPublic
    ensures BaseSlots(bases, 0, path, off, true) == Slots(bases[0].class_, path + [0], off + bases[0].offset, true)
  {
    assert BaseSlots(bases, 1, path, off, true) == [];
  }

  // ---------------------------------------------------------------------------------------------
  // Using-declarations
  // ---------------------------------------------------------------------------------------------

  /** A using-declaration of the outermost class; `namesFields` when it names something and only fields. */
  datatype Using = Using(name: string, access: Access, namesFields: bool)

  function Redeclared(f: RawField, u: Using, unique: bool): RawField {
    if u.namesFields && f.inherited && f.name == u.name
    then f.(inherited := false, access := if unique then u.access else f.access)
    else f
  }

  function RedeclaredBy(f: RawField, usings: seq<Using>, c: Class): RawField
    decreases |usings|
  {
    if usings == [] then f
    else RedeclaredBy(Redeclared(f, usings[0], CountFields(c, usings[0].name) == 1), usings[1..], c)
  }

  function FirstUsing(usings: seq<Using>, name: string): Option<Using> {
    if usings == [] then None
    else if usings[0].namesFields && usings[0].name == name then Some(usings[0])
    else FirstUsing(usings[1..], name)
  }

  lemma {:induction false} NotInheritedIsKept(f: RawField, usings: seq<Using>, c: Class)
    requires !f.inherited
    ensures RedeclaredBy(f, usings, c) == f
    decreases |usings|
  {
    if usings != [] { NotInheritedIsKept(f, usings[1..], c); }
  }

  /**
   The first using-declaration of an inherited field's name makes it the class's own, with its access
   iff the name is unique.
   */
  lemma {:induction false} UsingIs(f: RawField, usings: seq<Using>, c: Class)
    ensures RedeclaredBy(f, usings, c) ==
      var u := FirstUsing(usings, f.name);
      if !f.inherited || u.None? then f
      else f.(inherited := false, access := if CountFields(c, f.name) == 1 then u.value.access else f.access)
    decreases |usings|
  {
    if usings != [] {
      var next := Redeclared(f, usings[0], CountFields(c, usings[0].name) == 1);
      if next.inherited { UsingIs(next, usings[1..], c); } else { NotInheritedIsKept(next, usings[1..], c); }
    }
  }

  function CountNamed(slots: seq<Slot>, name: string): nat {
    if slots == [] then 0
    else (if slots[0].leaf.Member? && slots[0].leaf.field.name == name then 1 else 0) + CountNamed(slots[1..], name)
  }

  lemma {:induction false} CountNamedAcross(a: seq<Slot>, b: seq<Slot>, name: string)
    ensures CountNamed(a + b, name) == CountNamed(a, name) + CountNamed(b, name)
  {
    if a == [] {
      assert a + b == b;
    } else {
      CountNamedAcross(a[1..], b, name);
      assert (a + b)[1..] == a[1..] + b;
    }
  }

  /** The field count a using-declaration consults is the number of slots of that name. */
  lemma {:induction false} CountIsSlots(c: Class, path: seq<nat>, off: nat, isPublicPath: bool, name: string)
    ensures CountNamed(Slots(c, path, off, isPublicPath), name) == CountFields(c, name)
    decreases c, 2, 0
  {
    var vptr, bases, fields := VptrSlot(c, path, off, isPublicPath), BaseSlots(c.bases, 0, path, off, isPublicPath),
                               FieldSlots(c.fields, 0, path, off, isPublicPath);
    CountNamedAcross(vptr + bases, fields, name);
    CountNamedAcross(vptr, bases, name);
    assert CountNamed(vptr, name) == 0 && c.bases[0..] == c.bases && c.fields[0..] == c.fields;
    CountFieldSlots(c.fields, 0, path, off, isPublicPath, name);
    CountBaseSlots(c.bases, 0, path, off, isPublicPath, name);
  }

  lemma {:induction false} CountFieldSlots(fields: seq<Field>, k: nat, path: seq<nat>, off: nat, isPublicPath: bool,
                                           name: string)
    requires k <= |fields|
    ensures CountNamed(FieldSlots(fields, k, path, off, isPublicPath), name) == CountOwn(fields[k..], name)
    decreases |fields| - k
  {
    if k < |fields| {
      CountFieldSlots(fields, k + 1, path, off, isPublicPath, name);
      assert fields[k..][1..] == fields[k + 1..];
      var s := FieldSlots(fields, k, path, off, isPublicPath);
      assert s[1..] == FieldSlots(fields, k + 1, path, off, isPublicPath);
    }
  }

  lemma {:induction false} CountBaseSlots(bases: seq<Base>, k: nat, path: seq<nat>, off: nat, isPublicPath: bool,
                                          name: string)
    requires k <= |bases|
    ensures CountNamed(BaseSlots(bases, k, path, off, isPublicPath), name) == CountInBases(bases[k..], name)
    decreases bases, 1, |bases| - k
  {
    if k < |bases| {
      CountBaseSlots(bases, k + 1, path, off, isPublicPath, name);
      CountOneBaseSlots(bases[k], k, path, off, isPublicPath, name);
      CountNamedAcross(OneBaseSlots(bases[k], k, path, off, isPublicPath),
        BaseSlots(bases, k + 1, path, off, isPublicPath), name);
      assert bases[k..][1..] == bases[k + 1..];
    }
  }

  lemma {:induction false} CountOneBaseSlots(b: Base, k: nat, path: seq<nat>, off: nat, isPublicPath: bool,
                                             name: string)
    ensures CountNamed(OneBaseSlots(b, k, path, off, isPublicPath), name) == CountInBase(b, name)
    decreases b, 2, 0
  {
    if b.Base? { CountIsSlots(b.class_, path + [k], off + b.offset, isPublicPath && b.isPublic, name); }
  }

  // ---------------------------------------------------------------------------------------------
  // The final order
  // ---------------------------------------------------------------------------------------------

  predicate Sorted(fields: seq<RawField>) {
    forall i, j | 0 <= i < j < |fields| :: fields[i].offset <= fields[j].offset
  }

  /** The fields at one offset, in order. */
  function At(fields: seq<RawField>, offset: nat): seq<RawField> {
    if fields == [] then [] else (if fields[0].offset == offset then [fields[0]] else []) + At(fields[1..], offset)
  }

  /** `std::stable_sort` by offset. */
  function StableSort(fields: seq<RawField>): seq<RawField> {
    if fields == [] then [] else Insert(fields[0], StableSort(fields[1..]))
  }

  function Insert(f: RawField, sorted: seq<RawField>): seq<RawField> {
    if sorted == [] || f.offset <= sorted[0].offset then [f] + sorted else [sorted[0]] + Insert(f, sorted[1..])
  }

  lemma {:induction false} InsertSorts(f: RawField, sorted: seq<RawField>)
    requires Sorted(sorted)
    ensures Sorted(Insert(f, sorted))
    ensures forall x :: x in Insert(f, sorted) <==> x == f || x in sorted
  {
    if sorted != [] && f.offset > sorted[0].offset {
      InsertSorts(f, sorted[1..]);
      forall x | x in sorted[1..]
        ensures sorted[0].offset <= x.offset
      {
        var i :| 0 <= i < |sorted[1..]| && sorted[1..][i] == x;
        assert sorted[i + 1] == x;
      }
    }
  }

  lemma {:induction false} InsertKeepsAt(f: RawField, sorted: seq<RawField>, offset: nat)
    ensures At(Insert(f, sorted), offset) == At([f] + sorted, offset)
  {
    assert ([f] + sorted)[1..] == sorted;
    if sorted != [] && f.offset > sorted[0].offset {
      InsertKeepsAt(f, sorted[1..], offset);
      var r := Insert(f, sorted[1..]);
      assert ([sorted[0]] + r)[1..] == r && ([f] + sorted[1..])[1..] == sorted[1..];
    }
  }

  /** Sorting yields non-decreasing offsets and keeps the order, and so the number, of the fields at each offset. */
  lemma {:induction false} SortIsStable(fields: seq<RawField>, offset: nat)
    ensures Sorted(StableSort(fields)) && At(StableSort(fields), offset) == At(fields, offset)
  {
    if fields != [] {
      SortIsStable(fields[1..], offset);
      InsertSorts(fields[0], StableSort(fields[1..]));
      InsertKeepsAt(fields[0], StableSort(fields[1..]), offset);
      assert ([fields[0]] + StableSort(fields[1..]))[1..] == StableSort(fields[1..]);
    }
  }

  // ---------------------------------------------------------------------------------------------
  // The whole collection
  // ---------------------------------------------------------------------------------------------

  function Placed(c: Class): seq<RawField> {
    PlaceAll(START, Slots(c, [], 0, true), OwnNames(c)).fields
  }

  function RedeclareAll(fields: seq<RawField>, usings: seq<Using>, c: Class): (r: seq<RawField>)
    ensures |r| == |fields| && forall k | 0 <= k < |fields| :: r[k] == RedeclaredBy(fields[k], usings, c)
  {
    seq(|fields|, k requires 0 <= k < |fields| => RedeclaredBy(fields[k], usings, c))
  }

  predicate NoneZeroSize(fields: seq<RawField>) {
    forall f | f in fields :: !f.isZeroSize
  }

  function Ordered(fields: seq<RawField>): seq<RawField> {
    if NoneZeroSize(fields) then StableSort(fields) else fields
  }

  function Collected(c: Class, usings: seq<Using>): seq<RawField> {
    Ordered(RedeclareAll(Placed(c), usings, c))
  }

  ghost predicate FieldsApart(fields: seq<RawField>) {
    forall i, j | 0 <= i < j < |fields| :: Apart(fields[i].offset, fields[i].size, fields[j].offset, fields[j].size)
  }

  lemma SplitFirst(f: RawField, fields: seq<RawField>)
    ensures FieldsApart([f] + fields) <==>
      FieldsApart(fields) && forall x | x in fields :: Apart(f.offset, f.size, x.offset, x.size)
    ensures NamesDiffer([f] + fields) <==> NamesDiffer(fields) && forall x | x in fields :: f.name != x.name
  {
    hide Apart;
    SplitApart(f, fields);
    SplitNames(f, fields);
  }

  lemma SplitApart(f: RawField, fields: seq<RawField>)
    ensures FieldsApart([f] + fields) <==>
      FieldsApart(fields) && forall x | x in fields :: Apart(f.offset, f.size, x.offset, x.size)
  {
    hide Apart;
    var all := [f] + fields;
    assert all[0] == f && forall k | 0 < k < |all| :: all[k] == fields[k - 1];
    if FieldsApart(all) {
      assert forall i, j | 0 <= i < j < |fields| :: fields[i] == all[i + 1] && fields[j] == all[j + 1];
      forall x | x in fields
        ensures Apart(f.offset, f.size, x.offset, x.size)
      {
        var k :| 0 <= k < |fields| && fields[k] == x;
        assert all[k + 1] == x;
      }
    }
  }

  lemma SplitNames(f: RawField, fields: seq<RawField>)
    ensures NamesDiffer([f] + fields) <==> NamesDiffer(fields) && forall x | x in fields :: f.name != x.name
  {
    var all := [f] + fields;
    assert all[0] == f && forall k | 0 < k < |all| :: all[k] == fields[k - 1];
    if NamesDiffer(all) {
      assert forall i, j | 0 <= i < j < |fields| :: fields[i] == all[i + 1] && fields[j] == all[j + 1];
      forall x | x in fields
        ensures f.name != x.name
      {
        var k :| 0 <= k < |fields| && fields[k] == x;
        assert all[k + 1] == x;
      }
    }
  }

  lemma {:induction false} InsertKeepsApart(f: RawField, sorted: seq<RawField>)
    ensures FieldsApart([f] + sorted) <==> FieldsApart(Insert(f, sorted))
    ensures NamesDiffer([f] + sorted) <==> NamesDiffer(Insert(f, sorted))
    ensures forall x :: x in Insert(f, sorted) <==> x == f || x in sorted
  {
    hide FieldsApart, NamesDiffer;
    if sorted != [] && f.offset > sorted[0].offset {
      var first, rest := sorted[0], sorted[1..];
      assert sorted == [first] + rest;
      SplitFirst(f, sorted);
      SplitFirst(first, rest);
      SplitFirst(f, rest);
      InsertKeepsApart(f, rest);
      SplitFirst(first, Insert(f, rest));
    }
  }

  /** Sorting moves fields, and so they are as much apart and as differently named as before. */
  lemma {:induction false} SortKeepsApart(fields: seq<RawField>)
    ensures FieldsApart(fields) <==> FieldsApart(StableSort(fields))
    ensures NamesDiffer(fields) <==> NamesDiffer(StableSort(fields))
    ensures forall x :: x in StableSort(fields) <==> x in fields
  {
    hide FieldsApart, NamesDiffer, Insert;
    if fields == [] {
      assert StableSort(fields) == fields;
    } else {
      var sorted := StableSort(fields[1..]);
      assert fields == [fields[0]] + fields[1..];
      SplitFirst(fields[0], fields[1..]);
      SortKeepsApart(fields[1..]);
      SplitFirst(fields[0], sorted);
      InsertKeepsApart(fields[0], sorted);
    }
  }

  lemma OrderedIsSound(fields: seq<RawField>)
    ensures FieldsApart(Ordered(fields)) <==> FieldsApart(fields)
    ensures NamesDiffer(Ordered(fields)) <==> NamesDiffer(fields)
    ensures if forall f | f in Ordered(fields) :: !f.isZeroSize then Sorted(Ordered(fields))
            else Ordered(fields) == fields
    ensures forall offset: nat :: At(Ordered(fields), offset) == At(fields, offset)
  {
    hide FieldsApart, NamesDiffer, StableSort, At, Sorted;
    SortKeepsApart(fields);
    forall offset: nat
      ensures Sorted(StableSort(fields)) && At(StableSort(fields), offset) == At(fields, offset)
    {
      SortIsStable(fields, offset);
    }
    SortIsStable(fields, 0);
  }

  /**
   From layouts whose classes each keep their parts apart, the fields returned do not overlap, have
   different names iff no kept name is spelled like one the walk makes, and are in the order of their
   offsets when none has size zero; before using-declarations a public field lies on a public path.
   */
  lemma CollectedIsSound(c: Class, usings: seq<Using>)
    requires WellLaid(c)
    ensures FieldsApart(Collected(c, usings))
    ensures NamesDiffer(Collected(c, usings)) <==> !NameClashes(Slots(c, [], 0, true), OwnNames(c))
    ensures if forall f | f in Collected(c, usings) :: !f.isZeroSize then Sorted(Collected(c, usings))
            else Collected(c, usings) == RedeclareAll(Placed(c), usings, c)
    ensures forall offset: nat :: At(Collected(c, usings), offset) == At(RedeclareAll(Placed(c), usings, c), offset)
    ensures |Placed(c)| == |Slots(c, [], 0, true)|
    ensures forall k | 0 <= k < |Placed(c)| ::
      FieldOf(Placed(c)[k], Slots(c, [], 0, true), k, OwnNames(c)) &&
      (Placed(c)[k].access == Public ==> Slots(c, [], 0, true)[k].isPublicPath && Slots(c, [], 0, true)[k].leaf.Member?)
  {
    PlacedIsSound(c);
    hide Placed, RedeclaredBy, Slots, NameClashes, FieldsApart, NamesDiffer, Ordered, At, Sorted, WellLaid;
    StorageSurvives(Placed(c), usings, c);
    SameApart(Placed(c), RedeclareAll(Placed(c), usings, c));
    OrderedIsSound(RedeclareAll(Placed(c), usings, c));
  }

  lemma PlacedIsSound(c: Class)
    requires WellLaid(c)
    ensures FieldsApart(Placed(c)) && (NamesDiffer(Placed(c)) <==> !NameClashes(Slots(c, [], 0, true), OwnNames(c)))
    ensures |Placed(c)| == |Slots(c, [], 0, true)|
    ensures forall k | 0 <= k < |Placed(c)| :: FieldOf(Placed(c)[k], Slots(c, [], 0, true), k, OwnNames(c))
  {
    hide Slots, PlaceAll, FieldOf, NameClashes, FieldsApart, NamesDiffer;
    var slots, own := Slots(c, [], 0, true), OwnNames(c);
    PlacedCount(slots, own);
    forall k | 0 <= k < |slots|
      ensures FieldOf(Placed(c)[k], slots, k, own)
    {
      FieldIs(slots, own, k);
    }
    SlotsStayApart(c, [], 0, true);
    NamesAreUniqueIff(slots, own);
    ApartAsPlaced(slots, own, Placed(c));
  }

  lemma ApartAsPlaced(slots: seq<Slot>, own: set<string>, placed: seq<RawField>)
    requires |placed| == |slots| && AllApart(slots) && forall k | 0 <= k < |placed| :: FieldOf(placed[k], slots, k, own)
    ensures FieldsApart(placed)
  {
    forall i, j | 0 <= i < j < |placed|
      ensures Apart(placed[i].offset, placed[i].size, placed[j].offset, placed[j].size)
    {
      assert SlotsApart(slots[i], slots[j]) && FieldOf(placed[i], slots, i, own) && FieldOf(placed[j], slots, j, own);
    }
  }

  /** Using-declarations leave storage and names alone. */
  lemma StorageSurvives(fields: seq<RawField>, usings: seq<Using>, c: Class)
    ensures forall k | 0 <= k < |fields| ::
      var f, r := fields[k], RedeclareAll(fields, usings, c)[k];
      r.offset == f.offset && r.size == f.size && r.name == f.name
  {
    forall k | 0 <= k < |fields|
      ensures var f, r := fields[k], RedeclareAll(fields, usings, c)[k];
        r.offset == f.offset && r.size == f.size && r.name == f.name
    {
      UsingIs(fields[k], usings, c);
    }
  }

  lemma SameApart(fields: seq<RawField>, after: seq<RawField>)
    requires |after| == |fields|
    requires forall k | 0 <= k < |fields| ::
      after[k].offset == fields[k].offset && after[k].size == fields[k].size && after[k].name == fields[k].name
    ensures (FieldsApart(fields) <==> FieldsApart(after)) && (NamesDiffer(fields) <==> NamesDiffer(after))
  {}

  /** The object the walk appends to. */
  class FlatRecord {
    var fields: seq<RawField>
    var taken: set<string>
    var synth: nat

    constructor ()
      ensures State() == START
    {
      fields, taken, synth := [], {}, 0;
    }

    ghost function State(): Flat
      reads this
    {
      Flat(fields, taken, synth)
    }

    method FlattenCxxLayout(c: Class, baseOff: nat, nameable: bool, ownNames: set<string>, isOutermost: bool,
                            ghost path: seq<nat>)
      returns (ok: bool)
      requires isOutermost <==> path == []
      modifies this
      ensures ok <==> Flattenable(c)
      ensures ok ==> State() == PlaceAll(old(State()), Slots(c, path, baseOff, nameable), ownNames)
      decreases c, 2, 0
    {
      hide Slots, BaseSlots, FieldSlots, PlaceAll;
      ghost var before := State();
      if c.numVBases > 0 { return false; }
      if c.ownVptr {
        fields := fields + [RawField(VptrName(synth), baseOff, POINTER_SIZE, Private, false, false)];
        synth := synth + 1;
      }
      ghost var own := FieldSlots(c.fields, 0, path, baseOff, nameable);
      VptrFirst(before, c, path, baseOff, nameable, ownNames);
      for k := 0 to |c.bases|
        invariant BasesFlattenable(c.bases) <==> BasesFlattenable(c.bases[k..])
        invariant PlaceAll(before, Slots(c, path, baseOff, nameable), ownNames)
               == PlaceAll(State(), BaseSlots(c.bases, k, path, baseOff, nameable) + own, ownNames)
      {
        assert c.bases[k..][1..] == c.bases[k + 1..];
        ghost var at := State();
        BaseNext(at, c.bases, k, path, baseOff, nameable, ownNames, own);
        ok := FlattenBase(c.bases[k], k, baseOff, nameable, ownNames, path);
        if !ok { return; }
      }
      FieldsNext(State(), c, path, baseOff, nameable, ownNames);
      for idx := 0 to |c.fields|
        invariant forall f | f in c.fields[..idx] :: !f.isBitField && f.name != ""
        invariant PlaceAll(before, Slots(c, path, baseOff, nameable), ownNames)
               == PlaceAll(State(), FieldSlots(c.fields, idx, path, baseOff, nameable), ownNames)
      {
        var f := c.fields[idx];
        if f.isBitField || f.name == "" { return false; }
        FieldNext(State(), c.fields, idx, path, baseOff, nameable, ownNames);
        AddField(f, baseOff, nameable, ownNames, isOutermost, Slot(path, Member(idx, f), baseOff + f.offset, nameable));
        assert c.fields[..idx + 1] == c.fields[..idx] + [f];
      }
      FieldsDone(State(), c.fields, path, baseOff, nameable, ownNames);
      assert c.fields[..|c.fields|] == c.fields;
      ok := true;
    }

    method FlattenBase(b: Base, ghost k: nat, baseOff: nat, nameable: bool, ownNames: set<string>, ghost path: seq<nat>)
      returns (ok: bool)
      modifies this
      ensures ok <==> BaseFlattenable(b)
      ensures ok ==> State() == PlaceAll(old(State()), OneBaseSlots(b, k, path, baseOff, nameable), ownNames)
      decreases b, 2, 0
    {
      if b.Undefined? { return false; }
      ok := FlattenCxxLayout(b.class_, baseOff + b.offset, nameable && b.isPublic, ownNames, false, path + [k]);
    }

    /** One field, under its own name if nothing claimed it before. */
    method AddField(f: Field, baseOff: nat, nameable: bool, ownNames: set<string>, isOutermost: bool, ghost s: Slot)
      requires s == Slot(s.path, s.leaf, baseOff + f.offset, nameable) && s.leaf.Member? && s.leaf.field == f
      requires isOutermost <==> s.path == []
      modifies this
      ensures State() == Place(old(State()), s, ownNames)
    {
      var rf := RawField(f.name, baseOff + f.offset, f.size, f.access, !isOutermost, f.isZeroSize);
      var shadowedByDerived := !isOutermost && f.name in ownNames;
      if shadowedByDerived || f.name in taken {
        rf := rf.(name := HiddenName(synth), access := Private);
        synth := synth + 1;
      } else {
        taken := taken + {f.name};
        if !nameable { rf := rf.(access := Private); }
      }
      fields := fields + [rf];
    }

    method CollectCxxFlatFields(c: Class, usings: seq<Using>) returns (ok: bool)
      requires State() == START
      modifies this
      ensures ok <==> Flattenable(c)
      ensures ok ==> fields == Collected(c, usings)
    {
      hide Slots, PlaceAll, StableSort, RedeclaredBy;
      var ownNames := OwnNames(c);
      ok := FlattenCxxLayout(c, 0, true, ownNames, true, []);
      if !ok { return; }
      NoUsings(fields, c, usings);
      for i := 0 to |usings|
        invariant |fields| == |Placed(c)|
        invariant RedeclareAll(fields, usings[i..], c) == RedeclareAll(Placed(c), usings, c)
      {
        ghost var before := fields;
        if usings[i].namesFields {
          var unique := CountFields(c, usings[i].name) == 1;
          ApplyUsing(usings[i], unique);
        }
        NextUsing(before, fields, usings[i..], c);
        assert usings[i..][1..] == usings[i + 1..];
      }
      assert usings[|usings|..] == [];
      NoUsings(fields, c, []);
      if NoneZeroSize(fields) {
        fields := StableSort(fields);
      }
    }

    method ApplyUsing(u: Using, unique: bool)
      requires u.namesFields
      modifies this`fields
      ensures |fields| == |old(fields)| &&
        forall k | 0 <= k < |fields| :: fields[k] == Redeclared(old(fields)[k], u, unique)
    {
      for i := 0 to |fields|
        invariant |fields| == |old(fields)|
        invariant forall k | 0 <= k < |fields| ::
          fields[k] == if k < i then Redeclared(old(fields)[k], u, unique) else old(fields)[k]
      {
        if fields[i].inherited && fields[i].name == u.name {
          fields := fields[i := fields[i].(inherited := false)];
          if unique { fields := fields[i := fields[i].(access := u.access)]; }
        }
      }
    }
  }

  lemma NoUsings(fields: seq<RawField>, c: Class, usings: seq<Using>)
    ensures RedeclareAll(fields, [], c) == fields
    ensures usings[0..] == usings
  {
    assert forall k | 0 <= k < |fields| :: RedeclaredBy(fields[k], [], c) == fields[k];
  }

  lemma NextUsing(before: seq<RawField>, after: seq<RawField>, usings: seq<Using>, c: Class)
    requires usings != [] && |after| == |before|
    requires forall k | 0 <= k < |before| ::
      after[k] == Redeclared(before[k], usings[0], CountFields(c, usings[0].name) == 1)
    ensures RedeclareAll(after, usings[1..], c) == RedeclareAll(before, usings, c)
  {}

  // How the walk and its listing keep step

  lemma VptrFirst(st: Flat, c: Class, path: seq<nat>, off: nat, isPublicPath: bool, ownNames: set<string>)
    ensures PlaceAll(st, Slots(c, path, off, isPublicPath), ownNames) ==
      PlaceAll(if c.ownVptr then Place(st, Slot(path, Vptr, off, isPublicPath), ownNames) else st,
               BaseSlots(c.bases, 0, path, off, isPublicPath)
                 + FieldSlots(c.fields, 0, path, off, isPublicPath), ownNames)
    ensures c.bases[0..] == c.bases
  {
    hide BaseSlots, FieldSlots;
    var vptr, bases, fields := VptrSlot(c, path, off, isPublicPath), BaseSlots(c.bases, 0, path, off, isPublicPath),
                               FieldSlots(c.fields, 0, path, off, isPublicPath);
    assert vptr + bases + fields == vptr + (bases + fields);
    PlaceAllAcross(st, vptr, bases + fields, ownNames);
    if c.ownVptr { assert vptr[1..] == []; }
  }

  lemma BaseNext(st: Flat, bases: seq<Base>, k: nat, path: seq<nat>, off: nat, isPublicPath: bool,
                 ownNames: set<string>, own: seq<Slot>)
    requires k < |bases|
    ensures PlaceAll(st, BaseSlots(bases, k, path, off, isPublicPath) + own, ownNames) ==
      PlaceAll(PlaceAll(st, OneBaseSlots(bases[k], k, path, off, isPublicPath), ownNames),
               BaseSlots(bases, k + 1, path, off, isPublicPath) + own, ownNames)
  {
    hide OneBaseSlots, PlaceAll;
    var first, others := OneBaseSlots(bases[k], k, path, off, isPublicPath),
      BaseSlots(bases, k + 1, path, off, isPublicPath);
    assert first + others + own == first + (others + own);
    PlaceAllAcross(st, first, others + own, ownNames);
  }

  lemma FieldsNext(st: Flat, c: Class, path: seq<nat>, off: nat, isPublicPath: bool, ownNames: set<string>)
    ensures BaseSlots(c.bases, |c.bases|, path, off, isPublicPath) + FieldSlots(c.fields, 0, path, off, isPublicPath)
         == FieldSlots(c.fields, 0, path, off, isPublicPath)
    ensures BasesFlattenable(c.bases[|c.bases|..])
  {}

  lemma FieldNext(st: Flat, fields: seq<Field>, k: nat, path: seq<nat>, off: nat, isPublicPath: bool,
                  ownNames: set<string>)
    requires k < |fields|
    ensures PlaceAll(st, FieldSlots(fields, k, path, off, isPublicPath), ownNames) ==
      PlaceAll(Place(st, Slot(path, Member(k, fields[k]), off + fields[k].offset, isPublicPath), ownNames),
               FieldSlots(fields, k + 1, path, off, isPublicPath), ownNames)
  {
    var slots := FieldSlots(fields, k, path, off, isPublicPath);
    assert slots[1..] == FieldSlots(fields, k + 1, path, off, isPublicPath);
  }

  lemma FieldsDone(st: Flat, fields: seq<Field>, path: seq<nat>, off: nat, isPublicPath: bool, ownNames: set<string>)
    ensures PlaceAll(st, FieldSlots(fields, |fields|, path, off, isPublicPath), ownNames) == st
  {}
}
