/**
 * The action/serializer registry of src/serialize.ts: every class that takes part in
 * (de)serialisation owns a `Serializer`, which keeps its actions in an array and an
 * index from an action's internal key to its slot, so that re-adding an action with
 * the same key overrides the previous one in place.
 *
 * Classes are identified by number; a class is always declared after the class it
 * extends, so a class's parent has a smaller number and walking up the prototype
 * chain terminates.
 */
module SerializeRegistry {
  import opened Wrappers

  type ClassId = nat

  /** The key an action is indexed by: a property name or a symbol. */
  datatype Key = Named(name: string) | Symbol(id: nat)

  /**
   * An action as a value. `Base` and `OnDeserialize` have no internal key; a
   * property action's key stays unset until `property` gives it one. The (de)serialiser
   * functions and the deserialise hook are opaque identifiers.
   */
  datatype Action =
    | Base
    | OnDeserialize(hook: nat)
    | Prop(key: Option<Key>, serializeTo: Option<string>, deserializeFrom: Option<string>,
           serializer: Option<nat>, deserializer: Option<nat>)

  /** `action.internal_key`. */
  function InternalKey(a: Action): Option<Key>
  {
    if a.Prop? then a.key else None
  }

  // ---------------------------------------------------------------------------
  // The action table of one serializer

  /** `actions` and `action_map` of a `Serializer`. */
  datatype Table = Table(actions: seq<Action>, index: map<Key, nat>)

  function EmptyTable(): Table { Table([], map[]) }

  /** Every indexed key points at a slot that holds an action with that key. */
  ghost predicate Indexed(t: Table)
  {
    forall k :: k in t.index ==> t.index[k] < |t.actions| && InternalKey(t.actions[t.index[k]]) == Some(k)
  }

  /**
   * `addAction`. A key already mapped to a slot replaces that slot; since the test is
   * the truthiness of the slot number, a key held at slot 0 is treated as unseen.
   */
  function Add(t: Table, a: Action): Table
    requires Indexed(t)
  {
    match InternalKey(a)
    case None => Table(t.actions + [a], t.index)
    case Some(k) =>
      if k in t.index && t.index[k] != 0 then Table(t.actions[t.index[k] := a], t.index)
      else Table(t.actions + [a], t.index[k := |t.actions|])
  }

  /** The action a key currently resolves to. */
  function Lookup(t: Table, k: Key): Option<Action>
    requires Indexed(t)
  {
    if k in t.index then Some(t.actions[t.index[k]]) else None
  }

  lemma AddIndexed(t: Table, a: Action)
    requires Indexed(t)
    ensures Indexed(Add(t, a))
  {
    var r := Add(t, a);
    forall k | k in r.index
      ensures r.index[k] < |r.actions| && InternalKey(r.actions[r.index[k]]) == Some(k)
    {
      if k in t.index {
        assert t.index[k] < |t.actions|;
      }
    }
  }

  /** `addAction` applied to each action in turn. */
  function AddAll(t: Table, acts: seq<Action>): (r: Table)
    requires Indexed(t)
    ensures Indexed(r)
  {
    if |acts| == 0 then t
    else
      var prev := AddAll(t, acts[..|acts| - 1]);
      AddIndexed(prev, acts[|acts| - 1]);
      Add(prev, acts[|acts| - 1])
  }

  /** The position of the last action in `acts` with internal key `k`, or -1. */
  function LastIndexWithKey(acts: seq<Action>, k: Key): (i: int)
    ensures -1 <= i < |acts|
    ensures i >= 0 ==> InternalKey(acts[i]) == Some(k)
    ensures forall j :: i < j < |acts| ==> InternalKey(acts[j]) != Some(k)
  {
    if |acts| == 0 then -1
    else if InternalKey(acts[|acts| - 1]) == Some(k) then |acts| - 1
    else LastIndexWithKey(acts[..|acts| - 1], k)
  }

  /** The last action in `acts` with internal key `k`. */
  function LastWithKey(acts: seq<Action>, k: Key): (r: Option<Action>)
    ensures r.Some? ==> r.value in acts && InternalKey(r.value) == Some(k)
    ensures r.Some? ==> exists i :: 0 <= i < |acts| && acts[i] == r.value &&
                                  forall j :: i < j < |acts| ==> InternalKey(acts[j]) != Some(k)
    ensures r.None? ==> forall i :: 0 <= i < |acts| ==> InternalKey(acts[i]) != Some(k)
  {
    var i := LastIndexWithKey(acts, k);
    if i < 0 then None else Some(acts[i])
  }

  /** After `addAction(a)` the key of `a` resolves to `a`; every other key is untouched. */
  lemma AddLookup(t: Table, a: Action, k: Key)
    requires Indexed(t)
    ensures Indexed(Add(t, a))
    ensures Lookup(Add(t, a), k) == if InternalKey(a) == Some(k) then Some(a) else Lookup(t, k)
  {
    AddIndexed(t, a);
  }

  /**
   * `addAction` leaves the number of actions unchanged exactly when it overrides a
   * key held at a slot other than 0; otherwise it appends.
   */
  lemma AddLength(t: Table, a: Action)
    requires Indexed(t)
    ensures |Add(t, a).actions| == |t.actions| <==>
      (InternalKey(a).Some? && InternalKey(a).value in t.index && t.index[InternalKey(a).value] != 0)
    ensures |Add(t, a).actions| != |t.actions| ==> Add(t, a).actions == t.actions + [a]
  {
  }

  /** An override in place leaves every other slot as it was. */
  lemma AddKeepsOtherSlots(t: Table, a: Action, i: nat)
    requires Indexed(t) && i < |t.actions|
    requires InternalKey(t.actions[i]) != InternalKey(a) || InternalKey(a).None?
    ensures i < |Add(t, a).actions| && Add(t, a).actions[i] == t.actions[i]
  {
  }

  /**
   * Re-adding the key held at slot 0 does not override it: the table then holds two
   * actions with that key.
   */
  lemma SlotZeroDuplicates(t: Table, a: Action, k: Key)
    requires Indexed(t) && InternalKey(a) == Some(k) && k in t.index && t.index[k] == 0
    ensures var r := Add(t, a);
      |r.actions| == |t.actions| + 1 && r.actions[0] == t.actions[0] &&
      InternalKey(r.actions[0]) == Some(k) && InternalKey(r.actions[|t.actions|]) == Some(k)
  {
  }

  lemma {:induction false} AddAllAppend(t: Table, xs: seq<Action>, ys: seq<Action>)
    requires Indexed(t)
    ensures AddAll(t, xs + ys) == AddAll(AddAll(t, xs), ys)
  {
    if |ys| > 0 {
      var ys' := ys[..|ys| - 1];
      assert (xs + ys)[..|xs + ys| - 1] == xs + ys';
      assert (xs + ys)[|xs + ys| - 1] == ys[|ys| - 1];
      AddAllAppend(t, xs, ys');
    } else {
      assert xs + ys == xs;
    }
  }

  /** After a run of `addAction` calls each key resolves to the last action added with it. */
  lemma {:induction false} AddAllLookup(t: Table, acts: seq<Action>, k: Key)
    requires Indexed(t)
    ensures Lookup(AddAll(t, acts), k) ==
      match LastWithKey(acts, k) case Some(a) => Some(a) case None => Lookup(t, k)
  {
    if |acts| > 0 {
      var prev := AddAll(t, acts[..|acts| - 1]);
      AddAllLookup(t, acts[..|acts| - 1], k);
      AddLookup(prev, acts[|acts| - 1], k);
    }
  }

  // ---------------------------------------------------------------------------
  // Property actions

  /** A value counts as unset for `property` when it is null or the empty string. */
  predicate Unset(target: Option<string>)
  {
    target == None || target == Some("")
  }

  /** The name a (de)serialisation target defaults to under `property(k)`. */
  function DefaultTarget(target: Option<string>, k: Key): Option<string>
  {
    if k.Named? && Unset(target) then Some(k.name) else target
  }

  /** `PropAction.property(k)`: the clone with key `k` and its targets defaulted. */
  function WithProperty(a: Action, k: Key): (r: Action)
    requires a.Prop?
  {
    Prop(Some(k), DefaultTarget(a.serializeTo, k), DefaultTarget(a.deserializeFrom, k),
         a.serializer, a.deserializer)
  }

  /**
   * A clone made by `property(k)` is indexed under `k`, keeps the (de)serialiser
   * functions, keeps a target that was already set, and under a string key a
   * target that was unset becomes the key itself.
   */
  lemma PropertyTargets(a: Action, k: Key)
    requires a.Prop?
    ensures var r := WithProperty(a, k);
      InternalKey(r) == Some(k) && r.serializer == a.serializer && r.deserializer == a.deserializer &&
      (!Unset(a.serializeTo) ==> r.serializeTo == a.serializeTo) &&
      (!Unset(a.deserializeFrom) ==> r.deserializeFrom == a.deserializeFrom) &&
      (k.Named? ==> r.serializeTo.Some? && r.deserializeFrom.Some?) &&
      (k.Symbol? ==> r.serializeTo == a.serializeTo && r.deserializeFrom == a.deserializeFrom)
  {
  }

  /** Taking the same property twice changes nothing more. */
  lemma PropertyIdempotent(a: Action, k: Key)
    requires a.Prop?
    ensures WithProperty(WithProperty(a, k), k) == WithProperty(a, k)
  {
  }

  /** Registering a property clone makes its key resolve to it. */
  lemma PropertyRegistered(t: Table, a: Action, k: Key)
    requires Indexed(t) && a.Prop?
    ensures Indexed(Add(t, WithProperty(a, k)))
    ensures Lookup(Add(t, WithProperty(a, k)), k) == Some(WithProperty(a, k))
  {
    AddLookup(t, WithProperty(a, k), k);
  }

  /** A `PropAction` object; `to` and `from` update it in place. */
  class PropAction {
    var key: Option<Key>
    var serializeTo: Option<string>
    var deserializeFrom: Option<string>
    const serializer: Option<nat>
    const deserializer: Option<nat>

    constructor (serializer: Option<nat>, deserializer: Option<nat>)
      ensures Value() == Prop(None, None, None, serializer, deserializer)
    {
      this.serializer := serializer;
      this.deserializer := deserializer;
      key := None;
      serializeTo := None;
      deserializeFrom := None;
    }

    function Value(): (r: Action)
      reads this
      ensures r.Prop?
    {
      Prop(key, serializeTo, deserializeFrom, serializer, deserializer)
    }

    /** `property(k)`: a fresh clone; this action is left as it was. */
    method Property(k: Key) returns (clone: PropAction)
      ensures fresh(clone)
      ensures clone.Value() == WithProperty(Value(), k)
    {
      clone := new PropAction(serializer, deserializer);
      clone.key := Some(k);
      clone.serializeTo := serializeTo;
      clone.deserializeFrom := deserializeFrom;
      if k.Named? {
        if Unset(clone.serializeTo) {
          clone.serializeTo := Some(k.name);
        }
        if Unset(clone.deserializeFrom) {
          clone.deserializeFrom := Some(k.name);
        }
      }
    }

    /** `to(target)`. */
    method To(target: Option<string>)
      modifies this
      ensures Value() == Prop(old(key), target, old(deserializeFrom), serializer, deserializer)
    {
      serializeTo := target;
    }

    /** `from(source)`. */
    method From(source: Option<string>)
      modifies this
      ensures Value() == Prop(old(key), old(serializeTo), source, serializer, deserializer)
    {
      deserializeFrom := source;
    }
  }

  // ---------------------------------------------------------------------------
  // Serializer

  class Serializer {
    const model: Target
    var actions: seq<Action>
    var actionMap: map<Key, nat>

    function Contents(): Table
      reads this
    {
      Table(actions, actionMap)
    }

    ghost predicate Valid()
      reads this
    {
      Indexed(Contents())
    }

    constructor (model: Target)
      ensures this.model == model && Contents() == EmptyTable() && Valid()
    {
      this.model := model;
      actions := [];
      actionMap := map[];
    }

    method AddAction(a: Action)
      requires Valid()
      modifies this
      ensures Valid()
      ensures Contents() == Add(old(Contents()), a)
    {
      var key := InternalKey(a);
      if key.Some? {
        var k := key.value;
        if k in actionMap && actionMap[k] != 0 {
          actions := actions[actionMap[k] := a];
        } else {
          var idx := |actions|;
          actions := actions + [a];
          actionMap := actionMap[k := idx];
        }
      } else {
        actions := actions + [a];
      }
      AddIndexed(old(Contents()), a);
    }

    /** Adds each action in turn. */
    method AddActions(acts: seq<Action>)
      requires Valid()
      modifies this
      ensures Valid()
      ensures Contents() == AddAll(old(Contents()), acts)
    {
      var i := 0;
      while i < |acts|
        invariant 0 <= i <= |acts|
        invariant Valid()
        invariant Contents() == AddAll(old(Contents()), acts[..i])
      {
        assert acts[..i + 1][..i] == acts[..i];
        AddAction(acts[i]);
        i := i + 1;
      }
      assert acts[..i] == acts;
    }
  }

  // ---------------------------------------------------------------------------
  // Class hierarchy and lookup

  /**
   * The object a serializer hangs on. A class decorator is handed the constructor and
   * registers on `target.prototype`, and a property decorator is handed the prototype
   * itself, so both register on the prototype. `serialize` reads
   * `instance.constructor[sym_serializer]`, which walks the constructors instead.
   */
  datatype Target = Proto(cls: ClassId) | Ctor(cls: ClassId)

  /** The object of the same kind as `t` that belongs to class `c`. */
  function OfKind(t: Target, c: ClassId): (r: Target)
    ensures r.cls == c && r.Proto? == t.Proto?
  {
    if t.Proto? then Proto(c) else Ctor(c)
  }

  /** Every class extends a class declared before it. */
  predicate Ordered(parent: map<ClassId, ClassId>)
  {
    forall c :: c in parent ==> parent[c] < c
  }

  /** The classes `c` extends, root first. */
  function Ancestors(parent: map<ClassId, ClassId>, c: ClassId): (r: seq<ClassId>)
    requires Ordered(parent)
    ensures forall i :: 0 <= i < |r| ==> r[i] < c
    decreases c
  {
    if c in parent then Ancestors(parent, parent[c]) + [parent[c]] else []
  }

  /**
   * The object whose serializer `t[sym_serializer]` finds: the property is looked up
   * along the prototype chain of `t`, which for a prototype runs through the
   * ancestors' prototypes and for a constructor through the ancestors' constructors.
   * It is the nearest one, `t` itself included, that owns a serializer.
   */
  function InheritedOwner(owners: set<Target>, parent: map<ClassId, ClassId>, t: Target): (r: Option<Target>)
    requires Ordered(parent)
    ensures r.Some? ==> r.value in owners && r.value.cls <= t.cls && r.value == OfKind(t, r.value.cls)
    ensures r.None? ==>
      t !in owners &&
      forall i :: 0 <= i < |Ancestors(parent, t.cls)| ==> OfKind(t, Ancestors(parent, t.cls)[i]) !in owners
    decreases t.cls
  {
    if t in owners then Some(t)
    else if t.cls in parent then InheritedOwner(owners, parent, OfKind(t, parent[t.cls]))
    else None
  }

  /**
   * A class that owns no serializer but extends one that does finds its parent's:
   * asking for it with `create` set hands out the parent's serializer, so actions
   * declared on the subclass land in the parent's.
   */
  lemma SubclassFindsParentSerializer(owners: set<Target>, parent: map<ClassId, ClassId>, t: Target)
    requires Ordered(parent) && t.cls in parent
    requires t !in owners && OfKind(t, parent[t.cls]) in owners
    ensures InheritedOwner(owners, parent, t) == Some(OfKind(t, parent[t.cls]))
  {
  }

  /**
   * When only prototypes own serializers, as is the case when every serializer was
   * made by a decorator, looking up from a constructor finds nothing.
   */
  lemma {:induction false} ConstructorMissesPrototypes(owners: set<Target>, parent: map<ClassId, ClassId>, c: ClassId)
    requires Ordered(parent) && forall t :: t in owners ==> t.Proto?
    ensures InheritedOwner(owners, parent, Ctor(c)) == None
    decreases c
  {
    if c in parent {
      ConstructorMissesPrototypes(owners, parent, parent[c]);
    }
  }

  /** The registry of serializers, one per object that owns one. */
  class Registry {
    const parent: map<ClassId, ClassId>
    var serializers: map<Target, Serializer>

    ghost predicate Valid()
      reads this, serializers.Values
    {
      Ordered(parent) &&
      forall t :: t in serializers ==> serializers[t].model == t && serializers[t].Valid()
    }

    constructor (parent: map<ClassId, ClassId>)
      requires Ordered(parent)
      ensures this.parent == parent && serializers == map[] && Valid()
    {
      this.parent := parent;
      serializers := map[];
    }

    /** The actions owned by the objects of `t`'s kind of the given classes, in that order. */
    function OwnActions(t: Target, cs: seq<ClassId>): seq<Action>
      reads this, serializers.Values
    {
      if |cs| == 0 then []
      else
        var last := OfKind(t, cs[|cs| - 1]);
        OwnActions(t, cs[..|cs| - 1]) + (if last in serializers then serializers[last].actions else [])
    }

    /** `extendparent`: seeds `res` with the own actions up `t`'s chain, root first. */
    method Seed(res: Serializer, t: Target, ancestors: seq<ClassId>)
      requires Valid() && res.Valid() && res !in serializers.Values
      modifies res
      ensures res.Valid()
      ensures res.Contents() == AddAll(old(res.Contents()), OwnActions(t, ancestors))
    {
      var i := 0;
      while i < |ancestors|
        invariant 0 <= i <= |ancestors|
        invariant res.Valid()
        invariant res.Contents() == AddAll(old(res.Contents()), OwnActions(t, ancestors[..i]))
      {
        var a := OfKind(t, ancestors[i]);
        assert ancestors[..i + 1][..i] == ancestors[..i];
        var own := if a in serializers then serializers[a].actions else [];
        AddAllAppend(old(res.Contents()), OwnActions(t, ancestors[..i]), own);
        res.AddActions(own);
        i := i + 1;
      }
      assert ancestors[..i] == ancestors;
    }

    /**
     * `Serializer.get(t, create)` as written: the lookup goes along the prototype
     * chain. A new serializer is made only when no ancestor owns one, so the seeding
     * that follows never adds anything.
     */
    method GetAsWritten(t: Target, create: bool) returns (r: Result<Serializer, string>)
      requires Valid()
      modifies this
      ensures Valid()
      ensures InheritedOwner(old(serializers).Keys, parent, t).Some? ==>
        r == Ok(old(serializers)[InheritedOwner(old(serializers).Keys, parent, t).value]) &&
        serializers == old(serializers)
      ensures InheritedOwner(old(serializers).Keys, parent, t).None? && !create ==>
        r.Err? && serializers == old(serializers)
      ensures InheritedOwner(old(serializers).Keys, parent, t).None? && create ==>
        r.Ok? && fresh(r.value) && r.value.model == t && r.value.actions == [] &&
        serializers == old(serializers)[t := r.value]
    {
      var owner := InheritedOwner(serializers.Keys, parent, t);
      if owner.Some? {
        return Ok(serializers[owner.value]);
      }
      if !create {
        return Err("there is no known serializer for this object");
      }
      var res := new Serializer(t);
      var ancestors := Ancestors(parent, t.cls);
      NoOwnedAncestors(t, ancestors);
      Seed(res, t, ancestors);
      serializers := serializers[t := res];
      r := Ok(res);
    }

    lemma {:induction false} NoOwnedAncestors(t: Target, cs: seq<ClassId>)
      requires forall i :: 0 <= i < |cs| ==> OfKind(t, cs[i]) !in serializers
      ensures OwnActions(t, cs) == []
    {
      if |cs| > 0 {
        NoOwnedAncestors(t, cs[..|cs| - 1]);
      }
    }

    /**
     * `Serializer.get(t, create)` with the own-property test the seeding code
     * presumes: with `create` set, an object that owns no serializer gets a new one,
     * seeded with its ancestors' own actions root first, so that a nearer ancestor's
     * action overrides a farther one's with the same key. Without `create` the lookup
     * still follows the prototype chain.
     */
    method Get(t: Target, create: bool) returns (r: Result<Serializer, string>)
      requires Valid()
      modifies this
      ensures Valid()
      ensures create && t in old(serializers) ==>
        r == Ok(old(serializers)[t]) && serializers == old(serializers)
      ensures create && t !in old(serializers) ==>
        r.Ok? && fresh(r.value) && r.value.model == t &&
        r.value.Contents() == AddAll(EmptyTable(), old(OwnActions(t, Ancestors(parent, t.cls)))) &&
        serializers == old(serializers)[t := r.value]
      ensures !create ==> serializers == old(serializers)
      ensures !create ==> r == (match InheritedOwner(old(serializers).Keys, parent, t)
                                case Some(o) => Ok(old(serializers)[o])
                                case None => Err("there is no known serializer for this object"))
    {
      if !create {
        var owner := InheritedOwner(serializers.Keys, parent, t);
        if owner.Some? {
          return Ok(serializers[owner.value]);
        }
        return Err("there is no known serializer for this object");
      }
      if t in serializers {
        return Ok(serializers[t]);
      }
      var res := new Serializer(t);
      Seed(res, t, Ancestors(parent, t.cls));
      serializers := serializers[t := res];
      r := Ok(res);
    }

    /**
     * The table `t`'s serializer holds when an action is registered on it: its own, or,
     * when `t` owns none, the one `Get(t, true)` seeds a new serializer with.
     */
    function Prior(t: Target): Table
      reads this, serializers.Values
      requires Ordered(parent)
    {
      if t in serializers then serializers[t].Contents()
      else AddAll(EmptyTable(), OwnActions(t, Ancestors(parent, t.cls)))
    }

    /**
     * `Serializer.get(t, true).addAction(a)`: the action lands on the serializer of
     * `t` itself, made and seeded if `t` had none; no other serializer changes.
     */
    method Register(t: Target, a: Action) returns (ser: Serializer)
      requires Valid()
      modifies this, serializers.Values
      ensures Valid()
      ensures t in serializers && ser == serializers[t]
      ensures ser.Contents() == Add(old(Prior(t)), a)
      ensures serializers.Keys == old(serializers.Keys) + {t}
      ensures forall o :: o in old(serializers) && o != t ==>
                serializers[o] == old(serializers[o]) && serializers[o].Contents() == old(serializers[o].Contents())
      ensures forall k :: Lookup(ser.Contents(), k) ==
                          (if InternalKey(a) == Some(k) then Some(a)
                           else if t in old(serializers) then Lookup(old(serializers[t].Contents()), k)
                           else Lookup(AddAll(EmptyTable(), old(OwnActions(t, Ancestors(parent, t.cls)))), k))
    {
      var r := Get(t, true);
      ser := r.value;
      ghost var before := ser.Contents();
      ser.AddAction(a);
      forall k ensures Lookup(ser.Contents(), k) == if InternalKey(a) == Some(k) then Some(a) else Lookup(before, k) {
        AddLookup(before, a, k);
      }
    }

    /**
     * `Action.decorate` on class `c`: a class decorator is handed the constructor and
     * registers `a` on its prototype; no other serializer changes.
     */
    method Decorate(c: ClassId, a: Action) returns (ser: Serializer)
      requires Valid()
      modifies this, serializers.Values
      ensures Valid()
      ensures Proto(c) in serializers && ser == serializers[Proto(c)]
      ensures ser.Contents() == Add(old(Prior(Proto(c))), a)
      ensures serializers.Keys == old(serializers.Keys) + {Proto(c)}
      ensures forall o :: o in old(serializers) && o != Proto(c) ==>
                serializers[o] == old(serializers[o]) && serializers[o].Contents() == old(serializers[o].Contents())
      ensures forall k :: Lookup(ser.Contents(), k) ==
                          (if InternalKey(a) == Some(k) then Some(a)
                           else if Proto(c) in old(serializers) then Lookup(old(serializers[Proto(c)].Contents()), k)
                           else Lookup(AddAll(EmptyTable(), old(OwnActions(Proto(c), Ancestors(parent, c)))), k))
    {
      ser := Register(Proto(c), a);
    }

    /**
     * `PropAction.addTo(t, key)`: registers the clone `property(key)` on `t`; no other
     * serializer changes.
     */
    method AddTo(t: Target, action: PropAction, key: Key) returns (ser: Serializer)
      requires Valid()
      modifies this, serializers.Values
      ensures Valid()
      ensures t in serializers && ser == serializers[t]
      ensures ser.Contents() == Add(old(Prior(t)), WithProperty(old(action.Value()), key))
      ensures serializers.Keys == old(serializers.Keys) + {t}
      ensures forall o :: o in old(serializers) && o != t ==>
                serializers[o] == old(serializers[o]) && serializers[o].Contents() == old(serializers[o].Contents())
      ensures Lookup(ser.Contents(), key) == Some(WithProperty(old(action.Value()), key))
    {
      var clone := action.Property(key);
      ser := Register(t, clone.Value());
    }

    /**
     * `PropAction.decorate`: a property decorator is handed the prototype of class `c`
     * and passes it to `addTo`.
     */
    method DecorateProperty(c: ClassId, action: PropAction, key: Key) returns (ser: Serializer)
      requires Valid()
      modifies this, serializers.Values
      ensures Valid()
      ensures Proto(c) in serializers && ser == serializers[Proto(c)]
      ensures ser.Contents() == Add(old(Prior(Proto(c))), WithProperty(old(action.Value()), key))
      ensures serializers.Keys == old(serializers.Keys) + {Proto(c)}
      ensures forall o :: o in old(serializers) && o != Proto(c) ==>
                serializers[o] == old(serializers[o]) && serializers[o].Contents() == old(serializers[o].Contents())
      ensures Lookup(ser.Contents(), key) == Some(WithProperty(old(action.Value()), key))
    {
      ser := AddTo(Proto(c), action, key);
    }

    /** The serializer `Serializer.get(t)` finds without `create`. */
    function Found(t: Target): Option<Serializer>
      reads this
      requires Ordered(parent)
    {
      match InheritedOwner(serializers.Keys, parent, t)
      case Some(o) => Some(serializers[o])
      case None => None
    }

    /**
     * Top-level `serialize`. As written (`asWritten`) the serializer is looked up from
     * `instance.constructor`; otherwise from the instance's prototype, where the
     * decorators put it. An array is serialised element by element with the serializer
     * of its first element's class; the per-object `serialize` body is a stub that
     * returns a fresh empty object.
     */
    method Serialize(v: Instance, asWritten: bool) returns (r: Result<Json, string>)
      requires Valid()
      ensures v.Null? ==> r == Ok(JNull)
      ensures v.Object? ==> (r.Ok? <==> Found(Holder(v.cls, asWritten)).Some?)
      ensures v.Object? && r.Ok? ==> r.value == JObject([])
      ensures v.Object? && r.Err? ==> r == Err("there is no known serializer for this object")
      ensures v.Array? ==>
        (r.Ok? <==> |v.items| > 0 && v.items[0].Object? && Found(Holder(v.items[0].cls, asWritten)).Some?)
      ensures v.Array? && r.Ok? ==>
        r.value.JArray? && |r.value.items| == |v.items| &&
        forall i :: 0 <= i < |v.items| ==> r.value.items[i] == JObject([])
    {
      match v
      case Null =>
        return Ok(JNull);
      case Object(cls) =>
        if Found(Holder(cls, asWritten)).None? {
          return Err("there is no known serializer for this object");
        }
        return Ok(JObject([]));
      case Array(items) =>
        if |items| == 0 || items[0].Null? {
          return Err("cannot read property 'constructor' of undefined");
        }
        if items[0].Array? || Found(Holder(items[0].cls, asWritten)).None? {
          return Err("there is no known serializer for this object");
        }
        var res := new Json[|items|](_ => JNull);
        var i := 0;
        while i < res.Length
          invariant 0 <= i <= res.Length
          invariant forall j :: 0 <= j < i ==> res[j] == JObject([])
        {
          res[i] := JObject([]);
          i := i + 1;
        }
        return Ok(JArray(res[..]));
    }
  }

  /**
   * Where `serialize` looks for the serializer of an instance of class `c`: its
   * constructor as written, its prototype as intended.
   */
  function Holder(c: ClassId, asWritten: bool): (r: Target)
    ensures r.cls == c && (r.Ctor? <==> asWritten)
  {
    if asWritten then Ctor(c) else Proto(c)
  }

  /**
   * As written: a class whose only serializer was made by a property decorator cannot
   * be serialised, because `serialize` looks on the constructor.
   */
  method DecoratedInstanceAsWritten(parent: map<ClassId, ClassId>, c: ClassId, k: Key) returns (r: Result<Json, string>)
    requires Ordered(parent)
    ensures r == Err("there is no known serializer for this object")
  {
    var registry := new Registry(parent);
    var action := new PropAction(None, None);
    var _ := registry.DecorateProperty(c, action, k);
    ConstructorMissesPrototypes(registry.serializers.Keys, parent, c);
    r := registry.Serialize(Object(c), true);
  }

  /** Looking on the prototype, the decorated instance is serialised. */
  method DecoratedInstance(parent: map<ClassId, ClassId>, c: ClassId, k: Key) returns (r: Result<Json, string>)
    requires Ordered(parent)
    ensures r == Ok(JObject([]))
  {
    var registry := new Registry(parent);
    var action := new PropAction(None, None);
    var _ := registry.DecorateProperty(c, action, k);
    r := registry.Serialize(Object(c), false);
  }

  /** What `serialize` is given: null, an instance of a class, or an array. */
  datatype Instance = Null | Object(cls: ClassId) | Array(items: seq<Instance>)

  /** The JSON values `serialize` can produce. */
  datatype Json = JNull | JObject(fields: seq<(string, Json)>) | JArray(items: seq<Json>)
}
