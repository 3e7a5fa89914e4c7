/**
 * PrefNode: one preference node, named by its key, with typed properties (string,
 * int, boolean, serialized object) that each bind a property name to one entry of
 * the node. A name absent from the node reads as the property's default; writing
 * null removes the entry; writing anything else stores its text.
 */
module Prefs {
  import opened Outcomes
  import opened Backend

  /** A serializer for S: encoding always succeeds, decoding returns None on malformed text. */
  datatype Codec<!S> = Codec(encode: S -> string, decode: string -> Option<S>)

  /** Decoding an encoding gives back the value encoded. */
  ghost predicate RoundTrips<S(!new)>(c: Codec<S>)
  {
    forall s: S :: c.decode(c.encode(s)) == Some(s)
  }

  /**
   * A typed property: its kind, its declared default (None is Kotlin's null) and
   * its name (None is a property created without one). Object properties carry
   * their serializer.
   */
  datatype Pref<!O> =
    | StringPref(stringDefault: Option<string>, name: Option<string>)
    | IntPref(intDefault: Option<Int32>, name: Option<string>)
    | BoolPref(boolDefault: Option<bool>, name: Option<string>)
    | ObjPref(codec: Codec<O>, objDefault: Option<O>, name: Option<string>)

  /** A non-null property value of one of the four kinds. */
  datatype Value<O> = Str(s: string) | Int(i: Int32) | Bool(b: bool) | Obj(o: O)

  /** v is of the kind p declares. */
  predicate Fits<O>(p: Pref<O>, v: Value<O>)
  {
    match p
    case StringPref(_, _) => v.Str?
    case IntPref(_, _) => v.Int?
    case BoolPref(_, _) => v.Bool?
    case ObjPref(_, _, _) => v.Obj?
  }

  /** The declared default, as a property value. */
  function Default<O>(p: Pref<O>): (d: Option<Value<O>>)
    ensures d.Some? ==> Fits(p, d.value)
  {
    match p
    case StringPref(d, _) => if d.Some? then Some(Str(d.value)) else None
    case IntPref(d, _) => if d.Some? then Some(Int(d.value)) else None
    case BoolPref(d, _) => if d.Some? then Some(Bool(d.value)) else None
    case ObjPref(_, d, _) => if d.Some? then Some(Obj(d.value)) else None
  }

  /** The text a value is stored as: itself, its decimal text, "true"/"false", or its encoding. */
  function Encoded<O>(p: Pref<O>, v: Value<O>): string
    requires Fits(p, v)
  {
    match v
    case Str(s) => s
    case Int(i) => IntToString(i)
    case Bool(b) => BoolToString(b)
    case Obj(o) => p.codec.encode(o)
  }

  /**
   * getValue over the node's entries m: the default when the name is absent,
   * otherwise the stored entry read as the property's kind (getInt with 0 and
   * getBoolean with false as fallbacks; an object is decoded, and a decode
   * failure is raised).
   */
  function ReadEntry<O>(m: map<string, string>, p: Pref<O>): (r: Result<Option<Value<O>>>)
    requires p.name.Some?
    ensures r.Ok? && r.value.Some? ==> Fits(p, r.value.value)
  {
    var n := p.name.value;
    if n !in m then Ok(Default(p))
    else
      match p
      case StringPref(_, _) => Ok(Some(Str(m[n])))
      case IntPref(_, _) => Ok(Some(Int(GetIntFrom(m, n, 0))))
      case BoolPref(_, _) => Ok(Some(Bool(GetBooleanFrom(m, n, false))))
      case ObjPref(c, _, _) =>
        match c.decode(m[n])
        case Some(o) => Ok(Some(Obj(o)))
        case None => Err(Serialization(m[n]))
  }

  /** setValue over the node's entries m: null removes the name, a value stores its text. */
  function WriteEntry<O>(m: map<string, string>, p: Pref<O>, v: Option<Value<O>>): map<string, string>
    requires p.name.Some? && (v.Some? ==> Fits(p, v.value))
  {
    if v.None? then m - {p.name.value} else m[p.name.value := Encoded(p, v.value)]
  }

  /** The construction loop: each old key removed in turn. */
  function RemoveAll(m: map<string, string>, oldKeys: seq<string>): map<string, string>
  {
    if oldKeys == [] then m else RemoveAll(m, oldKeys[..|oldKeys| - 1]) - {oldKeys[|oldKeys| - 1]}
  }

  // ---------------------------------------------------------------------------
  // Properties of the typed properties

  /** Removing the old keys drops exactly the listed names and keeps every other entry. */
  lemma {:induction false} RemoveAllRemovesListed(m: map<string, string>, oldKeys: seq<string>)
    ensures RemoveAll(m, oldKeys).Keys == m.Keys - set k | k in oldKeys
    ensures forall n :: n in RemoveAll(m, oldKeys) ==> RemoveAll(m, oldKeys)[n] == m[n]
  {
    if oldKeys != [] {
      var init := oldKeys[..|oldKeys| - 1];
      RemoveAllRemovesListed(m, init);
      assert (set k | k in oldKeys) == (set k | k in init) + {oldKeys[|oldKeys| - 1]} by {
        assert oldKeys == init + [oldKeys[|oldKeys| - 1]];
      }
    }
  }

  /** A name the node does not hold reads as the declared default, for every kind. */
  lemma AbsentReadsDefault<O>(m: map<string, string>, p: Pref<O>)
    requires p.name.Some? && p.name.value !in m
    ensures ReadEntry(m, p) == Ok(Default(p))
  {
  }

  /** A string property reads back the string last set. */
  lemma StringSetThenGet<O>(m: map<string, string>, p: Pref<O>, v: string)
    requires p.StringPref? && p.name.Some?
    ensures WriteEntry(m, p, Some(Str(v)))[p.name.value] == v
    ensures ReadEntry(WriteEntry(m, p, Some(Str(v))), p) == Ok(Some(Str(v)))
  {
  }

  /** An int property reads back the int last set: its decimal text parses to it. */
  lemma IntSetThenGet<O>(m: map<string, string>, p: Pref<O>, v: Int32)
    requires p.IntPref? && p.name.Some?
    ensures WriteEntry(m, p, Some(Int(v)))[p.name.value] == IntToString(v)
    ensures ReadEntry(WriteEntry(m, p, Some(Int(v))), p) == Ok(Some(Int(v)))
  {
    PutIntGetInt(m, p.name.value, v, 0);
  }

  /** A boolean property reads back the boolean last set. */
  lemma BoolSetThenGet<O>(m: map<string, string>, p: Pref<O>, v: bool)
    requires p.BoolPref? && p.name.Some?
    ensures WriteEntry(m, p, Some(Bool(v)))[p.name.value] == BoolToString(v)
    ensures ReadEntry(WriteEntry(m, p, Some(Bool(v))), p) == Ok(Some(Bool(v)))
  {
    PutBooleanGetBoolean(m, p.name.value, v, false);
  }

  /**
   * An object property stores the encoding of the value set, and reads back
   * decode(encode(v)), which is v itself when the codec round-trips.
   */
  lemma ObjSetThenGet<O(!new)>(m: map<string, string>, c: Codec<O>, default: Option<O>, name: string, v: O)
    ensures WriteEntry(m, ObjPref(c, default, Some(name)), Some(Obj(v)))[name] == c.encode(v)
    ensures ReadEntry(WriteEntry(m, ObjPref(c, default, Some(name)), Some(Obj(v))), ObjPref(c, default, Some(name)))
            == (match c.decode(c.encode(v)) case Some(o) => Ok(Some(Obj(o))) case None => Err(Serialization(c.encode(v))))
    ensures RoundTrips(c) ==>
            ReadEntry(WriteEntry(m, ObjPref(c, default, Some(name)), Some(Obj(v))), ObjPref(c, default, Some(name))) == Ok(Some(Obj(v)))
  {
  }

  /** Any property reads back the value last set (an object one when its codec round-trips). */
  lemma SetThenGet<O(!new)>(m: map<string, string>, p: Pref<O>, v: Value<O>)
    requires p.name.Some? && Fits(p, v)
    requires p.ObjPref? ==> RoundTrips(p.codec)
    ensures ReadEntry(WriteEntry(m, p, Some(v)), p) == Ok(Some(v))
  {
    match p
    case StringPref(_, _) => StringSetThenGet(m, p, v.s);
    case IntPref(_, _) => IntSetThenGet(m, p, v.i);
    case BoolPref(_, _) => BoolSetThenGet(m, p, v.b);
    case ObjPref(c, d, n) => ObjSetThenGet(m, c, d, n.value, v.o);
  }

  /** Setting null removes the name, so the property reads as its default again. */
  lemma SetNullThenGet<O>(m: map<string, string>, p: Pref<O>)
    requires p.name.Some?
    ensures p.name.value !in WriteEntry(m, p, None)
    ensures ReadEntry(WriteEntry(m, p, None), p) == Ok(Default(p))
  {
  }

  /** A set changes only its own name's entry: every other entry and every other property's read are as before. */
  lemma SetTouchesOnlyItsName<O>(m: map<string, string>, p: Pref<O>, v: Option<Value<O>>, q: Pref<O>)
    requires p.name.Some? && (v.Some? ==> Fits(p, v.value))
    requires q.name.Some? && q.name != p.name
    ensures forall n :: n != p.name.value ==> (n in WriteEntry(m, p, v) <==> n in m)
    ensures forall n :: n != p.name.value && n in m ==> WriteEntry(m, p, v)[n] == m[n]
    ensures ReadEntry(WriteEntry(m, p, v), q) == ReadEntry(m, q)
  {
    var w := WriteEntry(m, p, v);
    var n := q.name.value;
    assert n in w <==> n in m;
    if n in m {
      assert w[n] == m[n];
    }
  }

  // ---------------------------------------------------------------------------
  // The node

  class PrefNode {
    const store: Store
    const key: string
    var handle: Option<Handle>  // the lazily acquired `prefs`

    ghost predicate Valid()
      reads this, store
    {
      && store.Valid()
      && (handle.Some? ==> handle.value.path == key && handle.value.id < store.nextId)
    }

    /** No handle yet (the next access acquires a live one), or a cached handle that is still live. */
    predicate Usable()
      reads this, store
    {
      handle.None? || store.IsLive(handle.value)
    }

    /** The entries of the node this key names now. */
    function Entries(): map<string, string>
      reads store
    {
      EntriesIn(store.nodes, key)
    }

    /**
     * What getValue on property p returns in the current state. `name!! !in
     * prefs.keys()` evaluates its right-hand side first, so a removed handle is
     * reported before a missing name.
     */
    ghost function Read<O>(p: Pref<O>): (r: Result<Option<Value<O>>>)
      reads this, store
      ensures r.Ok? ==> p.name.Some? && Usable()
      ensures r.Ok? && r.value.Some? ==> Fits(p, r.value.value)
    {
      if !Usable() then Err(IllegalState(NodeRemovedMessage))
      else if p.name.None? then Err(NullPointer)
      else ReadEntry(Entries(), p)
    }

    /** After an access through `prefs`: a handle is cached, an earlier one is kept, and usability is unchanged. */
    twostate predicate Acquired()
      reads this, store
    {
      && Valid()
      && handle.Some?
      && (old(handle).Some? ==> handle == old(handle))
      && (old(handle).None? ==> store.IsLive(handle.value))
      && Usable() == old(Usable())
      && old(store.nextId) <= store.nextId
    }

    /** PrefNode(key, oldKeys): removes every old key from the node, acquiring the handle if there is one to remove. */
    constructor (store: Store, key: string, oldKeys: seq<string>)
      requires store.Valid()
      modifies store
      ensures Valid() && Usable() && this.store == store && this.key == key
      ensures handle.Some? <==> |oldKeys| > 0
      ensures Entries() == RemoveAll(old(EntriesIn(store.nodes, key)), oldKeys)
      ensures AgreeOutside(old(store.nodes), store.nodes, {key}) && store.IdsAdvance()
    {
      this.store := store;
      this.key := key;
      handle := None;
      new;
      for i := 0 to |oldKeys|
        invariant Valid() && Usable() && (handle.Some? <==> i > 0)
        invariant Entries() == RemoveAll(old(EntriesIn(store.nodes, key)), oldKeys[..i])
        invariant AgreeOutside(old(store.nodes), store.nodes, {key}) && store.IdsAdvance()
      {
        var h := Prefs();
        var _ := store.Remove(h, oldKeys[i]);
        assert oldKeys[..i + 1][..i] == oldKeys[..i];
      }
      assert oldKeys[..|oldKeys|] == oldKeys;
    }

    /** The lazy `prefs`: the cached handle, acquired on first use and never replaced. */
    method Prefs() returns (h: Handle)
      requires Valid()
      modifies this`handle, store
      ensures Acquired() && handle == Some(h)
      ensures old(handle).Some? ==> store.nodes == old(store.nodes) && store.nextId == old(store.nextId)
      ensures AgreeOutside(old(store.nodes), store.nodes, {})
    {
      if handle.Some? {
        h := handle.value;
      } else {
        h := store.Node(key);
        handle := Some(h);
      }
    }

    /**
     * getValue of a string, int, boolean or object property. The handle is
     * acquired and its keys listed before the name is checked; reading never
     * changes an entry.
     */
    method Get<O>(p: Pref<O>) returns (r: Result<Option<Value<O>>>)
      requires Valid()
      modifies this`handle, store
      ensures r == old(Read(p))
      ensures Acquired()
      ensures old(handle).Some? ==> store.nodes == old(store.nodes)
      ensures AgreeOutside(old(store.nodes), store.nodes, {})
    {
      var h := Prefs();
      var keys := store.Keys(h);
      if keys.Err? {
        return Err(keys.error);
      }
      if p.name.None? {
        return Err(NullPointer);
      }
      var n := p.name.value;
      if n !in keys.value {
        return Ok(Default(p));
      }
      match p
      case StringPref(_, _) =>
        var g := store.Get(h, n, None);
        r := match g case Ok(s) => Ok(if s.Some? then Some(Str(s.value)) else None) case Err(e) => Err(e);
      case IntPref(_, _) =>
        var g := store.GetInt(h, n, 0);
        r := match g case Ok(i) => Ok(Some(Int(i))) case Err(e) => Err(e);
      case BoolPref(_, _) =>
        var g := store.GetBoolean(h, n, false);
        r := match g case Ok(b) => Ok(Some(Bool(b))) case Err(e) => Err(e);
      case ObjPref(c, _, _) =>
        var g := store.Get(h, n, None);
        r := match g
          case Ok(Some(s)) => (match c.decode(s) case Some(o) => Ok(Some(Obj(o))) case None => Err(Serialization(s)))
          case Ok(None) => Err(NullPointer)
          case Err(e) => Err(e);
    }

    /**
     * setValue of a string, int, boolean or object property: null removes the
     * entry, any other value is stored. The handle is touched before the name is
     * checked.
     */
    method Set<O>(p: Pref<O>, v: Option<Value<O>>) returns (r: Result<()>)
      requires Valid() && (v.Some? ==> Fits(p, v.value))
      modifies this`handle, store
      ensures Acquired()
      ensures r == if p.name.None? then Err(NullPointer)
                   else if old(Usable()) then Ok(())
                   else Err(IllegalState(NodeRemovedMessage))
      ensures r.Ok? ==> Entries() == WriteEntry(old(Entries()), p, v)
      ensures AgreeOutside(old(store.nodes), store.nodes, if r.Ok? then {key} else {})
    {
      var h := Prefs();
      if p.name.None? {
        return Err(NullPointer);
      }
      ghost var acquired := store.nodes;
      var n := p.name.value;
      if v.None? {
        r := store.Remove(h, n);
      } else {
        match v.value
        case Str(s) => r := store.Put(h, n, s);
        case Int(i) => r := store.PutInt(h, n, i);
        case Bool(b) => r := store.PutBoolean(h, n, b);
        case Obj(o) => r := store.Put(h, n, p.codec.encode(o));
      }
      AgreeOutsideTransitive(old(store.nodes), acquired, store.nodes, {key});
    }

    /**
     * delete(), as assumed for a later revision (the handle of
     * pref.kt:19 is a lazy val that cannot be reset): removes the node the key
     * names now and forgets the handle, so the next access acquires a fresh,
     * empty node. It never fails, however often it is called.
     */
    method Delete()
      requires Valid()
      modifies this`handle, store
      ensures Valid() && handle.None? && Usable()
      ensures key !in store.nodes && Entries() == map[]
      ensures AgreeOutside(old(store.nodes), store.nodes, {key}) && store.IdsAdvance()
    {
      var h := store.Node(key);
      var _ := store.RemoveNode(h);
      handle := None;
    }
  }

  /**
   * A property without a name, read through a handle whose node another
   * PrefNode on the same key has deleted: listing the keys fails first, so the
   * read raises the removed-node IllegalStateException rather than an NPE.
   */
  method UnnamedReadOnRemovedNode() returns (r: Result<Option<Value<()>>>)
    ensures r == Err(IllegalState(NodeRemovedMessage))
  {
    var store := new Store();
    var node := new PrefNode(store, "app.window", ["obsolete"]);
    var other := new PrefNode(store, "app.window", []);
    other.Delete();
    var unnamed: Pref<()> := StringPref(None, None);
    r := node.Get(unnamed);
  }
}
