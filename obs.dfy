/**
 * The observable layer: namespace keys (PrefDomain), and a node whose properties
 * are live cells. A cell starts from the stored value, writes every change
 * through, and is reset to the stored value when the node is deleted. An
 * observable-object property caches one decoded object and saves it again on
 * every mutation.
 */
module ObsPrefs {
  import opened Outcomes
  import opened Backend
  import opened Prefs

  // ---------------------------------------------------------------------------
  // PrefDomain

  /** A namespace key. */
  datatype DomainKey = DomainKey(key: string)

  /** A PrefDomain: a namespace key that never ends with the separator. */
  type PrefDomain = d: DomainKey | !EndsWithDot(d.key) witness DomainKey("")

  /** The message of Kotlin's require(...) when its condition is false. */
  const FailedRequirement: string := "Failed requirement."

  predicate EndsWithDot(s: string)
  {
    |s| > 0 && s[|s| - 1] == '.'
  }

  /** PrefDomain(key): refuses a key that ends with ".". */
  function NewDomain(key: string): (r: Result<PrefDomain>)
    ensures r.Ok? <==> !EndsWithDot(key)
    ensures r.Ok? ==> r.value.key == key
    ensures r.Err? ==> r.error == IllegalArgument(FailedRequirement)
  {
    if EndsWithDot(key) then Err(IllegalArgument(FailedRequirement)) else Ok(DomainKey(key))
  }

  /** domain[name]: the domain keyed key + "." + name. */
  function Child(d: PrefDomain, name: string): Result<PrefDomain>
  {
    NewDomain(d.key + "." + name)
  }

  /** A child exists exactly for a non-empty name that does not end with ".", and its key extends the parent's. */
  lemma ChildSucceedsIff(d: PrefDomain, name: string)
    ensures Child(d, name).Ok? <==> name != "" && !EndsWithDot(name)
    ensures Child(d, name).Ok? ==> Child(d, name).value.key == d.key + "." + name
    ensures Child(d, name).Ok? ==> !EndsWithDot(Child(d, name).value.key)
  {
    var k := d.key + "." + name;
    if name != "" {
      assert k[|k| - 1] == name[|name| - 1];
    } else {
      assert k[|k| - 1] == '.';
    }
  }

  /** Indexing twice is indexing once by the dotted path: d[a][b] == d["a.b"]. */
  lemma ChildOfChild(d: PrefDomain, a: string, b: string)
    requires Child(d, a).Ok?
    ensures Child(Child(d, a).value, b) == Child(d, a + "." + b)
  {
    assert d.key + "." + a + "." + b == d.key + "." + (a + "." + b);
  }

  // ---------------------------------------------------------------------------
  // Delete and reset

  /** The entries left by resetting cells ps in order: each writes its default back. */
  function WriteBackDefaults<O>(m: map<string, string>, ps: seq<Pref<O>>): map<string, string>
    requires forall i :: 0 <= i < |ps| ==> ps[i].name.Some?
  {
    if ps == [] then m
    else WriteEntry(WriteBackDefaults(m, ps[..|ps| - 1]), ps[|ps| - 1], Default(ps[|ps| - 1]))
  }

  /** Names pairwise distinct. */
  predicate DistinctNames<O>(ps: seq<Pref<O>>)
  {
    forall i, j :: 0 <= i < j < |ps| ==> ps[i].name != ps[j].name
  }

  /** A name none of ps carries is left as it was by writing their defaults back. */
  lemma {:induction false} WriteBackKeepsOthers<O>(m: map<string, string>, ps: seq<Pref<O>>, n: string)
    requires forall i :: 0 <= i < |ps| ==> ps[i].name.Some?
    requires forall i :: 0 <= i < |ps| ==> ps[i].name != Some(n)
    ensures n in WriteBackDefaults(m, ps) <==> n in m
    ensures n in m ==> WriteBackDefaults(m, ps)[n] == m[n]
  {
    if ps != [] {
      WriteBackKeepsOthers(m, ps[..|ps| - 1], n);
    }
  }

  /**
   * After a delete, every reset cell reads its own default back from the node
   * (object defaults through a round-tripping codec).
   */
  lemma {:induction false} WriteBackReadsDefaults<O(!new)>(ps: seq<Pref<O>>)
    requires forall i :: 0 <= i < |ps| ==> ps[i].name.Some?
    requires DistinctNames(ps)
    requires forall i :: 0 <= i < |ps| && ps[i].ObjPref? ==> RoundTrips(ps[i].codec)
    ensures forall i :: 0 <= i < |ps| ==> ReadEntry(WriteBackDefaults(map[], ps), ps[i]) == Ok(Default(ps[i]))
  {
    if ps != [] {
      var init, last := ps[..|ps| - 1], ps[|ps| - 1];
      var m := WriteBackDefaults(map[], init);
      WriteBackReadsDefaults(init);
      forall i | 0 <= i < |ps|
        ensures ReadEntry(WriteEntry(m, last, Default(last)), ps[i]) == Ok(Default(ps[i]))
      {
        if i == |ps| - 1 {
          if Default(last).Some? {
            SetThenGet(m, last, Default(last).value);
          } else {
            SetNullThenGet(m, last);
          }
        } else {
          SetTouchesOnlyItsName(m, last, Default(last), ps[i]);
          assert ps[i] == init[i];
        }
      }
    }
  }

  // ---------------------------------------------------------------------------
  // Cells

  /**
   * An observable cell bound to one property of a node. It is initialised from
   * the property on first access (initialized), and each assignment to it is
   * written through to the property. The assignment listener is taken to fire on
   * every assignment, also of an unchanged value.
   */
  class ObsPref<O> {
    const node: PrefNode
    const pref: Pref<O>
    var initialized: bool
    var value: Option<Value<O>>

    /** The cell registers itself with its owner when constructed. */
    constructor (owner: ObsPrefNode<O>, pref: Pref<O>)
      requires owner.Valid() && pref.name.Some?
      requires forall c :: c in owner.registry ==> c.pref.name != pref.name
      modifies owner
      ensures owner.Valid()
      ensures owner.registry == old(owner.registry) + [this]
      ensures node == owner.node && this.pref == pref && !initialized
    {
      node := owner.node;
      this.pref := pref;
      initialized := false;
      value := None;
      new;
      owner.registry := owner.registry + [this];
    }

    /** What the cell holds: the stored value on first access, afterwards whatever it was last given. */
    method Get() returns (r: Result<Option<Value<O>>>)
      requires node.Valid() && pref.name.Some?
      modifies this, node, node.store
      ensures node.Valid() && node.Usable() == old(node.Usable()) && node.store.IdsAdvance()
      ensures r == if old(initialized) then Ok(old(value)) else old(node.Read(pref))
      ensures initialized == (old(initialized) || r.Ok?)
      ensures value == if r.Ok? then r.value else old(value)
      ensures AgreeOutside(old(node.store.nodes), node.store.nodes, {})
    {
      if initialized {
        return Ok(value);
      }
      r := node.Get(pref);
      if r.Ok? {
        initialized := true;
        value := r.value;
      }
    }

    /**
     * Assigns the cell, which then writes v through to its property: null
     * removes the entry, anything else is stored. If the write fails, the cell
     * keeps v.
     */
    method Set(v: Option<Value<O>>) returns (r: Result<()>)
      requires node.Valid() && pref.name.Some? && (v.Some? ==> Fits(pref, v.value))
      modifies this, node, node.store
      ensures node.Valid() && node.Usable() == old(node.Usable()) && node.store.IdsAdvance()
      ensures var first := if old(initialized) then Ok(old(value)) else old(node.Read(pref));
        && (first.Err? ==> r == Err(first.error) && initialized == old(initialized) && value == old(value))
        && (first.Ok? ==>
              && initialized && value == v
              && r == if old(node.Usable()) then Ok(()) else Err(IllegalState(NodeRemovedMessage)))
      ensures r.Ok? ==> node.Entries() == WriteEntry(old(node.Entries()), pref, v)
      ensures AgreeOutside(old(node.store.nodes), node.store.nodes, if r.Ok? then {node.key} else {})
    {
      var first := Get();
      if first.Err? {
        return Err(first.error);
      }
      value := v;
      r := node.Set(pref, v);
    }

    /** reset(): assigns the cell the property's current value, which is then written back. */
    method Reset() returns (r: Result<()>)
      requires node.Valid() && pref.name.Some?
      modifies this, node, node.store
      ensures node.Valid() && node.Usable() == old(node.Usable()) && node.store.IdsAdvance()
      ensures var now := old(node.Read(pref));
        && r == (if now.Ok? then Ok(()) else Err(now.error))
        && (now.Ok? ==>
              && initialized && value == now.value
              && node.Entries() == WriteEntry(old(node.Entries()), pref, now.value))
      ensures AgreeOutside(old(node.store.nodes), node.store.nodes, {node.key})
    {
      var first := Get();
      if first.Err? {
        return Err(first.error);
      }
      var now := node.Get(pref);
      if now.Err? {
        return Err(now.error);
      }
      r := Set(now.value);
    }
  }

  // ---------------------------------------------------------------------------
  // The node

  /**
   * An observable node: a PrefNode plus the registry of every cell created on it,
   * in creation order. Cells are only ever added. All object-kind cells of one
   * node share the object type O.
   */
  class ObsPrefNode<O> {
    const node: PrefNode
    var registry: seq<ObsPref<O>>

    ghost predicate Valid()
      reads this, node, node.store
    {
      && node.Valid()
      && (forall i :: 0 <= i < |registry| ==> registry[i].node == node && registry[i].pref.name.Some?)
      && DistinctNames(Declared())
    }

    /** The properties of the registered cells, in registration order. */
    ghost function Declared(): (ps: seq<Pref<O>>)
      reads this
      ensures |ps| == |registry|
      ensures forall i :: 0 <= i < |ps| ==> ps[i] == registry[i].pref
    {
      seq(|registry|, i requires 0 <= i < |registry| reads this => registry[i].pref)
    }

    /** ObsPrefNode(key, oldKeys): builds the node, removing the old keys. */
    constructor (store: Store, key: string, oldKeys: seq<string>)
      requires store.Valid()
      modifies store
      ensures Valid() && registry == [] && fresh(node)
      ensures node.store == store && node.key == key && node.Usable()
      ensures node.Entries() == RemoveAll(old(EntriesIn(store.nodes, key)), oldKeys)
      ensures AgreeOutside(old(store.nodes), store.nodes, {key}) && store.IdsAdvance()
    {
      node := new PrefNode(store, key, oldKeys);
      registry := [];
    }

    /** ObsPrefNode(domain): the node keyed by the domain, with no old keys. */
    constructor FromDomain(store: Store, domain: PrefDomain)
      requires store.Valid()
      modifies store
      ensures Valid() && registry == [] && fresh(node)
      ensures node.store == store && node.key == domain.key && node.Usable()
      ensures node.Entries() == old(EntriesIn(store.nodes, domain.key))
      ensures AgreeOutside(old(store.nodes), store.nodes, {domain.key}) && store.IdsAdvance()
    {
      node := new PrefNode(store, domain.key, []);
      registry := [];
    }

    /** string(default) bound to a property name: a registered string cell. */
    method StringObs(default: Option<string>, name: string) returns (c: ObsPref<O>)
      requires Valid() && forall i :: 0 <= i < |registry| ==> registry[i].pref.name != Some(name)
      modifies this
      ensures Valid() && fresh(c) && registry == old(registry) + [c]
      ensures c.node == node && c.pref == StringPref(default, Some(name)) && !c.initialized
    {
      c := new ObsPref(this, StringPref(default, Some(name)));
    }

    /** int(default) bound to a property name: a registered int cell. */
    method IntObs(default: Option<Int32>, name: string) returns (c: ObsPref<O>)
      requires Valid() && forall i :: 0 <= i < |registry| ==> registry[i].pref.name != Some(name)
      modifies this
      ensures Valid() && fresh(c) && registry == old(registry) + [c]
      ensures c.node == node && c.pref == IntPref(default, Some(name)) && !c.initialized
    {
      c := new ObsPref(this, IntPref(default, Some(name)));
    }

    /** bool(default) bound to a property name: a registered boolean cell. */
    method BoolObs(default: Option<bool>, name: string) returns (c: ObsPref<O>)
      requires Valid() && forall i :: 0 <= i < |registry| ==> registry[i].pref.name != Some(name)
      modifies this
      ensures Valid() && fresh(c) && registry == old(registry) + [c]
      ensures c.node == node && c.pref == BoolPref(default, Some(name)) && !c.initialized
    {
      c := new ObsPref(this, BoolPref(default, Some(name)));
    }

    /** obj(default) bound to a property name: a registered object cell. */
    method ObjObs(codec: Codec<O>, default: Option<O>, name: string) returns (c: ObsPref<O>)
      requires Valid() && forall i :: 0 <= i < |registry| ==> registry[i].pref.name != Some(name)
      modifies this
      ensures Valid() && fresh(c) && registry == old(registry) + [c]
      ensures c.node == node && c.pref == ObjPref(codec, default, Some(name)) && !c.initialized
    {
      c := new ObsPref(this, ObjPref(codec, default, Some(name)));
    }

    /** obsObj(default) bound to a property name: an observable-object property (not registered). */
    method ObsObj<S>(codec: Codec<S>, default: S, name: string) returns (p: ObsObjObsPref<S>)
      requires Valid()
      ensures fresh(p) && p.node == node && p.codec == codec && p.default == default && p.name == name
      ensures p.cached == null
    {
      p := new ObsObjObsPref(node, codec, default, name);
    }

    /**
     * delete(): deletes the node, then resets every registered cell in order.
     * Each cell ends up holding its default, which it has also written back.
     */
    method Delete()
      requires Valid()
      modifies node, node.store, set i | 0 <= i < |registry| :: registry[i]
      ensures Valid() && registry == old(registry) && node.Usable()
      ensures node.Entries() == WriteBackDefaults(map[], Declared())
      ensures forall i :: 0 <= i < |registry| ==> registry[i].initialized && registry[i].value == Default(registry[i].pref)
      ensures AgreeOutside(old(node.store.nodes), node.store.nodes, {node.key}) && node.store.IdsAdvance()
    {
      node.Delete();
      for i := 0 to |registry|
        invariant node.Valid() && node.Usable() && node.store.IdsAdvance()
        invariant node.Entries() == WriteBackDefaults(map[], Declared()[..i])
        invariant forall j :: 0 <= j < i ==> registry[j].initialized && registry[j].value == Default(registry[j].pref)
        invariant AgreeOutside(old(node.store.nodes), node.store.nodes, {node.key})
      {
        var cell := registry[i];
        var done := Declared()[..i];
        WriteBackKeepsOthers(map[], done, cell.pref.name.value);
        assert node.Read(cell.pref) == Ok(Default(cell.pref));
        assert forall j :: 0 <= j < i ==> registry[j] != cell;
        var _ := cell.Reset();
        assert Declared()[..i + 1][..i] == done;
      }
      assert Declared()[..|registry|] == Declared();
    }
  }

  // ---------------------------------------------------------------------------
  // Observable objects

  /** An object whose state can change and which tells its observers when it does. */
  class ObservableObject<S> {
    var state: S

    constructor (state: S)
      ensures this.state == state
    {
      this.state := state;
    }
  }

  /**
   * An observable-object property: read once from the node (decoded, or a new
   * object from the default when the name is absent), cached, and saved again
   * whenever it changes.
   */
  class ObsObjObsPref<S> {
    const node: PrefNode
    const codec: Codec<S>
    const default: S
    const name: string
    var cached: ObservableObject?<S>

    constructor (node: PrefNode, codec: Codec<S>, default: S, name: string)
      ensures this.node == node && this.codec == codec && this.default == default && this.name == name
      ensures cached == null
    {
      this.node := node;
      this.codec := codec;
      this.default := default;
      this.name := name;
      cached := null;
    }

    /** The node-side property: an object property whose default is never null. */
    function Property(): Pref<S>
    {
      ObjPref(codec, Some(default), Some(name))
    }

    /**
     * The property's value: on first read a fresh object holding the stored
     * state, afterwards the very same object.
     */
    method Get() returns (r: Result<ObservableObject<S>>)
      requires node.Valid()
      modifies this, node, node.store
      ensures node.Valid() && node.Usable() == old(node.Usable()) && node.store.IdsAdvance()
      ensures old(cached) != null ==> r == Ok(old(cached)) && cached == old(cached)
      ensures old(cached) == null ==> match old(node.Read(Property()))
        case Ok(v) => v.Some? && v.value.Obj? && r.Ok? && fresh(r.value) && r.value.state == v.value.o && cached == r.value
        case Err(e) => r == Err(e) && cached == null
      ensures AgreeOutside(old(node.store.nodes), node.store.nodes, {})
    {
      if cached != null {
        return Ok(cached);
      }
      var g := node.Get(Property());
      match g
      case Err(e) =>
        r := Err(e);
      case Ok(v) =>
        var o := new ObservableObject(v.value.o);
        cached := o;
        r := Ok(o);
    }

    /** save(): stores the encoding of the cached object's current state under the name. */
    method Save() returns (r: Result<()>)
      requires node.Valid() && cached != null
      modifies node, node.store
      ensures node.Valid() && node.Usable() == old(node.Usable()) && node.store.IdsAdvance()
      ensures r == if old(node.Usable()) then Ok(()) else Err(IllegalState(NodeRemovedMessage))
      ensures r.Ok? ==> node.Entries() == old(node.Entries())[name := codec.encode(cached.state)]
      ensures AgreeOutside(old(node.store.nodes), node.store.nodes, if r.Ok? then {node.key} else {})
    {
      r := node.Set(Property(), Some(Obj(cached.state)));
    }

    /** A mutation of the cached object: its state becomes s and the observer saves it. */
    method Mutate(s: S) returns (r: Result<()>)
      requires node.Valid() && cached != null
      modifies cached, node, node.store
      ensures cached.state == s && node.Valid() && node.Usable() == old(node.Usable()) && node.store.IdsAdvance()
      ensures r == if old(node.Usable()) then Ok(()) else Err(IllegalState(NodeRemovedMessage))
      ensures r.Ok? ==> node.Entries() == old(node.Entries())[name := codec.encode(s)]
      ensures AgreeOutside(old(node.store.nodes), node.store.nodes, if r.Ok? then {node.key} else {})
    {
      cached.state := s;
      r := Save();
    }
  }

  /**
   * An int cell with default 7: setting it to 5 stores "5", which the node reads
   * back as 5; after delete() the cell holds 7 again.
   */
  method SetThenDeleteScenario() returns (stored: Result<Option<Value<()>>>, afterDelete: Result<Option<Value<()>>>)
    ensures stored == Ok(Some(Int(5)))
    ensures afterDelete == Ok(Some(Int(7)))
  {
    var store := new Store();
    var window := new ObsPrefNode<()>(store, "app.window", []);
    assert window.node.Entries() == map[];
    var width := window.IntObs(Some(7), "width");
    var widthPref: Pref<()> := IntPref(Some(7), Some("width"));
    assert width.node.Read(widthPref) == Ok(Some(Int(7)));
    var written := width.Set(Some(Int(5)));
    assert written.Ok?;
    IntSetThenGet(map[], widthPref, 5);
    stored := window.node.Get(widthPref);
    window.Delete();
    assert window.registry[0] == width;
    afterDelete := width.Get();
  }

  /** The sweep of old node names: each named node is removed, every other node is left as it was. */
  method RemoveOldNodes(store: Store, oldNames: seq<string>)
    requires store.Valid()
    modifies store
    ensures store.Valid() && store.IdsAdvance()
    ensures forall n :: n in oldNames ==> n !in store.nodes
    ensures AgreeOutside(old(store.nodes), store.nodes, set n | n in oldNames)
  {
    for i := 0 to |oldNames|
      invariant store.Valid() && store.IdsAdvance()
      invariant forall j :: 0 <= j < i ==> oldNames[j] !in store.nodes
      invariant AgreeOutside(old(store.nodes), store.nodes, set n | n in oldNames[..i])
    {
      var h := store.Node(oldNames[i]);
      var _ := store.RemoveNode(h);
    }
    assert oldNames[..|oldNames|] == oldNames;
  }

  /**
   * The sweep of an old namespace: "app.window.v1" holds data, the current node
   * "app.window" has a cell set to 5. Sweeping ["app.window.v1"] empties the old
   * namespace, and the current node still reads 5 through its cached handle.
   */
  method SweepKeepsCurrentNode() returns (legacy: map<string, string>, kept: Result<Option<Value<()>>>)
    ensures legacy == map[]
    ensures kept == Ok(Some(Int(5)))
  {
    var store := new Store();
    var v1 := new PrefNode(store, "app.window.v1", []);
    var widthPref: Pref<()> := IntPref(Some(7), Some("width"));
    var _ := v1.Set(widthPref, Some(Int(3)));
    var window := new ObsPrefNode<()>(store, "app.window", []);
    var width := window.IntObs(Some(7), "width");
    var written := width.Set(Some(Int(5)));
    assert written.Ok?;
    IntSetThenGet(map[], widthPref, 5);
    RemoveOldNodes(store, ["app.window.v1"]);
    legacy := EntriesIn(store.nodes, "app.window.v1");
    kept := window.node.Get(widthPref);
  }
}
