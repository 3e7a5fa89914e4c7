/**
 * SafePref: a handle on one preference node, identified by its key, that caches
 * the node handle and, when listing keys finds the handle removed, re-acquires it
 * once. Every other operation goes straight to the cached handle.
 */
module SafePrefs {
  import opened Outcomes
  import opened Backend

  /** The runtime kind of a value handed to getReified or putBool. */
  datatype Primitive =
    | PString(s: string)
    | PInt(i: Int32)
    | PBoolean(b: bool)
    | POther(shown: string)  // any other class; `shown` is its toString()

  predicate SameKind(a: Primitive, b: Primitive)
  {
    (a.PString? && b.PString?) || (a.PInt? && b.PInt?) || (a.PBoolean? && b.PBoolean?) || (a.POther? && b.POther?)
  }

  /** Kotlin's `t in s` on strings: t occurs somewhere in s. */
  predicate Contains(s: string, t: string)
    decreases |s|
  {
    |t| <= |s| && (s[..|t|] == t || Contains(s[1..], t))
  }

  const RemovedPhrase: string := "Node has been removed"

  /** The failures after which `keys` re-acquires the node and tries again. */
  predicate Recovers(f: Failure)
  {
    f.IllegalState? && Contains(f.message, RemovedPhrase)
  }

  lemma {:induction false} ContainsInfix(a: string, t: string, b: string)
    ensures Contains(a + t + b, t)
    decreases |a|
  {
    if a == [] {
      assert (a + t + b)[..|t|] == t;
    } else {
      ContainsInfix(a[1..], t, b);
      assert (a + t + b)[1..] == a[1..] + t + b;
    }
  }

  /**
   * `keys` recovers exactly from IllegalStateExceptions whose message mentions the
   * removed node, wherever the phrase stands, and from nothing else: in particular
   * not from removeNode's "Node already removed." nor from any other exception kind.
   */
  lemma RecoveryIsByMessage(prefix: string, suffix: string)
    ensures Recovers(IllegalState(prefix + RemovedPhrase + suffix))
    ensures Recovers(IllegalState(NodeRemovedMessage))
    ensures !Recovers(IllegalState(NodeAlreadyRemovedMessage))
    ensures !Recovers(IllegalState(""))
    ensures forall f: Failure :: !f.IllegalState? ==> !Recovers(f)
  {
    ContainsInfix(prefix, RemovedPhrase, suffix);
    ContainsInfix("", RemovedPhrase, ".");
    assert NodeRemovedMessage == "" + RemovedPhrase + ".";
    assert NodeAlreadyRemovedMessage[..|RemovedPhrase|] != RemovedPhrase by {
      assert NodeAlreadyRemovedMessage[5] != RemovedPhrase[5];
    }
  }

  /** getReified: the read that matches the default's kind, or an error for any other kind. */
  function Reified(m: map<string, string>, name: string, default: Primitive): (r: Result<Primitive>)
    ensures r.Err? <==> default.POther?
    ensures r.Ok? ==> SameKind(r.value, default)
    ensures r.Ok? && name !in m ==> r.value == default
  {
    match default
    case PString(d) => Ok(PString(if name in m then m[name] else d))
    case PInt(d) => Ok(PInt(GetIntFrom(m, name, d)))
    case PBoolean(d) => Ok(PBoolean(GetBooleanFrom(m, name, d)))
    case POther(shown) => Err(IllegalState("tried to get " + shown + " from pref node?"))
  }

  /** putBool: the entries after the write that matches the value's kind, or an error for any other kind. */
  function PutPrimitive(m: map<string, string>, name: string, value: Primitive): Result<map<string, string>>
  {
    match value
    case PString(s) => Ok(m[name := s])
    case PInt(i) => Ok(m[name := IntToString(i)])
    case PBoolean(b) => Ok(m[name := BoolToString(b)])
    case POther(shown) => Err(IllegalState("tried to put " + shown + " into pref node?"))
  }

  /**
   * A value written by putBool is read back by getReified with a default of the
   * same kind; every other entry is left as it was.
   */
  lemma PutBoolThenGetReified(m: map<string, string>, name: string, value: Primitive, default: Primitive)
    requires SameKind(value, default) && !value.POther?
    ensures PutPrimitive(m, name, value).Ok?
    ensures Reified(PutPrimitive(m, name, value).value, name, default) == Ok(value)
    ensures forall n :: n != name ==> GetFrom(PutPrimitive(m, name, value).value, n, None) == GetFrom(m, n, None)
  {
    match value
    case PString(_) =>
    case PInt(i) => PutIntGetInt(m, name, i, default.i);
    case PBoolean(b) => PutBooleanGetBoolean(m, name, b, default.b);
  }

  /** The JVM class a putBool value of this kind is reified as. */
  function ReifiedClass(value: Primitive): string
  {
    match value
    case PString(_) => "java.lang.String"
    case PInt(_) => "java.lang.Integer"
    case PBoolean(_) => "java.lang.Boolean"
    case POther(_) => "java.lang.Object"
  }

  class SafePref {
    const store: Store
    const key: string
    var cache: Option<Handle>

    ghost predicate Valid()
      reads this, store
    {
      && store.Valid()
      && (cache.Some? ==> cache.value.path == key && cache.value.id < store.nextId)
    }

    /** No handle yet (the next access acquires a live one), or a cached handle that is still live. */
    predicate Usable()
      reads this, store
    {
      cache.None? || store.IsLive(cache.value)
    }

    /** The entries of the node this key names now. */
    function Entries(): map<string, string>
      reads store
    {
      EntriesIn(store.nodes, key)
    }

    /**
     * What every access through the `prefs` getter does besides its own work: a
     * handle is cached afterwards, a handle cached before is kept, and acquiring
     * one changes no entries.
     */
    twostate predicate Acquired()
      reads this, store
    {
      && Valid()
      && cache.Some?
      && (old(cache).Some? ==> cache == old(cache))
      && (old(cache).None? ==> store.IsLive(cache.value))
      && Usable() == old(Usable())
      && old(store.nextId) <= store.nextId
    }

    constructor (store: Store, key: string)
      requires store.Valid()
      ensures this.store == store && this.key == key && cache == None
      ensures Valid()
    {
      this.store := store;
      this.key := key;
      cache := None;
    }

    /** The `prefs` getter: the cached handle, acquired and cached on first use. */
    method Prefs() returns (h: Handle)
      requires Valid()
      modifies this, store
      ensures Acquired() && cache == Some(h)
      ensures old(cache).Some? ==> unchanged(store)
      ensures AgreeOutside(old(store.nodes), store.nodes, {})
    {
      if cache.Some? {
        h := cache.value;
      } else {
        h := store.Node(key);
        cache := Some(h);
      }
    }

    /**
     * The `keys` getter. A removed cached handle is replaced by a freshly acquired
     * one, which is cached; the keys returned are always those of the node the key
     * names now.
     */
    method Keys() returns (r: Result<set<string>>)
      requires Valid()
      modifies this, store
      ensures Valid() && cache.Some? && store.IsLive(cache.value)
      ensures r == Ok(old(Entries()).Keys)
      ensures old(Usable()) ==> Acquired()
      ensures old(cache).Some? && old(store.IsLive(cache.value)) ==> cache == old(cache) && store.nodes == old(store.nodes)
      ensures old(cache).Some? && !old(store.IsLive(cache.value)) ==> cache != old(cache)
      ensures AgreeOutside(old(store.nodes), store.nodes, {}) && store.IdsAdvance()
    {
      var h := Prefs();
      var first := store.Keys(h);
      RecoveryIsByMessage("", "");
      if first.Ok? {
        r := first;
      } else if Recovers(first.error) {
        var p := store.Node(key);
        cache := Some(p);
        r := store.Keys(p);
      } else {
        r := first;
      }
    }

    method Get(name: string, def: Option<string>) returns (r: Result<Option<string>>)
      requires Valid()
      modifies this, store
      ensures Acquired() && AgreeOutside(old(store.nodes), store.nodes, {})
      ensures r == if old(Usable()) then Ok(GetFrom(old(Entries()), name, def)) else Err(IllegalState(NodeRemovedMessage))
    {
      var h := Prefs();
      r := store.Get(h, name, def);
    }

    method Put(name: string, value: string) returns (r: Result<()>)
      requires Valid()
      modifies this, store
      ensures Acquired()
      ensures r == if old(Usable()) then Ok(()) else Err(IllegalState(NodeRemovedMessage))
      ensures r.Ok? ==> Entries() == old(Entries())[name := value] && AgreeOutside(old(store.nodes), store.nodes, {key})
      ensures r.Err? ==> store.nodes == old(store.nodes)
    {
      var h := Prefs();
      r := store.Put(h, name, value);
    }

    method GetInt(name: string, def: Int32) returns (r: Result<Int32>)
      requires Valid()
      modifies this, store
      ensures Acquired() && AgreeOutside(old(store.nodes), store.nodes, {})
      ensures r == if old(Usable()) then Ok(GetIntFrom(old(Entries()), name, def)) else Err(IllegalState(NodeRemovedMessage))
    {
      var h := Prefs();
      r := store.GetInt(h, name, def);
    }

    method PutInt(name: string, value: Int32) returns (r: Result<()>)
      requires Valid()
      modifies this, store
      ensures Acquired()
      ensures r == if old(Usable()) then Ok(()) else Err(IllegalState(NodeRemovedMessage))
      ensures r.Ok? ==> Entries() == old(Entries())[name := IntToString(value)] && AgreeOutside(old(store.nodes), store.nodes, {key})
      ensures r.Err? ==> store.nodes == old(store.nodes)
    {
      var h := Prefs();
      r := store.PutInt(h, name, value);
    }

    method GetBoolean(name: string, def: bool) returns (r: Result<bool>)
      requires Valid()
      modifies this, store
      ensures Acquired() && AgreeOutside(old(store.nodes), store.nodes, {})
      ensures r == if old(Usable()) then Ok(GetBooleanFrom(old(Entries()), name, def)) else Err(IllegalState(NodeRemovedMessage))
    {
      var h := Prefs();
      r := store.GetBoolean(h, name, def);
    }

    method PutBoolean(name: string, value: bool) returns (r: Result<()>)
      requires Valid()
      modifies this, store
      ensures Acquired()
      ensures r == if old(Usable()) then Ok(()) else Err(IllegalState(NodeRemovedMessage))
      ensures r.Ok? ==> Entries() == old(Entries())[name := BoolToString(value)] && AgreeOutside(old(store.nodes), store.nodes, {key})
      ensures r.Err? ==> store.nodes == old(store.nodes)
    {
      var h := Prefs();
      r := store.PutBoolean(h, name, value);
    }

    /** removeNode(): removes the node; the cached handle is then stale. */
    method RemoveNode() returns (r: Result<()>)
      requires Valid()
      modifies this, store
      ensures Valid() && cache.Some? && (old(cache).Some? ==> cache == old(cache))
      ensures r == if old(Usable()) then Ok(()) else Err(IllegalState(NodeAlreadyRemovedMessage))
      ensures r.Ok? ==> key !in store.nodes && !Usable() && AgreeOutside(old(store.nodes), store.nodes, {key})
      ensures r.Err? ==> store.nodes == old(store.nodes)
      ensures store.IdsAdvance()
    {
      var h := Prefs();
      r := store.RemoveNode(h);
    }

    /** flush(): persistence is not modelled, so only the handle access remains. */
    method Flush()
      requires Valid()
      modifies this, store
      ensures Acquired() && AgreeOutside(old(store.nodes), store.nodes, {})
    {
      var _ := Prefs();
    }

    method Remove(name: string) returns (r: Result<()>)
      requires Valid()
      modifies this, store
      ensures Acquired()
      ensures r == if old(Usable()) then Ok(()) else Err(IllegalState(NodeRemovedMessage))
      ensures r.Ok? ==> Entries() == old(Entries()) - {name} && AgreeOutside(old(store.nodes), store.nodes, {key})
      ensures r.Err? ==> store.nodes == old(store.nodes)
    {
      var h := Prefs();
      r := store.Remove(h, name);
    }

    /** getReified: dispatches on the kind of the default before touching the node. */
    method GetReified(name: string, default: Primitive) returns (r: Result<Primitive>)
      requires Valid()
      modifies this, store
      ensures Valid() && AgreeOutside(old(store.nodes), store.nodes, {}) && store.IdsAdvance()
      ensures default.POther? ==> cache == old(cache) && store.nodes == old(store.nodes)
      ensures !default.POther? ==> Acquired()
      ensures r == if default.POther? || old(Usable()) then Reified(old(Entries()), name, default)
                   else Err(IllegalState(NodeRemovedMessage))
    {
      match default
      case PString(d) =>
        var g := Get(name, Some(d));
        r := match g case Ok(s) => Ok(PString(if s.Some? then s.value else d)) case Err(e) => Err(e);
      case PInt(d) =>
        var g := GetInt(name, d);
        r := match g case Ok(i) => Ok(PInt(i)) case Err(e) => Err(e);
      case PBoolean(d) =>
        var g := GetBoolean(name, d);
        r := match g case Ok(b) => Ok(PBoolean(b)) case Err(e) => Err(e);
      case POther(shown) =>
        r := Err(IllegalState("tried to get " + shown + " from pref node?"));
    }

    /** putBool, corrected: the write matching the value's kind, and a normal return. */
    method PutBool(name: string, value: Primitive) returns (r: Result<()>)
      requires Valid()
      modifies this, store
      ensures Valid()
      ensures value.POther? ==> r == Err(PutPrimitive(old(Entries()), name, value).error) && cache == old(cache) && store.nodes == old(store.nodes)
      ensures !value.POther? ==> Acquired() && r == if old(Usable()) then Ok(()) else Err(IllegalState(NodeRemovedMessage))
      ensures r.Ok? ==> Entries() == PutPrimitive(old(Entries()), name, value).value
      ensures AgreeOutside(old(store.nodes), store.nodes, {key}) && store.IdsAdvance()
    {
      match value
      case PString(s) => r := Put(name, s);
      case PInt(i) => r := PutInt(name, i);
      case PBoolean(b) => r := PutBoolean(name, b);
      case POther(shown) => r := Err(IllegalState("tried to put " + shown + " into pref node?"));
    }

    /**
     * putBool as written: the `when` evaluates to Unit and is then cast `as R`,
     * where R is reified as the value's own class; a String, Int or Boolean value
     * is therefore stored and the call then fails with a ClassCastException.
     */
    method PutBoolAsWritten(name: string, value: Primitive) returns (r: Result<()>)
      requires Valid()
      modifies this, store
      ensures Valid()
      ensures r.Err?
      ensures value.POther? ==> r == Err(PutPrimitive(old(Entries()), name, value).error) && cache == old(cache) && store.nodes == old(store.nodes)
      ensures !value.POther? ==> Acquired() && r == if old(Usable()) then Err(ClassCast(ReifiedClass(value))) else Err(IllegalState(NodeRemovedMessage))
      ensures !value.POther? && old(Usable()) ==> Entries() == PutPrimitive(old(Entries()), name, value).value
      ensures AgreeOutside(old(store.nodes), store.nodes, {key}) && store.IdsAdvance()
    {
      r := PutBool(name, value);
      if r.Ok? {
        r := Err(ClassCast(ReifiedClass(value)));
      }
    }
  }

  /** The repository's test: putInt("testInt", 3) on a new SafePref, then getInt("testInt", 0). */
  method SetAndGetProperty() returns (got: Result<Int32>)
    ensures got == Ok(3)
  {
    var store := new Store();
    var prop := new SafePref(store, "matt.pref.test.pref");
    var _ := prop.PutInt("testInt", 3);
    PutIntGetInt(map[], "testInt", 3, 0);
    got := prop.GetInt("testInt", 0);
  }

  /**
   * putBool as written stores a Boolean (getReified reads it back) and yet the
   * call itself ends in a ClassCastException.
   */
  method PutBoolRaisesAfterWriting() returns (put: Result<()>, got: Result<Primitive>)
    ensures put == Err(ClassCast("java.lang.Boolean"))
    ensures got == Ok(PBoolean(true))
  {
    var store := new Store();
    var pref := new SafePref(store, "app.window");
    put := pref.PutBoolAsWritten("maximized", PBoolean(true));
    got := pref.GetReified("maximized", PBoolean(false));
    PutBooleanGetBoolean(map[], "maximized", true, false);
  }

  /**
   * Two SafePrefs on different keys, each written under the same name: a write
   * through one leaves the other's cached handle live and its entries as they
   * were, so each reads back its own value.
   */
  method IndependentNodes() returns (got: Result<Int32>, gb: Result<Int32>)
    ensures got == Ok(1)
    ensures gb == Ok(2)
  {
    var store := new Store();
    var a := new SafePref(store, "app.window");
    var b := new SafePref(store, "app.editor");
    var _ := a.PutInt("width", 1);
    var _ := b.PutInt("width", 2);
    PutIntGetInt(map[], "width", 1, 0);
    got := a.GetInt("width", 0);
    PutIntGetInt(map[], "width", 2, 0);
    gb := b.GetInt("width", 0);
  }
}
