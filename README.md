# pref — a Dafny model of a typed preference store

The repository `mgroth0/pref` is a typed preference layer over `java.util.prefs`.
This project models its three layers and proves properties about them:

- **SafePref** (`safepref.dfy`, module `SafePrefs`) is a handle on one preference
  node. It caches the node handle on first use. When listing the keys finds the
  handle removed, it re-acquires the handle once. `getReified` and `putBool`
  dispatch on the runtime kind of a value (String, Int or Boolean).
- **PrefNode** (`pref.dfy`, module `Prefs`) binds typed properties (string, int,
  boolean, serialized object) to the entries of one node. An absent name reads as
  the declared default. Writing null removes the entry, and writing a value
  stores its text. Constructing the node removes a list of obsolete keys.
- **ObsPrefNode** (`obs.dfy`, module `ObsPrefs`) covers three things:
  - namespace keys (`PrefDomain`, whose key never ends with ".");
  - live cells that are registered with their node, start from the stored
    value, write every change through, and are reset when the node is deleted;
  - observable-object properties, which cache one decoded object and save it
    again on every mutation.

The store underneath (`backend.dfy`, module `Backend`) is an in-memory model of
the `java.util.prefs` user tree:

- Each node maps entry names to stored strings.
- `putInt` stores `Integer.toString`, and `getInt` parses that text back.
- `putBoolean` stores "true"/"false", and `getBoolean` compares case-insensitively.
- A handle records the path and the incarnation of the node it was issued for.
  On a handle whose node has since been removed, `keys`/`get`/`put`/`remove`
  raise `IllegalStateException("Node has been removed.")`, and `removeNode`
  raises "Node already removed.".

Exceptions are values of `Outcomes.Failure`, and every fallible operation
returns `Outcomes.Result`. Kotlin's `!!` on null becomes `NullPointer`,
`require` becomes `IllegalArgument("Failed requirement.")`, `error(...)`
becomes `IllegalState`, and a decode failure becomes `Serialization`.

Assumptions the model makes where the code leaves something open:

- `obs.kt` calls members this revision's `pref.kt` lacks:
  - `PrefNode(key, oldKeys, json)`
  - `BoolPref`
  - `delete()`
  - `ObsObjPref` with `get()`/`putIntoNode`

  `BoolPref` and `ObsObjPref` are modelled by analogy:
  - `BoolPref` follows `IntPref`, with `getBoolean(name, false)` and `putBoolean`.
  - `ObsObjPref` is an object property whose default is never null: `get()`
    decodes the stored text or returns the default, and `putIntoNode` stores
    the encoding.

  `delete()` is an assumption about a later revision of `PrefNode`,
  not an analogy. In this revision's `pref.kt:19` the handle `prefs` is a `lazy` val,
  which can never be reset. The model assumes a `delete()` that removes the
  node the key names and drops the cached handle, so the next access acquires
  a new, empty node, and that never raises, however often it is called. With the
  lazy handle of `pref.kt:19`, every access after a removal would raise
  `IllegalStateException` instead (see "## Left out").
- Kotlin evaluation order is kept:
  - `getValue` tests `name!! !in prefs.keys()`, and Kotlin evaluates the
    right-hand side of `!in` first. So `prefs` is acquired and its keys are
    listed before `name!!` is checked: on a removed handle a null name gives
    `IllegalStateException`, not `NullPointerException`.
  - `setValue` evaluates the `prefs` receiver first.
- A cell's assignment listener (`onChange`) is taken to fire on every
  assignment, including one of an unchanged value. So `reset()` writes the value
  it reads back to the store.
- `ObsPref.Get` returns the value held by the cell, that is `getValue(...).value`.
  The observable property object itself is not modelled.
- The object-kind cells of one `ObsPrefNode` share one object type `O`.
- `putBool`'s type argument `R` is taken to be inferred as the value's own class
  (String, Int or Boolean), as at an ordinary call site.

## Model

| member | source | states |
|---|---|---|
| Backend.DecimalRoundTrip | src/jvmMain/kotlin/matt/pref/safepref/safepref.kt:28-29 | the decimal text of a natural number consists of digits and denotes that number |
| Backend.ParseIntRoundTrip | src/jvmMain/kotlin/matt/pref/safepref/safepref.kt:28-29 | the text putInt stores for any 32-bit int parses back to that int |
| Backend.ParseBoolRoundTrip | src/jvmMain/kotlin/matt/pref/safepref/safepref.kt:31-32 | the text putBoolean stores reads back as the same boolean |
| Backend.PutIntGetInt | src/jvmMain/kotlin/matt/pref/safepref/safepref.kt:28-29 | after putInt(name, v), getInt(name, d) returns v for every default d |
| Backend.PutBooleanGetBoolean | src/jvmMain/kotlin/matt/pref/safepref/safepref.kt:31-32 | after putBoolean(name, b), getBoolean(name, d) returns b for every default d |
| SafePrefs.ContainsInfix | src/jvmMain/kotlin/matt/pref/safepref/safepref.kt:15 | Kotlin's `in` on strings finds a phrase wherever it stands in the message |
| SafePrefs.RecoveryIsByMessage | src/jvmMain/kotlin/matt/pref/safepref/safepref.kt:14-21 | keys recovers from an IllegalStateException exactly when its message contains "Node has been removed". It does so for "Node has been removed." and not for "Node already removed.", an empty message or any other exception kind |
| SafePrefs.Reified | src/jvmMain/kotlin/matt/pref/safepref/safepref.kt:38-44 | getReified fails exactly for a default that is not a String, Int or Boolean. Otherwise the result has the default's kind, and an absent name yields the default |
| SafePrefs.PutBoolThenGetReified | src/jvmMain/kotlin/matt/pref/safepref/safepref.kt:38-53 | a String/Int/Boolean written by putBool is read back by getReified with a same-kind default, and every other entry is unchanged |
| SafePrefs.SafePref.constructor | src/jvmMain/kotlin/matt/pref/safepref/safepref.kt:5-6 | a new SafePref has no cached handle |
| SafePrefs.SafePref.Prefs | src/jvmMain/kotlin/matt/pref/safepref/safepref.kt:7-8 | the first access caches a live handle for the key, later accesses return the cached handle, and no entry changes |
| SafePrefs.SafePref.Keys | src/jvmMain/kotlin/matt/pref/safepref/safepref.kt:10-23 | keys returns the entry names of the node the key names now. A removed cached handle is replaced by a fresh live one, and a live one is kept with the store untouched |
| SafePrefs.SafePref.Get | src/jvmMain/kotlin/matt/pref/safepref/safepref.kt:25 | get returns the stored text or the default through the cached handle, and fails when that handle is removed (no retry) |
| SafePrefs.SafePref.Put | src/jvmMain/kotlin/matt/pref/safepref/safepref.kt:26 | put stores exactly that entry of this node, or fails on a removed handle leaving the store unchanged |
| SafePrefs.SafePref.GetInt | src/jvmMain/kotlin/matt/pref/safepref/safepref.kt:28 | getInt parses the stored text, or returns the default when the name is absent or malformed, and fails on a removed handle |
| SafePrefs.SafePref.PutInt | src/jvmMain/kotlin/matt/pref/safepref/safepref.kt:29 | putInt stores the decimal text of the int and nothing else, or fails on a removed handle |
| SafePrefs.SafePref.GetBoolean | src/jvmMain/kotlin/matt/pref/safepref/safepref.kt:31 | getBoolean reads "true"/"false" in any case, or returns the default, and fails on a removed handle |
| SafePrefs.SafePref.PutBoolean | src/jvmMain/kotlin/matt/pref/safepref/safepref.kt:32 | putBoolean stores "true"/"false" and nothing else, or fails on a removed handle |
| SafePrefs.SafePref.RemoveNode | src/jvmMain/kotlin/matt/pref/safepref/safepref.kt:34 | removeNode deletes this node, which leaves the cached handle stale. Every other node keeps its entries and its incarnation, so handles on it stay live. On an already removed handle it fails with "Node already removed." |
| SafePrefs.SafePref.Flush | src/jvmMain/kotlin/matt/pref/safepref/safepref.kt:35 | flush acquires the handle and changes no entry |
| SafePrefs.SafePref.Remove | src/jvmMain/kotlin/matt/pref/safepref/safepref.kt:36 | remove deletes exactly that entry of this node, or fails on a removed handle |
| SafePrefs.SafePref.GetReified | src/jvmMain/kotlin/matt/pref/safepref/safepref.kt:38-44 | getReified returns the read that matches the default's kind. An unsupported kind fails before the node is touched |
| SafePrefs.SafePref.PutBool | src/jvmMain/kotlin/matt/pref/safepref/safepref.kt:46-53 | putBool (corrected) performs the write that matches the value's kind and returns normally, or fails for an unsupported kind without touching the node |
| SafePrefs.SafePref.PutBoolAsWritten | src/jvmMain/kotlin/matt/pref/safepref/safepref.kt:46-53 | putBool as written always fails. For a String/Int/Boolean value it first stores the value, then raises ClassCastException |
| SafePrefs.SetAndGetProperty | src/jvmTest/kotlin/matt/pref/test/test.kt:11-15 | putInt("testInt", 3) followed by getInt("testInt", 0) returns 3 |
| SafePrefs.PutBoolRaisesAfterWriting | src/jvmMain/kotlin/matt/pref/safepref/safepref.kt:46-53 | putBool("maximized", true) raises ClassCastException for java.lang.Boolean, and getReified then reads true |
| Prefs.ReadEntry | src/jvmMain/kotlin/matt/pref/pref.kt:48-107 | a successful read of a property yields a value of the property's own kind |
| Prefs.RemoveAllRemovesListed | src/jvmMain/kotlin/matt/pref/pref.kt:21-25 | removing the old keys one by one drops exactly the listed names and keeps every other entry unchanged |
| Prefs.AbsentReadsDefault | src/jvmMain/kotlin/matt/pref/pref.kt:48-107 | a name absent from the node reads as the declared default, for every kind |
| Prefs.StringSetThenGet | src/jvmMain/kotlin/matt/pref/pref.kt:74-89 | a string property stores the string set and reads it back |
| Prefs.IntSetThenGet | src/jvmMain/kotlin/matt/pref/pref.kt:101-116 | an int property stores the int's decimal text and reads back the int set |
| Prefs.BoolSetThenGet | src/jvmMain/kotlin/matt/pref/obs/obs.kt:209-214 | a boolean property stores "true"/"false" and reads back the boolean set |
| Prefs.ObjSetThenGet | src/jvmMain/kotlin/matt/pref/pref.kt:43-62 | an object property stores encode(v), and a later read returns decode(encode(v)) or a serialization failure. That is v itself when the codec round-trips |
| Prefs.SetThenGet | src/jvmMain/kotlin/matt/pref/pref.kt:48-116 | any property reads back the non-null value last set (object properties under a round-tripping codec) |
| Prefs.SetNullThenGet | src/jvmMain/kotlin/matt/pref/pref.kt:55-116 | setting null removes the name, so the property reads its default again |
| Prefs.SetTouchesOnlyItsName | src/jvmMain/kotlin/matt/pref/pref.kt:55-116 | a set changes only its own name's entry: every other entry, and every other property's read, is as before |
| Prefs.PrefNode.constructor | src/jvmMain/kotlin/matt/pref/pref.kt:18-25 | construction removes every old key from the node, leaves every other node's entries and incarnation as they were, and acquires the handle only if there is a key to remove |
| Prefs.PrefNode.Prefs | src/jvmMain/kotlin/matt/pref/pref.kt:19 | the lazy handle is acquired once and then reused, and acquiring it changes no entry |
| Prefs.PrefNode.Get | src/jvmMain/kotlin/matt/pref/pref.kt:48-107 | getValue acquires the handle and lists the keys first, so it fails with ISE on a removed handle before it fails with NPE for a null name. Otherwise it returns the default for an absent name and the entry read as the property's kind, fails on undecodable text, and never changes an entry or an existing node (a missing node is created empty, as `node(key)` does) |
| Prefs.PrefNode.Set | src/jvmMain/kotlin/matt/pref/pref.kt:55-116 | setValue removes the entry for null and stores the value's text otherwise. Every other entry of the node, and every other node with its incarnation, is left as it was. It fails with NPE for a null name after acquiring the handle, and fails on a removed handle |
| Prefs.PrefNode.Delete | src/jvmMain/kotlin/matt/pref/obs/obs.kt:66 | delete (an assumed revision, see above) removes the node and drops the cached handle. The node then reads as empty and stays usable, and every other node keeps its entries and incarnation |
| ObsPrefs.NewDomain | src/jvmMain/kotlin/matt/pref/obs/obs.kt:14-17 | a PrefDomain exists exactly for a key that does not end with ".", otherwise require fails. The PrefDomain type itself admits no other key |
| ObsPrefs.ChildSucceedsIff | src/jvmMain/kotlin/matt/pref/obs/obs.kt:14-19 | domain[name] has key key + "." + name and succeeds exactly when name is non-empty and does not end with "." |
| ObsPrefs.ChildOfChild | src/jvmMain/kotlin/matt/pref/obs/obs.kt:19 | indexing a domain twice equals indexing it once by the dotted path |
| ObsPrefs.WriteBackKeepsOthers | src/jvmMain/kotlin/matt/pref/obs/obs.kt:65-70 | resetting cells leaves every name no cell carries as it was |
| ObsPrefs.WriteBackReadsDefaults | src/jvmMain/kotlin/matt/pref/obs/obs.kt:65-89 | after delete and the resets, every cell's property reads its own default from the node (object defaults under a round-tripping codec) |
| ObsPrefs.ObsPref.constructor | src/jvmMain/kotlin/matt/pref/obs/obs.kt:73-76 | a new cell appends itself to its node's registry and is not yet initialised |
| ObsPrefs.ObsPref.Get | src/jvmMain/kotlin/matt/pref/obs/obs.kt:79-94 | on first access the cell holds the property's current value (the default when absent). Afterwards it holds what it was last given, and reading writes no entry |
| ObsPrefs.ObsPref.Set | src/jvmMain/kotlin/matt/pref/obs/obs.kt:79-85 | assigning the cell initialises it, then writes the value through to its property (null removes the entry), changing nothing else |
| ObsPrefs.ObsPref.Reset | src/jvmMain/kotlin/matt/pref/obs/obs.kt:87-89 | reset gives the cell the property's current value and writes that value back to the entry |
| ObsPrefs.ObsPrefNode.constructor | src/jvmMain/kotlin/matt/pref/obs/obs.kt:22-61 | a new observable node has an empty registry and a node from which the old keys are removed |
| ObsPrefs.ObsPrefNode.FromDomain | src/jvmMain/kotlin/matt/pref/obs/obs.kt:29 | the node for a domain is keyed by the domain's key, holds that node's entries, and changes no other node's entries or incarnation |
| ObsPrefs.ObsPrefNode.StringObs | src/jvmMain/kotlin/matt/pref/obs/obs.kt:174-186 | a string cell bound to its name is created and registered |
| ObsPrefs.ObsPrefNode.IntObs | src/jvmMain/kotlin/matt/pref/obs/obs.kt:188-200 | an int cell bound to its name is created and registered |
| ObsPrefs.ObsPrefNode.BoolObs | src/jvmMain/kotlin/matt/pref/obs/obs.kt:202-214 | a boolean cell bound to its name is created and registered |
| ObsPrefs.ObsPrefNode.ObjObs | src/jvmMain/kotlin/matt/pref/obs/obs.kt:153-172 | an object cell with its serializer is created and registered |
| ObsPrefs.ObsPrefNode.ObsObj | src/jvmMain/kotlin/matt/pref/obs/obs.kt:97-114 | an observable-object property is created on the node, uncached and not registered |
| ObsPrefs.ObsPrefNode.Delete | src/jvmMain/kotlin/matt/pref/obs/obs.kt:65-70 | delete wipes the node, then resets every registered cell in order. Every cell then holds its default, the node holds exactly the written-back defaults, and every other node keeps its entries and incarnation |
| ObsPrefs.ObsObjObsPref.constructor | src/jvmMain/kotlin/matt/pref/obs/obs.kt:107-114 | the property starts with no cached object |
| ObsPrefs.ObsObjObsPref.Get | src/jvmMain/kotlin/matt/pref/obs/obs.kt:115-149 | the first read returns a new object holding the decoded stored state (or the default), and every later read returns that same object |
| ObsPrefs.ObsObjObsPref.Save | src/jvmMain/kotlin/matt/pref/obs/obs.kt:139-141 | save stores the encoding of the cached object's current state under the name |
| ObsPrefs.ObsObjObsPref.Mutate | src/jvmMain/kotlin/matt/pref/obs/obs.kt:116-120 | a mutation of the cached object is saved: the entry becomes the encoding of the new state |
| ObsPrefs.SetThenDeleteScenario | src/jvmMain/kotlin/matt/pref/obs/obs.kt:65-94 | an int cell set to 5 is read back as 5 by its node, and holds its default 7 after delete |
| ObsPrefs.RemoveOldNodes | src/jvmMain/kotlin/matt/pref/obs/obs.kt:31-40 | every old node name is removed, and every other node keeps its entries and incarnation |
| ObsPrefs.SweepKeepsCurrentNode | src/jvmMain/kotlin/matt/pref/obs/obs.kt:31-40 | sweeping an old node name "app.window.v1" empties it, while a value written through a cell of the current node "app.window" still reads back |
| Prefs.UnnamedReadOnRemovedNode | src/jvmMain/kotlin/matt/pref/pref.kt:48-52 | reading a property with a null name through a handle whose node was removed fails with IllegalStateException, not NullPointerException |
| SafePrefs.IndependentNodes | src/jvmMain/kotlin/matt/pref/safepref/safepref.kt:25-29 | putInt of 1 and 2 under the same name through two SafePrefs for different keys writes to separate nodes: the first reads back 1 after the second write, and the second reads back 2 |

## Left out

- The sweep of old node names runs on a daemon thread in the original, concurrently with everything else. `ObsPrefs.RemoveOldNodes` is a separate sequential method, and the observable node's constructor does not call it.
- `flush` writes to persistent storage, which is not modelled. It is an access of the handle that changes nothing.
- `java.util.prefs` limits on key, value and node-name lengths, hierarchical "/" paths, the root node and the `IllegalArgumentException`s for those are not modelled. Every key names a direct node of the user root.
- Backend.ParseInt: `Integer.parseInt` also accepts non-ASCII Unicode digits, and `equalsIgnoreCase` also folds non-ASCII letters. Both are modelled over ASCII only.
- kotlinx.serialization `Json` is an opaque `Prefs.Codec`: an encoding function and a decoding function that may fail. Its round trip is a hypothesis of the lemmas that need it, not a fact.
- `ObsObjObsPref.obsObj`: the default factory `() -> T` is modelled as the state each new object starts from.
- ObsPrefs.ObsObjObsPref.Mutate: any mutation is a replacement of the object's whole state. The observer registration is not modelled; a mutation calls the save directly.
- `BindableProperty` and `MObservable` beyond holding a value, the Kotlin delegate machinery (`provideDelegate`, `KProperty`, `lazy`, reified inlining) and `println` logging are not modelled. The `silent` flag of `obj(...)` and `ObjObsPref` (`obs.kt:44`, `obs.kt:156-171`) only passes down to an `ObjPref` constructor this revision lacks, where it can only control such logging, so it is dropped. A cell's name is given explicitly when it is registered.
- ObsPrefs.ObsPrefNode.constructor: the `lazy` `prefNode` is built eagerly, so the old keys are removed when the observable node is constructed rather than on first use.
- The observable-object property is not registered with its node (it is not an `ObsPref`), so `delete()` does not reset it. It keeps its cached object. The model follows the code here, not the idea that deletion resets observable objects.
- Prefs.PrefNode.Delete: follows the assumed revision in which delete drops the cached handle, so it is acquired again. With the handle of `pref.kt:19`, a lazy val that cannot be reset, every access after `delete()` would raise `IllegalStateException("Node has been removed.")`. So three things hold only under the assumption: that every cell holds its default after `ObsPrefs.ObsPrefNode.Delete`, the lemma `ObsPrefs.WriteBackReadsDefaults`, and that delete never raises however often it is called.
- Several properties bound to the same name on one node are excluded by the registration preconditions, as in Kotlin, where property names within a class are distinct.

## Findings

| source | as written | input that shows it | evidently intended | confidence | as-written member | corrected member |
|---|---|---|---|---|---|---|
| src/jvmMain/kotlin/matt/pref/safepref/safepref.kt:46-53 | the `when` in putBool evaluates to `Unit` (each branch calls a void setter), and is then cast `as R`, where R is reified as the value's class. The value is stored, and then the cast raises ClassCastException | `putBool("maximized", true)`: the node holds "true", and the call ends in ClassCastException (kotlin.Unit is not java.lang.Boolean) | store the value and return normally, with no cast | not executed | SafePrefs.SafePref.PutBoolAsWritten (shown by SafePrefs.PutBoolRaisesAfterWriting) | SafePrefs.SafePref.PutBool |
