/**
 * An in-memory model of the java.util.prefs user tree that the preference layer
 * runs on. Every node is a flat map from entry name to stored string, as in
 * java.util.prefs, where putInt and putBoolean store the decimal or "true"/"false"
 * text and getInt/getBoolean parse it back. A node handle is a value: it names a
 * path and the incarnation of the node it was issued for, so a handle whose node
 * was removed (or removed and created again) is recognisably stale.
 */
module Backend {
  import opened Outcomes

  const MinInt: int := -0x8000_0000
  const MaxInt: int := 0x7fff_ffff

  /** Kotlin's Int / Java's int. */
  type Int32 = x: int | MinInt <= x <= MaxInt

  /** The message of the IllegalStateException every operation on a removed node raises. */
  const NodeRemovedMessage: string := "Node has been removed."
  /** The message removeNode raises when its node is already removed. */
  const NodeAlreadyRemovedMessage: string := "Node already removed."

  // ---------------------------------------------------------------------------
  // Integer.toString / Integer.parseInt over ASCII decimal digits

  predicate IsDigit(c: char) { '0' <= c <= '9' }

  predicate AllDigits(s: string) { forall i :: 0 <= i < |s| ==> IsDigit(s[i]) }

  function DigitChar(d: nat): char
    requires d < 10
  {
    (('0' as int) + d) as char
  }

  /** The number a string of decimal digits denotes (most significant digit first). */
  function DecimalValue(s: string): nat
    requires AllDigits(s)
  {
    if s == [] then 0
    else DecimalValue(s[..|s| - 1]) * 10 + ((s[|s| - 1] as int) - ('0' as int))
  }

  /** The shortest decimal text of n. */
  function NatToDecimal(n: nat): (s: string)
    ensures |s| > 0
  {
    if n < 10 then [DigitChar(n)] else NatToDecimal(n / 10) + [DigitChar(n % 10)]
  }

  /** Integer.toString: an optional minus sign followed by the shortest decimal text. */
  function IntToString(v: Int32): string
  {
    if v < 0 then "-" + NatToDecimal(-(v as int)) else NatToDecimal(v)
  }

  /**
   * Integer.parseInt: an optional '+' or '-', then one or more digits, and the
   * value must fit in an Int32; None stands for NumberFormatException.
   */
  function ParseInt(s: string): Option<Int32>
  {
    if |s| == 0 then None
    else
      var signed := s[0] == '-' || s[0] == '+';
      var digits := if signed then s[1..] else s;
      if |digits| == 0 || !AllDigits(digits) then None
      else
        var n: int := if s[0] == '-' then -(DecimalValue(digits) as int) else DecimalValue(digits);
        if MinInt <= n <= MaxInt then Some(n) else None
  }

  lemma {:induction false} DecimalRoundTrip(n: nat)
    ensures AllDigits(NatToDecimal(n))
    ensures DecimalValue(NatToDecimal(n)) == n
  {
    if n >= 10 {
      DecimalRoundTrip(n / 10);
      var s := NatToDecimal(n);
      assert s[..|s| - 1] == NatToDecimal(n / 10);
    }
  }

  /** The text putInt stores parses back to the same int. */
  lemma ParseIntRoundTrip(v: Int32)
    ensures ParseInt(IntToString(v)) == Some(v)
  {
    if v < 0 {
      DecimalRoundTrip(-(v as int));
      assert IntToString(v)[1..] == NatToDecimal(-(v as int));
    } else {
      DecimalRoundTrip(v);
      assert IsDigit(NatToDecimal(v)[0]);
    }
  }

  // ---------------------------------------------------------------------------
  // String.valueOf(boolean) / getBoolean's equalsIgnoreCase test

  function BoolToString(b: bool): string { if b then "true" else "false" }

  function LowerAscii(c: char): char
  {
    if 'A' <= c <= 'Z' then ((c as int) + 32) as char else c
  }

  predicate EqualsIgnoreCase(a: string, b: string)
  {
    |a| == |b| && forall i :: 0 <= i < |a| ==> LowerAscii(a[i]) == LowerAscii(b[i])
  }

  /** getBoolean's reading of stored text: "true" or "false" in any case, else None. */
  function ParseBool(s: string): Option<bool>
  {
    if EqualsIgnoreCase(s, "true") then Some(true)
    else if EqualsIgnoreCase(s, "false") then Some(false)
    else None
  }

  lemma ParseBoolRoundTrip(b: bool)
    ensures ParseBool(BoolToString(b)) == Some(b)
  {
    if !b {
      assert LowerAscii("false"[0]) != LowerAscii("true"[0]);
    }
  }

  // ---------------------------------------------------------------------------
  // Reads of one node's entries, as java.util.prefs answers them

  /** get(name, def): the stored text, or def when the entry is absent. */
  function GetFrom(m: map<string, string>, name: string, def: Option<string>): Option<string>
  {
    if name in m then Some(m[name]) else def
  }

  /** getInt(name, def): the parsed stored text, or def when absent or not an int. */
  function GetIntFrom(m: map<string, string>, name: string, def: Int32): Int32
  {
    if name in m then (match ParseInt(m[name]) case Some(v) => v case None => def) else def
  }

  /** getBoolean(name, def): the parsed stored text, or def when absent or not a boolean. */
  function GetBooleanFrom(m: map<string, string>, name: string, def: bool): bool
  {
    if name in m then (match ParseBool(m[name]) case Some(b) => b case None => def) else def
  }

  /** putInt followed by getInt on the same name yields the int put, whatever the default. */
  lemma PutIntGetInt(m: map<string, string>, name: string, v: Int32, def: Int32)
    ensures GetIntFrom(m[name := IntToString(v)], name, def) == v
  {
    ParseIntRoundTrip(v);
  }

  /** putBoolean followed by getBoolean on the same name yields the boolean put. */
  lemma PutBooleanGetBoolean(m: map<string, string>, name: string, b: bool, def: bool)
    ensures GetBooleanFrom(m[name := BoolToString(b)], name, def) == b
  {
    ParseBoolRoundTrip(b);
  }

  // ---------------------------------------------------------------------------
  // The node tree

  /** One incarnation of a node: the id it was created with and its entries. */
  datatype NodeData = NodeData(id: nat, entries: map<string, string>)

  /** A Preferences object: the node path and the incarnation it belongs to. */
  datatype Handle = Handle(path: string, id: nat)

  /** The entries stored under path; a node that does not exist holds none. */
  function EntriesIn(nodes: map<string, NodeData>, path: string): map<string, string>
  {
    if path in nodes then nodes[path].entries else map[]
  }

  /**
   * Every node outside `paths` holds the same entries in a and b, and every node
   * of a outside `paths` is still there in b as the same incarnation, so handles
   * on it stay live.
   */
  ghost predicate AgreeOutside(a: map<string, NodeData>, b: map<string, NodeData>, paths: set<string>)
  {
    forall p :: p !in paths ==>
      && EntriesIn(a, p) == EntriesIn(b, p)
      && (p in a ==> p in b && b[p].id == a[p].id)
  }

  /** Agreement composes: nothing changed outside `paths` in two steps if nothing did in either. */
  lemma AgreeOutsideTransitive(a: map<string, NodeData>, b: map<string, NodeData>, c: map<string, NodeData>, paths: set<string>)
    requires AgreeOutside(a, b, {}) && AgreeOutside(b, c, paths)
    ensures AgreeOutside(a, c, paths)
  {
  }

  /** A handle on a node outside `paths` that was live in a is live in b. */
  lemma StaysLive(a: map<string, NodeData>, b: map<string, NodeData>, paths: set<string>, h: Handle)
    requires AgreeOutside(a, b, paths) && h.path !in paths
    requires h.path in a && a[h.path].id == h.id
    ensures h.path in b && b[h.path].id == h.id
  {
  }

  /** The user root of java.util.prefs: every node is a direct child named by its key. */
  class Store {
    var nodes: map<string, NodeData>
    var nextId: nat

    /** Every node's id was issued before nextId, so a new node never revives an old handle. */
    ghost predicate Valid()
      reads this
    {
      forall p :: p in nodes ==> nodes[p].id < nextId
    }

    /** Ids are only ever issued, never taken back: every handle issued before stays below nextId. */
    twostate predicate IdsAdvance()
      reads this
    {
      old(nextId) <= nextId
    }

    constructor ()
      ensures Valid() && nodes == map[] && nextId == 0
    {
      nodes := map[];
      nextId := 0;
    }

    /** The handle's node has not been removed since the handle was issued. */
    predicate IsLive(h: Handle)
      reads this
    {
      h.path in nodes && nodes[h.path].id == h.id
    }

    /** Preferences.userRoot().node(path): the current node, created empty when missing. */
    method Node(path: string) returns (h: Handle)
      requires Valid()
      modifies this
      ensures Valid() && h.id < nextId
      ensures h.path == path && IsLive(h)
      ensures path in old(nodes) ==> h.id == old(nodes)[path].id && nodes == old(nodes) && nextId == old(nextId)
      ensures path !in old(nodes) ==>
        h.id == old(nextId) && nodes == old(nodes)[path := NodeData(h.id, map[])] && nextId == old(nextId) + 1
      ensures AgreeOutside(old(nodes), nodes, {})
    {
      if path in nodes {
        h := Handle(path, nodes[path].id);
      } else {
        h := Handle(path, nextId);
        nodes := nodes[path := NodeData(nextId, map[])];
        nextId := nextId + 1;
      }
    }

    /** keys() */
    function Keys(h: Handle): Result<set<string>>
      reads this
    {
      if IsLive(h) then Ok(nodes[h.path].entries.Keys) else Err(IllegalState(NodeRemovedMessage))
    }

    /** get(name, def) */
    function Get(h: Handle, name: string, def: Option<string>): Result<Option<string>>
      reads this
    {
      if IsLive(h) then Ok(GetFrom(nodes[h.path].entries, name, def)) else Err(IllegalState(NodeRemovedMessage))
    }

    /** getInt(name, def) */
    function GetInt(h: Handle, name: string, def: Int32): Result<Int32>
      reads this
    {
      if IsLive(h) then Ok(GetIntFrom(nodes[h.path].entries, name, def)) else Err(IllegalState(NodeRemovedMessage))
    }

    /** getBoolean(name, def) */
    function GetBoolean(h: Handle, name: string, def: bool): Result<bool>
      reads this
    {
      if IsLive(h) then Ok(GetBooleanFrom(nodes[h.path].entries, name, def)) else Err(IllegalState(NodeRemovedMessage))
    }

    /** put(name, value): stores value under name in the handle's node. */
    method Put(h: Handle, name: string, value: string) returns (r: Result<()>)
      requires Valid()
      modifies this
      ensures Valid()
      ensures nextId == old(nextId)
      ensures r == if old(IsLive(h)) then Ok(()) else Err(IllegalState(NodeRemovedMessage))
      ensures r.Ok? ==> nodes == old(nodes)[h.path := NodeData(h.id, old(nodes)[h.path].entries[name := value])]
      ensures r.Err? ==> nodes == old(nodes)
      ensures AgreeOutside(old(nodes), nodes, {h.path})
    {
      if IsLive(h) {
        nodes := nodes[h.path := NodeData(h.id, nodes[h.path].entries[name := value])];
        r := Ok(());
      } else {
        r := Err(IllegalState(NodeRemovedMessage));
      }
    }

    /** putInt(name, v): stores the decimal text of v. */
    method PutInt(h: Handle, name: string, v: Int32) returns (r: Result<()>)
      requires Valid()
      modifies this
      ensures Valid()
      ensures nextId == old(nextId)
      ensures r == if old(IsLive(h)) then Ok(()) else Err(IllegalState(NodeRemovedMessage))
      ensures r.Ok? ==> nodes == old(nodes)[h.path := NodeData(h.id, old(nodes)[h.path].entries[name := IntToString(v)])]
      ensures r.Err? ==> nodes == old(nodes)
      ensures AgreeOutside(old(nodes), nodes, {h.path})
    {
      r := Put(h, name, IntToString(v));
    }

    /** putBoolean(name, b): stores "true" or "false". */
    method PutBoolean(h: Handle, name: string, b: bool) returns (r: Result<()>)
      requires Valid()
      modifies this
      ensures Valid()
      ensures nextId == old(nextId)
      ensures r == if old(IsLive(h)) then Ok(()) else Err(IllegalState(NodeRemovedMessage))
      ensures r.Ok? ==> nodes == old(nodes)[h.path := NodeData(h.id, old(nodes)[h.path].entries[name := BoolToString(b)])]
      ensures r.Err? ==> nodes == old(nodes)
      ensures AgreeOutside(old(nodes), nodes, {h.path})
    {
      r := Put(h, name, BoolToString(b));
    }

    /** remove(name): drops the entry; removing an absent entry is not an error. */
    method Remove(h: Handle, name: string) returns (r: Result<()>)
      requires Valid()
      modifies this
      ensures Valid()
      ensures nextId == old(nextId)
      ensures r == if old(IsLive(h)) then Ok(()) else Err(IllegalState(NodeRemovedMessage))
      ensures r.Ok? ==> nodes == old(nodes)[h.path := NodeData(h.id, old(nodes)[h.path].entries - {name})]
      ensures r.Err? ==> nodes == old(nodes)
      ensures AgreeOutside(old(nodes), nodes, {h.path})
    {
      if IsLive(h) {
        nodes := nodes[h.path := NodeData(h.id, nodes[h.path].entries - {name})];
        r := Ok(());
      } else {
        r := Err(IllegalState(NodeRemovedMessage));
      }
    }

    /** removeNode(): the node and its entries disappear; every handle on it goes stale. */
    method RemoveNode(h: Handle) returns (r: Result<()>)
      requires Valid()
      modifies this
      ensures Valid()
      ensures nextId == old(nextId)
      ensures r == if old(IsLive(h)) then Ok(()) else Err(IllegalState(NodeAlreadyRemovedMessage))
      ensures r.Ok? ==> nodes == old(nodes) - {h.path}
      ensures r.Err? ==> nodes == old(nodes)
      ensures AgreeOutside(old(nodes), nodes, {h.path})
    {
      if IsLive(h) {
        nodes := nodes - {h.path};
        r := Ok(());
      } else {
        r := Err(IllegalState(NodeAlreadyRemovedMessage));
      }
    }
  }
}
