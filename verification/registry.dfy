/**
 The server's in-memory `clients` map from user id to WebSocket connection.
 A JavaScript `Map` iterates in insertion order and `set` on a key that is
 already present keeps that key's position, so the map is modelled as the
 ordered sequence of its entries.
 */
module Registry {
  import opened Options
  import opened JsValues

  /** The identity of a WebSocket connection object (compared with `===`). */
  type Conn = nat

  datatype Entry = Entry(userId: Value, socket: Conn)

  /** No two entries answer to the same key, as in any JavaScript `Map`. */
  ghost predicate UniqueKeys(entries: seq<Entry>) {
    forall i, j :: 0 <= i < j < |entries| ==> !SameKey(entries[i].userId, entries[j].userId)
  }

  /** Does some entry hold socket `ws`? */
  ghost predicate Holds(entries: seq<Entry>, ws: Conn) {
    exists i :: 0 <= i < |entries| && entries[i].socket == ws
  }

  /** Position `i` holds `ws` and no earlier position does. */
  ghost predicate IsFirstHolder(entries: seq<Entry>, ws: Conn, i: nat) {
    i < |entries| && entries[i].socket == ws &&
    forall j :: 0 <= j < i ==> entries[j].socket != ws
  }

  /** Position of the entry that key `key` finds, if any. */
  function Find(entries: seq<Entry>, key: Value): (r: Option<nat>)
    ensures r.Some? ==> r.value < |entries| && SameKey(entries[r.value].userId, key)
    ensures r.Some? ==> forall j :: 0 <= j < r.value ==> !SameKey(entries[j].userId, key)
    ensures r.None? ==> forall j :: 0 <= j < |entries| ==> !SameKey(entries[j].userId, key)
  {
    if |entries| == 0 then None
    else if SameKey(entries[0].userId, key) then Some(0)
    else match Find(entries[1..], key)
      case None => None
      case Some(i) => Some(i + 1)
  }

  /** `clients.get(key)`. */
  function Lookup(entries: seq<Entry>, key: Value): (r: Option<Conn>)
    ensures r.None? <==> forall i :: 0 <= i < |entries| ==> !SameKey(entries[i].userId, key)
    ensures UniqueKeys(entries) ==>
      forall i :: 0 <= i < |entries| && SameKey(entries[i].userId, key) ==> r == Some(entries[i].socket)
  {
    match Find(entries, key)
    case None => None
    case Some(i) => Some(entries[i].socket)
  }

  /**
   `clients.get(probe)` answers from the first entry whose key is
   SameValueZero to the probe, where `cells` gives each stored key's heap
   cell and a parsed array or object probe lives in none of them.
   */
  lemma FindIsSameValueZero(entries: seq<Entry>, cells: seq<nat>, probe: Key)
    requires |cells| == |entries|
    requires !IsPrimitive(probe.v) ==> forall i :: 0 <= i < |cells| ==> cells[i] != probe.cell
    ensures Find(entries, probe.v).None? <==>
      forall i :: 0 <= i < |entries| ==> !SameValueZero(Key(entries[i].userId, cells[i]), probe)
    ensures Find(entries, probe.v).Some? ==>
      var m := Find(entries, probe.v).value;
      SameValueZero(Key(entries[m].userId, cells[m]), probe) &&
      forall j :: 0 <= j < m ==> !SameValueZero(Key(entries[j].userId, cells[j]), probe)
  {
    forall i | 0 <= i < |entries|
      ensures SameKey(entries[i].userId, probe.v) <==> SameValueZero(Key(entries[i].userId, cells[i]), probe)
    {
      SameKeyIsSameValueZero(Key(entries[i].userId, cells[i]), probe);
    }
  }

  /** `clients.set(key, socket)`: overwrite in place, or append a new entry. */
  function Assign(entries: seq<Entry>, key: Value, socket: Conn): (r: seq<Entry>)
    ensures |entries| <= |r| <= |entries| + 1
    ensures Holds(r, socket)
  {
    match Find(entries, key)
    case Some(i) =>
      var r := entries[i := Entry(entries[i].userId, socket)];
      assert r[i].socket == socket;
      r
    case None =>
      var r := entries + [Entry(key, socket)];
      assert r[|entries|].socket == socket;
      r
  }

  /** What the close handler's loop leaves: the first entry holding `ws` deleted. */
  function RemoveFirstOf(entries: seq<Entry>, ws: Conn): (r: seq<Entry>)
    ensures |entries| - 1 <= |r| <= |entries|
  {
    if |entries| == 0 then []
    else if entries[0].socket == ws then entries[1..]
    else [entries[0]] + RemoveFirstOf(entries[1..], ws)
  }

  // ---------------------------------------------------------------------
  // Map.set

  /** `set` overwrites the entry the key finds (keeping its position) or appends one; nothing else changes. */
  lemma AssignEffect(entries: seq<Entry>, key: Value, socket: Conn)
    requires UniqueKeys(entries)
    ensures var r := Assign(entries, key, socket);
      UniqueKeys(r) &&
      if exists i :: 0 <= i < |entries| && SameKey(entries[i].userId, key) then
        |r| == |entries| &&
        forall j :: 0 <= j < |entries| ==>
          r[j] == if SameKey(entries[j].userId, key) then Entry(entries[j].userId, socket) else entries[j]
      else
        r == entries + [Entry(key, socket)]
  {
  }

  /** `Find` answers the first position whose key matches. */
  lemma FindFirst(entries: seq<Entry>, key: Value, m: nat)
    requires m < |entries| && SameKey(entries[m].userId, key)
    requires forall j :: 0 <= j < m ==> !SameKey(entries[j].userId, key)
    ensures Find(entries, key) == Some(m)
  {
  }

  /** `set` changes no key and no socket other than the one at the position it finds. */
  lemma AssignKeepsKeys(entries: seq<Entry>, key: Value, socket: Conn)
    ensures var r := Assign(entries, key, socket);
      |entries| <= |r| &&
      (forall j :: 0 <= j < |entries| ==> r[j].userId == entries[j].userId) &&
      (forall j :: 0 <= j < |entries| && !SameKey(entries[j].userId, key) ==> r[j] == entries[j]) &&
      (|r| > |entries| ==> r == entries + [Entry(key, socket)])
  {
  }

  /** The map law of `set`: the assigned key now finds `socket`, every other key finds what it found before. */
  lemma AssignLookup(entries: seq<Entry>, key: Value, socket: Conn, probe: Value)
    ensures Lookup(Assign(entries, key, socket), probe) ==
            if SameKey(key, probe) then Some(socket) else Lookup(entries, probe)
  {
    var r := Assign(entries, key, socket);
    AssignKeepsKeys(entries, key, socket);
    if SameKey(key, probe) {
      match Find(entries, key)
      case Some(i) =>
        assert forall j :: 0 <= j < i ==> !SameKey(r[j].userId, probe);
        FindFirst(r, probe, i);
      case None =>
        assert forall j :: 0 <= j < |entries| ==> !SameKey(r[j].userId, probe);
        FindFirst(r, probe, |entries|);
    } else {
      assert forall j :: 0 <= j < |entries| && SameKey(entries[j].userId, probe) ==> r[j] == entries[j];
      match Find(entries, probe)
      case Some(m) =>
        assert forall j :: 0 <= j < m ==> !SameKey(r[j].userId, probe);
        FindFirst(r, probe, m);
      case None =>
        assert |r| > |entries| ==> !SameKey(r[|entries|].userId, probe);
        assert forall j :: 0 <= j < |r| ==> !SameKey(r[j].userId, probe);
    }
  }

  // ---------------------------------------------------------------------
  // The close loop

  /** Deleting the first holder of `ws`, found at position `i`, is what `RemoveFirstOf` computes. */
  lemma {:induction false} RemoveFirstOfAt(entries: seq<Entry>, ws: Conn, i: nat)
    requires i < |entries| && entries[i].socket == ws
    requires forall j :: 0 <= j < i ==> entries[j].socket != ws
    ensures RemoveFirstOf(entries, ws) == entries[..i] + entries[i + 1..]
  {
    if i > 0 {
      RemoveFirstOfAt(entries[1..], ws, i - 1);
      assert entries[1..][..i - 1] == entries[1..i];
      assert entries[1..][i..] == entries[i + 1..];
      assert entries[..i] == [entries[0]] + entries[1..i];
    }
  }

  /** Closing a connection that no entry holds changes nothing. */
  lemma {:induction false} RemoveFirstOfAbsent(entries: seq<Entry>, ws: Conn)
    requires forall j :: 0 <= j < |entries| ==> entries[j].socket != ws
    ensures RemoveFirstOf(entries, ws) == entries
  {
    if |entries| > 0 {
      RemoveFirstOfAbsent(entries[1..], ws);
      assert entries == [entries[0]] + entries[1..];
    }
  }

  /** At most one entry is removed, and exactly one when some entry holds `ws`. */
  lemma RemovesAtMostOne(entries: seq<Entry>, ws: Conn)
    ensures |RemoveFirstOf(entries, ws)| == if Holds(entries, ws) then |entries| - 1 else |entries|
  {
    if Holds(entries, ws) {
      var i := FirstHolder(entries, ws);
      RemoveFirstOfAt(entries, ws, i);
    } else {
      RemoveFirstOfAbsent(entries, ws);
    }
  }

  /** The position of the first entry that holds `ws`. */
  lemma FirstHolder(entries: seq<Entry>, ws: Conn) returns (i: nat)
    requires Holds(entries, ws)
    ensures i < |entries| && entries[i].socket == ws
    ensures forall j :: 0 <= j < i ==> entries[j].socket != ws
  {
    var k :| 0 <= k < |entries| && entries[k].socket == ws;
    i := 0;
    while entries[i].socket != ws
      invariant i <= k
      invariant forall j :: 0 <= j < i ==> entries[j].socket != ws
      decreases k - i
    {
      i := i + 1;
    }
  }

  /** Removing one entry keeps keys unique. */
  lemma RemovePreservesUniqueKeys(entries: seq<Entry>, ws: Conn)
    requires UniqueKeys(entries)
    ensures UniqueKeys(RemoveFirstOf(entries, ws))
  {
    if Holds(entries, ws) {
      var i := FirstHolder(entries, ws);
      RemoveFirstOfAt(entries, ws, i);
      var r := RemoveFirstOf(entries, ws);
      forall a, b | 0 <= a < b < |r|
        ensures !SameKey(r[a].userId, r[b].userId)
      {
        var a' := if a < i then a else a + 1;
        var b' := if b < i then b else b + 1;
        assert r[a] == entries[a'] && r[b] == entries[b'];
      }
    } else {
      RemoveFirstOfAbsent(entries, ws);
    }
  }

  /**
   Closing a connection never disturbs a key that finds a different
   connection: in particular closing a stale, overwritten connection leaves
   the id's current mapping in place.
   */
  lemma CloseKeepsOtherMappings(entries: seq<Entry>, ws: Conn, key: Value, c: Conn)
    requires Lookup(entries, key) == Some(c) && c != ws
    ensures Lookup(RemoveFirstOf(entries, ws), key) == Some(c)
  {
    if Holds(entries, ws) {
      var i := FirstHolder(entries, ws);
      RemoveFirstOfAt(entries, ws, i);
      LookupAfterDelete(entries, key, c, i);
    } else {
      RemoveFirstOfAbsent(entries, ws);
    }
  }

  /** Deleting an entry whose socket is not `c` keeps a key that finds `c` finding it. */
  lemma LookupAfterDelete(entries: seq<Entry>, key: Value, c: Conn, i: nat)
    requires Lookup(entries, key) == Some(c)
    requires i < |entries| && entries[i].socket != c
    ensures Lookup(entries[..i] + entries[i + 1..], key) == Some(c)
  {
    var m := Find(entries, key).value;
    FindAfterDelete(entries, key, m, i);
    assert (entries[..i] + entries[i + 1..])[if i < m then m - 1 else m] == entries[m];
  }

  /** Deleting an entry other than the one a key finds shifts that entry but keeps it found. */
  lemma FindAfterDelete(entries: seq<Entry>, key: Value, m: nat, i: nat)
    requires Find(entries, key) == Some(m)
    requires i < |entries| && i != m
    ensures Find(entries[..i] + entries[i + 1..], key) == Some(if i < m then m - 1 else m)
  {
    var r := entries[..i] + entries[i + 1..];
    if i < m {
      assert r[m - 1] == entries[m];
      assert forall j :: 0 <= j < m - 1 ==> r[j] == entries[if j < i then j else j + 1];
      FindFirst(r, key, m - 1);
    } else {
      assert forall j :: 0 <= j <= m ==> r[j] == entries[j];
      FindFirst(r, key, m);
    }
  }

  /** After the close, the id whose entry was removed finds nothing. */
  lemma CloseForgetsRemovedId(entries: seq<Entry>, ws: Conn, i: nat)
    requires UniqueKeys(entries)
    requires i < |entries| && entries[i].socket == ws
    requires forall j :: 0 <= j < i ==> entries[j].socket != ws
    ensures Lookup(RemoveFirstOf(entries, ws), entries[i].userId) == None
  {
    RemoveFirstOfAt(entries, ws, i);
    var r := RemoveFirstOf(entries, ws);
    forall a | 0 <= a < |r|
      ensures !SameKey(r[a].userId, entries[i].userId)
    {
      if a < i {
        assert r[a] == entries[a];
      } else {
        assert r[a] == entries[a + 1];
      }
    }
  }

  /**
   One connection identified under two ids: a close deletes only the first
   entry, and the later id still finds the closed connection.
   */
  lemma CloseLeavesStaleEntry(entries: seq<Entry>, ws: Conn, i: nat, j: nat)
    requires UniqueKeys(entries)
    requires i < j < |entries| && entries[i].socket == ws && entries[j].socket == ws
    requires IsPrimitive(entries[j].userId)
    ensures |RemoveFirstOf(entries, ws)| == |entries| - 1
    ensures Holds(RemoveFirstOf(entries, ws), ws)
    ensures Lookup(RemoveFirstOf(entries, ws), entries[j].userId) == Some(ws)
  {
    var f := FirstHolder(entries, ws);
    RemoveFirstOfAt(entries, ws, f);
    RemovePreservesUniqueKeys(entries, ws);
    var r := RemoveFirstOf(entries, ws);
    assert f <= i;
    assert r[j - 1] == entries[j];
    assert SameKey(r[j - 1].userId, entries[j].userId);
  }

  /**
   An id identified first from connection `a` and then from `b`: when `a`
   later closes, the id still finds `b` (the close of an overwritten
   connection does not deregister the id).
   */
  lemma ReidentifyThenCloseOldKeepsNew(entries: seq<Entry>, key: Value, a: Conn, b: Conn)
    requires IsPrimitive(key) && a != b
    ensures Lookup(RemoveFirstOf(Assign(Assign(entries, key, a), key, b), a), key) == Some(b)
  {
    var s := Assign(Assign(entries, key, a), key, b);
    AssignLookup(Assign(entries, key, a), key, b, key);
    CloseKeepsOtherMappings(s, a, key, b);
  }

  // ---------------------------------------------------------------------
  // The registry object

  class ConnectionRegistry {
    /** The `clients` map, in insertion order. */
    var entries: seq<Entry>

    ghost predicate Valid()
      reads this
    {
      UniqueKeys(entries)
    }

    /** `new Map()` at startup. */
    constructor ()
      ensures Valid() && entries == []
    {
      entries := [];
    }

    /** `clients.set(userId, socket)` (line 37). */
    method Set(userId: Value, socket: Conn)
      requires Valid()
      modifies this
      ensures Valid()
      ensures entries == Assign(old(entries), userId, socket)
    {
      AssignEffect(entries, userId, socket);
      entries := Assign(entries, userId, socket);
    }

    /** `clients.get(userId)` (line 78). */
    method Get(userId: Value) returns (socket: Option<Conn>)
      requires Valid()
      ensures socket.None? <==> forall i :: 0 <= i < |entries| ==> !SameKey(entries[i].userId, userId)
      ensures forall i :: 0 <= i < |entries| && SameKey(entries[i].userId, userId) ==> socket == Some(entries[i].socket)
    {
      socket := Lookup(entries, userId);
    }

    /**
     The `message` handler of connection `ws`. Reading `data.type` throws
     when the parsed message is `null`. An `identify` message registers
     `data.userId`, then logs it through a template literal, which throws
     when the id cannot be converted to a string; the entry stays set.
     Every other message leaves the map alone.
     */
    method OnMessage(data: Value, ws: Conn) returns (threw: bool)
      requires Valid()
      modifies this
      ensures Valid()
      ensures IsNullish(data) ==> threw && entries == old(entries)
      ensures !IsNullish(data) && Property(data, "type") == Str("identify") ==>
        entries == Assign(old(entries), Property(data, "userId"), ws) &&
        (threw <==> StringifyThrows(Property(data, "userId")))
      ensures !IsNullish(data) && Property(data, "type") != Str("identify") ==>
        !threw && entries == old(entries)
    {
      if IsNullish(data) {
        return true;
      }
      threw := false;
      if Property(data, "type") == Str("identify") {
        var userId := Property(data, "userId");
        Set(userId, ws);
        threw := StringifyThrows(userId);
      }
    }

    /**
     The `close` handler of connection `ws`: scan the entries in insertion
     order, delete the first one that holds `ws`, log its id through a
     template literal (which throws when the id cannot be converted to a
     string, after the delete), and stop.
     */
    method OnClose(ws: Conn) returns (threw: bool)
      requires Valid()
      modifies this
      ensures Valid()
      ensures entries == RemoveFirstOf(old(entries), ws)
      ensures threw <==> exists i: nat :: IsFirstHolder(old(entries), ws, i) && StringifyThrows(old(entries)[i].userId)
    {
      RemovePreservesUniqueKeys(entries, ws);
      threw := false;
      var i := 0;
      while i < |entries|
        invariant i <= |entries|
        invariant entries == old(entries)
        invariant !threw
        invariant forall j :: 0 <= j < i ==> entries[j].socket != ws
      {
        if entries[i].socket == ws {
          assert IsFirstHolder(entries, ws, i);
          RemoveFirstOfAt(entries, ws, i);
          var userId := entries[i].userId;
          assert forall k: nat :: IsFirstHolder(entries, ws, k) ==> k == i;
          entries := entries[..i] + entries[i + 1..];
          threw := StringifyThrows(userId);
          break;
        }
        i := i + 1;
      }
      if i == |old(entries)| {
        RemoveFirstOfAbsent(entries, ws);
      }
    }
  }
}
