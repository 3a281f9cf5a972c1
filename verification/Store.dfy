/** backend/etcd/backend.go as one client sees it: the reservations and the last reserved address. */
module Stores {
  import opened Options
  import opened GoNet

  /** Addresses are stored under their text, which is that of their standard form. */
  function Key(ip: IP): IP { if Canon(ip).Some? then Canon(ip).value else ip }

  /** Addresses have the same text exactly if they are equal, in whatever form. */
  lemma SameKeyExactly(a: IP, b: IP)
    requires Canon(a).Some? && Canon(b).Some?
    ensures Key(a) == Key(b) <==> Equal(a, b)
  {
    EqualIsSameCanon(a, b);
  }

  /** What is left when every address with one owner is released. */
  function Without<O(==)>(owners: map<IP, O>, o: O): map<IP, O> {
    map a | a in owners && owners[a] != o :: owners[a]
  }

  /** The stored text parsed again: IPv4 addresses come back in their 16-byte form, other text as nil. */
  function StoredLast(lastReserved: map<nat, IP>, rangeID: nat): Option<IP> {
    if rangeID in lastReserved then To16(lastReserved[rangeID]) else None
  }

  class Store {
    var used: map<IP, string>
    var lastReserved: map<nat, IP>

    constructor ()
      ensures used == map[] && lastReserved == map[]
    {
      used, lastReserved := map[], map[];
    }

    /** Get, then Put if the key was absent. */
    method Reserve(id: string, ip: IP, rangeID: nat) returns (reserved: bool)
      modifies this
      ensures reserved <==> Key(ip) !in old(used)
      ensures used == if reserved then old(used)[Key(ip) := id] else old(used)
      ensures lastReserved == if reserved then old(lastReserved)[rangeID := Key(ip)] else old(lastReserved)
    {
      var key := Key(ip);
      if key in used { return false; }
      used := used[key := id];
      lastReserved := lastReserved[rangeID := key];
      return true;
    }

    function LastReservedIP(rangeID: nat): Option<IP>
      reads this
    {
      StoredLast(lastReserved, rangeID)
    }

    /** Lists all reservations and deletes those of the container one by one. */
    method ReleaseByID(id: string)
      modifies this
      ensures used == Without(old(used), id) && lastReserved == old(lastReserved)
    {
      var kvs := used;
      var keys := kvs.Keys;
      while keys != {}
        invariant keys <= kvs.Keys && lastReserved == old(lastReserved)
        invariant used == map k | k in kvs && (k in keys || kvs[k] != id) :: kvs[k]
        decreases keys
      {
        var k :| k in keys;
        if kvs[k] == id { used := used - {k}; }
        keys := keys - {k};
      }
    }
  }
}
