/** The file ledger of internal/ledger/file.go: one directory entry per version of a key, written by
    exclusive link. Called with nothing between its steps it is the sequential ledger; LedgerRuns takes
    the same steps apart. */
module FileLedger {
  import opened Ledger
  import opened LedgerRuns
  import opened Wrappers

  type Key = string

  class FileLedger {
    /** The version files of each key: the number in the name, and what the file holds. */
    var disk: map<Key, map<nat, State>>

    ghost predicate Valid()
      reads this
    {
      forall k | k in disk :: Contiguous(disk[k])
    }

    ghost function Versions(k: Key): seq<State>
      reads this
      requires Valid()
    {
      if k in disk then History(disk[k]) else []
    }

    constructor ()
      ensures Valid() && forall k :: Versions(k) == []
    {
      disk := map[];
    }

    /** Whatever order the directory lists the files in, the last of the key's versions is found. */
    method Current(k: Key) returns (s: State, ver: nat, found: bool)
      requires Valid()
      ensures ver == |Versions(k)| && s == HeadOf(Versions(k)) && found == Found(Versions(k))
    {
      ver := 0;
      if k !in disk {
        return ABSENT, 0, false;
      }
      var files := disk[k];
      var ents := files.Keys;
      while ents != {}
        invariant ents <= files.Keys
        invariant ver == 0 || ver in files
        invariant forall n | n in files && n !in ents :: n <= ver
        decreases ents
      {
        var n :| n in ents;
        ents := ents - {n};
        if n > ver {
          ver := n;
        }
      }
      TopIsLast(files, ver);
      if ver == 0 {
        return ABSENT, 0, false;
      }
      s := files[ver];
      found := !s.tombstone;
    }

    /** The history grows by s exactly when ver is still its length; otherwise it is a conflict. */
    method Commit(k: Key, s: State, ver: nat) returns (error: Option<LedgerError>)
      requires Valid() && ver <= |Versions(k)|
      modifies this
      ensures Valid()
      ensures error == (if ver == old(|Versions(k)|) then None else Some(Conflict))
      ensures Versions(k) == (if error.None? then old(Versions(k)) + [s] else old(Versions(k)))
      ensures forall j | j != k :: Versions(j) == old(Versions(j))
    {
      var files := if k in disk then disk[k] else map[];
      if ver + 1 in files {
        return Some(Conflict);
      }
      disk := disk[k := files[ver + 1 := s]];
      assert Versions(k) == old(Versions(k)) + [s];
      return None;
    }

    /** The compare of the compare-and-swap, on what is on disk. */
    method Guard(k: Key, v: Version) returns (s: State, ver: nat, found: bool, error: Option<LedgerError>)
      requires Valid()
      ensures error == GuardError(|Versions(k)|, Found(Versions(k)), v)
      ensures error.None? ==> ver == |Versions(k)| && s == HeadOf(Versions(k)) && found == Found(Versions(k))
    {
      s, ver, found := Current(k);
      error := GuardError(ver, found, v);
    }

    method Get(k: Key) returns (s: State, v: Version, found: bool)
      requires Valid()
      ensures found == Found(Versions(k))
      ensures found ==> s == HeadOf(Versions(k)) && v == At(|Versions(k)|)
      ensures !found ==> v == NoVersion
    {
      var ver;
      s, ver, found := Current(k);
      v := if found then At(ver) else NoVersion;
    }

    method Begin(k: Key, proposed: Bytes, v: Version) returns (o: Outcome)
      requires Valid()
      modifies this
      ensures Valid()
      ensures (Versions(k), o) == Run(old(Versions(k)), Call.Begin(proposed, v))
      ensures forall j | j != k :: Versions(j) == old(Versions(j))
    {
      var cur, at, there := Current(k);
      if Repeats(cur, there, proposed) {
        return Accepted(at);
      }
      var s, ver, found, error := Guard(k, v);
      if error.Some? {
        return Failed(error.value);
      }
      error := Commit(k, State(Pending, s.plan, proposed, [], s.about, false), ver);
      return Committed(ver + 1);
    }

    method Resolve(k: Key, identity: Bytes, about: Option<Bytes>, v: Version) returns (o: Outcome)
      requires Valid()
      modifies this
      ensures Valid()
      ensures (Versions(k), o) == Run(old(Versions(k)), Call.Resolve(identity, about, v))
      ensures forall j | j != k :: Versions(j) == old(Versions(j))
    {
      var s, ver, found, error := Guard(k, v);
      if error.Some? {
        return Failed(error.value);
      }
      if !found {
        return Failed(NotFound);
      }
      if s.phase != Pending {
        return Failed(WrongPhase);
      }
      var kept := if about.None? then s.about else about.value;
      error := Commit(k, State(Live, s.proposed, [], identity, kept, false), ver);
      return Committed(ver + 1);
    }

    method Forget(k: Key, v: Version) returns (o: Outcome)
      requires Valid()
      modifies this
      ensures Valid()
      ensures (Versions(k), o) == Run(old(Versions(k)), Call.Forget(v))
      ensures forall j | j != k :: Versions(j) == old(Versions(j))
    {
      var _, ver, found, error := Guard(k, v);
      if error.Some? {
        return Failed(error.value);
      }
      if !found {
        return Failed(NotFound);
      }
      error := Commit(k, TOMBSTONE, ver);
      return Committed(ver + 1);
    }
  }
}
