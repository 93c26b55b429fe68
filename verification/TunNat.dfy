/**
 The class of src/inbound/tun_nat.cpp.  Each method holds the mutex for its whole
 body, so it is one atomic step; each is proved to be its function in NatTable.
 */
module TunNat {
  import opened Bytes
  import opened NatTable

  class TunNat {
    var nextPort: Word
    const maxSessions: nat
    var forward: map<FlowKey, Word>
    var reverse: map<Word, FlowKey>
    var lru: seq<Word>

    ghost function State(): Nat
      reads this
    {
      Nat(maxSessions, nextPort, forward, reverse, lru)
    }

    constructor (maxSessions: nat)
      ensures State() == Empty(maxSessions) && Valid(State())
    {
      nextPort := FIRST_PORT;
      this.maxSessions := maxSessions;
      forward, reverse, lru := map[], map[], [];
    }

    method TouchLocked(natPort: Word)
      modifies this`lru
      ensures State() == Touch(old(State()), natPort)
    {
      lru := Without(lru, natPort);
      lru := lru + [natPort];
    }

    method EvictOneLocked() returns (evicted: Option<Word>)
      modifies this`lru, this`forward, this`reverse
      ensures (State(), evicted) == EvictOne(old(State()))
    {
      while lru != []
        invariant EvictOne(State()) == EvictOne(old(State()))
        decreases |lru|
      {
        var natPort := lru[0];
        lru := lru[1..];
        if natPort !in reverse {
          continue;
        }
        forward := forward - {reverse[natPort]};
        reverse := reverse - {natPort};
        return Some(natPort);
      }
      return None;
    }

    /**
     The loop leaves only through its return, and a loop that never ends has no outcome: it is watched
     for 55537 iterations.  None says it is still running then, and AllocEndsIff that it will for ever.
     */
    method AllocatePortLocked() returns (natPort: Option<Word>)
      requires Valid(State())
      modifies this`nextPort
      ensures AllocLoop(reverse, old(nextPort), ALLOC_LIMIT) ==
              match natPort case None => None case Some(port) => Some((port, nextPort))
      ensures nextPort == 0 || FIRST_PORT <= nextPort
    {
      var left := ALLOC_LIMIT;
      while left > 0
        invariant nextPort == 0 || FIRST_PORT <= nextPort
        invariant AllocLoop(reverse, nextPort, left) == AllocLoop(reverse, old(nextPort), ALLOC_LIMIT)
      {
        var candidate := nextPort;
        nextPort := (nextPort + 1) % 0x1_0000;
        left := left - 1;
        if candidate == 0 {
          nextPort := FIRST_PORT;
          continue;
        }
        if candidate !in reverse {
          return Some(candidate);
        }
      }
      return None;
    }

    /** The port, and the one evicted to make room; None when the allocator never returns. */
    method LookupOrCreate(key: FlowKey) returns (found: Option<(Word, Option<Word>)>)
      requires Valid(State())
      modifies this
      ensures Lookup(old(State()), key) ==
              match found case None => None case Some((natPort, evicted)) => Some(Found(State(), natPort, evicted))
      ensures found.None? <==> !HasRoom(old(State()), key)
      ensures found.None? ==> State() == old(State()).(nextPort := nextPort)
      ensures Valid(State())
    {
      LookupHangsIff(State(), key);
      if key in forward {
        LookupKeepsValid(State(), key);
        var natPort := forward[key];
        TouchLocked(natPort);
        return Some((natPort, None));
      }
      found := Create(key);
    }

    /** The rest of `lookup_or_create`, for a key that has no port yet. */
    method Create(key: FlowKey) returns (found: Option<(Word, Option<Word>)>)
      requires Valid(State()) && key !in forward
      modifies this
      ensures Lookup(old(State()), key) ==
              match found case None => None case Some((natPort, evicted)) => Some(Found(State(), natPort, evicted))
      ensures found.None? ==> State() == old(State()).(nextPort := nextPort)
      ensures Valid(State())
    {
      RoomIsMade(State(), key);
      LookupHangsIff(State(), key);
      if Lookup(State(), key).Some? {
        LookupKeepsValid(State(), key);
      }
      var evicted := None;
      if maxSessions != 0 && |reverse| >= maxSessions {
        evicted := EvictOneLocked();
      }
      assert (State(), evicted) == MakeRoom(old(State()));
      var issued := AllocatePortLocked();
      if issued.None? {
        return None;
      }
      var natPort := issued.value;
      forward := forward[key := natPort];
      reverse := reverse[natPort := key];
      TouchLocked(natPort);
      return Some((natPort, evicted));
    }

    method Erase(natPort: Word)
      requires Valid(State())
      modifies this`lru, this`forward, this`reverse
      ensures State() == NatTable.Erase(old(State()), natPort)
      ensures Valid(State())
    {
      EraseKeepsValid(State(), natPort);
      if natPort !in reverse {
        return;
      }
      forward := forward - {reverse[natPort]};
      reverse := reverse - {natPort};
      lru := Without(lru, natPort);
    }

    method LookupBack(natPort: Word) returns (session: Option<FlowKey>)
      ensures session == NatTable.LookupBack(State(), natPort)
    {
      if natPort in reverse {
        return Some(reverse[natPort]);
      }
      return None;
    }
  }
}
