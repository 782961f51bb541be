/** Slot lifecycle, slot-state cache and forward-auth verdict together: the state a handler writes is
    the state /validate looks up (manage_lifecycle.go, pocketbase.go, validate.go). */
module Access {
  import opened GoStrings
  import opened SlotStore
  import opened Lifecycle
  import opened BrokerService
  import SlotCache

  /** What a lookup by access key sees of the slot table: the first slot with the key. */
  function StatesByKey(slots: seq<Slot>): map<string, string> {
    if slots == [] then map[]
    else
      var front, last := StatesByKey(slots[..|slots| - 1]), slots[|slots| - 1];
      if last.minioAccessKey in front then front else front[last.minioAccessKey := last.state]
  }

  lemma {:induction false} StatesByKeyExact(slots: seq<Slot>, key: string)
    requires forall i, j :: 0 <= i < j < |slots| && slots[i].minioAccessKey == key ==> slots[j].minioAccessKey != key
    ensures key in StatesByKey(slots) <==> exists i :: 0 <= i < |slots| && slots[i].minioAccessKey == key
    ensures forall i :: 0 <= i < |slots| && slots[i].minioAccessKey == key ==>
                          key in StatesByKey(slots) && StatesByKey(slots)[key] == slots[i].state
  {
    if slots != [] {
      StatesByKeyExact(slots[..|slots| - 1], key);
    }
  }

  /** Suspending ties the three parts together: after a 200 suspend the MinIO user it disabled, and
      whose cached state it dropped, is one /validate blocks, exactly when the slot has an access key.
      Without one the user "slot-" + name is none that a lookup finds, and is let in. */
  lemma SuspendBlocksExact(slots: seq<Slot>, i: nat, v: View, e: SuspendEnv)
    requires Broker.UniqueNames(slots) && i < |slots| && slots[i] == v.rec
    requires SuspendRun(v, e).status == 200
    ensures var after := slots[i := After(v, SuspendRun(v, e)).rec];
            SlotCache.Blocked(SlotCache.Answer(StatesByKey(after), MinioUser(slots[i]))) <==> slots[i].minioAccessKey != ""
  {
    SuspendOutcome(v, e);
    var after := slots[i := v.rec.(state := "suspended")];
    var key := MinioUser(slots[i]);
    forall j | 0 <= j < |after| && j != i
      ensures after[j].minioAccessKey != key
    {
      assert MinioUser(slots[j]) != key;
      assert after[j] == slots[j];
    }
    StatesByKeyExact(after, key);
    assert after[i].minioAccessKey == slots[i].minioAccessKey;
  }

  /** The MinIO user a slot is disabled, enabled and rotated under. */
  lemma MinioUserExact(s: Slot)
    ensures s.minioAccessKey != "" ==> MinioUser(s) == s.minioAccessKey
    ensures s.minioAccessKey == "" ==> MinioUser(s) == "slot-" + s.slotName
  {
  }
}
