/** The managed group key (keys.go, pocketbase_kek.go).

    Minting is a read of the group record, the generation of a key pair, the wrapping of its private
    half and one patch of the record.  `Mint` runs it alone; `Run` interleaves any number of mints.
 */
module GroupKeys {
  import opened Wrappers
  import opened GoStrings
  import opened KekWrap

  type Identity = b: Bytes | b != [] witness ['A']
  type Salt = b: Bytes | |b| == WRAP_SALT_LEN witness seq(WRAP_SALT_LEN, _ => '0')
  type Nonce = b: Bytes | |b| == NONCE_LEN witness seq(NONCE_LEN, _ => '0')

  /** The key fields of a `groups` record; its name never changes here. */
  datatype GroupRecord = GroupRecord(name: Bytes, recipient: string, skWrapped: string, version: int)

  /** The master key, the primitives, and age's map from a private key to its public recipient. */
  datatype Env = Env(crypto: Crypto, mk: Bytes, recipientOf: Bytes -> string)

  ghost predicate GoodEnv(env: Env) {
    Ideal(env.crypto) && |env.mk| == MK_LEN && forall id: Identity :: env.recipientOf(id) != ""
  }

  predicate HasKey(g: GroupRecord) {
    g.recipient != "" && g.skWrapped != ""
  }

  function KekId(name: Bytes): Bytes {
    ['g', 'r', 'o', 'u', 'p', ':'] + name
  }

  /** The version the next mint takes. */
  function NextVersion(g: GroupRecord): int {
    if HasKey(g) then g.version + 1 else 1
  }

  // ---- /keys/get ----

  datatype GetResponse =
    | Refused(status: int)
    | Released(kekId: Bytes, version: int, recipient: string, identity: Bytes)

  /** handleKeysGet after authentication: `inGroup` says the slot names a group, `readOk` that its
      record was read, and `want` is the optional client kek_id, trimmed. */
  function Get(env: Env, inGroup: bool, readOk: bool, g: GroupRecord, want: Bytes): GetResponse {
    if !inGroup then Refused(409)
    else if !readOk then Refused(500)
    else if g.name == [] then Refused(409)
    else if want != [] && want != KekId(g.name) then Refused(403)
    else if !HasKey(g) then Refused(404)
    else
      match UnwrapKEK(env.crypto, env.mk, KekId(g.name), g.version, g.skWrapped)
      case Err => Refused(500)
      case Ok(sk) => Released(KekId(g.name), g.version, g.recipient, sk)
  }

  // ---- /keys/mint, step by step ----

  datatype Mint =
    | Idle
    | Planned(name: Bytes, version: int)
    | Generated(name: Bytes, version: int, id: Identity)
    | Wrapped(recipient: string, skWrapped: string, version: int)

  datatype Step =
    | ReadRecord(t: int, ok: bool)
    | Generate(t: int, ok: bool, id: Identity)
    | Wrap(t: int, salt: Salt, nonce: Nonce)
    | Put(t: int, ok: bool)

  /** `puts` counts the patches that landed. */
  datatype State = State(rec: GroupRecord, mints: map<int, Mint>, puts: nat)

  function MintOf(s: State, t: int): Mint {
    if t in s.mints then s.mints[t] else Idle
  }

  function Next(env: Env, s: State, step: Step): State {
    match step
    case ReadRecord(t, ok) =>
      if MintOf(s, t).Idle? && ok && s.rec.name != [] then
        s.(mints := s.mints[t := Planned(s.rec.name, NextVersion(s.rec))])
      else s
    case Generate(t, ok, id) =>
      var m := MintOf(s, t);
      if m.Planned? then s.(mints := s.mints[t := if ok then Generated(m.name, m.version, id) else Idle]) else s
    case Wrap(t, salt, nonce) =>
      var m := MintOf(s, t);
      if m.Generated? then
        match WrapKEK(env.crypto, env.mk, KekId(m.name), m.version, m.id, salt, nonce)
        case Err => s.(mints := s.mints[t := Idle])
        case Ok(w) => s.(mints := s.mints[t := Wrapped(env.recipientOf(m.id), w, m.version)])
      else s
    case Put(t, ok) =>
      var m := MintOf(s, t);
      if m.Wrapped? then
        var done := s.(mints := s.mints[t := Idle]);
        if ok then
          done.(rec := s.rec.(recipient := m.recipient, skWrapped := m.skWrapped, version := m.version),
                puts := s.puts + 1)
        else done
      else s
  }

  function Run(env: Env, s: State, steps: seq<Step>): State {
    if steps == [] then s else Next(env, Run(env, s, steps[..|steps| - 1]), steps[|steps| - 1])
  }

  /** The wrap opens, under this group and version, to the identity behind the recipient. */
  ghost predicate Matches(env: Env, name: Bytes, recipient: string, skWrapped: string, version: int) {
    && recipient != "" && skWrapped != ""
    && var sk := UnwrapKEK(env.crypto, env.mk, KekId(name), version, skWrapped);
       sk.Ok? && env.recipientOf(sk.value) == recipient
  }

  ghost predicate RecordConsistent(env: Env, g: GroupRecord) {
    HasKey(g) ==> Matches(env, g.name, g.recipient, g.skWrapped, g.version)
  }

  ghost predicate MintConsistent(env: Env, name: Bytes, m: Mint) {
    match m
    case Idle => true
    case Planned(n, v) => n == name
    case Generated(n, v, id) => n == name
    case Wrapped(r, w, v) => Matches(env, name, r, w, v)
  }

  ghost predicate Consistent(env: Env, s: State) {
    RecordConsistent(env, s.rec) && forall t :: MintConsistent(env, s.rec.name, MintOf(s, t))
  }

  lemma StepConsistent(env: Env, s: State, step: Step)
    requires GoodEnv(env) && Consistent(env, s)
    ensures Consistent(env, Next(env, s, step)) && Next(env, s, step).rec.name == s.rec.name
  {
    assert MintConsistent(env, s.rec.name, MintOf(s, step.t));
    var m := MintOf(s, step.t);
    if step.Wrap? && m.Generated? {
      WrapBinds(env.crypto, env.mk, KekId(m.name), m.version, m.id, step.salt, step.nonce,
                env.mk, KekId(m.name), m.version);
    }
    var s' := Next(env, s, step);
    forall t
      ensures MintConsistent(env, s'.rec.name, MintOf(s', t))
    {
      assert MintConsistent(env, s.rec.name, MintOf(s, t));
    }
  }

  /** However mints interleave and fail, the record stays consistent and keeps its group. */
  lemma {:induction false} RunConsistent(env: Env, s: State, steps: seq<Step>)
    requires GoodEnv(env) && Consistent(env, s)
    ensures Consistent(env, Run(env, s, steps)) && Run(env, s, steps).rec.name == s.rec.name
  {
    if steps != [] {
      RunConsistent(env, s, steps[..|steps| - 1]);
      StepConsistent(env, Run(env, s, steps[..|steps| - 1]), steps[|steps| - 1]);
    }
  }

  /** After any interleaving, /keys/get never fails to unwrap.  It releases exactly to a member whose
      group record was read, names a group, has both halves of a key, and is the one asked for, if one
      was: then the group's kek_id, the stored version and recipient, and that recipient's identity.
      Otherwise it refuses for the first of these that fails. */
  lemma GetReleasesMatchingPair(env: Env, s: State, steps: seq<Step>, inGroup: bool, readOk: bool, want: Bytes)
    requires GoodEnv(env) && Consistent(env, s)
    ensures var g := Run(env, s, steps).rec;
            var r := Get(env, inGroup, readOk, g, want);
            var provisioned := g.recipient != "" && g.skWrapped != "";
            var asked := want == "" || want == "group:" + g.name;
            (r.Released? <==> inGroup && readOk && g.name != "" && asked && provisioned) &&
            (r.Released? ==> r.kekId == "group:" + s.rec.name && r.version == g.version && r.recipient == g.recipient &&
                             env.recipientOf(r.identity) == r.recipient) &&
            (r.Refused? ==> r.status == if !inGroup then 409 else if !readOk then 500 else if g.name == "" then 409
                                        else if !asked then 403 else 404)
  {
    RunConsistent(env, s, steps);
    assert KekId(Run(env, s, steps).rec.name) == "group:" + Run(env, s, steps).rec.name;
  }

  /** Renaming a provisioned group locks its key out, and nothing but a change of name does: after any
      interleaving the key stays readable exactly under the name it was minted under. */
  lemma RenameLocksOut(env: Env, s: State, steps: seq<Step>, name: Bytes)
    requires GoodEnv(env) && Consistent(env, s) && HasKey(Run(env, s, steps).rec) && name != []
    ensures var r := Get(env, true, true, Run(env, s, steps).rec.(name := name), []);
            if name == s.rec.name then r.Released? else r == Refused(500)
  {
    RunConsistent(env, s, steps);
    var g := Run(env, s, steps).rec;
    if UnwrapKEK(env.crypto, env.mk, KekId(name), g.version, g.skWrapped).Ok? {
      OpensOnce(env.crypto, env.mk, KekId(g.name), g.version, KekId(name), g.version, g.skWrapped);
      assert KekId(name)[6..] == name && KekId(g.name)[6..] == g.name;
    }
  }

  // ---- Versions ----

  /** From an unprovisioned group no version exceeds the number of patches that landed. */
  ghost predicate VersionBounded(s: State) {
    && (HasKey(s.rec) ==> s.rec.version <= s.puts)
    && (forall t :: PlannedVersion(MintOf(s, t)) <= s.puts + 1)
  }

  function PlannedVersion(m: Mint): int {
    if m.Idle? then 0 else m.version
  }

  lemma {:induction false} RunVersionBounded(env: Env, g: GroupRecord, steps: seq<Step>)
    requires !HasKey(g)
    ensures VersionBounded(Run(env, State(g, map[], 0), steps))
  {
    if steps != [] {
      RunVersionBounded(env, g, steps[..|steps| - 1]);
      var s, step := Run(env, State(g, map[], 0), steps[..|steps| - 1]), steps[|steps| - 1];
      var s' := Next(env, s, step);
      assert PlannedVersion(MintOf(s, step.t)) <= s.puts + 1;
      forall t
        ensures PlannedVersion(MintOf(s', t)) <= s'.puts + 1
      {
        assert PlannedVersion(MintOf(s, t)) <= s.puts + 1;
      }
    }
  }

  // ---- Which puts move the version how ----

  /** When thread t read the record its current mint was planned from. */
  function ReadAt(env: Env, s: State, steps: seq<Step>, t: int): (r: nat)
    ensures r <= |steps|
  {
    if steps == [] then 0
    else
      var front, last := steps[..|steps| - 1], steps[|steps| - 1];
      if last == ReadRecord(t, true) && MintOf(Run(env, s, front), t).Idle? then |front| else ReadAt(env, s, front, t)
  }

  function ReadRecordOf(env: Env, s: State, steps: seq<Step>, t: int): GroupRecord {
    Run(env, s, steps[..ReadAt(env, s, steps, t)]).rec
  }

  /** Over every interleaving a mint in flight carries the version that follows the record it read. */
  lemma {:induction false} PlannedFromRead(env: Env, s: State, steps: seq<Step>, t: int)
    requires MintOf(s, t).Idle?
    ensures var m := MintOf(Run(env, s, steps), t);
            !m.Idle? ==> m.version == NextVersion(ReadRecordOf(env, s, steps, t))
  {
    if steps != [] {
      var front := steps[..|steps| - 1];
      PlannedFromRead(env, s, front, t);
      var r := ReadAt(env, s, front, t);
      assert front[..r] == steps[..r];
    }
  }

  /** The patch a put is about to land, and whether it is stale: the version moved since the read. */
  predicate Landing(env: Env, s: State, step: Step) {
    step.Put? && step.ok && MintOf(s, step.t).Wrapped?
  }

  predicate Stale(env: Env, s: State, steps: seq<Step>, t: int) {
    NextVersion(ReadRecordOf(env, s, steps, t)) != NextVersion(Run(env, s, steps).rec)
  }

  /** What a landed put does to the version, exactly: it writes the version after the one it read, so
      it counts one up precisely when it is not stale, and takes the version back precisely when the
      version it planned is below the stored one.  A server could test either before its patch. */
  lemma PutVersionExact(env: Env, s: State, steps: seq<Step>, t: int)
    requires GoodEnv(env) && Consistent(env, s) && MintOf(s, t).Idle? && Landing(env, Run(env, s, steps), Put(t, true))
    ensures var before := Run(env, s, steps).rec;
            var after := Run(env, s, steps + [Put(t, true)]).rec;
            var read := ReadRecordOf(env, s, steps, t);
            HasKey(after) && after.version == NextVersion(read) &&
            (after.version == NextVersion(before) <==> !Stale(env, s, steps, t)) &&
            (HasKey(before) ==> (after.version < before.version <==> NextVersion(read) < before.version))
  {
    PlannedFromRead(env, s, steps, t);
    RunConsistent(env, s, steps);
    assert MintConsistent(env, s.rec.name, MintOf(Run(env, s, steps), t));
    assert (steps + [Put(t, true)])[..|steps|] == steps;
  }

  /** No put lands in the steps from r on. */
  ghost predicate NonePut(env: Env, s: State, steps: seq<Step>, r: nat) {
    r <= |steps| && forall i :: r <= i < |steps| ==> !Landing(env, Run(env, s, steps[..i]), steps[i])
  }

  lemma {:induction false} RecordStays(env: Env, s: State, steps: seq<Step>, r: nat)
    requires NonePut(env, s, steps, r)
    ensures Run(env, s, steps).rec == Run(env, s, steps[..r]).rec
    decreases |steps|
  {
    if r == |steps| {
      assert steps[..r] == steps;
    } else {
      var front := steps[..|steps| - 1];
      assert front[..r] == steps[..r];
      forall i | r <= i < |front|
        ensures !Landing(env, Run(env, s, front[..i]), front[i])
      {
        assert front[..i] == steps[..i];
      }
      RecordStays(env, s, front, r);
      assert !Landing(env, Run(env, s, steps[..|steps| - 1]), steps[|steps| - 1]);
    }
  }

  /** In any interleaving, a put with no other landed put since its own read counts one up. */
  lemma UndisturbedPutCounts(env: Env, s: State, steps: seq<Step>, t: int)
    requires GoodEnv(env) && Consistent(env, s) && MintOf(s, t).Idle? && Landing(env, Run(env, s, steps), Put(t, true))
    requires NonePut(env, s, steps, ReadAt(env, s, steps, t))
    ensures Run(env, s, steps + [Put(t, true)]).rec.version == NextVersion(Run(env, s, steps).rec)
  {
    PutVersionExact(env, s, steps, t);
    RecordStays(env, s, steps, ReadAt(env, s, steps, t));
  }

  ghost predicate StalePutAt(env: Env, s: State, steps: seq<Step>, i: nat)
    requires i < |steps|
  {
    Landing(env, Run(env, s, steps[..i]), steps[i]) && Stale(env, s, steps[..i], steps[i].t)
  }

  /** No put that landed during the run was stale. */
  ghost predicate NoStalePut(env: Env, s: State, steps: seq<Step>) {
    forall i :: 0 <= i < |steps| ==> !StalePutAt(env, s, steps, i)
  }

  /** At every point of the run the version is the number of patches that landed. */
  ghost predicate VersionsCount(env: Env, s: State, steps: seq<Step>) {
    forall i :: 0 <= i <= |steps| ==> CountsPuts(Run(env, s, steps[..i]))
  }

  predicate CountsPuts(s: State) {
    NextVersion(s.rec) == s.puts + 1
  }

  lemma StepCounts(env: Env, g: GroupRecord, steps: seq<Step>, step: Step)
    requires GoodEnv(env) && !HasKey(g) && CountsPuts(Run(env, State(g, map[], 0), steps))
    ensures var s := State(g, map[], 0);
            CountsPuts(Next(env, Run(env, s, steps), step)) <==>
            !(Landing(env, Run(env, s, steps), step) && Stale(env, s, steps, step.t))
  {
    var s := State(g, map[], 0);
    if Landing(env, Run(env, s, steps), step) {
      PutVersionExact(env, s, steps, step.t);
      assert (steps + [step])[..|steps|] == steps;
    }
  }

  /** From an unprovisioned group, over every interleaving: versions count the landed patches at every
      point precisely when no landed put is stale. */
  lemma {:induction false} VersionsCountExact(env: Env, g: GroupRecord, steps: seq<Step>)
    requires GoodEnv(env) && !HasKey(g)
    ensures VersionsCount(env, State(g, map[], 0), steps) <==> NoStalePut(env, State(g, map[], 0), steps)
  {
    var s := State(g, map[], 0);
    if steps == [] {
      assert steps[..0] == [];
    } else {
      var n := |steps| - 1;
      var front, last := steps[..n], steps[n];
      assert steps == front + [last] && front[..n] == front;
      VersionsCountExact(env, g, front);
      VersionsCountSnoc(env, s, front, last);
      NoStalePutSnoc(env, s, front, last);
      if VersionsCount(env, s, front) {
        StepCounts(env, g, front, last);
      }
    }
  }

  lemma VersionsCountSnoc(env: Env, s: State, front: seq<Step>, last: Step)
    ensures VersionsCount(env, s, front + [last]) <==>
            VersionsCount(env, s, front) && CountsPuts(Run(env, s, front + [last]))
  {
    var steps := front + [last];
    assert steps[..|steps|] == steps;
    assert forall i :: 0 <= i <= |front| ==> front[..i] == steps[..i];
  }

  lemma NoStalePutSnoc(env: Env, s: State, front: seq<Step>, last: Step)
    ensures NoStalePut(env, s, front + [last]) <==>
            NoStalePut(env, s, front) && !StalePutAt(env, s, front + [last], |front|)
  {
    var steps := front + [last];
    forall i | 0 <= i < |front|
      ensures StalePutAt(env, s, front, i) <==> StalePutAt(env, s, steps, i)
    {
      assert front[..i] == steps[..i];
    }
  }

  datatype MintCall = MintCall(readOk: bool, genOk: bool, id: Identity, salt: Salt, nonce: Nonce, putOk: bool)

  /** One mint running alone. */
  function MintOnce(env: Env, g: GroupRecord, c: MintCall): (GroupRecord, int) {
    if !c.readOk then (g, 404)
    else if g.name == [] then (g, 409)
    else if !c.genOk then (g, 500)
    else
      match WrapKEK(env.crypto, env.mk, KekId(g.name), NextVersion(g), c.id, c.salt, c.nonce)
      case Err => (g, 500)
      case Ok(w) =>
        if !c.putOk then (g, 500)
        else (g.(recipient := env.recipientOf(c.id), skWrapped := w, version := NextVersion(g)), 200)
  }

  /** When a mint answers what, and what a successful one stores: a wrap of the new identity for the
      next version of this group, beside the identity's recipient. */
  lemma MintOnceExact(env: Env, g: GroupRecord, c: MintCall)
    requires Ideal(env.crypto)
    ensures var (g', status) := MintOnce(env, g, c);
            (status == 200 <==> c.readOk && g.name != "" && c.genOk && |env.mk| == 32 && c.putOk) &&
            (status != 200 ==> g' == g && status == if !c.readOk then 404 else if g.name == "" then 409 else 500) &&
            (status == 200 ==>
               g'.name == g.name && g'.recipient == env.recipientOf(c.id) &&
               g'.version == (if g.recipient != "" && g.skWrapped != "" then g.version + 1 else 1) &&
               UnwrapKEK(env.crypto, env.mk, KekId(g.name), g'.version, g'.skWrapped) == Ok(c.id))
  {
    if |env.mk| == 32 {
      WrapBinds(env.crypto, env.mk, KekId(g.name), NextVersion(g), c.id, c.salt, c.nonce, env.mk, KekId(g.name), NextVersion(g));
    }
  }

  function StepsOf(t: int, c: MintCall): seq<Step> {
    [ReadRecord(t, c.readOk), Generate(t, c.genOk, c.id), Wrap(t, c.salt, c.nonce), Put(t, c.putOk)]
  }

  /** A mint that overlaps no other behaves as the sequential one, counts a patch exactly when that one
      answers 200, and leaves no trace in any other mint. */
  lemma AloneIsMintOnce(env: Env, s: State, t: int, c: MintCall)
    requires MintOf(s, t).Idle?
    ensures var s' := Run(env, s, StepsOf(t, c));
            var (rec, status) := MintOnce(env, s.rec, c);
            s'.rec == rec && s'.puts == s.puts + (if status == 200 then 1 else 0) &&
            MintOf(s', t).Idle? && forall u :: u != t ==> MintOf(s', u) == MintOf(s, u)
  {
    var steps := StepsOf(t, c);
    RunThree(env, s, t, c);
    assert steps[..|steps| - 1] == steps[..3];
  }

  function MintAll(env: Env, g: GroupRecord, calls: seq<MintCall>): GroupRecord {
    if calls == [] then g else MintOnce(env, MintAll(env, g, calls[..|calls| - 1]), calls[|calls| - 1]).0
  }

  /** How many of the calls answer 200. */
  function Successes(env: Env, g: GroupRecord, calls: seq<MintCall>): nat {
    if calls == [] then 0
    else
      var before := calls[..|calls| - 1];
      Successes(env, g, before) +
      if MintOnce(env, MintAll(env, g, before), calls[|calls| - 1]).1 == 200 then 1 else 0
  }

  /** Without overlap the k-th successful mint has version k. */
  lemma {:induction false} SerialVersionsCount(env: Env, g: GroupRecord, calls: seq<MintCall>)
    requires GoodEnv(env) && !HasKey(g)
    ensures var g', k := MintAll(env, g, calls), Successes(env, g, calls);
            (HasKey(g') <==> k > 0) && (k > 0 ==> g'.version == k) && (k == 0 ==> g' == g) && g'.name == g.name
  {
    if calls != [] {
      var before := calls[..|calls| - 1];
      SerialVersionsCount(env, g, before);
      var b, c := MintAll(env, g, before), calls[|calls| - 1];
      if MintOnce(env, b, c).1 == 200 {
        WrapBinds(env.crypto, env.mk, KekId(b.name), NextVersion(b), c.id, c.salt, c.nonce,
                  env.mk, KekId(b.name), NextVersion(b));
      }
    }
  }

  /** Versions are not monotone when mints overlap: a slow mint planned before two others puts
      version 1 back over version 2. */
  lemma OverlapLowersVersion(env: Env, name: Bytes, id: Identity, salt: Salt, nonce: Nonce)
    returns (before: seq<Step>, last: Step)
    requires GoodEnv(env) && name != []
    ensures var s := State(GroupRecord(name, "", "", 0), map[], 0);
            Run(env, s, before).rec.version == 2 && Run(env, s, before + [last]).rec.version == 1 &&
            Run(env, s, before + [last]).puts == 3
  {
    var s := State(GroupRecord(name, "", "", 0), map[], 0);
    var c := MintCall(true, true, id, salt, nonce, true);
    before := StepsOf(1, c)[..3] + StepsOf(2, c) + StepsOf(3, c);
    last := Put(1, true);
    var planned := WrapAlone(env, s, 1, c);
    var once := PutAlone(env, planned, 2, c);
    var twice := PutAlone(env, once, 3, c);
    RunConcat(env, s, StepsOf(1, c)[..3], StepsOf(2, c));
    RunConcat(env, s, StepsOf(1, c)[..3] + StepsOf(2, c), StepsOf(3, c));
    assert (before + [last])[..|before|] == before;
  }

  /** A mint run alone up to its patch holds a wrap for the next version. */
  lemma WrapAlone(env: Env, s: State, t: int, c: MintCall) returns (s': State)
    requires GoodEnv(env) && s.rec.name != [] && MintOf(s, t).Idle? && c.readOk && c.genOk
    ensures s' == Run(env, s, StepsOf(t, c)[..3])
    ensures s'.rec == s.rec && s'.puts == s.puts
    ensures forall u :: u != t ==> MintOf(s', u) == MintOf(s, u)
    ensures MintOf(s', t).Wrapped? && MintOf(s', t).version == NextVersion(s.rec)
    ensures MintOf(s', t).skWrapped != "" && MintOf(s', t).recipient != ""
  {
    WrapBinds(env.crypto, env.mk, KekId(s.rec.name), NextVersion(s.rec), c.id, c.salt, c.nonce, env.mk, [], 0);
    RunThree(env, s, t, c);
    s' := Run(env, s, StepsOf(t, c)[..3]);
  }

  lemma PutAlone(env: Env, s: State, t: int, c: MintCall) returns (s': State)
    requires GoodEnv(env) && s.rec.name != [] && MintOf(s, t).Idle? && c.readOk && c.genOk && c.putOk
    ensures s' == Run(env, s, StepsOf(t, c)) && s'.puts == s.puts + 1
    ensures s'.rec.name == s.rec.name && HasKey(s'.rec) && s'.rec.version == NextVersion(s.rec)
    ensures forall u :: u != t ==> MintOf(s', u) == MintOf(s, u)
  {
    var w := WrapAlone(env, s, t, c);
    s' := Next(env, w, StepsOf(t, c)[3]);
  }

  lemma {:induction false} RunConcat(env: Env, s: State, a: seq<Step>, b: seq<Step>)
    ensures Run(env, s, a + b) == Run(env, Run(env, s, a), b)
  {
    if b == [] {
      assert a + b == a;
    } else {
      assert (a + b)[..|a + b| - 1] == a + b[..|b| - 1];
      RunConcat(env, s, a, b[..|b| - 1]);
    }
  }

  lemma RunThree(env: Env, s: State, t: int, c: MintCall)
    ensures var p := StepsOf(t, c);
            Run(env, s, p[..3]) == Next(env, Next(env, Next(env, s, p[0]), p[1]), p[2])
  {
    var steps := StepsOf(t, c);
    assert steps[..3][..2] == steps[..2] && steps[..2][..1] == steps[..1] && steps[..1][..0] == [];
    assert Run(env, s, steps[..1]) == Next(env, s, steps[0]);
    assert Run(env, s, steps[..2]) == Next(env, Next(env, s, steps[0]), steps[1]);
  }

  // ---- The broker ----

  class KeyBroker {
    var rec: GroupRecord

    constructor (g: GroupRecord)
      ensures rec == g
    {
      rec := g;
    }

    /** handleKeysMint: GET, generate, wrap, one PATCH. */
    method HandleKeysMint(env: Env, c: MintCall) returns (status: int)
      modifies this
      ensures (rec, status) == MintOnce(env, old(rec), c)
      ensures status != 200 ==> rec == old(rec)
    {
      if !c.readOk {
        return 404;
      }
      if rec.name == [] {
        return 409;
      }
      var version := 1;
      if HasKey(rec) {
        version := rec.version + 1;
      }
      if !c.genOk {
        return 500;
      }
      var wrapped := WrapKEK(env.crypto, env.mk, KekId(rec.name), version, c.id, c.salt, c.nonce);
      if wrapped.Err? || !c.putOk {
        return 500;
      }
      rec := rec.(recipient := env.recipientOf(c.id), skWrapped := wrapped.value, version := version);
      return 200;
    }
  }
}
