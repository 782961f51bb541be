/** All handlers interleaved at the granularity of their record patches (claim.go, manage.go,
    manage_lifecycle.go, manage_rotate.go, exchange.go).

    A handler reads its slot, decides, and later lands one patch computed from that reading; any
    number of other handlers may read and patch in between.  Only claims hold a lock from their
    find to their answer.  `log` records the patches that landed; what the theorems say about
    tokens and codes is phrased on that history.
 */
module Interleaving {
  import opened Wrappers
  import opened GoStrings
  import opened Identity
  import opened SlotStore
  import opened Lifecycle
  import opened BrokerService

  /** What a handler is about to patch. */
  datatype Op =
    | SuspendOp
    | ReactivateOp(secret: string, accessor: string, nomadToken: string)
    | RotateOp(secret: string, accessor: string, nomadToken: string)
    | ToSeedlingOp(token: string)
    | ToLocalOp

  datatype Pending = Pending(i: nat, op: Op)

  /** claimLock and the claim inside it: found but not patched, or patched but not answered. */
  datatype ClaimLock =
    | Free
    | Found(i: nat, code: string, name: string, token: Option<string>)
    | Patched(i: nat, code: string)

  datatype Event =
    | Claimed(i: nat, token: Option<string>)
    | Suspended(i: nat)
    | Reactivated(i: nat)
    | Rotated(i: nat)
    | Flipped(i: nat, token: Option<string>)

  datatype State = State(
    slots: seq<Slot>,
    claimLock: ClaimLock,
    pending: map<int, Pending>,
    minted: set<string>,     // every opaque token in existence
    log: seq<Event>,         // the landed patches, in order
    consumed: seq<string>,   // the codes claim patches consumed
    won: seq<string>)        // the codes whose claim got the YAML

  datatype Step =
    | ClaimFind(code: string, name: string, token: Option<string>)
    | ClaimPatchStep(ok: bool)
    | ClaimAnswer(ok: bool)
    | Begin(t: int, i: nat, op: Op)
    | Commit(t: int, ok: bool)
    | WriteConfig(i: nat, blob: Blob)

  /** The handler's guard on the record it read. */
  predicate Guard(s: Slot, op: Op) {
    match op
    case SuspendOp => s.state == CLAIMED
    case ReactivateOp(_, _, _) => s.state == SUSPENDED
    case RotateOp(_, _, _) => s.state == CLAIMED || s.state == SUSPENDED
    case ToSeedlingOp(_) => s.state == CLAIMED && CurrentSource(s) != SEEDLING
    case ToLocalOp => s.state == CLAIMED && CurrentSource(s) != LOCAL
  }

  function PatchOf(hash: Hash, op: Op): Patch {
    match op
    case SuspendOp => SuspendPatch()
    case ReactivateOp(secret, accessor, tok) => ReactivatePatch(secret, accessor, tok)
    case RotateOp(secret, accessor, tok) => RotatePatch(secret, accessor, tok)
    case ToSeedlingOp(token) => ToSeedlingPatch(hash(token))
    case ToLocalOp => ToLocalPatch()
  }

  function EventOf(i: nat, op: Op): Event {
    match op
    case SuspendOp => Suspended(i)
    case ReactivateOp(_, _, _) => Reactivated(i)
    case RotateOp(_, _, _) => Rotated(i)
    case ToSeedlingOp(token) => Flipped(i, Some(token))
    case ToLocalOp => Flipped(i, None)
  }

  /** A mint yields a token that never existed. */
  predicate FreshMint(s: State, token: Option<string>) {
    token.Some? ==> token.value != "" && token.value !in s.minted
  }

  function Mint(s: State, token: Option<string>): set<string> {
    if token.Some? then s.minted + {token.value} else s.minted
  }

  function OpToken(op: Op): Option<string> {
    if op.ToSeedlingOp? then Some(op.token) else None
  }

  /** A step that does not apply leaves the state alone. */
  function Next(hash: Hash, s: State, step: Step): State {
    match step
    case ClaimFind(code, name, token) =>
      var found := IndexByClaimCode(s.slots, code);
      if s.claimLock.Free? && code != "" && FreshMint(s, token) && found.Some? then
        s.(claimLock := Found(found.value, code, name, token), minted := Mint(s, token))
      else s
    case ClaimPatchStep(ok) =>
      if s.claimLock.Found? then
        var l := s.claimLock;
        if ok && l.i < |s.slots| then
          var hashed := if l.token.Some? then Some(hash(l.token.value)) else None;
          s.(slots := s.slots[l.i := Apply(s.slots[l.i], ClaimPatch(l.name, hashed))],
             claimLock := Patched(l.i, l.code),
             log := s.log + [Claimed(l.i, l.token)],
             consumed := s.consumed + [l.code])
        else s.(claimLock := Free)
      else s
    case ClaimAnswer(ok) =>
      if s.claimLock.Patched? then
        s.(claimLock := Free, won := if ok then s.won + [s.claimLock.code] else s.won)
      else s
    case Begin(t, i, op) =>
      if t !in s.pending && i < |s.slots| && Guard(s.slots[i], op) && FreshMint(s, OpToken(op)) then
        s.(pending := s.pending[t := Pending(i, op)], minted := Mint(s, OpToken(op)))
      else s
    case Commit(t, ok) =>
      if t in s.pending then
        var p := s.pending[t];
        var rest := s.(pending := s.pending - {t});
        if ok && p.i < |s.slots| then
          rest.(slots := s.slots[p.i := Apply(s.slots[p.i], PatchOf(hash, p.op))], log := s.log + [EventOf(p.i, p.op)])
        else rest
      else s
    case WriteConfig(i, blob) =>
      if i < |s.slots| then s.(slots := s.slots[i := Apply(s.slots[i], ConfigPatch(blob))]) else s
  }

  function Run(hash: Hash, s: State, steps: seq<Step>): State {
    if steps == [] then s else Next(hash, Run(hash, s, steps[..|steps| - 1]), steps[|steps| - 1])
  }

  /** The slots at the start, with the opaque token each one stands for. */
  datatype Origin = Origin(slots: seq<Slot>, tokens: seq<Option<string>>)

  function Start(o: Origin): State {
    State(o.slots, Free, map[], set x | x in o.tokens && x.Some? :: x.value, [], [], [])
  }

  // ---- History ----

  /** The slot's opaque token by history: the last one patched in, unless a flip to local followed. */
  function TokenOf(o: Origin, log: seq<Event>, i: nat): Option<string>
    requires i < |o.tokens|
  {
    if log == [] then o.tokens[i]
    else
      var e := log[|log| - 1];
      if e.i == i && e.Flipped? then e.token
      else if e.i == i && e.Claimed? && e.token.Some? then e.token
      else TokenOf(o, log[..|log| - 1], i)
  }

  /** The slot's state by history. */
  function StateOf(o: Origin, log: seq<Event>, i: nat): string
    requires i < |o.slots|
  {
    if log == [] then o.slots[i].state
    else
      var e := log[|log| - 1];
      if e.i == i && (e.Claimed? || e.Reactivated?) then CLAIMED
      else if e.i == i && e.Suspended? then SUSPENDED
      else StateOf(o, log[..|log| - 1], i)
  }

  lemma HistorySnoc(o: Origin, log: seq<Event>, e: Event, i: nat)
    requires i < |o.slots| && |o.slots| == |o.tokens|
    ensures TokenOf(o, log + [e], i) ==
            if e.i == i && e.Flipped? then e.token
            else if e.i == i && e.Claimed? && e.token.Some? then e.token
            else TokenOf(o, log, i)
    ensures StateOf(o, log + [e], i) ==
            if e.i == i && (e.Claimed? || e.Reactivated?) then CLAIMED
            else if e.i == i && e.Suspended? then SUSPENDED
            else StateOf(o, log, i)
  {
    assert (log + [e])[..|log|] == log;
  }

  /** cred_source and hash agree with the token a slot stands for. */
  predicate TokenMatches(hash: Hash, s: Slot, token: Option<string>) {
    match token
    case Some(t) => TrimSpace(s.credSource) == SEEDLING && s.opaqueTokenHash == hash(t)
    case None => s.opaqueTokenHash == ""
  }

  ghost predicate GoodOrigin(hash: Hash, o: Origin) {
    && |o.slots| == |o.tokens|
    && (forall i :: 0 <= i < |o.slots| ==> TokenMatches(hash, o.slots[i], o.tokens[i]) && o.tokens[i] != Some(""))
    && (forall i, j :: 0 <= i < j < |o.slots| ==> o.tokens[i].Some? ==> o.tokens[i] != o.tokens[j])
    && (forall i, j :: 0 <= i < j < |o.slots| ==> o.slots[i].claimCode != o.slots[j].claimCode)
  }

  // ---- Invariants ----

  /** Claims hold unclaimed slots, every other handler holds slots that are not. */
  ghost predicate Separate(o: Origin, s: State) {
    && |s.slots| == |o.slots|
    && (forall i :: 0 <= i < |s.slots| ==> s.slots[i].claimCode == o.slots[i].claimCode)
    && (!s.claimLock.Free? ==> s.claimLock.i < |s.slots|)
    && (s.claimLock.Found? ==> s.slots[s.claimLock.i].state == UNCLAIMED && s.slots[s.claimLock.i].claimCode == s.claimLock.code)
    && (forall t :: t in s.pending ==> s.pending[t].i < |s.slots| && s.slots[s.pending[t].i].state != UNCLAIMED)
  }

  /** A record update that keeps the claim code and never makes a slot unclaimed or an unclaimed
      slot of the lock's anything else keeps the separation. */
  lemma UpdateSeparate(o: Origin, s: State, i: nat, slot: Slot)
    requires Separate(o, s) && i < |s.slots|
    requires slot.claimCode == s.slots[i].claimCode && (slot.state == s.slots[i].state || slot.state != UNCLAIMED)
    requires s.claimLock.Found? && s.claimLock.i == i ==> slot.state == s.slots[i].state
    ensures Separate(o, s.(slots := s.slots[i := slot]))
  {
  }

  lemma ClaimPatchSeparate(hash: Hash, o: Origin, s: State, ok: bool)
    requires Separate(o, s) && s.claimLock.Found?
    ensures Separate(o, Next(hash, s, ClaimPatchStep(ok)))
  {
    var l := s.claimLock;
    var hashed := if l.token.Some? then Some(hash(l.token.value)) else None;
    UpdateSeparate(o, s.(claimLock := Free), l.i, Apply(s.slots[l.i], ClaimPatch(l.name, hashed)));
  }

  lemma CommitSeparate(hash: Hash, o: Origin, s: State, t: int, ok: bool)
    requires Separate(o, s) && t in s.pending
    ensures Separate(o, Next(hash, s, Commit(t, ok)))
  {
    var p := s.pending[t];
    UpdateSeparate(o, s.(pending := s.pending - {t}), p.i, Apply(s.slots[p.i], PatchOf(hash, p.op)));
  }

  lemma StepSeparate(hash: Hash, o: Origin, s: State, step: Step)
    requires Separate(o, s)
    ensures Separate(o, Next(hash, s, step))
  {
    match step {
      case ClaimPatchStep(ok) =>
        if s.claimLock.Found? {
          ClaimPatchSeparate(hash, o, s, ok);
        }
      case Commit(t, ok) =>
        if t in s.pending {
          CommitSeparate(hash, o, s, t, ok);
        }
      case WriteConfig(i, blob) =>
        if i < |s.slots| {
          UpdateSeparate(o, s, i, Apply(s.slots[i], ConfigPatch(blob)));
        }
      case _ =>
    }
  }

  lemma {:induction false} RunSeparate(hash: Hash, o: Origin, steps: seq<Step>)
    ensures Separate(o, Run(hash, Start(o), steps))
  {
    if steps != [] {
      RunSeparate(hash, o, steps[..|steps| - 1]);
      StepSeparate(hash, o, Run(hash, Start(o), steps[..|steps| - 1]), steps[|steps| - 1]);
    }
  }

  /** The records are what the history says. */
  ghost predicate Faithful(hash: Hash, o: Origin, s: State) {
    |s.slots| == |o.slots| == |o.tokens| &&
    forall i :: 0 <= i < |s.slots| ==>
      s.slots[i].state == StateOf(o, s.log, i) && TokenMatches(hash, s.slots[i], TokenOf(o, s.log, i))
  }

  lemma TrimSeedling()
    ensures TrimSpace(SEEDLING) == SEEDLING
  {
  }

  lemma {:induction false} RunFaithful(hash: Hash, o: Origin, steps: seq<Step>)
    requires GoodOrigin(hash, o)
    ensures Faithful(hash, o, Run(hash, Start(o), steps))
  {
    if steps != [] {
      RunFaithful(hash, o, steps[..|steps| - 1]);
      StepFaithful(hash, o, Run(hash, Start(o), steps[..|steps| - 1]), steps[|steps| - 1]);
    }
  }

  lemma StepFaithful(hash: Hash, o: Origin, s: State, step: Step)
    requires Faithful(hash, o, s)
    ensures Faithful(hash, o, Next(hash, s, step))
  {
    match step {
      case ClaimPatchStep(ok) =>
        if ok && s.claimLock.Found? && s.claimLock.i < |s.slots| {
          ClaimPatchFaithful(hash, o, s);
        }
      case Commit(t, ok) =>
        if ok && t in s.pending && s.pending[t].i < |s.slots| {
          CommitFaithful(hash, o, s, t);
        }
      case _ =>
    }
  }

  lemma ClaimPatchFaithful(hash: Hash, o: Origin, s: State)
    requires Faithful(hash, o, s) && s.claimLock.Found? && s.claimLock.i < |s.slots|
    ensures Faithful(hash, o, Next(hash, s, ClaimPatchStep(true)))
  {
    TrimSeedling();
    forall i | 0 <= i < |s.slots| {
      HistorySnoc(o, s.log, Claimed(s.claimLock.i, s.claimLock.token), i);
    }
  }

  /** What one patch makes of a slot's state and token. */
  lemma PatchFaithful(hash: Hash, s: Slot, token: Option<string>, op: Op)
    requires TokenMatches(hash, s, token)
    ensures var s' := Apply(s, PatchOf(hash, op));
            TokenMatches(hash, s', if op.ToSeedlingOp? || op.ToLocalOp? then OpToken(op) else token) &&
            s'.state == if op.SuspendOp? then SUSPENDED else if op.ReactivateOp? then CLAIMED else s.state
  {
    TrimSeedling();
  }

  lemma CommitFaithful(hash: Hash, o: Origin, s: State, t: int)
    requires Faithful(hash, o, s) && t in s.pending && s.pending[t].i < |s.slots|
    ensures Faithful(hash, o, Next(hash, s, Commit(t, true)))
  {
    var p := s.pending[t];
    PatchFaithful(hash, s.slots[p.i], TokenOf(o, s.log, p.i), p.op);
    forall i | 0 <= i < |s.slots| {
      HistorySnoc(o, s.log, EventOf(p.i, p.op), i);
    }
  }

  /** No token stands for two slots, or is about to. */
  ghost predicate Distinct(o: Origin, s: State) {
    |o.slots| == |o.tokens| &&
    (forall i :: 0 <= i < |o.slots| ==> TokenOf(o, s.log, i) != Some("") && InMint(s, TokenOf(o, s.log, i))) &&
    (forall i, j :: 0 <= i < j < |o.slots| ==> Apart(TokenOf(o, s.log, i), TokenOf(o, s.log, j))) &&
    (forall t :: t in s.pending ==> TokenPending(o, s, OpToken(s.pending[t].op))) &&
    (forall t, u :: t in s.pending && u in s.pending && t != u ==> Apart(OpToken(s.pending[t].op), OpToken(s.pending[u].op))) &&
    TokenPending(o, s, LockToken(s)) &&
    (forall t :: t in s.pending ==> Apart(OpToken(s.pending[t].op), LockToken(s)))
  }

  function LockToken(s: State): Option<string> {
    if s.claimLock.Found? then s.claimLock.token else None
  }

  predicate InMint(s: State, token: Option<string>) {
    token.Some? ==> token.value in s.minted
  }

  predicate Apart(a: Option<string>, b: Option<string>) {
    a.Some? ==> a != b
  }

  ghost predicate TokenPending(o: Origin, s: State, token: Option<string>)
    requires |o.slots| == |o.tokens|
  {
    InMint(s, token) && token != Some("") && forall i :: 0 <= i < |o.slots| ==> Apart(token, TokenOf(o, s.log, i))
  }

  lemma {:induction false} RunDistinct(hash: Hash, o: Origin, steps: seq<Step>)
    requires GoodOrigin(hash, o)
    ensures Distinct(o, Run(hash, Start(o), steps))
  {
    if steps != [] {
      RunDistinct(hash, o, steps[..|steps| - 1]);
      StepDistinct(hash, o, Run(hash, Start(o), steps[..|steps| - 1]), steps[|steps| - 1]);
    } else {
      assert forall i :: 0 <= i < |o.tokens| && o.tokens[i].Some? ==> Some(o.tokens[i].value) in o.tokens;
    }
  }

  lemma StepDistinct(hash: Hash, o: Origin, s: State, step: Step)
    requires Distinct(o, s)
    ensures Distinct(o, Next(hash, s, step))
  {
    match step {
      case ClaimPatchStep(_) => ClaimPatchDistinct(hash, o, s, step);
      case Commit(_, _) => CommitDistinct(hash, o, s, step);
      case _ =>
    }
  }

  lemma ClaimPatchDistinct(hash: Hash, o: Origin, s: State, step: Step)
    requires step.ClaimPatchStep? && Distinct(o, s)
    ensures Distinct(o, Next(hash, s, step))
  {
    var s' := Next(hash, s, step);
    forall i | 0 <= i < |o.slots|
      ensures TokenOf(o, s'.log, i) == TokenOf(o, s.log, i) ||
              (s.claimLock.Found? && i == s.claimLock.i && TokenOf(o, s'.log, i) == LockToken(s))
    {
      if |s'.log| > |s.log| {
        HistorySnoc(o, s.log, s'.log[|s.log|], i);
      }
    }
  }

  /** A token that moves from a pending handler to its slot stays apart from all others. */
  lemma MoveDistinct(o: Origin, s: State, s': State, t: int)
    requires Distinct(o, s) && t in s.pending
    requires s'.pending == s.pending - {t} && s'.minted == s.minted && LockToken(s') == LockToken(s)
    requires forall i :: 0 <= i < |o.slots| ==>
                           TokenOf(o, s'.log, i) == TokenOf(o, s.log, i) ||
                           (i == s.pending[t].i && TokenOf(o, s'.log, i) == OpToken(s.pending[t].op))
    ensures Distinct(o, s')
  {
  }

  lemma CommitDistinct(hash: Hash, o: Origin, s: State, step: Step)
    requires step.Commit? && Distinct(o, s)
    ensures Distinct(o, Next(hash, s, step))
  {
    if step.t in s.pending {
      var s' := Next(hash, s, step);
      var p := s.pending[step.t];
      forall i | 0 <= i < |o.slots|
        ensures TokenOf(o, s'.log, i) == TokenOf(o, s.log, i) || (i == p.i && TokenOf(o, s'.log, i) == OpToken(p.op))
      {
        HistorySnoc(o, s.log, EventOf(p.i, p.op), i);
      }
      MoveDistinct(o, s, s', step.t);
    }
  }

  // ---- Opaque tokens ----

  /** The real credentials an opaque token is exchanged for. */
  datatype CredsBundle = CredsBundle(whoami: string, nomadToken: string, namespace: string, accessKey: string, secretKey: string)

  /** An answer of /auth/exchange; `i` says whose bundle it is. */
  datatype Exchanged = Inactive | WrongSource | Released(i: nat, bundle: CredsBundle)

  /** FindSlot by hash among the claimed: the first match. */
  function IndexByHash(slots: seq<Slot>, h: string): (i: Option<nat>)
    ensures i.Some? ==> i.value < |slots| && slots[i.value].opaqueTokenHash == h && slots[i.value].state == CLAIMED
    ensures i.None? ==> forall k :: 0 <= k < |slots| ==> slots[k].opaqueTokenHash != h || slots[k].state != CLAIMED
  {
    if slots == [] then None
    else
      var front := IndexByHash(slots[..|slots| - 1], h);
      var last := slots[|slots| - 1];
      if front.Some? then front
      else if last.opaqueTokenHash == h && last.state == CLAIMED then Some(|slots| - 1)
      else None
  }

  /** handleAuthExchange for a trimmed bearer, given the group name GroupName answers. */
  function Exchange(hash: Hash, slots: seq<Slot>, bearer: string, group: string): Exchanged {
    if bearer == "" then Inactive
    else
      match IndexByHash(slots, hash(bearer))
      case None => Inactive
      case Some(i) =>
        var s := slots[i];
        if TrimSpace(s.credSource) != SEEDLING then WrongSource
        else
          Released(i, CredsBundle(s.slotName, s.nomadTokenSecret, if group == "" then "" else NamespaceForGroup(group),
                                  s.minioAccessKey, s.minioSecretKey))
  }

  /** On any records: no answer without a claimed slot under the token's hash; with one, its bundle if
      it is on seedling/v1, and the wrong-source error if it is not. */
  lemma ExchangeOutcome(hash: Hash, slots: seq<Slot>, bearer: string, group: string)
    ensures var r := Exchange(hash, slots, bearer, group);
            (r.Inactive? <==> bearer == "" ||
                              forall k :: 0 <= k < |slots| ==> slots[k].opaqueTokenHash != hash(bearer) || slots[k].state != "claimed") &&
            (r.Released? ==> r.i < |slots| && slots[r.i].opaqueTokenHash == hash(bearer) && slots[r.i].state == "claimed" &&
                             TrimSpace(slots[r.i].credSource) == "seedling/v1") &&
            (r.WrongSource? ==> exists k :: 0 <= k < |slots| && slots[k].opaqueTokenHash == hash(bearer) &&
                                            slots[k].state == "claimed" && TrimSpace(slots[k].credSource) != "seedling/v1")
  {
  }

  /** A released bundle holds what a local config of the same record would, exactly when the group is
      known: without one the config falls back to a bare prefix and the bundle to no namespace. */
  lemma BundleIsRenderExact(hash: Hash, slots: seq<Slot>, bearer: string, group: string)
    requires Exchange(hash, slots, bearer, group).Released?
    ensures var r := Exchange(hash, slots, bearer, group);
            var b := r.bundle;
            var blob := RealCreds(b.whoami, b.namespace, b.nomadToken, b.accessKey, b.secretKey);
            r.i < |slots| && (RenderConfig(slots[r.i].(credSource := LOCAL), group, "") == Ok(blob) <==> group != "")
  {
    NormalForms();
  }

  /** Over every interleaving a token exchanges to a slot exactly when, by history, the slot is
      claimed and the token is the last one patched in without a later flip to local.  Suspending
      kills it, reactivating revives it, rotating does not touch it, and no reachable state answers
      with the wrong-source error. */
  lemma ExchangeExact(hash: Hash, o: Origin, steps: seq<Step>, token: string, group: string, i: nat)
    requires GoodHash(hash) && GoodOrigin(hash, o) && i < |o.slots|
    ensures var s := Run(hash, Start(o), steps);
            var r := Exchange(hash, s.slots, token, group);
            (r.Released? && r.i == i <==> StateOf(o, s.log, i) == CLAIMED && TokenOf(o, s.log, i) == Some(token)) &&
            !r.WrongSource?
  {
    RunFaithful(hash, o, steps);
    RunDistinct(hash, o, steps);
    var s := Run(hash, Start(o), steps);
    var found := IndexByHash(s.slots, hash(token));
    if found.Some? {
      var k := found.value;
      assert TokenMatches(hash, s.slots[k], TokenOf(o, s.log, k));
      assert TokenOf(o, s.log, k) == Some(token);
      if k < i {
        assert Apart(TokenOf(o, s.log, k), TokenOf(o, s.log, i));
      } else if i < k {
        assert Apart(TokenOf(o, s.log, i), TokenOf(o, s.log, k));
      }
    }
    assert TokenMatches(hash, s.slots[i], TokenOf(o, s.log, i));
  }

  // ---- Claims ----

  function Count(codes: seq<string>, code: string): nat {
    multiset(codes)[code]
  }

  /** A consumed code belongs to a slot that is no longer unclaimed, and is counted once; every YAML
      was preceded by the consumption it answers for. */
  ghost predicate OncePerCode(o: Origin, s: State, code: string) {
    && (Count(s.consumed, code) > 0 ==> forall i :: 0 <= i < |s.slots| && s.slots[i].claimCode == code ==> s.slots[i].state != UNCLAIMED)
    && Count(s.consumed, code) <= 1
    && Count(s.won, code) + (if s.claimLock.Patched? && s.claimLock.code == code then 1 else 0) <= Count(s.consumed, code)
  }

  lemma StepOncePerCode(hash: Hash, o: Origin, s: State, step: Step, code: string)
    requires (forall i, j :: 0 <= i < j < |o.slots| ==> o.slots[i].claimCode != o.slots[j].claimCode)
    requires Separate(o, s) && OncePerCode(o, s, code)
    ensures OncePerCode(o, Next(hash, s, step), code)
  {
    match step {
      case ClaimPatchStep(ok) =>
        if ok && s.claimLock.Found? {
          ClaimPatchOnce(hash, o, s, code);
        }
      case ClaimAnswer(ok) =>
        if s.claimLock.Patched? {
          AnswerOnce(hash, o, s, ok, code);
        }
      case Commit(t, ok) =>
        if t in s.pending {
          CommitOnce(hash, o, s, t, ok, code);
        }
      case WriteConfig(i, blob) =>
        if i < |s.slots| {
          UpdateOnce(o, s, i, Apply(s.slots[i], ConfigPatch(blob)), code);
        }
      case _ =>
    }
  }

  lemma AnswerOnce(hash: Hash, o: Origin, s: State, ok: bool, code: string)
    requires OncePerCode(o, s, code) && s.claimLock.Patched?
    ensures OncePerCode(o, Next(hash, s, ClaimAnswer(ok)), code)
  {
    assert Count(s.won + [s.claimLock.code], code) == Count(s.won, code) + if s.claimLock.code == code then 1 else 0;
  }

  lemma CommitOnce(hash: Hash, o: Origin, s: State, t: int, ok: bool, code: string)
    requires Separate(o, s) && OncePerCode(o, s, code) && t in s.pending
    ensures OncePerCode(o, Next(hash, s, Commit(t, ok)), code)
  {
    var p := s.pending[t];
    UpdateOnce(o, s, p.i, Apply(s.slots[p.i], PatchOf(hash, p.op)), code);
  }

  /** Nothing but a claim bears on it: no other record update makes a slot unclaimed. */
  lemma UpdateOnce(o: Origin, s: State, i: nat, slot: Slot, code: string)
    requires OncePerCode(o, s, code) && i < |s.slots|
    requires slot.claimCode == s.slots[i].claimCode && (slot.state == s.slots[i].state || slot.state != UNCLAIMED)
    ensures OncePerCode(o, s.(slots := s.slots[i := slot]), code)
  {
  }

  lemma ClaimPatchOnce(hash: Hash, o: Origin, s: State, code: string)
    requires (forall i, j :: 0 <= i < j < |o.slots| ==> o.slots[i].claimCode != o.slots[j].claimCode)
    requires Separate(o, s) && OncePerCode(o, s, code) && s.claimLock.Found?
    ensures OncePerCode(o, Next(hash, s, ClaimPatchStep(true)), code)
  {
    var l := s.claimLock;
    assert s.slots[l.i].claimCode == l.code == o.slots[l.i].claimCode;
    if l.code == code {
      assert Count(s.consumed, code) == 0;
    }
    assert Count(s.consumed + [l.code], code) == Count(s.consumed, code) + if l.code == code then 1 else 0;
  }

  lemma {:induction false} RunOncePerCode(hash: Hash, o: Origin, steps: seq<Step>, code: string)
    requires GoodOrigin(hash, o)
    ensures OncePerCode(o, Run(hash, Start(o), steps), code)
  {
    if steps != [] {
      RunSeparate(hash, o, steps[..|steps| - 1]);
      RunOncePerCode(hash, o, steps[..|steps| - 1], code);
      StepOncePerCode(hash, o, Run(hash, Start(o), steps[..|steps| - 1]), steps[|steps| - 1], code);
    }
  }

  /** At most one claim ever wins: over any interleaving of claims and everything else, a code is
      consumed at most once, and at most one claim on it gets the YAML. */
  lemma AtMostOneClaimWins(hash: Hash, o: Origin, steps: seq<Step>, code: string)
    requires GoodOrigin(hash, o)
    ensures var s := Run(hash, Start(o), steps);
            Count(s.won, code) <= Count(s.consumed, code) <= 1
  {
    RunOncePerCode(hash, o, steps, code);
  }

  /** Once a code is consumed no later claim finds a slot for it. */
  lemma ConsumedNeverFound(hash: Hash, o: Origin, steps: seq<Step>, code: string)
    requires GoodOrigin(hash, o)
    ensures var s := Run(hash, Start(o), steps);
            Count(s.consumed, code) > 0 ==> IndexByClaimCode(s.slots, code).None?
  {
    RunOncePerCode(hash, o, steps, code);
  }

  // ---- Handlers that overlap no other ----

  function OpOf(c: Call): Op
    requires c.Suspend? || c.Reactivate? || c.Rotate? || c.Flip?
  {
    match c
    case Suspend(_) => SuspendOp
    case Reactivate(e) => ReactivateOp(e.secret, e.accessor, e.token)
    case Rotate(e) => RotateOp(e.secret, e.accessor, e.token)
    case Flip(e) => if Normal(e.want) == SEEDLING then ToSeedlingOp(e.token) else ToLocalOp
  }

  /** The handler reaches its patch and the patch lands. */
  predicate PatchLands(v: View, c: Call) {
    match c
    case Suspend(e) => e.findOk && v.rec.state == CLAIMED && e.patchOk
    case Reactivate(e) => e.findOk && v.rec.state == SUSPENDED && e.admins && e.minioOk && e.createOk && e.patchOk
    case Rotate(e) =>
      e.findOk && (v.rec.state == CLAIMED || v.rec.state == SUSPENDED) && e.admins && e.minioOk && e.createOk && e.patchOk
    case _ => SourcePatched(v, c)
  }

  /** The record between a handler's patch and its render. */
  function AfterPatch(hash: Hash, v: View, c: Call): Slot
    requires c.Suspend? || c.Reactivate? || c.Rotate? || c.Flip?
  {
    if PatchLands(v, c) then Apply(v.rec, PatchOf(hash, OpOf(c))) else v.rec
  }

  function BlobAfter(hash: Hash, v: View, c: Call): Blob {
    After(v, Exec(hash, v, c)).rec.configYAML
  }

  lemma RotateRecord(hash: Hash, v: View, e: RotateEnv)
    ensures After(v, RotateRun(v, e)).rec == AfterPatch(hash, v, Rotate(e)).(configYAML := BlobAfter(hash, v, Rotate(e)))
  {
  }

  lemma FlipRecord(hash: Hash, v: View, e: FlipEnv)
    ensures After(v, FlipRun(hash, v, e)).rec == AfterPatch(hash, v, Flip(e)).(configYAML := BlobAfter(hash, v, Flip(e)))
  {
    NormalForms();
  }

  /** A handler's effect on the record is one patch and one write of the blob. */
  lemma HandlerRecord(hash: Hash, v: View, c: Call)
    requires c.Suspend? || c.Reactivate? || c.Rotate? || c.Flip?
    ensures After(v, Exec(hash, v, c)).rec == AfterPatch(hash, v, c).(configYAML := BlobAfter(hash, v, c))
  {
    match c {
      case Rotate(e) => RotateRecord(hash, v, e);
      case Flip(e) => FlipRecord(hash, v, e);
      case _ =>
    }
  }

  lemma LandsGuarded(v: View, c: Call)
    requires (c.Suspend? || c.Reactivate? || c.Rotate? || c.Flip?) && PatchLands(v, c)
    ensures Guard(v.rec, OpOf(c))
  {
  }

  /** A handler holds a patch for a slot exactly when some inputs take it past its checks to that patch. */
  lemma GuardExact(v: View, op: Op)
    ensures Guard(v.rec, op) <==> exists c :: HasOp(c, op) && PatchLands(v, c)
  {
    if Guard(v.rec, op) {
      var persist := PersistEnv(true, "", true);
      NormalForms();
      var c := match op
        case SuspendOp => Suspend(SuspendEnv(true, true, true, true, true, true))
        case ReactivateOp(secret, accessor, token) =>
          Reactivate(ReactivateEnv(true, true, true, true, secret, true, accessor, token, true))
        case RotateOp(secret, accessor, token) => Rotate(RotateEnv(true, true, true, secret, true, accessor, token, true, true, persist))
        case ToSeedlingOp(token) => Flip(FlipEnv("seedling/v1", true, true, token, true, persist))
        case ToLocalOp => Flip(FlipEnv("local", true, true, "", true, persist));
      assert HasOp(c, op) && PatchLands(v, c);
    }
    if c :| HasOp(c, op) && PatchLands(v, c) {
      LandsGuarded(v, c);
    }
  }

  predicate HasOp(c: Call, op: Op) {
    (c.Suspend? || c.Reactivate? || c.Rotate? || c.Flip?) && OpOf(c) == op
  }

  lemma BeginCommit(hash: Hash, s: State, t: int, i: nat, op: Op, ok: bool)
    requires t !in s.pending && i < |s.slots| && FreshMint(s, OpToken(op)) && (ok ==> Guard(s.slots[i], op))
    ensures var s' := Next(hash, Next(hash, s, Begin(t, i, op)), Commit(t, ok));
            s'.slots == (if ok then s.slots[i := Apply(s.slots[i], PatchOf(hash, op))] else s.slots) &&
            s'.log == (if ok then s.log + [EventOf(i, op)] else s.log) &&
            s'.pending == s.pending && s'.claimLock == s.claimLock
  {
    var s1 := Next(hash, s, Begin(t, i, op));
    assert s1.pending - {t} == s.pending;
  }

  lemma RunThree(hash: Hash, s: State, a: Step, b: Step, c: Step)
    ensures Run(hash, s, [a, b, c]) == Next(hash, Next(hash, Next(hash, s, a), b), c)
  {
    assert [a, b, c][..2] == [a, b] && [a, b][..1] == [a] && [a][..0] == [];
    assert Run(hash, s, [a]) == Next(hash, s, a);
    assert Run(hash, s, [a, b]) == Next(hash, Next(hash, s, a), b);
  }

  /** A handler whose steps no other step comes between leaves the record exactly as its run in
      Lifecycle does; a render that is skipped or fails writes back the blob that is there. */
  lemma AloneIsHandler(hash: Hash, s: State, t: int, i: nat, v: View, c: Call)
    requires c.Suspend? || c.Reactivate? || c.Rotate? || c.Flip?
    requires t !in s.pending && i < |s.slots| && s.slots[i] == v.rec && FreshMint(s, OpToken(OpOf(c)))
    ensures var s' := Run(hash, s, [Begin(t, i, OpOf(c)), Commit(t, PatchLands(v, c)), WriteConfig(i, BlobAfter(hash, v, c))]);
            s'.slots == s.slots[i := After(v, Exec(hash, v, c)).rec] &&
            s'.pending == s.pending && s'.claimLock == s.claimLock &&
            s'.log == if PatchLands(v, c) then s.log + [EventOf(i, OpOf(c))] else s.log
  {
    if PatchLands(v, c) {
      LandsGuarded(v, c);
    }
    BeginCommit(hash, s, t, i, OpOf(c), PatchLands(v, c));
    RunThree(hash, s, Begin(t, i, OpOf(c)), Commit(t, PatchLands(v, c)), WriteConfig(i, BlobAfter(hash, v, c)));
    var s2 := Next(hash, Next(hash, s, Begin(t, i, OpOf(c))), Commit(t, PatchLands(v, c)));
    assert s2.slots[i] == AfterPatch(hash, v, c);
    HandlerRecord(hash, v, c);
    ConfigWritten(hash, s2, i, BlobAfter(hash, v, c));
  }

  lemma ConfigWritten(hash: Hash, s: State, i: nat, blob: Blob)
    requires i < |s.slots|
    ensures Next(hash, s, WriteConfig(i, blob)) == s.(slots := s.slots[i := s.slots[i].(configYAML := blob)])
  {
  }

  function MintedBy(e: ClaimEnv): Option<string> {
    if EffectiveSource(e) == SEEDLING then Some(e.token) else None
  }

  lemma ClaimRecord(hash: Hash, v: View, e: ClaimEnv)
    ensures var patched := if SourcePatched(v, Claim(e)) then Apply(v.rec, ClaimPatchFor(hash, e)) else v.rec;
            After(v, ClaimRun(hash, v, e)).rec == patched.(configYAML := BlobAfter(hash, v, Claim(e)))
    ensures ClaimRun(hash, v, e).status == 200 ==> SourcePatched(v, Claim(e))
  {
  }

  lemma FindPatch(hash: Hash, s: State, i: nat, code: string, name: string, token: Option<string>, ok: bool)
    requires s.claimLock.Free? && FreshMint(s, token) && IndexByClaimCode(s.slots, code) == Some(i) && (ok ==> code != "")
    ensures var s' := Next(hash, Next(hash, s, ClaimFind(code, name, token)), ClaimPatchStep(ok));
            var hashed := if token.Some? then Some(hash(token.value)) else None;
            s'.slots == (if ok then s.slots[i := Apply(s.slots[i], ClaimPatch(name, hashed))] else s.slots) &&
            s'.claimLock == (if ok then Patched(i, code) else Free) && s'.won == s.won && s'.pending == s.pending
  {
  }

  /** And so does a claim, which wins exactly when it answers 200. */
  lemma AloneIsClaim(hash: Hash, s: State, i: nat, v: View, e: ClaimEnv)
    requires s.claimLock.Free? && FreshMint(s, MintedBy(e))
    requires IndexByClaimCode(s.slots, TrimSpace(e.code)) == Some(i) && s.slots[i] == v.rec
    ensures var r := ClaimRun(hash, v, e);
            var patched := Run(hash, s, [ClaimFind(TrimSpace(e.code), TrimSpace(e.name), MintedBy(e)),
                                         ClaimPatchStep(SourcePatched(v, Claim(e))),
                                         WriteConfig(i, BlobAfter(hash, v, Claim(e)))]);
            var s' := Next(hash, patched, ClaimAnswer(r.status == 200));
            s'.slots == s.slots[i := After(v, r).rec] && s'.claimLock.Free? && s'.pending == s.pending &&
            s'.won == if r.status == 200 then s.won + [TrimSpace(e.code)] else s.won
  {
    var find, patch := ClaimFind(TrimSpace(e.code), TrimSpace(e.name), MintedBy(e)), ClaimPatchStep(SourcePatched(v, Claim(e)));
    FindPatch(hash, s, i, TrimSpace(e.code), TrimSpace(e.name), MintedBy(e), SourcePatched(v, Claim(e)));
    RunThree(hash, s, find, patch, WriteConfig(i, BlobAfter(hash, v, Claim(e))));
    ConfigWritten(hash, Next(hash, Next(hash, s, find), patch), i, BlobAfter(hash, v, Claim(e)));
    ClaimRecord(hash, v, e);
  }
}
