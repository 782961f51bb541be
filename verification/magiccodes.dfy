/** One-time login codes (magic.go, minio_sso.go): a map that is swept of expired entries on every
    issue and consulted by two handlers.

    The clock and the random code are parameters.
 */
module MagicCodes {
  import opened Wrappers
  import opened GoStrings

  datatype MagicCode = MagicCode(username: string, expiry: int, nextURL: string, extra: map<string, string>)

  /** The entries a sweep at `now` keeps. */
  function Swept(m: map<string, MagicCode>, now: int): map<string, MagicCode> {
    map k | k in m && m[k].expiry >= now :: m[k]
  }

  function Redeemed(m: map<string, MagicCode>, code: string, now: int): Option<MagicCode> {
    if code in m && m[code].expiry >= now then Some(m[code]) else None
  }

  class MagicCodeStore {
    var m: map<string, MagicCode>

    constructor ()
      ensures m == map[]
    {
      m := map[];
    }

    method Issue(code: string, randOk: bool, username: string, nextURL: string, ttl: int,
                 extra: map<string, string>, now: int) returns (r: Result<string>)
      modifies this
      ensures if randOk then
                r == Ok(code) && m == Swept(old(m), now)[code := MagicCode(username, now + ttl, nextURL, extra)]
              else r.Err? && m == old(m)
    {
      if !randOk {
        return Err;
      }
      ghost var before := m;
      var todo := m.Keys;
      while todo != {}
        invariant todo <= m.Keys <= before.Keys
        invariant forall k :: k in m ==> m[k] == before[k]
        invariant forall k :: k in before && k !in todo ==> (k in m <==> before[k].expiry >= now)
        decreases todo
      {
        var k :| k in todo;
        todo := todo - {k};
        if m[k].expiry < now {
          m := m - {k};
        }
      }
      assert m == Swept(before, now);
      m := m[code := MagicCode(username, now + ttl, nextURL, extra)];
      r := Ok(code);
    }

    method Redeem(code: string, now: int) returns (r: Option<MagicCode>)
      modifies this
      ensures r == Redeemed(old(m), code, now) && m == old(m) - {code}
    {
      if code !in m {
        assert m - {code} == m;
        return None;
      }
      var entry := m[code];
      m := m - {code};
      if entry.expiry < now {
        return None;
      }
      return Some(entry);
    }

    /** handleAuthRedeem and handleAuthMinIOLogin up to the redirect: an empty code never reaches
        the store. */
    method HandleRedeem(rawCode: string, now: int) returns (r: Outcome)
      modifies this
      ensures (m, r) == RedeemStep(old(m), rawCode, now)
    {
      var code := TrimSpace(rawCode);
      if code == "" {
        return MissingCode;
      }
      var entry := Redeem(code, now);
      r := if entry.None? then LinkExpired else Admitted(entry.value);
    }
  }

  datatype Outcome = MissingCode | LinkExpired | Admitted(entry: MagicCode) | CodeIssued

  datatype Consumer = Portal | MinIOConsole

  datatype Op =
    | IssueOp(code: string, entry: MagicCode, now: int)
    | RedeemOp(rawCode: string, consumer: Consumer, now: int)

  function RedeemStep(m: map<string, MagicCode>, rawCode: string, now: int): (map<string, MagicCode>, Outcome) {
    var code := TrimSpace(rawCode);
    if code == "" then (m, MissingCode)
    else
      match Redeemed(m, code, now)
      case None => (m - {code}, LinkExpired)
      case Some(e) => (m - {code}, Admitted(e))
  }

  function Step(m: map<string, MagicCode>, op: Op): (map<string, MagicCode>, Outcome) {
    match op
    case IssueOp(code, entry, now) => (Swept(m, now)[code := entry], CodeIssued)
    case RedeemOp(rawCode, _, now) => RedeemStep(m, rawCode, now)
  }

  /** The same store without the sweep. */
  function UnsweptStep(m: map<string, MagicCode>, op: Op): (map<string, MagicCode>, Outcome) {
    match op
    case IssueOp(code, entry, now) => (m[code := entry], CodeIssued)
    case RedeemOp(rawCode, _, now) => RedeemStep(m, rawCode, now)
  }

  function Run(ops: seq<Op>): map<string, MagicCode> {
    if ops == [] then map[] else Step(Run(ops[..|ops| - 1]), ops[|ops| - 1]).0
  }

  function UnsweptRun(ops: seq<Op>): map<string, MagicCode> {
    if ops == [] then map[] else UnsweptStep(UnsweptRun(ops[..|ops| - 1]), ops[|ops| - 1]).0
  }

  /** What the i-th operation answers. */
  function AnswerAt(ops: seq<Op>, i: nat): Outcome
    requires i < |ops|
  {
    Step(Run(ops[..i]), ops[i]).1
  }

  function UnsweptAnswerAt(ops: seq<Op>, i: nat): Outcome
    requires i < |ops|
  {
    UnsweptStep(UnsweptRun(ops[..i]), ops[i]).1
  }

  /** The mutex orders the operations, so their clock readings do not decrease. */
  ghost predicate Timed(ops: seq<Op>) {
    forall i, j :: 0 <= i < j < |ops| ==> ops[i].now <= ops[j].now
  }

  predicate Touches(op: Op, code: string) {
    match op
    case IssueOp(c, _, _) => c == code
    case RedeemOp(raw, _, _) => code != "" && TrimSpace(raw) == code
  }

  /** The entry a code stands for by history alone: its last issue, unless an attempt to redeem it
      came later. */
  function Pending(ops: seq<Op>, code: string): Option<MagicCode> {
    if ops == [] then None
    else
      var op := ops[|ops| - 1];
      if Touches(op, code) then (if op.IssueOp? then Some(op.entry) else None)
      else Pending(ops[..|ops| - 1], code)
  }

  /** The unswept map holds exactly the pending entries. */
  lemma {:induction false} UnsweptIsPending(ops: seq<Op>, code: string)
    ensures var p := Pending(ops, code);
            if p.Some? then code in UnsweptRun(ops) && UnsweptRun(ops)[code] == p.value
            else code !in UnsweptRun(ops)
  {
    if ops != [] {
      UnsweptIsPending(ops[..|ops| - 1], code);
    }
  }

  /** What a sweep removed could not have been redeemed any more. */
  lemma {:induction false} SweptAgrees(ops: seq<Op>, code: string, now: int)
    requires Timed(ops) && (ops != [] ==> ops[|ops| - 1].now <= now)
    ensures Redeemed(Run(ops), code, now) == Redeemed(UnsweptRun(ops), code, now)
  {
    if ops != [] {
      SweptAgrees(ops[..|ops| - 1], code, now);
    }
  }

  lemma RunIsPending(ops: seq<Op>, code: string, now: int)
    requires Timed(ops) && (ops != [] ==> ops[|ops| - 1].now <= now)
    ensures Redeemed(Run(ops), code, now) == Redeemed(UnsweptRun(ops), code, now)
    ensures var p := Pending(ops, code);
            if p.Some? then code in UnsweptRun(ops) && UnsweptRun(ops)[code] == p.value
            else code !in UnsweptRun(ops)
  {
    SweptAgrees(ops, code, now);
    UnsweptIsPending(ops, code);
  }

  /** The swept store answers every operation as the unswept one does, for any history. */
  lemma SweepUnobservable(ops: seq<Op>, i: nat)
    requires Timed(ops) && i < |ops|
    ensures AnswerAt(ops, i) == UnsweptAnswerAt(ops, i)
  {
    if ops[i].RedeemOp? {
      RunIsPending(ops[..i], TrimSpace(ops[i].rawCode), ops[i].now);
    }
  }

  /** A redemption admits exactly the pending entry of its code, and only up to its expiry. */
  lemma RedeemExact(ops: seq<Op>, i: nat)
    requires Timed(ops) && i < |ops| && ops[i].RedeemOp?
    ensures var code := TrimSpace(ops[i].rawCode);
            var p := Pending(ops[..i], code);
            AnswerAt(ops, i) ==
            if code == "" then MissingCode
            else if p.Some? && ops[i].now <= p.value.expiry then Admitted(p.value)
            else LinkExpired
  {
    RunIsPending(ops[..i], TrimSpace(ops[i].rawCode), ops[i].now);
  }

  lemma {:induction false} PendingNeedsIssue(ops: seq<Op>, code: string, i: nat)
    requires i < |ops| && ops[i].RedeemOp? && Touches(ops[i], code) && Pending(ops, code).Some?
    ensures exists k :: i < k < |ops| && ops[k].IssueOp? && ops[k].code == code
  {
    var last := |ops| - 1;
    if !Touches(ops[last], code) {
      PendingNeedsIssue(ops[..last], code, i);
    }
  }

  /** Single use across both consumers: two admissions on one code have an issue of it between them,
      so a code issued once is redeemed at most once. */
  lemma SingleUse(ops: seq<Op>, i: nat, j: nat)
    requires Timed(ops) && i < j < |ops|
    requires ops[i].RedeemOp? && ops[j].RedeemOp? && TrimSpace(ops[i].rawCode) == TrimSpace(ops[j].rawCode)
    requires AnswerAt(ops, i).Admitted? && AnswerAt(ops, j).Admitted?
    ensures exists k :: i < k < j && ops[k].IssueOp? && ops[k].code == TrimSpace(ops[i].rawCode)
  {
    RedeemExact(ops, j);
    PendingNeedsIssue(ops[..j], TrimSpace(ops[i].rawCode), i);
  }

  /** Right after an issue no entry is expired, exactly when the new one is not. */
  lemma NothingExpiredAfterIssue(m: map<string, MagicCode>, code: string, entry: MagicCode, now: int)
    ensures var m' := Step(m, IssueOp(code, entry, now)).0;
            (forall k :: k in m' ==> m'[k].expiry >= now) <==> entry.expiry >= now
  {
    var m' := Step(m, IssueOp(code, entry, now)).0;
    assert m'[code] == entry;
  }
}
