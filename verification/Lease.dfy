/** Worktree leases: exclusive claims over time, kept in whole milliseconds. */
module Lease {
  import opened Wrappers

  const DEFAULT_TTL := 60 * 1000 * MILLISECOND

  function UnixMilli(t: int): int { t / MILLISECOND }

  /** What a holder is handed: its expiry keeps full precision. */
  datatype Lease = Lease(worktree: string, task: string, holder: string, expiresAt: int) {
    predicate Expired(now: int) { now > expiresAt }

    /** The expiry the store knows, back in nanoseconds. */
    function StoredExpiry(): int { UnixMilli(expiresAt) * MILLISECOND }
  }

  datatype Row = Row(task: string, holder: string, expiresMs: int)
  type Rows = map<string, Row>

  datatype Result = Granted(lease: Lease) | Held(owner: string) | NotHolder

  function Ttl(ttl: int): int { if ttl <= 0 then DEFAULT_TTL else ttl }

  predicate LiveRow(r: Row, now: int) { r.expiresMs * MILLISECOND > now }

  function AcquireStep(rows: Rows, worktree: string, task: string, holder: string, ttl: int, now: int): (Result, Rows) {
    if worktree in rows && LiveRow(rows[worktree], now) && rows[worktree].holder != holder
    then (Held(rows[worktree].holder), rows)
    else
      var expires := now + Ttl(ttl);
      (Granted(Lease(worktree, task, holder, expires)), rows[worktree := Row(task, holder, UnixMilli(expires))])
  }

  function RenewStep(rows: Rows, worktree: string, holder: string, ttl: int, now: int): (Result, Rows) {
    if worktree !in rows || rows[worktree].holder != holder then (NotHolder, rows)
    else
      var expires := now + Ttl(ttl);
      (Granted(Lease(worktree, "", holder, expires)), rows[worktree := rows[worktree].(expiresMs := UnixMilli(expires))])
  }

  function ReleaseStep(rows: Rows, worktree: string, holder: string): Rows {
    if worktree in rows && rows[worktree].holder == holder then rows - {worktree} else rows
  }

  class Ledger {
    var leases: Rows

    constructor ()
      ensures leases == map[]
    {
      leases := map[];
    }

    method AcquireLease(worktree: string, task: string, holder: string, ttl: int, now: int) returns (r: Result)
      modifies this
      ensures (r, leases) == AcquireStep(old(leases), worktree, task, holder, ttl, now)
    {
      var effective := ttl;
      if effective <= 0 {
        effective := DEFAULT_TTL;
      }
      var expires := now + effective;
      if worktree in leases {
        var live := leases[worktree].expiresMs * MILLISECOND > now;
        if live && leases[worktree].holder != holder {
          return Held(leases[worktree].holder);
        }
      }
      leases := leases[worktree := Row(task, holder, UnixMilli(expires))];
      r := Granted(Lease(worktree, task, holder, expires));
    }

    method RenewLease(worktree: string, holder: string, ttl: int, now: int) returns (r: Result)
      modifies this
      ensures (r, leases) == RenewStep(old(leases), worktree, holder, ttl, now)
    {
      var effective := ttl;
      if effective <= 0 {
        effective := DEFAULT_TTL;
      }
      var expires := now + effective;
      if worktree !in leases || leases[worktree].holder != holder {
        return NotHolder;
      }
      leases := leases[worktree := leases[worktree].(expiresMs := UnixMilli(expires))];
      r := Granted(Lease(worktree, "", holder, expires));
    }

    method ReleaseLease(worktree: string, holder: string)
      modifies this
      ensures leases == ReleaseStep(old(leases), worktree, holder)
    {
      if worktree in leases && leases[worktree].holder == holder {
        leases := leases - {worktree};
      }
    }
  }

  /** What holders do, and Forget: a holder that crashes keeps nothing, and its row stays behind. */
  datatype Event =
    | Acquire(worktree: string, task: string, holder: string, ttl: int)
    | Renew(worktree: string, holder: string, ttl: int)
    | Release(worktree: string, holder: string)
    | Forget(holder: string)

  datatype Timed = Timed(now: int, event: Event)

  /** Who claims what: the latest unreleased lease of each holder on each worktree. */
  datatype Claimant = Claimant(worktree: string, holder: string)
  datatype World = World(rows: Rows, claims: map<Claimant, Lease>)

  function WithResult(w: World, c: Claimant, step: (Result, Rows)): World {
    World(step.1, if step.0.Granted? then w.claims[c := step.0.lease] else w.claims)
  }

  function Step(w: World, t: Timed): World {
    match t.event
    case Acquire(wt, task, h, ttl) => WithResult(w, Claimant(wt, h), AcquireStep(w.rows, wt, task, h, ttl, t.now))
    case Renew(wt, h, ttl) => WithResult(w, Claimant(wt, h), RenewStep(w.rows, wt, h, ttl, t.now))
    case Release(wt, h) => World(ReleaseStep(w.rows, wt, h), w.claims - {Claimant(wt, h)})
    case Forget(h) => World(w.rows, map c | c in w.claims && c.holder != h :: w.claims[c])
  }

  function Run(ts: seq<Timed>): World {
    if ts == [] then World(map[], map[]) else Step(Run(ts[..|ts| - 1]), ts[|ts| - 1])
  }

  /** One nondecreasing clock, and now is not before its last reading. */
  ghost predicate Clocked(ts: seq<Timed>, now: int) {
    && (forall i, j | 0 <= i < j < |ts| :: ts[i].now <= ts[j].now)
    && (forall i | 0 <= i < |ts| :: ts[i].now <= now)
  }

  /** A claim whose stored expiry lies ahead is the one the store records. */
  ghost predicate Backed(w: World, now: int) {
    forall c | c in w.claims && w.claims[c].StoredExpiry() > now ::
      && c.worktree in w.rows && w.rows[c.worktree].holder == c.holder
      && w.rows[c.worktree].expiresMs == UnixMilli(w.claims[c].expiresAt)
  }

  lemma StepBacked(w: World, t: Timed)
    requires Backed(w, t.now)
    ensures Backed(Step(w, t), t.now)
  {
  }

  lemma BackedLater(w: World, before: int, now: int)
    requires Backed(w, before) && before <= now
    ensures Backed(w, now)
  {
  }

  lemma {:induction false} RunBacked(ts: seq<Timed>, now: int)
    requires Clocked(ts, now)
    ensures Backed(Run(ts), now)
  {
    if ts != [] {
      var front, t := ts[..|ts| - 1], ts[|ts| - 1];
      RunBacked(front, t.now);
      StepBacked(Run(front), t);
      BackedLater(Run(ts), t.now, now);
    }
  }

  /** Up to the stored expiry, no two holders ever claim one worktree at once. */
  lemma LeasesNeverOverlap(ts: seq<Timed>, now: int, a: Claimant, b: Claimant)
    requires Clocked(ts, now)
    requires a in Run(ts).claims && b in Run(ts).claims && a.worktree == b.worktree && a.holder != b.holder
    ensures Run(ts).claims[a].StoredExpiry() <= now || Run(ts).claims[b].StoredExpiry() <= now
  {
    RunBacked(ts, now);
  }

  /** A live claim is safe from takeover: everyone else is refused, and is told who holds it. */
  lemma LiveClaimIsNotStolen(ts: seq<Timed>, now: int, c: Claimant, task: string, holder: string, ttl: int)
    requires Clocked(ts, now) && c in Run(ts).claims && Run(ts).claims[c].StoredExpiry() > now
    requires holder != c.holder
    ensures AcquireStep(Run(ts).rows, c.worktree, task, holder, ttl, now) == (Held(c.holder), Run(ts).rows)
  {
    RunBacked(ts, now);
  }

  /** A claim is refused exactly while another holder's row has not expired. Otherwise the holder is handed the
      worktree for the time it asked for, or a minute, and only that row is written, down to the millisecond. */
  lemma RefusedExactly(rows: Rows, wt: string, task: string, holder: string, ttl: int, now: int)
    ensures var (r, after) := AcquireStep(rows, wt, task, holder, ttl, now);
            && (r.Granted? <==> wt !in rows || rows[wt].holder == holder || rows[wt].expiresMs * MILLISECOND <= now)
            && (r.Granted? ==>
                  && r.lease == Lease(wt, task, holder, now + if ttl > 0 then ttl else 60_000_000_000)
                  && wt in after && after[wt].task == task && after[wt].holder == holder
                  && after[wt].expiresMs * MILLISECOND <= r.lease.expiresAt < after[wt].expiresMs * MILLISECOND + MILLISECOND
                  && after - {wt} == rows - {wt})
            && (!r.Granted? ==> after == rows && r == Held(rows[wt].holder))
  {
  }

  /** A live claim can be renewed, for as long as asked or a minute from now, and keeps everyone else out until the
      expiry that is stored then. */
  lemma LiveClaimRenews(ts: seq<Timed>, now: int, c: Claimant, ttl: int, later: int, task: string, holder: string,
                        wanted: int)
    requires Clocked(ts, now) && c in Run(ts).claims && Run(ts).claims[c].StoredExpiry() > now
    requires holder != c.holder
    ensures var (r, rows) := RenewStep(Run(ts).rows, c.worktree, c.holder, ttl, now);
            && r.Granted? && r.lease.expiresAt == now + (if ttl > 0 then ttl else 60_000_000_000)
            && rows.Keys == Run(ts).rows.Keys && rows - {c.worktree} == Run(ts).rows - {c.worktree}
            && (later < r.lease.StoredExpiry() ==>
                  AcquireStep(rows, c.worktree, task, holder, wanted, later) == (Held(c.holder), rows))
  {
    RunBacked(ts, now);
  }

  /** Nobody renews or releases a worktree that another holder's row names. */
  lemma OthersCannotTouch(rows: Rows, wt: string, holder: string, ttl: int, now: int)
    requires wt in rows && rows[wt].holder != holder
    ensures RenewStep(rows, wt, holder, ttl, now) == (NotHolder, rows) && ReleaseStep(rows, wt, holder) == rows
  {
  }

  /** Releasing a live claim frees its worktree, and no other, for whoever asks next. */
  lemma ReleasedIsFree(ts: seq<Timed>, now: int, c: Claimant, task: string, holder: string, ttl: int)
    requires Clocked(ts, now) && c in Run(ts).claims && Run(ts).claims[c].StoredExpiry() > now
    ensures var rows := ReleaseStep(Run(ts).rows, c.worktree, c.holder);
            && c.worktree !in rows && rows == Run(ts).rows - {c.worktree}
            && AcquireStep(rows, c.worktree, task, holder, ttl, now).0.Granted?
  {
    RunBacked(ts, now);
  }

  /** Rounding is why a lease value outlives its row: by less than a millisecond. */
  lemma RoundingGap(l: Lease)
    ensures l.StoredExpiry() <= l.expiresAt < l.StoredExpiry() + MILLISECOND
  {
  }

  /** Two holders can both believe in their leases only while one of them is inside its rounding gap. */
  lemma BothLookLiveOnlyInTheGap(ts: seq<Timed>, now: int, a: Claimant, b: Claimant)
    requires Clocked(ts, now)
    requires a in Run(ts).claims && b in Run(ts).claims && a.worktree == b.worktree && a.holder != b.holder
    ensures var la, lb := Run(ts).claims[a], Run(ts).claims[b];
            !la.Expired(now) && !lb.Expired(now) ==>
            || (la.StoredExpiry() <= now <= la.expiresAt && now < la.StoredExpiry() + MILLISECOND)
            || (lb.StoredExpiry() <= now <= lb.expiresAt && now < lb.StoredExpiry() + MILLISECOND)
  {
    LeasesNeverOverlap(ts, now, a, b);
    RoundingGap(Run(ts).claims[a]);
    RoundingGap(Run(ts).claims[b]);
  }

  /** The gap is real exactly when another holder asks inside it: then both lease values look live. */
  lemma TakeoverInTheGap(ts: seq<Timed>, now: int, c: Claimant, task: string, holder: string, ttl: int)
    requires Clocked(ts, now) && c in Run(ts).claims && holder != c.holder
    requires c.worktree in Run(ts).rows && Run(ts).rows[c.worktree].holder == c.holder
    requires Run(ts).rows[c.worktree].expiresMs == UnixMilli(Run(ts).claims[c].expiresAt)
    ensures var after := Step(Run(ts), Timed(now, Acquire(c.worktree, task, holder, ttl)));
            var mine := Claimant(c.worktree, holder);
            Run(ts).claims[c].StoredExpiry() <= now <= Run(ts).claims[c].expiresAt
            <==> !Run(ts).claims[c].Expired(now)
                 && AcquireStep(Run(ts).rows, c.worktree, task, holder, ttl, now).0.Granted?
                 && mine in after.claims && !after.claims[mine].Expired(now)
                 && c in after.claims && after.claims[c] == Run(ts).claims[c]
  {
  }

  lemma RunSnoc(ts: seq<Timed>, t: Timed)
    ensures Run(ts + [t]) == Step(Run(ts), t)
  {
    assert (ts + [t])[..|ts|] == ts;
  }

  /** A run that ends with two live-looking leases, for any worktree, tasks and two holders: the first asked for 1.5 ms,
      the second came at 1.2 ms. */
  lemma TwoHoldersLookLive(wt: string, a: Claimant, b: Claimant, t0: Timed, t1: Timed)
    requires a == Claimant(wt, a.holder) && b == Claimant(wt, b.holder) && a.holder != b.holder
    requires t0.event.Acquire? && t0 == Timed(0, Acquire(wt, t0.event.task, a.holder, 1_500_000))
    requires t1.event.Acquire? && t1 == Timed(1_200_000, Acquire(wt, t1.event.task, b.holder, 60_000_000))
    ensures Clocked([t0, t1], t1.now)
    ensures var claims := Run([t0, t1]).claims;
            && a in claims && !claims[a].Expired(t1.now) && b in claims && !claims[b].Expired(t1.now)
  {
    RunSnoc([], t0);
    RunSnoc([t0], t1);
    assert [] + [t0] == [t0] && [t0] + [t1] == [t0, t1];
    FirstClaim(t0);
    TakeoverInTheGap([t0], t1.now, a, t1.event.task, b.holder, 60_000_000);
  }

  lemma FirstClaim(t: Timed)
    requires t.event.Acquire?
    ensures var w, e := Step(World(map[], map[]), t), t.event;
            var c := Claimant(e.worktree, e.holder);
            && c in w.claims && w.claims[c] == Lease(e.worktree, e.task, e.holder, t.now + Ttl(e.ttl))
            && e.worktree in w.rows && w.rows[e.worktree] == Row(e.task, e.holder, UnixMilli(t.now + Ttl(e.ttl)))
  {
  }
}
