/** The durable pool of recording ports: the SQLite table
    `recording_active_ports`, held in memory as its rows in rowid order.
    Every SQL statement the recording code issues against it is one atomic
    step on that sequence. A database failure is not something the model can
    produce on its own, so each statement takes an optional fault: `Some(m)`
    means SQLite reported an error with message `m`. */
module PortPool {
  import opened Wrappers

  /** The four roles a session claims a port for, in the column's text
      `audio`, `audioRtcp`, `video`, `videoRtcp`. */
  datatype PortKind = Audio | AudioRtcp | Video | VideoRtcp

  /** The order in which a session's ports are claimed. */
  const ClaimOrder: seq<PortKind> := [Audio, AudioRtcp, Video, VideoRtcp]

  /** An ISO-8601 timestamp as produced by `new Date().toISOString()`. */
  type Timestamp = string

  /** One row: the port number and the three nullable claim columns. */
  datatype Slot = Slot(value: int, kind: Option<PortKind>, sessionId: Option<string>, lockedAt: Option<Timestamp>)

  /** The table, rows in ascending rowid order. */
  type Table = seq<Slot>

  /** A row the claim statement may take: its `locked_at` is NULL. */
  predicate Free(s: Slot)
  {
    s.lockedAt.None?
  }

  function FreeSlot(value: int): Slot
  {
    Slot(value, None, None, None)
  }

  function ClaimedSlot(value: int, kind: PortKind, session: string, now: Timestamp): Slot
  {
    Slot(value, Some(kind), Some(session), Some(now))
  }

  // ---------------------------------------------------------------------
  // Schema and seeding
  // ---------------------------------------------------------------------

  /** `AVAILABLE_PORTS`: `Array.from({length: max - min}, (_, i) => min + i)`.
      A negative length is clamped to zero by `Array.from`. */
  function AvailablePorts(min: int, max: int): (r: seq<int>)
    ensures |r| == if max > min then max - min else 0
    ensures forall i :: 0 <= i < |r| ==> r[i] == min + i
    decreases max - min
  {
    if max <= min then [] else AvailablePorts(min, max - 1) + [max - 1]
  }

  /** The port list is exactly the half-open range `[min, max)`, in
      strictly increasing order. */
  lemma AvailablePortsRange(min: int, max: int)
    ensures forall p :: p in AvailablePorts(min, max) <==> min <= p < max
    ensures forall i, j :: 0 <= i < j < |AvailablePorts(min, max)| ==>
              AvailablePorts(min, max)[i] < AvailablePorts(min, max)[j]
  {
    var r := AvailablePorts(min, max);
    forall p | min <= p < max
      ensures p in r
    {
      assert r[p - min] == p;
    }
  }

  /** The rows inserted by `INSERT INTO ... (value) VALUES (?)`, one per
      port in list order, with every claim column left NULL. */
  function Seed(ports: seq<int>): (t: Table)
    ensures |t| == |ports|
    ensures forall i :: 0 <= i < |t| ==> t[i].value == ports[i]
    ensures forall i :: 0 <= i < |t| ==> t[i] == FreeSlot(ports[i])
  {
    if |ports| == 0 then [] else Seed(ports[..|ports| - 1]) + [FreeSlot(ports[|ports| - 1])]
  }

  /** A row is either entirely free or entirely claimed. */
  predicate Coherent(s: Slot)
  {
    (s.kind.None? && s.sessionId.None? && s.lockedAt.None?)
    || (s.kind.Some? && s.sessionId.Some? && s.lockedAt.Some?)
  }

  /** `value INTEGER UNIQUE`. */
  predicate ValuesUnique(t: Table)
  {
    forall i, j :: 0 <= i < j < |t| ==> t[i].value != t[j].value
  }

  /** Two rows that would break `UNIQUE (session_id, kind)`: SQLite treats
      NULL as distinct from every value, so only rows with both columns set
      can collide. */
  predicate SameClaim(a: Slot, b: Slot)
  {
    a.sessionId.Some? && a.kind.Some? && a.sessionId == b.sessionId && a.kind == b.kind
  }

  /** `CONSTRAINT kind_of_session_unique UNIQUE (session_id, kind)`. */
  predicate ClaimsUnique(t: Table)
  {
    forall i, j :: 0 <= i < j < |t| ==> !SameClaim(t[i], t[j])
  }

  /** Everything the schema guarantees about the table, plus coherence of
      each row. */
  predicate Valid(t: Table)
  {
    && (forall i :: 0 <= i < |t| ==> Coherent(t[i]))
    && ValuesUnique(t)
    && ClaimsUnique(t)
  }

  /** A freshly seeded pool satisfies the schema, however many free rows it
      holds: free rows never collide under `UNIQUE (session_id, kind)`. */
  lemma SeedValid(min: int, max: int)
    ensures Valid(Seed(AvailablePorts(min, max)))
    ensures forall i :: 0 <= i < |Seed(AvailablePorts(min, max))| ==> Free(Seed(AvailablePorts(min, max))[i])
  {
  }

  /** Start-up: when the table is missing (the `sqlite_master` lookup found
      no row) it is created and seeded; an existing table is left as it is.
      If the lookup itself fails the error is only logged and nothing is
      created. */
  function Startup(existing: Option<Table>, lookupFault: Option<string>, min: int, max: int): (r: Option<Table>)
    ensures existing.Some? ==> r == existing
    ensures lookupFault.Some? ==> r == existing
    ensures existing.None? && lookupFault.None? ==>
              r.Some? && |r.value| == |AvailablePorts(min, max)| && Valid(r.value)
              && forall i :: 0 <= i < |r.value| ==> r.value[i] == FreeSlot(min + i)
  {
    if lookupFault.Some? then existing
    else match existing
      case Some(t) => existing
      case None => SeedValid(min, max); Some(Seed(AvailablePorts(min, max)))
  }

  /** Seeding happens once: a second start-up over the seeded table leaves
      it unchanged, whatever range is configured by then. */
  lemma StartupOnce(lookupFault: Option<string>, min: int, max: int, min2: int, max2: int)
    ensures Startup(Startup(None, None, min, max), lookupFault, min2, max2) == Startup(None, None, min, max)
  {
  }

  // ---------------------------------------------------------------------
  // Free rows, lowest first
  // ---------------------------------------------------------------------

  /** Row `i` is what `SELECT MIN(rowid) ... WHERE locked_at IS NULL` picks. */
  predicate IsLowestFree(t: Table, i: int)
  {
    0 <= i < |t| && Free(t[i]) && forall j :: 0 <= j < i ==> !Free(t[j])
  }

  /** The indices of free rows at or after `k`, ascending. */
  function FreeFrom(t: Table, k: nat): (r: seq<nat>)
    ensures forall x :: 0 <= x < |r| ==> k <= r[x] < |t| && Free(t[r[x]])
    ensures forall x, y :: 0 <= x < y < |r| ==> r[x] < r[y]
    ensures forall j :: k <= j < |t| && Free(t[j]) ==> j in r
    decreases |t| - k
  {
    if k >= |t| then []
    else if Free(t[k]) then [k] + FreeFrom(t, k + 1)
    else FreeFrom(t, k + 1)
  }

  /** The indices of all free rows, ascending. */
  function FreeIndices(t: Table): seq<nat>
  {
    FreeFrom(t, 0)
  }

  /** The first free index is the one the claim statement takes, and with
      no free index no row can be taken. */
  lemma FirstFreeIsLowest(t: Table)
    ensures |FreeIndices(t)| > 0 ==> IsLowestFree(t, FreeIndices(t)[0])
    ensures |FreeIndices(t)| == 0 ==> forall j :: 0 <= j < |t| ==> !Free(t[j])
  {
    var f := FreeIndices(t);
    if |f| > 0 {
      assert forall x :: 0 <= x < |f| ==> f[0] <= f[x];
    }
  }

  lemma {:induction false} FreeFromAgree(t: Table, u: Table, k: nat)
    requires |t| == |u|
    requires forall j :: k <= j < |t| ==> (Free(t[j]) <==> Free(u[j]))
    ensures FreeFrom(t, k) == FreeFrom(u, k)
    decreases |t| - k
  {
    if k < |t| {
      FreeFromAgree(t, u, k + 1);
    }
  }

  lemma {:induction false} FreeFromSkip(t: Table, k: nat, m: nat)
    requires k <= m <= |t|
    requires forall j :: k <= j < m ==> !Free(t[j])
    ensures FreeFrom(t, k) == FreeFrom(t, m)
    decreases m - k
  {
    if k < m {
      FreeFromSkip(t, k + 1, m);
    }
  }

  /** Taking the lowest free row removes exactly that row from the free
      list. */
  lemma TakeLowest(t: Table, s: Slot)
    requires |FreeIndices(t)| > 0
    requires !Free(s)
    ensures FreeIndices(t[FreeIndices(t)[0] := s]) == FreeIndices(t)[1..]
  {
    var f := FreeIndices(t);
    var i := f[0];
    var u := t[i := s];
    FirstFreeIsLowest(t);
    FreeFromSkip(t, 0, i);
    FreeFromSkip(u, 0, i + 1);
    FreeFromAgree(t, u, i + 1);
    assert FreeFrom(t, i) == [i] + FreeFrom(t, i + 1);
  }

  // ---------------------------------------------------------------------
  // Claiming one port: writePortUsageToDB
  // ---------------------------------------------------------------------

  /** The message SQLite reports when an UPDATE would give a session a
      second row of the same kind. */
  const UniqueViolation: string :=
    "SQLITE_CONSTRAINT: UNIQUE constraint failed: recording_active_ports.session_id, recording_active_ports.kind"

  /** Some row already carries this `(session_id, kind)` pair. */
  predicate HeldBy(t: Table, session: string, kind: PortKind)
  {
    exists j :: 0 <= j < |t| && t[j].sessionId == Some(session) && t[j].kind == Some(kind)
  }

  /** `SELECT value ... WHERE kind=? AND session_id=? LIMIT 1`: the value of
      the first row carrying the pair, or `undefined`. */
  function Lookup(t: Table, kind: PortKind, session: string): (r: Option<int>)
    ensures r.None? <==> !HeldBy(t, session, kind)
    ensures r.Some? ==> exists j :: 0 <= j < |t| && t[j].sessionId == Some(session)
                          && t[j].kind == Some(kind) && t[j].value == r.value
  {
    if |t| == 0 then None
    else if t[0].sessionId == Some(session) && t[0].kind == Some(kind) then Some(t[0].value)
    else
      var r := Lookup(t[1..], kind, session);
      assert HeldBy(t[1..], session, kind) ==> HeldBy(t, session, kind) by {
        if HeldBy(t[1..], session, kind) {
          var j :| 0 <= j < |t[1..]| && t[1..][j].sessionId == Some(session) && t[1..][j].kind == Some(kind);
          assert t[j + 1] == t[1..][j];
        }
      }
      assert HeldBy(t, session, kind) ==> HeldBy(t[1..], session, kind) by {
        if HeldBy(t, session, kind) {
          var j :| 0 <= j < |t| && t[j].sessionId == Some(session) && t[j].kind == Some(kind);
          assert j > 0 && t[1..][j - 1] == t[j];
        }
      }
      r
  }

  /** The first statement of a claim: the UPDATE of the lowest free row.
      With no free row the sub-select yields NULL and no row changes; a row
      that would duplicate `(session_id, kind)` makes the whole statement
      fail with the constraint error. */
  function ClaimUpdate(t: Table, kind: PortKind, session: string, now: Timestamp): (r: Result<Table, string>)
    ensures r.Success? ==> |r.value| == |t|
    ensures forall i :: IsLowestFree(t, i) && !HeldBy(t, session, kind) ==>
              r == Success(t[i := ClaimedSlot(t[i].value, kind, session, now)])
    ensures forall i :: IsLowestFree(t, i) && HeldBy(t, session, kind) ==> r == Failure(UniqueViolation)
    ensures (forall j :: 0 <= j < |t| ==> !Free(t[j])) ==> r == Success(t)
  {
    var f := FreeIndices(t);
    FirstFreeIsLowest(t);
    if |f| == 0 then Success(t)
    else if HeldBy(t, session, kind) then Failure(UniqueViolation)
    else Success(t[f[0] := ClaimedSlot(t[f[0]].value, kind, session, now)])
  }

  /** `writePortUsageToDB(kind, sessionId)`: the UPDATE, then the SELECT of
      the session's row of that kind. Either statement's error rejects with
      its message; an UPDATE that succeeded stays applied when the SELECT
      fails. Exhaustion is not an error: the promise resolves to whatever
      row the session already holds for the kind, or to `undefined`. */
  function Claim(t: Table, kind: PortKind, session: string, now: Timestamp,
                 updateFault: Option<string>, selectFault: Option<string>): (r: (Table, Result<Option<int>, string>))
    ensures updateFault.Some? ==> r == (t, Failure(updateFault.value))
    ensures updateFault.None? && selectFault.Some? ==> r.1 in {Failure(selectFault.value), Failure(UniqueViolation)}
    ensures r.1.Failure? ==> r.1.error == UniqueViolation || Some(r.1.error) == updateFault || Some(r.1.error) == selectFault
    ensures |r.0| == |t|
    ensures forall i :: updateFault.None? && IsLowestFree(t, i) && !HeldBy(t, session, kind) ==>
              r.0 == t[i := ClaimedSlot(t[i].value, kind, session, now)]
              && (selectFault.None? ==> r.1 == Success(Some(t[i].value)))
    ensures forall i :: updateFault.None? && IsLowestFree(t, i) && HeldBy(t, session, kind) ==>
              r == (t, Failure(UniqueViolation))
    ensures updateFault.None? && (forall j :: 0 <= j < |t| ==> !Free(t[j])) ==>
              r.0 == t && (selectFault.None? ==> r.1 == Success(Lookup(t, kind, session)))
  {
    if updateFault.Some? then (t, Failure(updateFault.value))
    else match ClaimUpdate(t, kind, session, now)
      case Failure(e) => (t, Failure(e))
      case Success(t1) =>
        if selectFault.Some? then (t1, Failure(selectFault.value))
        else
          LookupAfterClaim(t, kind, session, now);
          (t1, Success(Lookup(t1, kind, session)))
  }

  lemma LookupAfterClaim(t: Table, kind: PortKind, session: string, now: Timestamp)
    ensures forall i :: IsLowestFree(t, i) && !HeldBy(t, session, kind) ==>
              Lookup(t[i := ClaimedSlot(t[i].value, kind, session, now)], kind, session) == Some(t[i].value)
  {
    forall i | IsLowestFree(t, i) && !HeldBy(t, session, kind)
      ensures Lookup(t[i := ClaimedSlot(t[i].value, kind, session, now)], kind, session) == Some(t[i].value)
    {
      LookupClaimed(t, i, kind, session, now);
    }
  }

  lemma LookupClaimed(t: Table, i: nat, kind: PortKind, session: string, now: Timestamp)
    requires i < |t| && !HeldBy(t, session, kind)
    ensures Lookup(t[i := ClaimedSlot(t[i].value, kind, session, now)], kind, session) == Some(t[i].value)
  {
    var u := t[i := ClaimedSlot(t[i].value, kind, session, now)];
    var r := Lookup(u, kind, session);
    assert HeldBy(u, session, kind) by {
      assert u[i].sessionId == Some(session) && u[i].kind == Some(kind);
    }
    forall j | 0 <= j < |u| && j != i
      ensures u[j] == t[j]
    {
    }
  }

  /** A claim keeps the schema: it writes only a free row, leaves every
      `value` as it was, and never creates a duplicate pair. */
  lemma ClaimPreservesValid(t: Table, kind: PortKind, session: string, now: Timestamp,
                            updateFault: Option<string>, selectFault: Option<string>)
    requires Valid(t)
    ensures Valid(Claim(t, kind, session, now, updateFault, selectFault).0)
    ensures forall j :: 0 <= j < |t| ==> Claim(t, kind, session, now, updateFault, selectFault).0[j].value == t[j].value
    ensures forall j :: 0 <= j < |t| && !Free(t[j]) ==> Claim(t, kind, session, now, updateFault, selectFault).0[j] == t[j]
  {
    var f := FreeIndices(t);
    FirstFreeIsLowest(t);
    if updateFault.None? && |f| > 0 && !HeldBy(t, session, kind) {
      ClaimedRowValid(t, f[0], kind, session, now);
    }
  }

  /** Writing a claim into a free row of a valid table, for a pair the
      table does not hold, keeps it valid. */
  lemma ClaimedRowValid(t: Table, i: nat, kind: PortKind, session: string, now: Timestamp)
    requires Valid(t) && i < |t| && Free(t[i]) && !HeldBy(t, session, kind)
    ensures Valid(t[i := ClaimedSlot(t[i].value, kind, session, now)])
  {
    var u := t[i := ClaimedSlot(t[i].value, kind, session, now)];
    forall a, b | 0 <= a < b < |u|
      ensures !SameClaim(u[a], u[b])
    {
      if a == i {
        assert !(t[b].sessionId == Some(session) && t[b].kind == Some(kind));
      } else if b == i {
        assert !(t[a].sessionId == Some(session) && t[a].kind == Some(kind));
      }
    }
  }

  // ---------------------------------------------------------------------
  // Releasing a session: removePortUsageFromDB
  // ---------------------------------------------------------------------

  function ReleaseRows(t: Table, session: string): (r: Table)
    ensures |r| == |t|
    ensures forall i :: 0 <= i < |t| ==> r[i].value == t[i].value
    ensures forall i :: 0 <= i < |t| && t[i].sessionId == Some(session) ==> r[i] == FreeSlot(t[i].value)
    ensures forall i :: 0 <= i < |t| && t[i].sessionId != Some(session) ==> r[i] == t[i]
  {
    if |t| == 0 then []
    else
      var head := if t[0].sessionId == Some(session) then FreeSlot(t[0].value) else t[0];
      [head] + ReleaseRows(t[1..], session)
  }

  /** `UPDATE ... SET kind = NULL, session_id = NULL, locked_at = NULL WHERE
      session_id = ?`: resolves `true`, or rejects with the error message
      and changes nothing. */
  function Release(t: Table, session: string, fault: Option<string>): (r: (Table, Result<bool, string>))
    ensures fault.Some? ==> r == (t, Failure(fault.value))
    ensures fault.None? ==> r.1 == Success(true)
    ensures fault.None? ==> forall i :: 0 <= i < |r.0| ==> r.0[i].sessionId != Some(session)
  {
    if fault.Some? then (t, Failure(fault.value))
    else (ReleaseRows(t, session), Success(true))
  }

  /** Releasing twice is releasing once. */
  lemma ReleaseIdempotent(t: Table, session: string)
    ensures Release(Release(t, session, None).0, session, None) == Release(t, session, None)
  {
    var once := Release(t, session, None).0;
    assert ReleaseRows(once, session) == once;
  }

  /** Release keeps the schema, and afterwards every row it touched is
      free again for any session. */
  lemma ReleasePreservesValid(t: Table, session: string, fault: Option<string>)
    requires Valid(t)
    ensures Valid(Release(t, session, fault).0)
  {
    var u := Release(t, session, fault).0;
    forall a, b | 0 <= a < b < |u|
      ensures !SameClaim(u[a], u[b])
    {
      if fault.None? {
        assert !SameClaim(t[a], t[b]);
      }
    }
  }

  // ---------------------------------------------------------------------
  // Claiming a session's four ports: getFreePortsForSession
  // ---------------------------------------------------------------------

  /** The object `getFreePortsForSession` resolves to: every key is set,
      possibly to `undefined`. */
  datatype Ports = Ports(audio: Option<int>, audioRtcp: Option<int>, video: Option<int>, videoRtcp: Option<int>)
  {
    function Get(kind: PortKind): Option<int>
    {
      match kind
      case Audio => audio
      case AudioRtcp => audioRtcp
      case Video => video
      case VideoRtcp => videoRtcp
    }

    function With(kind: PortKind, v: Option<int>): (r: Ports)
      ensures r.Get(kind) == v
      ensures forall k :: k != kind ==> r.Get(k) == Get(k)
    {
      match kind
      case Audio => this.(audio := v)
      case AudioRtcp => this.(audioRtcp := v)
      case Video => this.(video := v)
      case VideoRtcp => this.(videoRtcp := v)
    }
  }

  const NoPorts: Ports := Ports(None, None, None, None)

  /** The database errors each statement of a claim would report, per kind. */
  datatype Faults = Faults(update: map<PortKind, string>, select: map<PortKind, string>)
  {
    function UpdateFault(kind: PortKind): Option<string>
    {
      if kind in update then Some(update[kind]) else None
    }

    function SelectFault(kind: PortKind): Option<string>
    {
      if kind in select then Some(select[kind]) else None
    }
  }

  const NoFaults: Faults := Faults(map[], map[])

  /** Claims `kinds` one after the other, stopping at the first rejection
      without undoing earlier claims. A rejection is always some
      statement's database error: a reported fault or the unique
      constraint. */
  function ClaimKinds(t: Table, kinds: seq<PortKind>, session: string, now: Timestamp,
                      faults: Faults, acc: Ports): (r: (Table, Result<Ports, string>))
    ensures |r.0| == |t|
    ensures r.1.Failure? ==>
              r.1.error == UniqueViolation || r.1.error in faults.update.Values || r.1.error in faults.select.Values
    decreases |kinds|
  {
    if |kinds| == 0 then (t, Success(acc))
    else
      var step := Claim(t, kinds[0], session, now, faults.UpdateFault(kinds[0]), faults.SelectFault(kinds[0]));
      match step.1
      case Failure(e) => (step.0, Failure(e))
      case Success(v) => ClaimKinds(step.0, kinds[1..], session, now, faults, acc.With(kinds[0], v))
  }

  /** `getFreePortsForSession(sessionId)`: one claim per kind in the fixed
      order, whatever producers the peer has. */
  function ClaimAll(t: Table, session: string, now: Timestamp, faults: Faults): (r: (Table, Result<Ports, string>))
    ensures |r.0| == |t|
    ensures r.1.Failure? ==>
              r.1.error == UniqueViolation || r.1.error in faults.update.Values || r.1.error in faults.select.Values
  {
    ClaimKinds(t, ClaimOrder, session, now, faults, NoPorts)
  }

  /** The values of the free rows, lowest rowid first. */
  function FreeValues(t: Table): (r: seq<int>)
    ensures |r| == |FreeIndices(t)|
    ensures forall x :: 0 <= x < |r| ==> r[x] == t[FreeIndices(t)[x]].value
  {
    var f := FreeIndices(t);
    seq(|f|, x requires 0 <= x < |f| => t[f[x]].value)
  }

  /** The `n`-th element of `vals`, or `undefined` past its end. */
  function ValueAt(vals: seq<int>, n: nat): Option<int>
  {
    if n < |vals| then Some(vals[n]) else None
  }

  function Min(a: int, b: int): int
  {
    if a <= b then a else b
  }

  /** One claim by a session that does not hold the kind yet, without
      faults: it takes the lowest free row and resolves to its value, or
      resolves to `undefined` and changes nothing when no row is free. */
  lemma ClaimFresh(t: Table, kind: PortKind, session: string, now: Timestamp)
    requires !HeldBy(t, session, kind)
    ensures |FreeIndices(t)| == 0 ==> Claim(t, kind, session, now, None, None) == (t, Success(None))
    ensures |FreeIndices(t)| > 0 ==>
              var i := FreeIndices(t)[0];
              var u := t[i := ClaimedSlot(t[i].value, kind, session, now)];
              && Claim(t, kind, session, now, None, None) == (u, Success(Some(t[i].value)))
              && FreeIndices(u) == FreeIndices(t)[1..]
              && FreeValues(u) == FreeValues(t)[1..]
  {
    FirstFreeIsLowest(t);
    if |FreeIndices(t)| > 0 {
      TakeLowestValues(t, ClaimedSlot(t[FreeIndices(t)[0]].value, kind, session, now));
    }
  }

  lemma TakeLowestValues(t: Table, s: Slot)
    requires |FreeIndices(t)| > 0
    requires !Free(s) && s.value == t[FreeIndices(t)[0]].value
    ensures FreeIndices(t[FreeIndices(t)[0] := s]) == FreeIndices(t)[1..]
    ensures FreeValues(t[FreeIndices(t)[0] := s]) == FreeValues(t)[1..]
  {
    TakeLowest(t, s);
    FreeValuesAfterTake(t, s);
  }

  lemma FreeValuesAfterTake(t: Table, s: Slot)
    requires |FreeIndices(t)| > 0
    requires s.value == t[FreeIndices(t)[0]].value
    requires FreeIndices(t[FreeIndices(t)[0] := s]) == FreeIndices(t)[1..]
    ensures FreeValues(t[FreeIndices(t)[0] := s]) == FreeValues(t)[1..]
  {
    var f := FreeIndices(t);
    var u := t[f[0] := s];
    var a := FreeValues(u);
    var b := FreeValues(t)[1..];
    assert |a| == |b|;
    forall x | 0 <= x < |a|
      ensures a[x] == b[x]
    {
      assert FreeIndices(u)[x] == f[x + 1];
      assert f[x + 1] != f[0];
      assert u[f[x + 1]].value == t[f[x + 1]].value;
    }
  }

  /** Claiming a row for one kind gives the session no row of another
      kind. */
  lemma HeldAfterClaim(t: Table, i: nat, kind: PortKind, other: PortKind, session: string, now: Timestamp)
    requires i < |t| && kind != other && !HeldBy(t, session, other)
    ensures !HeldBy(t[i := ClaimedSlot(t[i].value, kind, session, now)], session, other)
  {
    var u := t[i := ClaimedSlot(t[i].value, kind, session, now)];
    forall j | 0 <= j < |u| && u[j].sessionId == Some(session)
      ensures u[j].kind != Some(other)
    {
      if j != i {
        assert u[j] == t[j];
      }
    }
  }

  /** The rows at indices `f` claimed for `kinds`, pairwise in order, until
      either runs out. */
  function ApplyClaims(t: Table, f: seq<nat>, kinds: seq<PortKind>, session: string, now: Timestamp): (r: Table)
    requires forall x :: 0 <= x < |f| ==> f[x] < |t|
    ensures |r| == |t|
    decreases |kinds|
  {
    if |kinds| == 0 || |f| == 0 then t
    else ApplyClaims(t[f[0] := ClaimedSlot(t[f[0]].value, kinds[0], session, now)], f[1..], kinds[1..], session, now)
  }

  /** The port object after giving `kinds` the values `vals` pairwise, and
      `undefined` to the kinds past the end of `vals`. */
  function AssignPorts(acc: Ports, kinds: seq<PortKind>, vals: seq<int>): Ports
    decreases |kinds|
  {
    if |kinds| == 0 then acc
    else AssignPorts(acc.With(kinds[0], ValueAt(vals, 0)), kinds[1..], if |vals| > 0 then vals[1..] else [])
  }

  lemma {:induction false} AssignPortsAt(acc: Ports, kinds: seq<PortKind>, vals: seq<int>)
    requires forall a, b :: 0 <= a < b < |kinds| ==> kinds[a] != kinds[b]
    ensures forall a :: 0 <= a < |kinds| ==> AssignPorts(acc, kinds, vals).Get(kinds[a]) == ValueAt(vals, a)
    decreases |kinds|
  {
    if |kinds| > 0 {
      var rest := if |vals| > 0 then vals[1..] else [];
      var acc1 := acc.With(kinds[0], ValueAt(vals, 0));
      AssignPortsAt(acc1, kinds[1..], rest);
      AssignPortsOutside(acc1, kinds[1..], rest, kinds[0]);
      forall a | 1 <= a < |kinds|
        ensures AssignPorts(acc, kinds, vals).Get(kinds[a]) == ValueAt(vals, a)
      {
        assert kinds[1..][a - 1] == kinds[a];
        assert ValueAt(rest, a - 1) == ValueAt(vals, a);
      }
    }
  }

  lemma {:induction false} AssignPortsOutside(acc: Ports, kinds: seq<PortKind>, vals: seq<int>, k: PortKind)
    requires k !in kinds
    ensures AssignPorts(acc, kinds, vals).Get(k) == acc.Get(k)
    decreases |kinds|
  {
    if |kinds| > 0 {
      assert k != kinds[0] && k !in kinds[1..];
      AssignPortsOutside(acc.With(kinds[0], ValueAt(vals, 0)), kinds[1..], if |vals| > 0 then vals[1..] else [], k);
    }
  }

  /** Each claimed index gets its kind's row and every other row is left
      alone. */
  lemma {:induction false} ApplyClaimsAt(t: Table, f: seq<nat>, kinds: seq<PortKind>, session: string, now: Timestamp)
    requires forall x :: 0 <= x < |f| ==> f[x] < |t|
    requires forall x, y :: 0 <= x < y < |f| ==> f[x] < f[y]
    ensures forall a :: 0 <= a < |kinds| && a < |f| ==>
              ApplyClaims(t, f, kinds, session, now)[f[a]] == ClaimedSlot(t[f[a]].value, kinds[a], session, now)
    ensures forall j :: 0 <= j < |t| && j !in f[..Min(|kinds|, |f|)] ==>
              ApplyClaims(t, f, kinds, session, now)[j] == t[j]
    decreases |kinds|
  {
    if |kinds| > 0 && |f| > 0 {
      var t1 := t[f[0] := ClaimedSlot(t[f[0]].value, kinds[0], session, now)];
      var g := f[1..];
      ApplyClaimsAt(t1, g, kinds[1..], session, now);
      var r := ApplyClaims(t, f, kinds, session, now);
      assert r == ApplyClaims(t1, g, kinds[1..], session, now);
      forall a | 0 <= a < |kinds| && a < |f|
        ensures r[f[a]] == ClaimedSlot(t[f[a]].value, kinds[a], session, now)
      {
        if a > 0 {
          assert kinds[1..][a - 1] == kinds[a] && g[a - 1] == f[a];
        } else {
          assert f[0] !in g[..Min(|kinds| - 1, |g|)];
        }
      }
      forall j | 0 <= j < |t| && j !in f[..Min(|kinds|, |f|)]
        ensures r[j] == t[j]
      {
        assert j != f[0];
      }
    }
  }

  /** With no faults and a session holding none of the kinds, a run of
      claims takes the free rows lowest first, one per kind, and gives each
      kind its row's value, `undefined` once the free rows run out. */
  lemma {:induction false} ClaimKindsFresh(t: Table, kinds: seq<PortKind>, session: string, now: Timestamp, acc: Ports)
    requires forall a, b :: 0 <= a < b < |kinds| ==> kinds[a] != kinds[b]
    requires forall a :: 0 <= a < |kinds| ==> !HeldBy(t, session, kinds[a])
    ensures ClaimKinds(t, kinds, session, now, NoFaults, acc)
            == (ApplyClaims(t, FreeIndices(t), kinds, session, now), Success(AssignPorts(acc, kinds, FreeValues(t))))
    decreases |kinds|
  {
    if |kinds| > 0 {
      var f := FreeIndices(t);
      var k := kinds[0];
      ClaimFresh(t, k, session, now);
      var step := Claim(t, k, session, now, None, None);
      assert NoFaults.UpdateFault(k) == None && NoFaults.SelectFault(k) == None;
      forall a | 0 <= a < |kinds[1..]|
        ensures !HeldBy(step.0, session, kinds[1..][a])
      {
        assert kinds[1..][a] == kinds[a + 1];
        if |f| > 0 {
          HeldAfterClaim(t, f[0], k, kinds[a + 1], session, now);
        }
      }
      ClaimKindsFresh(step.0, kinds[1..], session, now, acc.With(k, step.1.value));
    }
  }

  /** `getFreePortsForSession` from a pool in which the session holds no
      row, without faults: the four kinds take the four lowest free rows in
      claim order, each resolving to its row's value, and exhaustion yields
      `undefined` for every kind past the last free row instead of an
      error. Only the rows taken change. */
  lemma ClaimAllFromFree(t: Table, session: string, now: Timestamp)
    requires forall j :: 0 <= j < |t| ==> t[j].sessionId != Some(session)
    ensures var r := ClaimAll(t, session, now, NoFaults);
            var v := FreeValues(t);
            r.1 == Success(Ports(ValueAt(v, 0), ValueAt(v, 1), ValueAt(v, 2), ValueAt(v, 3)))
    ensures var r := ClaimAll(t, session, now, NoFaults);
            var f := FreeIndices(t);
            && (forall a :: 0 <= a < 4 && a < |f| ==> r.0[f[a]] == ClaimedSlot(t[f[a]].value, ClaimOrder[a], session, now))
            && (forall j :: 0 <= j < |t| && j !in f[..Min(4, |f|)] ==> r.0[j] == t[j])
  {
    ClaimKindsFresh(t, ClaimOrder, session, now, NoPorts);
    ApplyClaimsAt(t, FreeIndices(t), ClaimOrder, session, now);
    var v := FreeValues(t);
    AssignPortsAt(NoPorts, ClaimOrder, v);
    var p := AssignPorts(NoPorts, ClaimOrder, v);
    assert p.Get(ClaimOrder[0]) == ValueAt(v, 0) && p.Get(ClaimOrder[1]) == ValueAt(v, 1);
    assert p.Get(ClaimOrder[2]) == ValueAt(v, 2) && p.Get(ClaimOrder[3]) == ValueAt(v, 3);
  }

  /** Whatever media the session will carry, a pool with four free rows
      gives it a row of every kind. */
  lemma ClaimAllHoldsEveryKind(t: Table, session: string, now: Timestamp)
    requires forall j :: 0 <= j < |t| ==> t[j].sessionId != Some(session)
    requires |FreeIndices(t)| >= 4
    ensures forall k :: HeldBy(ClaimAll(t, session, now, NoFaults).0, session, k)
  {
    ClaimKindsFresh(t, ClaimOrder, session, now, NoPorts);
    ApplyClaimsHoldEveryKind(t, session, now);
  }

  lemma ApplyClaimsHoldEveryKind(t: Table, session: string, now: Timestamp)
    requires |FreeIndices(t)| >= 4
    ensures forall k :: HeldBy(ApplyClaims(t, FreeIndices(t), ClaimOrder, session, now), session, k)
  {
    forall k: PortKind
      ensures HeldBy(ApplyClaims(t, FreeIndices(t), ClaimOrder, session, now), session, k)
    {
      match k
      case Audio => ApplyClaimsHoldKind(t, session, now, 0);
      case AudioRtcp => ApplyClaimsHoldKind(t, session, now, 1);
      case Video => ApplyClaimsHoldKind(t, session, now, 2);
      case VideoRtcp => ApplyClaimsHoldKind(t, session, now, 3);
    }
  }

  lemma ApplyClaimsHoldKind(t: Table, session: string, now: Timestamp, a: nat)
    requires |FreeIndices(t)| >= 4 && a < 4
    ensures HeldBy(ApplyClaims(t, FreeIndices(t), ClaimOrder, session, now), session, ClaimOrder[a])
  {
    var f := FreeIndices(t);
    ApplyClaimsAt(t, f, ClaimOrder, session, now);
    HeldAtRow(ApplyClaims(t, f, ClaimOrder, session, now), session, ClaimOrder[a], f[a]);
  }

  lemma HeldAtRow(t: Table, session: string, kind: PortKind, j: nat)
    requires j < |t| && t[j].sessionId == Some(session) && t[j].kind == Some(kind)
    ensures HeldBy(t, session, kind)
  {
  }

  /** Claims never touch a claimed row: every row claimed before the call
      is unchanged afterwards, whichever kind rejects. That the claims of
      earlier kinds of the same call survive a later rejection is
      `ClaimKindsStopsAt`. */
  lemma {:induction false} ClaimKindsKeepsClaimed(t: Table, kinds: seq<PortKind>, session: string, now: Timestamp,
                                                 faults: Faults, acc: Ports)
    requires Valid(t)
    ensures Valid(ClaimKinds(t, kinds, session, now, faults, acc).0)
    ensures forall j :: 0 <= j < |t| && !Free(t[j]) ==> ClaimKinds(t, kinds, session, now, faults, acc).0[j] == t[j]
    decreases |kinds|
  {
    if |kinds| > 0 {
      var step := Claim(t, kinds[0], session, now, faults.UpdateFault(kinds[0]), faults.SelectFault(kinds[0]));
      ClaimPreservesValid(t, kinds[0], session, now, faults.UpdateFault(kinds[0]), faults.SelectFault(kinds[0]));
      if step.1.Success? {
        ClaimKindsKeepsClaimed(step.0, kinds[1..], session, now, faults, acc.With(kinds[0], step.1.value));
      }
    }
  }

  /** No rollback: when the UPDATE for `video` fails after `audio` and
      `audioRtcp` were claimed, the claim rejects with the database's
      message and the session keeps the two rows it took. */
  lemma ClaimAllNoRollback(t: Table, session: string, now: Timestamp, message: string)
    requires |FreeIndices(t)| >= 2
    requires forall j :: 0 <= j < |t| ==> t[j].sessionId != Some(session)
    ensures var f := FreeIndices(t);
            var r := ClaimAll(t, session, now, Faults(map[Video := message], map[]));
            && r.1 == Failure(message)
            && r.0 == t[f[0] := ClaimedSlot(t[f[0]].value, Audio, session, now)]
                       [f[1] := ClaimedSlot(t[f[1]].value, AudioRtcp, session, now)]
  {
    var f := FreeIndices(t);
    var faults := Faults(map[Video := message], map[]);
    var t1 := t[f[0] := ClaimedSlot(t[f[0]].value, Audio, session, now)];
    var t2 := t1[f[1] := ClaimedSlot(t1[f[1]].value, AudioRtcp, session, now)];
    var acc1 := NoPorts.With(Audio, Some(t[f[0]].value));
    TwoFreshClaims(t, session, now);
    assert faults.UpdateFault(Audio) == None && faults.SelectFault(Audio) == None;
    assert faults.UpdateFault(AudioRtcp) == None && faults.SelectFault(AudioRtcp) == None;
    ClaimKindsCons(t, ClaimOrder, session, now, faults, NoPorts, t1, Some(t[f[0]].value));
    ClaimKindsCons(t1, ClaimOrder[1..], session, now, faults, acc1, t2, Some(t1[f[1]].value));
    VideoFaultStops(t2, ClaimOrder[2..], session, now, message, acc1.With(AudioRtcp, Some(t1[f[1]].value)));
    assert ClaimOrder[1..][1..] == ClaimOrder[2..];
    SecondRowKeepsValue(t, ClaimedSlot(t[f[0]].value, Audio, session, now));
  }

  /** The claim statement for `video` fails, so the run stops there. */
  lemma VideoFaultStops(t: Table, kinds: seq<PortKind>, session: string, now: Timestamp, message: string, acc: Ports)
    requires |kinds| > 0 && kinds[0] == Video
    ensures ClaimKinds(t, kinds, session, now, Faults(map[Video := message], map[]), acc) == (t, Failure(message))
  {
    assert Faults(map[Video := message], map[]).UpdateFault(Video) == Some(message);
  }

  /** Claiming the lowest free row leaves the next free row as it was. */
  lemma SecondRowKeepsValue(t: Table, s: Slot)
    requires |FreeIndices(t)| >= 2
    ensures t[FreeIndices(t)[0] := s][FreeIndices(t)[1]] == t[FreeIndices(t)[1]]
  {
    var f := FreeIndices(t);
    assert f[0] < f[1];
  }

  /** The first two claims of a session holding no row, with two free rows:
      audio takes the lowest, audio RTCP the next. */
  lemma TwoFreshClaims(t: Table, session: string, now: Timestamp)
    requires |FreeIndices(t)| >= 2
    requires forall j :: 0 <= j < |t| ==> t[j].sessionId != Some(session)
    ensures var f := FreeIndices(t);
            var t1 := t[f[0] := ClaimedSlot(t[f[0]].value, Audio, session, now)];
            && Claim(t, Audio, session, now, None, None) == (t1, Success(Some(t[f[0]].value)))
            && Claim(t1, AudioRtcp, session, now, None, None)
               == (t1[f[1] := ClaimedSlot(t1[f[1]].value, AudioRtcp, session, now)], Success(Some(t1[f[1]].value)))
  {
    var f := FreeIndices(t);
    var t1 := t[f[0] := ClaimedSlot(t[f[0]].value, Audio, session, now)];
    ClaimFresh(t, Audio, session, now);
    HeldAfterClaim(t, f[0], Audio, AudioRtcp, session, now);
    ClaimFresh(t1, AudioRtcp, session, now);
  }

  /** A run whose first claim succeeds continues with the remaining kinds
      on the updated table. */
  lemma ClaimKindsCons(t: Table, kinds: seq<PortKind>, session: string, now: Timestamp,
                       faults: Faults, acc: Ports, t1: Table, v: Option<int>)
    requires |kinds| > 0
    requires Claim(t, kinds[0], session, now, faults.UpdateFault(kinds[0]), faults.SelectFault(kinds[0])) == (t1, Success(v))
    ensures ClaimKinds(t, kinds, session, now, faults, acc) == ClaimKinds(t1, kinds[1..], session, now, faults, acc.With(kinds[0], v))
  {
  }


  /** A claim whose SELECT fails, by a session that does not hold the kind:
      the UPDATE has already taken the lowest free row, if there is one,
      and stays applied. */
  lemma ClaimSelectFault(t: Table, kind: PortKind, session: string, now: Timestamp, message: string)
    requires !HeldBy(t, session, kind)
    ensures Claim(t, kind, session, now, None, Some(message))
            == (ApplyClaims(t, FreeIndices(t), [kind], session, now), Failure(message))
  {
    FirstFreeIsLowest(t);
    assert [kind][1..] == [];
  }

  /** Applying a prefix of the kinds is the first claim followed by the
      rest of the prefix on the remaining free rows. */
  lemma ApplyClaimsFirst(t: Table, kinds: seq<PortKind>, m: nat, session: string, now: Timestamp)
    requires 0 < m <= |kinds|
    requires |FreeIndices(t)| > 0
    ensures var f := FreeIndices(t);
            ApplyClaims(t, f, kinds[..m], session, now)
            == ApplyClaims(t[f[0] := ClaimedSlot(t[f[0]].value, kinds[0], session, now)], f[1..], kinds[1..][..m - 1], session, now)
  {
    assert kinds[..m][1..] == kinds[1..][..m - 1];
  }

  /** Where a run of claims stops, and that nothing is rolled back. The
      kinds before `kinds[n]` claim without faults and `kinds[n]` is the
      first whose statement fails. A failed UPDATE rejects with its message
      and leaves the first `n` claims applied; a failed SELECT rejects with
      its message and leaves `n + 1` applied, its own UPDATE included. */
  lemma {:induction false} ClaimKindsStopsAt(t: Table, kinds: seq<PortKind>, n: nat, session: string, now: Timestamp,
                                            faults: Faults, acc: Ports)
    requires n < |kinds|
    requires forall a, b :: 0 <= a < b < |kinds| ==> kinds[a] != kinds[b]
    requires forall a :: 0 <= a < |kinds| ==> !HeldBy(t, session, kinds[a])
    requires forall a :: 0 <= a < n ==> kinds[a] !in faults.update && kinds[a] !in faults.select
    requires kinds[n] in faults.update || kinds[n] in faults.select
    ensures kinds[n] in faults.update ==>
              ClaimKinds(t, kinds, session, now, faults, acc)
              == (ApplyClaims(t, FreeIndices(t), kinds[..n], session, now), Failure(faults.update[kinds[n]]))
    ensures kinds[n] !in faults.update ==>
              ClaimKinds(t, kinds, session, now, faults, acc)
              == (ApplyClaims(t, FreeIndices(t), kinds[..n + 1], session, now), Failure(faults.select[kinds[n]]))
    decreases n
  {
    var k := kinds[0];
    if n == 0 {
      ClaimKindsFirstFault(t, kinds, session, now, faults, acc);
      assert kinds[..0] == [] && kinds[..1] == [k];
    } else {
      var t1, v := ClaimKindsHead(t, kinds, session, now, faults, acc);
      assert forall a :: 0 <= a < n - 1 ==> kinds[1..][a] == kinds[a + 1];
      assert kinds[1..][n - 1] == kinds[n];
      ClaimKindsStopsAt(t1, kinds[1..], n - 1, session, now, faults, acc.With(k, v));
      ClaimKindsStopsLater(t, kinds, n, session, now, faults, acc, t1, v);
    }
  }

  /** The inductive step of `ClaimKindsStopsAt`: where the run from the
      second kind stops, the whole run stops, with the first claim added to
      what stays applied. */
  lemma ClaimKindsStopsLater(t: Table, kinds: seq<PortKind>, n: nat, session: string, now: Timestamp,
                             faults: Faults, acc: Ports, t1: Table, v: Option<int>)
    requires 0 < n < |kinds| && !HeldBy(t, session, kinds[0])
    requires kinds[n] in faults.update || kinds[n] in faults.select
    requires t1 == Claim(t, kinds[0], session, now, None, None).0
    requires ClaimKinds(t, kinds, session, now, faults, acc)
             == ClaimKinds(t1, kinds[1..], session, now, faults, acc.With(kinds[0], v))
    requires kinds[n] in faults.update ==>
               ClaimKinds(t1, kinds[1..], session, now, faults, acc.With(kinds[0], v))
               == (ApplyClaims(t1, FreeIndices(t1), kinds[1..][..n - 1], session, now), Failure(faults.update[kinds[n]]))
    requires kinds[n] !in faults.update ==>
               ClaimKinds(t1, kinds[1..], session, now, faults, acc.With(kinds[0], v))
               == (ApplyClaims(t1, FreeIndices(t1), kinds[1..][..n], session, now), Failure(faults.select[kinds[n]]))
    ensures kinds[n] in faults.update ==>
              ClaimKinds(t, kinds, session, now, faults, acc)
              == (ApplyClaims(t, FreeIndices(t), kinds[..n], session, now), Failure(faults.update[kinds[n]]))
    ensures kinds[n] !in faults.update ==>
              ClaimKinds(t, kinds, session, now, faults, acc)
              == (ApplyClaims(t, FreeIndices(t), kinds[..n + 1], session, now), Failure(faults.select[kinds[n]]))
  {
    ApplyClaimsAfterFirst(t, kinds, n, session, now);
    ApplyClaimsAfterFirst(t, kinds, n + 1, session, now);
  }

  /** A run whose first kind has a fault stops at once: after the UPDATE
      with nothing claimed, after the SELECT with the first kind's row
      claimed. */
  lemma ClaimKindsFirstFault(t: Table, kinds: seq<PortKind>, session: string, now: Timestamp,
                             faults: Faults, acc: Ports)
    requires 0 < |kinds| && !HeldBy(t, session, kinds[0])
    requires kinds[0] in faults.update || kinds[0] in faults.select
    ensures kinds[0] in faults.update ==>
              ClaimKinds(t, kinds, session, now, faults, acc) == (t, Failure(faults.update[kinds[0]]))
    ensures kinds[0] !in faults.update ==>
              ClaimKinds(t, kinds, session, now, faults, acc)
              == (ApplyClaims(t, FreeIndices(t), [kinds[0]], session, now), Failure(faults.select[kinds[0]]))
  {
    var k := kinds[0];
    if k in faults.update {
      assert faults.UpdateFault(k) == Some(faults.update[k]);
    } else {
      assert faults.UpdateFault(k) == None && faults.SelectFault(k) == Some(faults.select[k]);
      ClaimSelectFault(t, k, session, now, faults.select[k]);
    }
  }

  /** The first step of a run whose first kind has no fault, by a session
      holding none of the kinds: the run goes on from the table after the
      first claim, on which the session still holds none of the remaining
      kinds. */
  lemma ClaimKindsHead(t: Table, kinds: seq<PortKind>, session: string, now: Timestamp,
                       faults: Faults, acc: Ports) returns (t1: Table, v: Option<int>)
    requires 0 < |kinds|
    requires forall a, b :: 0 <= a < b < |kinds| ==> kinds[a] != kinds[b]
    requires forall a :: 0 <= a < |kinds| ==> !HeldBy(t, session, kinds[a])
    requires kinds[0] !in faults.update && kinds[0] !in faults.select
    ensures t1 == Claim(t, kinds[0], session, now, None, None).0
    ensures ClaimKinds(t, kinds, session, now, faults, acc) == ClaimKinds(t1, kinds[1..], session, now, faults, acc.With(kinds[0], v))
    ensures forall a :: 0 <= a < |kinds[1..]| ==> !HeldBy(t1, session, kinds[1..][a])
  {
    var f := FreeIndices(t);
    var k := kinds[0];
    ClaimFresh(t, k, session, now);
    var step := Claim(t, k, session, now, None, None);
    assert faults.UpdateFault(k) == None && faults.SelectFault(k) == None;
    t1, v := step.0, step.1.value;
    forall a | 0 <= a < |kinds[1..]|
      ensures !HeldBy(t1, session, kinds[1..][a])
    {
      assert kinds[1..][a] == kinds[a + 1];
      if |f| > 0 {
        HeldAfterClaim(t, f[0], k, kinds[a + 1], session, now);
      }
    }
  }

  /** Claiming a prefix of the kinds is the first claim followed by the
      rest of the prefix on the free rows that remain. */
  lemma ApplyClaimsAfterFirst(t: Table, kinds: seq<PortKind>, m: nat, session: string, now: Timestamp)
    requires 0 < m <= |kinds|
    requires !HeldBy(t, session, kinds[0])
    ensures var t1 := Claim(t, kinds[0], session, now, None, None).0;
            ApplyClaims(t, FreeIndices(t), kinds[..m], session, now)
            == ApplyClaims(t1, FreeIndices(t1), kinds[1..][..m - 1], session, now)
  {
    ClaimFresh(t, kinds[0], session, now);
    if |FreeIndices(t)| > 0 {
      ApplyClaimsFirst(t, kinds, m, session, now);
    }
  }

  /** Nothing is rolled back by `getFreePortsForSession`: for a session
      holding no row, when the statement for `ClaimOrder[n]` is the first to
      fail, the claim rejects with that statement's message and the claims
      made before it stay applied (with a failed SELECT, its own UPDATE as
      well). */
  lemma ClaimAllStopsAt(t: Table, n: nat, session: string, now: Timestamp, faults: Faults)
    requires n < |ClaimOrder|
    requires forall j :: 0 <= j < |t| ==> t[j].sessionId != Some(session)
    requires forall a :: 0 <= a < n ==> ClaimOrder[a] !in faults.update && ClaimOrder[a] !in faults.select
    requires ClaimOrder[n] in faults.update || ClaimOrder[n] in faults.select
    ensures ClaimOrder[n] in faults.update ==>
              ClaimAll(t, session, now, faults)
              == (ApplyClaims(t, FreeIndices(t), ClaimOrder[..n], session, now), Failure(faults.update[ClaimOrder[n]]))
    ensures ClaimOrder[n] !in faults.update ==>
              ClaimAll(t, session, now, faults)
              == (ApplyClaims(t, FreeIndices(t), ClaimOrder[..n + 1], session, now), Failure(faults.select[ClaimOrder[n]]))
  {
    ClaimKindsStopsAt(t, ClaimOrder, n, session, now, faults, NoPorts);
  }

  /** A session that still holds an `audio` row cannot claim again while a
      row is free: the first UPDATE breaks the unique constraint, the claim
      rejects with it, and nothing changes. */
  lemma ClaimAllWhileHeld(t: Table, session: string, now: Timestamp, faults: Faults)
    requires HeldBy(t, session, Audio) && |FreeIndices(t)| > 0
    requires Audio !in faults.update
    ensures ClaimAll(t, session, now, faults) == (t, Failure(UniqueViolation))
  {
    FirstFreeIsLowest(t);
    assert faults.UpdateFault(Audio) == None;
  }

  /** Rows never given back block the next claim: after a session's first
      claim succeeds on a pool with five free rows, a second claim by the
      same session rejects with the unique-constraint error. */
  lemma ClaimAllTwice(t: Table, session: string, now: Timestamp, later: Timestamp, faults: Faults)
    requires forall j :: 0 <= j < |t| ==> t[j].sessionId != Some(session)
    requires |FreeIndices(t)| >= 5
    requires Audio !in faults.update
    ensures var u := ClaimAll(t, session, now, NoFaults).0;
            ClaimAll(u, session, later, faults) == (u, Failure(UniqueViolation))
  {
    var u := ClaimAll(t, session, now, NoFaults).0;
    var f := FreeIndices(t);
    ClaimAllHoldsEveryKind(t, session, now);
    ClaimAllFromFree(t, session, now);
    assert f[4] !in f[..Min(4, |f|)];
    assert u[f[4]] == t[f[4]];
    assert f[4] in FreeIndices(u);
    ClaimAllWhileHeld(u, session, later, faults);
  }


  /** With no free row and no faults, a run of claims changes nothing: each
      UPDATE matches no row, and each kind resolves to the value of the row
      the session already holds for it, or to `undefined`. */
  lemma {:induction false} ClaimKindsExhausted(t: Table, kinds: seq<PortKind>, session: string, now: Timestamp,
                                              acc: Ports)
    requires |FreeIndices(t)| == 0
    requires forall a, b :: 0 <= a < b < |kinds| ==> kinds[a] != kinds[b]
    ensures var r := ClaimKinds(t, kinds, session, now, NoFaults, acc);
            && r.0 == t && r.1.Success?
            && (forall k :: k in kinds ==> r.1.value.Get(k) == Lookup(t, k, session))
            && (forall k :: k !in kinds ==> r.1.value.Get(k) == acc.Get(k))
    decreases |kinds|
  {
    if |kinds| > 0 {
      var k := kinds[0];
      FirstFreeIsLowest(t);
      assert NoFaults.UpdateFault(k) == None && NoFaults.SelectFault(k) == None;
      assert Claim(t, k, session, now, None, None) == (t, Success(Lookup(t, k, session)));
      var acc1 := acc.With(k, Lookup(t, k, session));
      ClaimKindsExhausted(t, kinds[1..], session, now, acc1);
      assert k !in kinds[1..] by {
        forall x | 0 <= x < |kinds[1..]|
          ensures kinds[1..][x] != k
        {
          assert kinds[1..][x] == kinds[x + 1];
        }
      }
      forall k' | k' in kinds && k' != k
        ensures k' in kinds[1..]
      {
        var x :| 0 <= x < |kinds| && kinds[x] == k';
        assert kinds[1..][x - 1] == k';
      }
    }
  }

  /** A table in which the four free rows of `t` are claimed and every other
      row is as in `t` has no free row. */
  lemma NoFreeAfterTakingAll(t: Table, u: Table, session: string, now: Timestamp)
    requires |u| == |t| && |FreeIndices(t)| == 4
    requires forall a :: 0 <= a < 4 && a < |FreeIndices(t)| ==>
               u[FreeIndices(t)[a]] == ClaimedSlot(t[FreeIndices(t)[a]].value, ClaimOrder[a], session, now)
    requires forall j :: 0 <= j < |t| && j !in FreeIndices(t)[..Min(4, |FreeIndices(t)|)] ==> u[j] == t[j]
    ensures |FreeIndices(u)| == 0
  {
    var f := FreeIndices(t);
    assert f[..Min(4, |f|)] == f;
    forall j | 0 <= j < |u|
      ensures !Free(u[j])
    {
      if j in f {
        var a :| 0 <= a < 4 && f[a] == j;
      }
    }
    FirstFreeIsLowest(u);
  }

  /** In a table where a session holding no row of `t` has claimed the
      first four free rows of `t` in claim order, a lookup of a kind finds
      the row claimed for it. */
  lemma LookupClaimedRow(t: Table, u: Table, session: string, now: Timestamp, a: nat)
    requires forall j :: 0 <= j < |t| ==> t[j].sessionId != Some(session)
    requires |u| == |t| && |FreeIndices(t)| >= 4 && a < 4
    requires forall b :: 0 <= b < 4 && b < |FreeIndices(t)| ==>
               u[FreeIndices(t)[b]] == ClaimedSlot(t[FreeIndices(t)[b]].value, ClaimOrder[b], session, now)
    requires forall j :: 0 <= j < |t| && j !in FreeIndices(t)[..Min(4, |FreeIndices(t)|)] ==> u[j] == t[j]
    ensures Lookup(u, ClaimOrder[a], session) == Some(t[FreeIndices(t)[a]].value)
  {
    var f := FreeIndices(t);
    OnlyClaimedRow(t, u, session, now, a);
    LookupOnlyRow(u, ClaimOrder[a], session, f[a]);
  }

  /** The row claimed for a kind is the only row carrying the session and
      that kind. */
  lemma OnlyClaimedRow(t: Table, u: Table, session: string, now: Timestamp, a: nat)
    requires forall j :: 0 <= j < |t| ==> t[j].sessionId != Some(session)
    requires |u| == |t| && |FreeIndices(t)| >= 4 && a < 4
    requires forall b :: 0 <= b < 4 && b < |FreeIndices(t)| ==>
               u[FreeIndices(t)[b]] == ClaimedSlot(t[FreeIndices(t)[b]].value, ClaimOrder[b], session, now)
    requires forall j :: 0 <= j < |t| && j !in FreeIndices(t)[..Min(4, |FreeIndices(t)|)] ==> u[j] == t[j]
    ensures u[FreeIndices(t)[a]].sessionId == Some(session) && u[FreeIndices(t)[a]].kind == Some(ClaimOrder[a])
    ensures forall j :: 0 <= j < |u| && u[j].sessionId == Some(session) && u[j].kind == Some(ClaimOrder[a]) ==>
              j == FreeIndices(t)[a]
  {
    var f := FreeIndices(t);
    assert f[..Min(4, |f|)] == f[..4];
    forall j | 0 <= j < |u| && u[j].sessionId == Some(session) && u[j].kind == Some(ClaimOrder[a])
      ensures j == f[a]
    {
      if j in f[..4] {
        var b :| 0 <= b < 4 && f[..4][b] == j;
        assert f[b] == j && u[f[b]].kind == Some(ClaimOrder[b]);
        ClaimOrderDistinct(a, b);
      }
    }
  }

  /** The claim order names each kind once. */
  lemma ClaimOrderDistinct(a: nat, b: nat)
    requires a < 4 && b < 4 && ClaimOrder[a] == ClaimOrder[b]
    ensures a == b
  {
  }

  /** A lookup finds the only row carrying the pair. */
  lemma LookupOnlyRow(u: Table, k: PortKind, session: string, i: nat)
    requires i < |u| && u[i].sessionId == Some(session) && u[i].kind == Some(k)
    requires forall j :: 0 <= j < |u| && u[j].sessionId == Some(session) && u[j].kind == Some(k) ==> j == i
    ensures Lookup(u, k, session) == Some(u[i].value)
  {
    HeldAtRow(u, session, k, i);
  }


  /** Rows never given back do not block the next claim when they were the
      last free ones: every UPDATE then matches no row and every SELECT
      finds the row the session still holds, so the second claim resolves
      to the same four ports and changes nothing. */
  lemma ClaimAllRestartExhausted(t: Table, session: string, now: Timestamp, later: Timestamp)
    requires forall j :: 0 <= j < |t| ==> t[j].sessionId != Some(session)
    requires |FreeIndices(t)| == 4
    ensures var first := ClaimAll(t, session, now, NoFaults);
            ClaimAll(first.0, session, later, NoFaults) == first
  {
    ClaimAllFromFree(t, session, now);
    ClaimAgainWhenTaken(t, ClaimAll(t, session, now, NoFaults).0, session, now, later);
  }

  lemma ClaimAgainWhenTaken(t: Table, u: Table, session: string, now: Timestamp, later: Timestamp)
    requires forall j :: 0 <= j < |t| ==> t[j].sessionId != Some(session)
    requires |u| == |t| && |FreeIndices(t)| == 4
    requires forall b :: 0 <= b < 4 && b < |FreeIndices(t)| ==>
               u[FreeIndices(t)[b]] == ClaimedSlot(t[FreeIndices(t)[b]].value, ClaimOrder[b], session, now)
    requires forall j :: 0 <= j < |t| && j !in FreeIndices(t)[..Min(4, |FreeIndices(t)|)] ==> u[j] == t[j]
    ensures var v := FreeValues(t);
            ClaimAll(u, session, later, NoFaults) == (u, Success(Ports(ValueAt(v, 0), ValueAt(v, 1), ValueAt(v, 2), ValueAt(v, 3))))
  {
    var v := FreeValues(t);
    var f := FreeIndices(t);
    NoFreeAfterTakingAll(t, u, session, now);
    LookupClaimedRow(t, u, session, now, 0);
    LookupClaimedRow(t, u, session, now, 1);
    LookupClaimedRow(t, u, session, now, 2);
    LookupClaimedRow(t, u, session, now, 3);
    assert ValueAt(v, 0) == Some(t[f[0]].value) && ValueAt(v, 1) == Some(t[f[1]].value);
    assert ValueAt(v, 2) == Some(t[f[2]].value) && ValueAt(v, 3) == Some(t[f[3]].value);
    ClaimAllExhausted(u, session, later);
  }

  /** `getFreePortsForSession` on a pool with no free row, without faults:
      nothing changes and each kind resolves to the session's existing
      row, or `undefined`. */
  lemma ClaimAllExhausted(t: Table, session: string, now: Timestamp)
    requires |FreeIndices(t)| == 0
    ensures ClaimAll(t, session, now, NoFaults)
            == (t, Success(Ports(Lookup(t, Audio, session), Lookup(t, AudioRtcp, session),
                                 Lookup(t, Video, session), Lookup(t, VideoRtcp, session))))
  {
    ClaimKindsExhausted(t, ClaimOrder, session, now, NoPorts);
    var p := ClaimAll(t, session, now, NoFaults).1.value;
    assert p.Get(Audio) == Lookup(t, Audio, session) && p.Get(AudioRtcp) == Lookup(t, AudioRtcp, session);
    assert p.Get(Video) == Lookup(t, Video, session) && p.Get(VideoRtcp) == Lookup(t, VideoRtcp, session);
  }



}
