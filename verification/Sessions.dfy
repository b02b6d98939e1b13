// The session table. Lookup compares parsed times, the sweep compares texts,
// and the question is when a caller can tell that a sweep has run.

module Sessions {
  import opened Wrappers
  import opened Text
  import opened Timestamps

  const DEFAULT_USER := "default"
  const DEFAULT_TTL := 7 * 24 * 60 * 60 * 1000000000   // seven days, in nanoseconds
  const ROLES: set<string> := {"viewer", "editor", "admin"}

  datatype Row = Row(userId: string, tokenHash: string, displayName: string, role: string,
                     createdAt: string, expiresAt: string)

  /** The table, keyed by session ID. */
  type Rows = map<string, Row>

  datatype Found = Nobody | Session(id: string, row: Row)

  /** Two rows never share a token hash: the column is unique. */
  ghost predicate UniqueHashes(rows: Rows) {
    forall i, j :: i in rows && j in rows && rows[i].tokenHash == rows[j].tokenHash ==> i == j
  }

  /** An expiry that cannot be read never expires. */
  predicate Expired(r: Row, now: Instant) {
    match Parse(r.expiresAt)
    case Some(expiry) => Before(expiry, now)
    case None => false
  }

  /** The answer to a token whose hash is h: its row, unless it has expired. */
  ghost predicate Answer(rows: Rows, h: string, now: Instant, f: Found) {
    match f
    case Session(id, r) => id in rows && rows[id] == r && r.tokenHash == h && !Expired(r, now)
    case Nobody => forall id :: id in rows && rows[id].tokenHash == h ==> Expired(rows[id], now)
  }

  function Without(rows: Rows, h: string): Rows { map id | id in rows && rows[id].tokenHash != h :: rows[id] }

  /** The sweep's SQL: rows whose expiry text is below the text of now are deleted. */
  predicate SweptAt(r: Row, now: Instant) { Less(r.expiresAt, Format(now)) }
  function Sweep(rows: Rows, now: Instant): Rows { map id | id in rows && !SweptAt(rows[id], now) :: rows[id] }

  /** Whether a sweep at `now` takes a session that expires at `e`: by time, except that within one second the order is
      turned round when one written fraction is the beginning of the other. */
  ghost predicate SweepTakes(e: Instant, now: Instant) {
    if SameSecond(e, now) && PrefixRelated(Fraction(e), Fraction(now)) then Earlier(now, e) else Earlier(e, now)
  }

  lemma SweepReads(r: Row, e: Instant, now: Instant)
    requires e.Valid() && now.Valid() && r.expiresAt == Format(e)
    ensures SweptAt(r, now) <==> SweepTakes(e, now)
  {
    TextOrder(e, now);
    BeforeIff(e, now);
    BeforeIff(now, e);
  }

  lemma ExpiredReads(r: Row, e: Instant, now: Instant)
    requires e.Valid() && r.expiresAt == Format(e)
    ensures Expired(r, now) <==> Earlier(e, now)
  {
    ParseInvertsFormat(e);
    BeforeIff(e, now);
  }

  datatype Created = Inserted(row: Row) | Conflict

  class SessionStore {
    const hash: string -> string
    const later: (Instant, int) -> Instant   // a time and a number of nanoseconds after it
    var rows: Rows

    constructor (hash: string -> string, later: (Instant, int) -> Instant)
      ensures rows == map[] && this.hash == hash && this.later == later
    {
      this.hash, this.later, rows := hash, later, map[];
    }

    /** `id` and `token` are freshly drawn. */
    method Create(id: string, token: string, userId: string, displayName: string, role: string, ttl: int, now: Instant)
      returns (r: Created)
      modifies this`rows
      ensures r.Conflict? <==> id in old(rows) || exists i :: i in old(rows) && old(rows)[i].tokenHash == hash(token)
      ensures rows == if r.Inserted? then old(rows)[id := r.row] else old(rows)
      ensures r.Inserted? ==>
                && r.row.tokenHash == hash(token) && r.row.displayName == displayName
                && r.row.createdAt == Format(now)
                && r.row.expiresAt == Format(later(now, if ttl > 0 then ttl else 604800 * 1000000000))
                && r.row.userId != "" && (userId != "" ==> r.row.userId == userId)
                && (userId == "" ==> r.row.userId == "default")
                && r.row.role == if role == "viewer" || role == "editor" then role else "admin"
      ensures UniqueHashes(old(rows)) ==> UniqueHashes(rows)
    {
      var lifetime := ttl;
      if lifetime <= 0 {
        lifetime := DEFAULT_TTL;
      }
      var row := Row(if userId == "" then DEFAULT_USER else userId, hash(token), displayName,
                     if role in ROLES then role else "admin", Format(now), Format(later(now, lifetime)));
      if id in rows || exists i :: i in rows && rows[i].tokenHash == row.tokenHash {
        return Conflict;
      }
      rows := rows[id := row];
      return Inserted(row);
    }

    /** `readable`: the database answers the query. */
    method Lookup(token: string, now: Instant, readable: bool) returns (r: Result<Found, string>)
      ensures token == "" ==> r == Ok(Nobody)
      ensures r.Err? <==> token != "" && !readable
      ensures token != "" && readable && UniqueHashes(rows) ==> Answer(rows, hash(token), now, r.value)
      ensures r.Ok? && r.value.Session? ==>
                && r.value.id in rows && rows[r.value.id] == r.value.row && r.value.row.tokenHash == hash(token)
                && forall e: Instant :: e.Valid() && r.value.row.expiresAt == Format(e) ==> !Earlier(e, now)
      ensures r == Ok(Nobody) && token != "" && UniqueHashes(rows) ==>
                forall id :: id in rows && rows[id].tokenHash == hash(token) ==>
                  && Parse(rows[id].expiresAt).Some?
                  && forall e: Instant :: e.Valid() && rows[id].expiresAt == Format(e) ==> Earlier(e, now)
    {
      if token == "" {
        return Ok(Nobody);
      }
      if !readable {
        return Err("lookup session");
      }
      var h := hash(token);
      forall id, e: Instant | id in rows && e.Valid() && rows[id].expiresAt == Format(e)
        ensures Expired(rows[id], now) <==> Earlier(e, now)
      {
        ExpiredReads(rows[id], e, now);
      }
      if id :| id in rows && rows[id].tokenHash == h {
        if Expired(rows[id], now) {
          return Ok(Nobody);
        }
        return Ok(Session(id, rows[id]));
      }
      return Ok(Nobody);
    }

    method Delete(id: string)
      modifies this`rows
      ensures rows == old(rows) - {id}
      ensures UniqueHashes(old(rows)) ==> UniqueHashes(rows)
    {
      rows := rows - {id};
    }

    method DeleteByToken(token: string)
      modifies this`rows
      ensures rows == if token == "" then old(rows) else Without(old(rows), hash(token))
      ensures forall id :: id in rows <==> id in old(rows) && (token == "" || old(rows)[id].tokenHash != hash(token))
      ensures forall id :: id in rows ==> rows[id] == old(rows)[id]
      ensures UniqueHashes(old(rows)) ==> UniqueHashes(rows)
    {
      if token == "" {
        return;
      }
      rows := Without(rows, hash(token));
    }

    method GCExpired(now: Instant) returns (removed: nat)
      modifies this`rows
      ensures rows == Sweep(old(rows), now)
      ensures UniqueHashes(old(rows)) ==> UniqueHashes(rows)
      ensures removed == |old(rows)| - |rows|
      ensures forall id :: id in rows ==> id in old(rows) && rows[id] == old(rows)[id]
      ensures now.Valid() ==>
                forall id, e: Instant :: id in old(rows) && e.Valid() && old(rows)[id].expiresAt == Format(e) ==>
                  (id in rows <==> !SweepTakes(e, now))
    {
      var kept := Sweep(rows, now);
      SweepShrinks(rows, now);
      removed := |rows| - |kept|;
      forall id, e: Instant | id in rows && e.Valid() && rows[id].expiresAt == Format(e) && now.Valid()
        ensures SweptAt(rows[id], now) <==> SweepTakes(e, now)
      {
        SweepReads(rows[id], e, now);
      }
      rows := kept;
    }
  }

  lemma SweepShrinks(rows: Rows, now: Instant)
    ensures |Sweep(rows, now)| <= |rows|
  {
    var kept, gone := Sweep(rows, now).Keys, rows.Keys - Sweep(rows, now).Keys;
    assert rows.Keys == kept + gone;
    assert |rows.Keys| == |kept| + |gone|;
  }

  // --- one sweep ---

  /** A sweep deletes a session that has not expired, or keeps one that has, exactly when the sweep falls in the second
      of the expiry and one of the two written fractions is a proper beginning of the other. */
  lemma SweepErrsIff(r: Row, expiry: Instant, now: Instant)
    requires r.expiresAt == Format(expiry) && expiry.Valid() && now.Valid()
    ensures SweptAt(r, now) != Expired(r, now) <==>
              expiry.Whole() == now.Whole() && PrefixRelated(Fraction(expiry), Fraction(now))
  {
    ParseInvertsFormat(expiry);
    TextOrderIsWrongIff(expiry, now);
  }

  /** For example a session expiring half a second into a second is swept at the start of that second. */
  lemma SweptHalfASecondEarly()
    ensures
      var expiry, now := Instant(2026, 1, 2, 3, 4, 5, 500000000), Instant(2026, 1, 2, 3, 4, 5, 0);
      && Before(now, expiry)
      && forall r: Row :: r.expiresAt == Format(expiry) ==> SweptAt(r, now) && !Expired(r, now)
  {
    var expiry, now := Instant(2026, 1, 2, 3, 4, 5, 500000000), Instant(2026, 1, 2, 3, 4, 5, 0);
    ZeroFraction();
    FractionOrder(expiry, now);
    assert Fraction(now) == "" && Fraction(now) <= Fraction(expiry);
    TextOrder(expiry, now);
    ParseInvertsFormat(expiry);
    forall r: Row | r.expiresAt == Format(expiry) ensures SweptAt(r, now) && !Expired(r, now) {}
  }

  lemma ZeroFraction()
    ensures Trim(Pad(0, 9)) == ""
  {
    AllZeros(9);
  }

  lemma {:induction false} AllZeros(w: nat)
    ensures Trim(Pad(0, w)) == "" && forall i :: 0 <= i < w ==> Pad(0, w)[i] == '0'
  {
    if w > 0 {
      AllZeros(w - 1);
      assert Pad(0, w) == Pad(0, w - 1) + "0";
      TrimOfZeros(Pad(0, w));
    }
  }

  lemma {:induction false} TrimOfZeros(s: string)
    requires forall i :: 0 <= i < |s| ==> s[i] == '0'
    ensures Trim(s) == ""
  {
    if s != "" { TrimOfZeros(s[1..]); }
  }

  // --- runs: a swept store beside one that is never swept ---

  datatype Event =
    | Add(id: string, row: Row)
    | Drop(id: string)
    | DropToken(h: string)
    | SweepNow

  datatype Timed = Timed(e: Event, at: Instant)

  function StepPlain(rows: Rows, e: Event): Rows {
    match e
    case Add(id, row) => rows[id := row]
    case Drop(id) => rows - {id}
    case DropToken(h) => Without(rows, h)
    case SweepNow => rows
  }

  function StepSwept(rows: Rows, t: Timed): Rows {
    if t.e.SweepNow? then Sweep(rows, t.at) else StepPlain(rows, t.e)
  }

  function Plain(ts: seq<Timed>): Rows {
    if ts == [] then map[] else StepPlain(Plain(ts[..|ts| - 1]), ts[|ts| - 1].e)
  }

  function Swept(ts: seq<Timed>): Rows {
    if ts == [] then map[] else StepSwept(Swept(ts[..|ts| - 1]), ts[|ts| - 1])
  }

  /** Every added row carries a formatted expiry; IDs and tokens are never drawn twice; the clock does not go back. */
  ghost predicate Ordinary(ts: seq<Timed>) {
    && (forall i :: 0 <= i < |ts| ==> ts[i].at.Valid())
    && (forall i, j :: 0 <= i < j < |ts| ==> !Before(ts[j].at, ts[i].at))
    && (forall i :: 0 <= i < |ts| && ts[i].e.Add? ==>
          exists expiry: Instant :: expiry.Valid() && ts[i].e.row.expiresAt == Format(expiry))
    && (forall i, j :: 0 <= i < j < |ts| && ts[i].e.Add? && ts[j].e.Add? ==>
          ts[i].e.id != ts[j].e.id && ts[i].e.row.tokenHash != ts[j].e.row.tokenHash)
  }

  /** Some sweep of the run met the row and deleted it. */
  ghost predicate SweptBy(ts: seq<Timed>, id: string, row: Row, i: nat) {
    i < |ts| && ts[i].e.SweepNow? && id in Plain(ts[..i]) && Plain(ts[..i])[id] == row && SweptAt(row, ts[i].at)
  }

  lemma OrdinaryPrefix(ts: seq<Timed>)
    requires Ordinary(ts) && ts != []
    ensures Ordinary(ts[..|ts| - 1])
  {
  }

  /** A row of the unswept store was put there by one Add. */
  lemma {:induction false} PlainRowsWereAdded(ts: seq<Timed>, id: string)
    requires id in Plain(ts)
    ensures exists i :: 0 <= i < |ts| && ts[i].e == Add(id, Plain(ts)[id])
  {
    var init, last := ts[..|ts| - 1], ts[|ts| - 1];
    if last.e != Add(id, Plain(ts)[id]) {
      PlainRowsWereAdded(init, id);
      var i :| 0 <= i < |init| && init[i].e == Add(id, Plain(ts)[id]);
      assert ts[i] == init[i];
    }
  }

  ghost predicate EverSwept(ts: seq<Timed>, id: string, row: Row) { exists i :: SweptBy(ts, id, row, i) }

  lemma SweptByEarlier(ts: seq<Timed>, id: string, row: Row, i: nat)
    requires i + 1 < |ts|
    ensures SweptBy(ts, id, row, i) <==> SweptBy(ts[..|ts| - 1], id, row, i)
  {
    assert ts[..|ts| - 1][..i] == ts[..i];
  }

  lemma SweptByPrefix(ts: seq<Timed>, id: string, row: Row)
    requires ts != []
    ensures EverSwept(ts, id, row) <==> EverSwept(ts[..|ts| - 1], id, row) || SweptBy(ts, id, row, |ts| - 1)
  {
    var init := ts[..|ts| - 1];
    if i: nat :| SweptBy(init, id, row, i) {
      SweptByEarlier(ts, id, row, i);
    }
    if i: nat :| SweptBy(ts, id, row, i) {
      if i + 1 < |ts| { SweptByEarlier(ts, id, row, i); }
    }
  }

  lemma {:induction false} NeverAdded(ts: seq<Timed>, id: string)
    requires forall i :: 0 <= i < |ts| ==> !(ts[i].e.Add? && ts[i].e.id == id)
    ensures id !in Plain(ts)
  {
    if ts != [] {
      NeverAdded(ts[..|ts| - 1], id);
    }
  }

  lemma NewRowIsUnswept(ts: seq<Timed>, id: string, row: Row)
    requires Ordinary(ts) && ts != [] && ts[|ts| - 1].e == Add(id, row)
    ensures id !in Plain(ts[..|ts| - 1]) && !EverSwept(ts, id, row)
  {
    var init := ts[..|ts| - 1];
    assert forall j :: 0 <= j < |init| ==> init[j] == ts[j];
    forall i | 0 <= i <= |init| ensures id !in Plain(ts[..i]) {
      assert forall j :: 0 <= j < i ==> ts[..i][j] == ts[j];
      NeverAdded(ts[..i], id);
    }
    assert ts[..|init|] == init;
  }

  ghost predicate DifferBySweeps(ts: seq<Timed>, id: string) {
    && (id in Swept(ts) ==> id in Plain(ts) && Swept(ts)[id] == Plain(ts)[id])
    && (id in Plain(ts) ==> (id !in Swept(ts) <==> EverSwept(ts, id, Plain(ts)[id])))
  }

  lemma NextEventDiffersBySweeps(ts: seq<Timed>, id: string)
    requires Ordinary(ts) && ts != [] && DifferBySweeps(ts[..|ts| - 1], id)
    ensures DifferBySweeps(ts, id)
  {
    if id in Plain(ts) {
      SweptByPrefix(ts, id, Plain(ts)[id]);
      if ts[|ts| - 1].e == Add(id, Plain(ts)[id]) {
        NewRowIsUnswept(ts, id, Plain(ts)[id]);
      }
    }
  }

  /** The two stores differ exactly by the rows some sweep has deleted. */
  lemma {:induction false} StoresDifferBySweeps(ts: seq<Timed>, id: string)
    requires Ordinary(ts)
    ensures id in Swept(ts) ==> id in Plain(ts) && Swept(ts)[id] == Plain(ts)[id]
    ensures id in Plain(ts) ==> (id !in Swept(ts) <==> EverSwept(ts, id, Plain(ts)[id]))
  {
    if ts != [] {
      OrdinaryPrefix(ts);
      StoresDifferBySweeps(ts[..|ts| - 1], id);
      NextEventDiffersBySweeps(ts, id);
    }
  }

  // --- when a caller can tell ---

  lemma {:induction false} PlainHashesUnique(ts: seq<Timed>)
    requires Ordinary(ts)
    ensures UniqueHashes(Plain(ts))
  {
    var rows := Plain(ts);
    forall i, j | i in rows && j in rows && rows[i].tokenHash == rows[j].tokenHash ensures i == j {
      PlainRowsWereAdded(ts, i);
      PlainRowsWereAdded(ts, j);
      var m :| 0 <= m < |ts| && ts[m].e == Add(i, rows[i]);
      var n :| 0 <= n < |ts| && ts[n].e == Add(j, rows[j]);
      assert m == n;
    }
  }

  lemma RowExpiry(ts: seq<Timed>, id: string) returns (expiry: Instant)
    requires Ordinary(ts) && id in Plain(ts)
    ensures expiry.Valid() && Plain(ts)[id].expiresAt == Format(expiry)
    ensures forall now :: Expired(Plain(ts)[id], now) <==> Before(expiry, now)
  {
    PlainRowsWereAdded(ts, id);
    var i :| 0 <= i < |ts| && ts[i].e == Add(id, Plain(ts)[id]);
    expiry :| expiry.Valid() && ts[i].e.row.expiresAt == Format(expiry);
    ParseInvertsFormat(expiry);
  }

  /** The sweep at `at` and a lookup at `now` fall in the second the session expires in, in this order, with the sweep's
      written fraction and the expiry's prefix-related. */
  ghost predicate SameSecondRace(expiry: Instant, at: Instant, now: Instant) {
    && expiry.Whole() == at.Whole() == now.Whole()
    && at.nanos < expiry.nanos && at.nanos <= now.nanos <= expiry.nanos
    && PrefixRelated(Fraction(expiry), Fraction(at))
  }

  lemma SweptButLiveIff(expiry: Instant, at: Instant, now: Instant)
    requires expiry.Valid() && at.Valid() && now.Valid() && !Before(now, at)
    ensures Less(Format(expiry), Format(at)) && !Before(expiry, now) <==> SameSecondRace(expiry, at, now)
  {
    TextOrder(expiry, at);
    FractionOrder(expiry, at);
    BeforeIsStrict(expiry.Whole(), at.Whole());
    BeforeIsStrict(expiry.Whole(), now.Whole());
    BeforeIsStrict(now.Whole(), at.Whole());
    if FieldsBefore(expiry.Whole(), at.Whole()) && FieldsBefore(at.Whole(), now.Whole()) {
      BeforeTransitive(expiry.Whole(), at.Whole(), now.Whole());
    }
  }

  lemma {:induction false} BeforeTransitive(a: seq<nat>, b: seq<nat>, c: seq<nat>)
    requires |a| == |b| == |c| && FieldsBefore(a, b) && FieldsBefore(b, c)
    ensures FieldsBefore(a, c)
  {
    if a[0] == b[0] && b[0] == c[0] {
      BeforeTransitive(a[1..], b[1..], c[1..]);
    }
  }

  /** Sweep i of the run deleted the row in the second of its expiry, and that is the second of the lookup. */
  ghost predicate Raced(ts: seq<Timed>, id: string, row: Row, now: Instant, i: nat, expiry: Instant) {
    && SweptBy(ts, id, row, i) && expiry.Valid() && row.expiresAt == Format(expiry)
    && SameSecondRace(expiry, ts[i].at, now)
  }

  lemma LiveButSweptIff(ts: seq<Timed>, id: string, now: Instant)
    requires Ordinary(ts) && now.Valid() && forall i :: 0 <= i < |ts| ==> !Before(now, ts[i].at)
    requires id in Plain(ts) && !Expired(Plain(ts)[id], now)
    ensures id !in Swept(ts) <==> exists i, expiry :: Raced(ts, id, Plain(ts)[id], now, i, expiry)
  {
    StoresDifferBySweeps(ts, id);
    var row := Plain(ts)[id];
    var expiry := RowExpiry(ts, id);
    if id !in Swept(ts) {
      var i: nat :| SweptBy(ts, id, row, i);
      SweptButLiveIff(expiry, ts[i].at, now);
      assert Raced(ts, id, row, now, i, expiry);
    }
    if i, e :| Raced(ts, id, row, now, i, e) {
      assert SweptBy(ts, id, row, i);
      assert EverSwept(ts, id, row);
    }
  }

  /** When the unswept answer is still in the swept table, or there is none, the answers are the same. */
  lemma AnswersAgree(plainRows: Rows, sweptRows: Rows, h: string, now: Instant, plain: Found, swept: Found)
    requires UniqueHashes(plainRows)
      && forall id :: id in sweptRows ==> id in plainRows && sweptRows[id] == plainRows[id]
    requires Answer(plainRows, h, now, plain) && Answer(sweptRows, h, now, swept)
    ensures plain == swept <==> plain.Nobody? || plain.id in sweptRows
  {
  }

  /** A swept store and an unswept one answer a lookup differently exactly when the unswept one finds the session and
      some earlier sweep ran in the very second of its expiry, under the condition above. */
  lemma LookupsDifferIff(ts: seq<Timed>, h: string, now: Instant, plain: Found, swept: Found)
    requires Ordinary(ts) && now.Valid() && forall i :: 0 <= i < |ts| ==> !Before(now, ts[i].at)
    requires Answer(Plain(ts), h, now, plain) && Answer(Swept(ts), h, now, swept)
    ensures plain != swept <==>
              plain.Session? && exists i, expiry :: Raced(ts, plain.id, plain.row, now, i, expiry)
  {
    PlainHashesUnique(ts);
    forall id | id in Swept(ts) ensures id in Plain(ts) && Swept(ts)[id] == Plain(ts)[id] {
      StoresDifferBySweeps(ts, id);
    }
    AnswersAgree(Plain(ts), Swept(ts), h, now, plain, swept);
    if plain.Session? { LiveButSweptIff(ts, plain.id, now); }
  }

  /** So a lookup outside the second of the session's expiry cannot tell whether the store was ever swept. */
  lemma SweepsAreInvisibleOutsideTheSecond(ts: seq<Timed>, h: string, now: Instant, plain: Found, swept: Found)
    requires Ordinary(ts) && now.Valid() && forall i :: 0 <= i < |ts| ==> !Before(now, ts[i].at)
    requires Answer(Plain(ts), h, now, plain) && Answer(Swept(ts), h, now, swept)
    requires plain.Session? ==> forall e: Instant :: plain.row.expiresAt == Format(e) ==> e.Whole() != now.Whole()
    ensures plain == swept
  {
    LookupsDifferIff(ts, h, now, plain, swept);
  }
}
